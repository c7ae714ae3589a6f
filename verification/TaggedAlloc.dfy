/** 참고(98).c: the segregated allocator whose blocks can be reserved for reallocation. */
module TaggedAlloc {
  import opened Memory
  import opened Tiling
  import opened Tags
  import opened Links
  import opened SizeClasses
  import opened SegLists
  import opened SegHeap
  import opened SegSpec
  import opened SegPlace
  import opened Seg98Spec
  import opened TaggedSpec
  import TaggedLaw
  import opened TagBits
  import opened Requests
  import opened Contents
  import opened AbstractHeap
  import Seg98

  class Allocator {
    const mem: MemLib
    const index: SegregatedLists
    ghost var t: Tiles
    ghost var tags: set<nat>

    /** A list runs along SUCC, the word at bp; PRED, the word at bp + WSIZE, runs back. */
    constructor (mem: MemLib)
      ensures this.mem == mem && index.mem == mem && index.Shaped() && fresh(index) && fresh(index.roots)
    {
      this.mem := mem;
      index := new SegregatedLists(mem, 0, 4);
      t, tags := map[], {};
    }

    ghost function St(): Tagging
      reads this, mem, index
    {
      Tagging(State(t, index.lists, mem.brk), tags)
    }

    /** The blocks carry the tags of t and the bits of tags; all free blocks outside ex are
        on their lists. */
    ghost predicate Consistent(ex: set<nat>)
      reads this, mem, mem.data, index, index.roots
    {
      && index.mem == mem
      && index.Valid(t, LO, FLOOR, mem.brk, ex)
      && Holds(mem.data[..], t, tags, mem.brk)
    }

    ghost predicate Valid()
      reads this, mem, mem.data, index, index.roots
    {
      Consistent({}) && Ok(St())
    }

    /** The bytes behind each live pointer. */
    ghost function Heap(): AbstractHeap.Heap
      reads this, mem.data
    {
      ContentsOf(mem.data[..], t, FLOOR)
    }

    lemma Basics(ex: set<nat>)
      requires Consistent(ex)
      ensures mem.Valid() && Tiled(t, LO, FLOOR, mem.brk) && mem.brk <= MAX_HEAP && Sorted(t, index.lists, ex)
      ensures |index.lists| == LISTLIMIT
    {
      hide Tiled;
    }

    /** put_free */
    method PutFree(bp: nat, size: nat, ghost ex: set<nat>)
      requires Consistent(ex) && FreeAt(t, bp) && bp in ex && size == t[bp].size
      modifies index, index.roots, mem.data
      ensures Consistent(ex - {bp})
      ensures |old(index.lists)| == LISTLIMIT && index.lists == Put(old(index.lists), bp, size)
      ensures KeepsLive(old(mem.data[..]), mem.data[..], t, FLOOR)
    {
      hide GetWord, Tiled, Sorted, Threaded, KeepsLive, BitsBut;
      ghost var m := mem.data[..];
      Basics(ex);
      HoldsReadable(m, t, tags, LO, FLOOR, mem.brk);
      index.InsertBlock(bp, size, t, LO, FLOOR, mem.brk, ex);
      StillHolds(m, mem.data[..], t, tags, mem.brk);
    }

    /** remove_free */
    method RemoveFree(bp: nat, ghost ex: set<nat>)
      requires Consistent(ex) && FreeAt(t, bp) && bp !in ex
      modifies index, index.roots, mem.data
      ensures Consistent(ex + {bp})
      ensures |old(index.lists)| == LISTLIMIT && index.lists == Take(old(index.lists), bp, t[bp].size)
      ensures KeepsLive(old(mem.data[..]), mem.data[..], t, FLOOR)
    {
      hide GetWord, Tiled, Sorted, Threaded, KeepsLive, BitsBut;
      ghost var m := mem.data[..];
      Basics(ex);
      HoldsReadable(m, t, tags, LO, FLOOR, mem.brk);
      index.RemoveBlock(bp, t, LO, FLOOR, mem.brk, ex);
      StillHolds(m, mem.data[..], t, tags, mem.brk);
    }

    /** GET_SIZE(HDRP(bp)) */
    method SizeAt(bp: nat) returns (size: nat)
      requires Consistent({}) && (bp in t || bp == mem.brk)
      ensures size == if bp in t then t[bp].size else 0
    {
      hide GetWord, Sorted, Threaded, BitsBut;
      ReadHead(mem.data[..], t, tags, LO, FLOOR, mem.brk, bp);
      size := GetSize(mem, bp - 4);
    }

    /** NEXT_BLKP(bp) */
    method NextOf(bp: nat, ghost ex: set<nat>) returns (next: nat)
      requires Consistent(ex) && bp in t
      ensures next == Next(t, bp) && (next in t || next == mem.brk)
    {
      hide GetWord, Sorted, Threaded, BitsBut;
      ReadHead(mem.data[..], t, tags, LO, FLOOR, mem.brk, bp);
      assert Next(t, bp) in t || Next(t, bp) == mem.brk;
      next := NextBlkp(mem, bp);
    }

    /** As Consistent, but the blocks of un do not carry their tags yet. */
    ghost predicate Loose(un: set<nat>, ex: set<nat>)
      reads this, mem, mem.data, index, index.roots
    {
      && index.mem == mem
      && index.Valid(t, LO, FLOOR, mem.brk, ex)
      && BitsBut(mem.data[..], t, tags, un) && EndAt(mem.data[..], mem.brk, tags)
    }

    /** Header and footer of bp, by PUT or by PUT_NOTAG */
    method WritePair(bp: nat, size: nat, alloc: bool, keep: bool, ghost un: set<nat>, ghost ex: set<nat>)
      requires Loose(un, ex) && bp in t && t[bp] == Block(size, alloc) && InMem(mem.data[..], bp - 4)
      requires if keep then TagOf(GetWord(mem.data[..], bp - 4)) == (bp in tags) else bp !in tags
      modifies mem.data
      ensures Loose(un - {bp}, ex)
      ensures KeepsLive(old(mem.data[..]), mem.data[..], t, FLOOR)
    {
      hide GetWord, Sorted, Threaded, KeepsLive, Tiled, BitsBut, TagOf;
      ghost var m, roots := mem.data[..], index.roots[..];
      ghost var m1 := PutPair(mem, bp, size, alloc, keep, t, tags, LO, FLOOR, mem.brk, un);
      PairKeepsThreaded(m, m1, mem.data[..], t, LO, FLOOR, mem.brk, bp, index.lists, roots, index.Sh(), ex);
      EndKept(m, mem.data[..], mem.brk, tags);
    }

    /** The blocks from r on, size bytes in all, become one block with fresh tags. */
    method Retile(r: nat, size: nat, alloc: bool, keep: bool, ghost tags': set<nat>, ghost ex: set<nat>)
      requires Consistent(ex)
      requires r in t && FLOOR <= r && 0 < size && (r + size in t || r + size == mem.brk)
      requires forall x: nat :: FreeAt(t, x) && r <= x < r + size ==> x in ex
      requires forall x: nat :: x < r || r + size <= x ==> (x in tags' <==> x in tags)
      requires if keep then r in tags' <==> r in tags else r !in tags'
      modifies `t, `tags, mem.data
      ensures Consistent(ex + {r}) && t == Fuse(old(t), r, r + size, alloc) && tags == tags'
      ensures r in t && t[r] == Block(size, alloc)
      ensures KeepsLive(old(mem.data[..]), mem.data[..], t, FLOOR)
    {
      hide GetWord, Sorted, Threaded, KeepsLive, Tiled, TagOf;
      ghost var m, t0 := mem.data[..], t;
      ReadHead(m, t, tags, LO, FLOOR, mem.brk, r);
      assert keep ==> TagOf(GetWord(m, r - 4)) == (r in tags');
      FuseBits(t0, mem.brk, r, r + size, alloc, m, tags, tags');
      FuseSorted(t0, LO, FLOOR, mem.brk, r, r + size, alloc, index.lists, ex);
      HeadKept(m, tags, tags', r, r + size, mem.brk);
      hide BitsBut, Fuse, EndAt;
      t, tags := Fuse(t, r, r + size, alloc), tags';
      WritePair(r, size, alloc, keep, {r}, ex + {r});
      assert {r} - {r} == {};
    }

    lemma Settled(ex: set<nat>)
      requires Consistent(ex) && Ok(St())
      ensures Valid()
    {
      hide Tiled, Sorted, Holds, Reserved;
    }

    // ----- merging -----

    /** What coalesce reads around bp; a tagged predecessor counts as allocated. */
    method Around(bp: nat) returns (prev: nat, next: nat, prevAlloc: bool, nextAlloc: bool, size: nat)
      requires Consistent({}) && FreeAt(t, bp) && FLOOR <= bp
      ensures prev == Prev(t, LO, FLOOR, mem.brk, bp) && next == Next(t, bp)
      ensures prevAlloc == (t[prev].alloc || prev in tags) && nextAlloc == !FreeAt(t, next) && size == t[bp].size
      ensures next in t || next == mem.brk
    {
      hide GetWord, Sorted, Threaded, TagOf, BitsBut;
      ghost var m := mem.data[..];
      ghost var q := Prev(t, LO, FLOOR, mem.brk, bp);
      ReadHead(m, t, tags, LO, FLOOR, mem.brk, bp);
      ReadPrev(m, t, tags, LO, FLOOR, mem.brk, bp);
      ReadHead(m, t, tags, LO, FLOOR, mem.brk, q);
      assert Next(t, bp) in t || Next(t, bp) == mem.brk;
      ReadHead(m, t, tags, LO, FLOOR, mem.brk, Next(t, bp));
      hide Tiled;
      prev, next := PrevBlkp(mem, bp), NextBlkp(mem, bp);
      prevAlloc := GetAlloc(mem, prev - 4);
      nextAlloc := GetAlloc(mem, next - 4);
      size := GetSize(mem, bp - 4);
      if TagOf(mem.Get(prev - 4)) {
        prevAlloc := true;
      }
    }

    /** coalesce: bp is free and already on its list; s is the state without it there. */
    method Coalesce(bp: nat, ghost s: Tagging) returns (r: nat)
      requires Pending(s, {bp}) && FreeAt(s.g.t, bp) && |s.g.lists| == LISTLIMIT
      requires Consistent({}) && St() == s.(g := s.g.(lists := Put(s.g.lists, bp, s.g.t[bp].size)))
      modifies `t, `tags, index, index.roots, mem.data
      ensures FLOOR <= bp && 0 < s.g.t[bp].size
      ensures Valid() && St() == Join(s, bp) && r == JoinLow(s, bp)
      ensures KeepsLive(old(mem.data[..]), mem.data[..], s.g.t, FLOOR)
    {
      hide GetWord, Holds, Tiled, Sorted, Threaded, Ok, Fuse, Take, Put, KeepsLive, Reserved, LiveWithin, KeepsReserved;
      ghost var m := mem.data[..];
      JoinOk(s, bp);
      JoinTiling(s, bp);
      TakeBack(s.g, bp);
      var prev, next, prevAlloc, nextAlloc, size := Around(bp);
      if prevAlloc && nextAlloc {
        KeepsLiveRefl(m, s.g.t, FLOOR);
        NothingToJoin(s, bp);
        Settled({});
        return bp;
      }
      RemoveFree(bp, {});
      assert {} + {bp} == {bp};
      r := Swallow(bp, prev, next, prevAlloc, nextAlloc, size, s, m);
    }

    /** The merging cases of coalesce */
    method Swallow(bp: nat, prev: nat, next: nat, prevAlloc: bool, nextAlloc: bool, size: nat, ghost s: Tagging, ghost m: Mem)
      returns (r: nat)
      requires Pending(s, {bp}) && FreeAt(s.g.t, bp) && |s.g.lists| == LISTLIMIT && FLOOR <= bp
      requires Consistent({bp}) && St() == s && KeepsLive(m, mem.data[..], t, FLOOR)
      requires prev == Prev(t, LO, FLOOR, mem.brk, bp) && next == Next(t, bp)
      requires prevAlloc == (t[prev].alloc || prev in tags) && nextAlloc == !FreeAt(t, next) && size == t[bp].size
      requires !(prevAlloc && nextAlloc)
      modifies `t, `tags, index, index.roots, mem.data
      ensures 0 < s.g.t[bp].size
      ensures Valid() && St() == Join(s, bp) && r == JoinLow(s, bp)
      ensures KeepsLive(m, mem.data[..], s.g.t, FLOOR)
    {
      hide GetWord, Holds, Tiled, Sorted, Threaded, Ok, Fuse, Take, Put, KeepsLive, Reserved, LiveWithin, KeepsReserved;
      ghost var m0 := mem.data[..];
      ghost var m1, m2, ex := m0, m0, {bp};
      JoinOk(s, bp);
      JoinTiling(s, bp);
      r := bp;
      var merged := size;
      if prevAlloc {
        var nextSize := SizeOfPending(next, {bp});
        RemoveFree(next, {bp});
        m1 := mem.data[..];
        merged := merged + nextSize;
        ex := {bp} + {next};
      } else if nextAlloc {
        var prevSize := SizeOfPending(prev, {bp});
        RemoveFree(prev, {bp});
        m1 := mem.data[..];
        merged := merged + prevSize;
        r := prev;
        ex := {bp} + {prev};
      } else {
        var prevSize := SizeOfPending(prev, {bp});
        var nextSize := SizeOfPending(next, {bp});
        RemoveFree(prev, {bp});
        m2 := mem.data[..];
        RemoveFree(next, {bp} + {prev});
        m1 := mem.data[..];
        KeepsLiveTrans(m0, m2, m1, s.g.t, s.g.t, FLOOR) by {
          LiveRefl(s.g.t, FLOOR);
        }
        merged := merged + prevSize + nextSize;
        r := prev;
        ex := {bp} + {prev} + {next};
      }
      Retile(r, merged, false, true, tags, ex);
      m2 := mem.data[..];
      PutFree(r, merged, ex + {r});
      AllKept(m, m0, m1, m2, mem.data[..], s.g.t, t);
      Settled(ex + {r} - {r});
    }

    method SizeOfPending(bp: nat, ghost ex: set<nat>) returns (size: nat)
      requires Consistent(ex) && bp in t
      ensures size == t[bp].size
    {
      hide GetWord, Sorted, Threaded, BitsBut;
      ReadHead(mem.data[..], t, tags, LO, FLOOR, mem.brk, bp);
      size := GetSize(mem, bp - 4);
    }

    // ----- the reallocation bit -----

    /** SET_RATAG(HDRP(x)) for a block or the epilogue */
    method SetTag(x: nat)
      requires Consistent({}) && (x in t || x == mem.brk)
      modifies `tags, mem.data
      ensures Consistent({}) && tags == old(tags) + {x}
      ensures KeepsLive(old(mem.data[..]), mem.data[..], t, FLOOR)
    {
      hide GetWord, Sorted, Threaded, KeepsLive, BitsBut, EndAt, Tiled, TagOf;
      ghost var m := mem.data[..];
      ReadHead(m, t, tags, LO, FLOOR, mem.brk, x);
      SetWord(m, t, tags, mem.brk, x);
      var w := mem.Get(x - 4);
      mem.Put(x - 4, if TagOf(w) then w else w + 2);
      tags := tags + {x};
      HeaderRewritten(m, mem.data[..], t, old(tags), tags, mem.brk, x, index.lists, index.roots[..], index.Sh());
    }

    /** REMOVE_RATAG(HDRP(x)) for a block or the epilogue */
    method RemoveTag(x: nat)
      requires Consistent({}) && (x in t || x == mem.brk)
      modifies `tags, mem.data
      ensures Consistent({}) && tags == old(tags) - {x}
      ensures KeepsLive(old(mem.data[..]), mem.data[..], t, FLOOR)
    {
      hide GetWord, Sorted, Threaded, KeepsLive, BitsBut, EndAt, Tiled, TagOf;
      ghost var m := mem.data[..];
      ReadHead(m, t, tags, LO, FLOOR, mem.brk, x);
      SetWord(m, t, tags, mem.brk, x);
      var w := mem.Get(x - 4);
      mem.Put(x - 4, if TagOf(w) then w - 2 else w);
      tags := tags - {x};
      HeaderRewritten(m, mem.data[..], t, old(tags), tags, mem.brk, x, index.lists, index.roots[..], index.Sh());
    }

    // ----- growing -----

    /** mem_sbrk and the PUT_NOTAGs of extend_heap; the new block is on no list yet. */
    method Grow(size: Word) returns (bp: int)
      requires Valid() && size % 8 == 0 && 16 <= size
      modifies `t, `tags, mem, mem.data
      ensures mem.outOfMemory == (old(mem.outOfMemory) || bp == -1)
      ensures if bp == -1
              then old(mem.brk) + size > MAX_HEAP && Valid() && St() == old(St()) && mem.data[..] == old(mem.data[..])
              else old(mem.brk) + size <= MAX_HEAP && bp == old(mem.brk) && Consistent({old(mem.brk)})
                   && St() == TagGrown(old(St()), size)
      ensures KeepsLive(old(mem.data[..]), mem.data[..], old(t), FLOOR)
    {
      hide GetWord, BitsBut, EndAt, Threaded, Tiled, Ok, Sorted, KeepsLive, LiveWithin;
      ghost var m, s := mem.data[..], St();
      Basics({});
      bp := mem.Sbrk(ToInt(size));
      if bp == -1 {
        KeepsLiveRefl(m, t, FLOOR);
        return;
      }
      TagGrownPending(s, size);
      GrownBits(s, size, m);
      t, tags := t[bp := Block(size, false)], tags - {bp};
      TagNewBlock(bp, size);
      KeepsLiveSub(m, mem.data[..], s.g.t, t, FLOOR);
    }

    method TagNewBlock(bp: nat, size: nat)
      requires mem.Valid() && index.mem == mem && index.Shaped() && mem.brk <= MAX_HEAP && FLOOR <= bp
      requires Tiled(t, LO, FLOOR, mem.brk) && Sorted(t, index.lists, {bp})
      requires Threaded(mem.data[..], index.lists, index.roots[..], index.Sh())
      requires bp in t && t[bp] == Block(size, false) && size % 8 == 0 && bp + size == mem.brk && bp !in tags && mem.brk !in tags
      requires BitsBut(mem.data[..], t, tags, {bp})
      modifies mem.data
      ensures Consistent({bp})
      ensures KeepsLive(old(mem.data[..]), mem.data[..], t, FLOOR)
    {
      hide GetWord, Threaded, Tiled, Sorted, KeepsLive, BitsBut;
      ghost var m, roots := mem.data[..], index.roots[..];
      PairBounds(t, LO, FLOOR, mem.brk, bp);
      ghost var m1 := PutPair(mem, bp, size, false, false, t, tags, LO, FLOOR, mem.brk, {bp});
      ghost var m2 := mem.data[..];
      PairKeepsThreaded(m, m1, m2, t, LO, FLOOR, mem.brk, bp, index.lists, roots, index.Sh(), {bp});
      assert {bp} - {bp} == {};
      NewHeader(m2, t, tags, bp);
      PutNoTag(mem, NextBlkp(mem, bp) - 4, 0, true);
      EndWrite(m2, mem.data[..], t, tags, mem.brk, index.lists, roots, index.Sh(), {bp});
      KeepsLiveTrans(m, m2, mem.data[..], t, t, FLOOR) by {
        LiveRefl(t, FLOOR);
      }
    }

    /** extend_heap; bp is NULL if sbrk fails. */
    method ExtendHeap(size: Word) returns (bp: nat)
      requires Valid() && 16 <= size && size + 7 < WORD_SPAN
      modifies this, mem, mem.data, index, index.roots
      ensures Valid()
      ensures mem.outOfMemory == (old(mem.outOfMemory) || bp == NULL)
      ensures AlignUp(size) % 8 == 0 && 16 <= AlignUp(size)
      ensures if old(mem.brk) + AlignUp(size) > MAX_HEAP
              then bp == NULL && St() == old(St()) && mem.data[..] == old(mem.data[..])
              else bp == TagExtendAt(old(St()), AlignUp(size)) && bp != NULL
                   && St() == TagExtend(old(St()), AlignUp(size))
      ensures KeepsLive(old(mem.data[..]), mem.data[..], old(t), FLOOR)
    {
      hide GetWord, Consistent, Ok, KeepsLive, LiveWithin, Join, JoinLow, Put, KeepsReserved;
      ghost var m, s := mem.data[..], St();
      AlignUpOk(size);
      var asize := AlignUp(size);
      hide AlignUp;
      var p := Grow(asize);
      if p == -1 {
        return NULL;
      }
      TagExtendOk(s, asize);
      TagGrownPending(s, asize);
      ghost var m1, g := mem.data[..], TagGrown(s, asize);
      JoinTiling(g, s.g.hi);
      NotNull(s);
      hide Pending;
      PutFree(p, asize, {s.g.hi});
      assert {s.g.hi} - {s.g.hi} == {};
      ghost var m2 := mem.data[..];
      bp := Coalesce(p, g);
      Seg98.GrownLive(m, m1, m2, mem.data[..], s.g.t, g.g.t);
    }

    // ----- searching and placing -----

    /** The inner loop of the search: too small or tagged blocks are passed over. */
    method Scan(list: nat, asize: nat) returns (bp: nat)
      requires Valid() && list < LISTLIMIT
      ensures |index.lists| == LISTLIMIT && bp == FirstTakable(t, tags, index.lists[list], 0, asize)
    {
      hide GetWord, Tiled, LinkWords, Sorted, BitsBut, Reserved, TagOf;
      ghost var m, l, k := mem.data[..], index.lists[list], 0;
      Basics({});
      ListInTiling(t, index.lists, {}, list);
      bp := index.roots[list];
      assert Linked(m, l, index.roots[..][list], NULL, index.Sh());
      while bp != NULL
        invariant k <= |l| && bp == if k < |l| then l[k] else NULL
        invariant FirstTakable(t, tags, l, k, asize) == FirstTakable(t, tags, l, 0, asize)
        decreases |l| - k
      {
        assert l[k] in l;
        ReadHead(m, t, tags, LO, FLOOR, mem.brk, bp);
        if !(asize > GetSize(mem, bp - 4) || TagOf(mem.Get(bp - 4))) {
          break;
        }
        NodeAtOf(m, l, index.roots[list], NULL, index.Sh(), k);
        bp := mem.Get(bp + index.f);
        k := k + 1;
      }
    }

    /** The search loop of mm_malloc */
    method FindFit(asize: nat) returns (bp: nat)
      requires Valid()
      ensures |index.lists| == LISTLIMIT
      ensures bp == FindTakable(t, tags, index.lists, ClassOf(asize), asize)
    {
      hide Consistent, Ok, FirstTakable;
      var list, searchsize := 0, asize;
      ghost var c := ClassOf(asize);
      RootsAgree(asize);
      assert ClassFrom(asize, 0) == c;
      hide ClassFrom, ClassOf;
      while list < LISTLIMIT
        invariant list <= LISTLIMIT
        invariant list <= c && list < LISTLIMIT ==> ClassFrom(searchsize, list) == c
        invariant list > c ==> searchsize <= 1 || list == LISTLIMIT
        invariant FindTakable(t, tags, index.lists, c, asize) == FindTakable(t, tags, index.lists, Max(list, c), asize)
      {
        if list == LISTLIMIT - 1 || (searchsize <= 1 && index.roots[list] != NULL) {
          bp := Scan(list, asize);
          if bp != NULL {
            return;
          }
        }
        ClassStep(searchsize, list);
        searchsize := searchsize / 2;
        list := list + 1;
      }
      bp := NULL;
    }

    lemma RootsAgree(asize: nat)
      requires Valid()
      ensures |index.lists| == LISTLIMIT && index.roots.Length == LISTLIMIT
      ensures forall c :: 0 <= c < LISTLIMIT && index.roots[c] == NULL ==>
                FirstTakable(t, tags, index.lists[c], 0, asize) == NULL
    {
      hide GetWord, Tiled, LinkWords, Sorted, Reserved, Holds, Spaced;
      Basics({});
      forall c | 0 <= c < LISTLIMIT && index.roots[c] == NULL
        ensures FirstTakable(t, tags, index.lists[c], 0, asize) == NULL
      {
        assert Linked(mem.data[..], index.lists[c], index.roots[..][c], NULL, index.Sh());
      }
    }

    /** Block bp, on no list and untagged, is cut after size bytes: PUTs for the front,
        PUT_NOTAGs for the back. */
    method Carve(bp: nat, size: nat, alloc: bool, csize: nat) returns (rest: nat)
      requires Consistent({bp}) && Pending(St(), {bp}) && FreeAt(t, bp) && t[bp].size == csize
      requires size % 8 == 0 && 16 <= size && size + 16 <= csize
      modifies `t, mem.data
      ensures Consistent({FreePart(bp, size, alloc)})
      ensures t == Cut(old(t), bp, size, alloc) && rest == bp + size
      ensures KeepsLive(old(mem.data[..]), mem.data[..], old(t), FLOOR)
    {
      hide GetWord, Threaded, Tiled, Sorted, KeepsLive, BitsBut, EndAt, Reserved, TagOf;
      ghost var m, s, un, free := mem.data[..], St(), {bp} + {bp + size}, {FreePart(bp, size, alloc)};
      CutPartial(s.g, bp, size, alloc);
      CutBits(s.g.t, mem.brk, bp, size, alloc, m, tags);
      ReadHead(m, t, tags, LO, FLOOR, mem.brk, bp);
      t := Cut(t, bp, size, alloc);
      WritePair(bp, size, alloc, true, un, free);
      ghost var m2 := mem.data[..];
      CutHead(m2, s.g.t, bp, size, alloc, tags, un - {bp}, mem.brk);
      rest := NextBlkp(mem, bp);
      WritePair(rest, csize - size, !alloc, false, un - {bp}, free);
      KeepsLiveTrans(m, m2, mem.data[..], t, t, FLOOR) by {
        LiveRefl(t, FLOOR);
      }
      KeepsLiveSub(m, mem.data[..], s.g.t, t, FLOOR);
      NoneLeft(mem.data[..], t, tags, bp, bp + size);
    }

    /** place: the whole block, its tail, or its head. */
    method Place(bp: nat, asize: nat) returns (r: nat)
      requires Valid() && FreeAt(t, bp) && bp !in tags && asize % 8 == 0 && 16 <= asize <= t[bp].size
      modifies `t, `tags, index, index.roots, mem.data
      ensures Valid() && (St(), r) == TagPlace(old(St()), bp, asize) && FLOOR <= r
      ensures KeepsLive(old(mem.data[..]), mem.data[..], old(t), FLOOR)
    {
      hide GetWord, Holds, Tiled, Sorted, Threaded, Reserved, Fuse, Take, Put, KeepsLive, LiveWithin, KeepsReserved;
      ghost var m, s := mem.data[..], St();
      TagPlaceOk(s, bp, asize);
      PlaceThreeWayOk(s.g, bp, asize);
      SizeOfFree(s.g, bp, asize);
      RemovedPartial(s.g, {}, bp);
      var ptrSize := SizeAt(bp);
      var remainder := ptrSize - asize;
      RemoveFree(bp, {});
      assert {} + {bp} == {bp};
      ghost var m1 := mem.data[..];
      if remainder <= 2 * DSIZE {
        WholeTaken(s.g, bp);
        Retile(bp, ptrSize, true, true, tags, {bp});
        KeepsLiveTrans(m, m1, mem.data[..], s.g.t, t, FLOOR);
        Settled({bp} + {bp});
        r := bp;
      } else if asize >= 100 {
        r := TakePart(bp, remainder, false, ptrSize, s);
        KeepsLiveTrans(m, m1, mem.data[..], s.g.t, s.g.t, FLOOR) by {
          LiveRefl(s.g.t, FLOOR);
        }
      } else {
        r := TakePart(bp, asize, true, ptrSize, s);
        KeepsLiveTrans(m, m1, mem.data[..], s.g.t, s.g.t, FLOOR) by {
          LiveRefl(s.g.t, FLOOR);
        }
      }
    }

    /** The two splitting branches of place: the front of size bytes is allocated or stays
        free, the back is the opposite; the free part is listed. */
    method TakePart(bp: nat, size: nat, alloc: bool, csize: nat, ghost s: Tagging) returns (r: nat)
      requires Ok(s) && FreeAt(s.g.t, bp) && bp !in s.tags && s.g.t[bp].size == csize && |s.g.lists| == LISTLIMIT
      requires size % 8 == 0 && 16 <= size && size + 16 <= csize && (csize - size) % 8 == 0
      requires Consistent({bp}) && St() == s.(g := Removed(s.g, bp))
      requires Ok(s.(g := Cutting(s.g, bp, size, alloc)))
      modifies `t, index, index.roots, mem.data
      ensures Valid() && St() == s.(g := Cutting(s.g, bp, size, alloc)) && r == UsedPart(bp, size, alloc)
      ensures KeepsLive(old(mem.data[..]), mem.data[..], s.g.t, FLOOR)
    {
      hide GetWord, Consistent, Reserved, KeepsLive, LiveWithin, Take, Put;
      ghost var m := mem.data[..];
      RemovedPartial(s.g, {}, bp);
      assert {} + {bp} == {bp};
      CutShown(s.g, bp, size, alloc);
      hide Ok, Partial;
      var rest := Carve(bp, size, alloc, csize);
      ghost var m1 := mem.data[..];
      if alloc {
        PutFree(rest, csize - size, {bp + size});
        assert {bp + size} - {bp + size} == {};
        r := bp;
      } else {
        PutFree(bp, size, {bp});
        assert {bp} - {bp} == {};
        r := rest;
      }
      KeepsLiveTrans(m, m1, mem.data[..], s.g.t, t, FLOOR);
      Settled({});
    }

    // ----- the interface -----

    /** mm_init */
    method Init() returns (r: int)
      requires mem.Valid() && mem.brk == 0 && index.mem == mem && index.Shaped()
      modifies this, mem, mem.data, index, index.roots
      ensures r == 0 && Valid() && St() == TagInitial()
      ensures mem.outOfMemory == old(mem.outOfMemory)
    {
      hide GetWord, Consistent, Ok, KeepsLive, TagExtend, TagExtendAt, AlignUp, Bare;
      LayOut();
      TagBareOk();
      AlignUpOk(INITCHUNKSIZE);
      var bp := ExtendHeap(INITCHUNKSIZE);
      if bp == NULL {
        return -1;
      }
      r := 0;
    }

    /** Empty lists, padding, prologue and epilogue */
    method LayOut()
      requires mem.Valid() && mem.brk == 0 && index.mem == mem && index.Shaped()
      modifies `t, `tags, mem, mem.data, index, index.roots
      ensures Valid() && St() == TagBare() && mem.outOfMemory == old(mem.outOfMemory)
    {
      hide GetWord, PackTag;
      index.Reset();
      var heapStart := mem.Sbrk(16);
      mem.Put(heapStart, 0);
      PutNoTag(mem, heapStart + 4, DSIZE, true);
      PutNoTag(mem, heapStart + 8, DSIZE, true);
      PutNoTag(mem, heapStart + 12, 0, true);
      t, tags := Bare().t, {};
      BareBits(mem.data[..], index.Sh());
      BareInv();
      hide Partial, Tiled, Sorted, Holds, Threaded;
    }

    /** mm_malloc */
    method Malloc(size: Word) returns (bp: nat)
      requires Valid() && size + 15 < WORD_SPAN
      modifies this, mem, mem.data, index, index.roots
      ensures Valid()
      ensures (St(), bp) == TagMalloc(old(St()), size)
      ensures mem.outOfMemory == (old(mem.outOfMemory) || (bp == NULL && size != 0))
      ensures bp == NULL ==> mem.data[..] == old(mem.data[..])
      ensures KeepsLive(old(mem.data[..]), mem.data[..], old(t), FLOOR)
      ensures if bp == NULL then Heap() == old(Heap())
              else bp in t && 8 <= t[bp].size && NewBlock(old(Heap()), Heap(), bp, t[bp].size - 8)
      ensures TaggedLaw.MallocLaw(old(St()), size, St(), bp)
    {
      hide TaggedLaw.MallocLaw;
      bp := MallocBlock(size);
      TagMallocOutcome(old(St()), size);
      TaggedLaw.MallocLawful(old(St()), size);
      if bp != NULL {
        hide GetWord, KeepsLive, TagMalloc, LiveAdds, Holds, Threaded, Sorted, BlocksOk, Chained, Apart, KeepsReserved, Reserved;
        Basics({});
        NewBlockSeen(old(mem.data[..]), mem.data[..], old(t), t, LO, FLOOR, mem.brk, bp);
      }
    }

    /** The body of mm_malloc */
    method MallocBlock(size: Word) returns (bp: nat)
      requires Valid() && size + 15 < WORD_SPAN
      modifies this, mem, mem.data, index, index.roots
      ensures Valid()
      ensures (St(), bp) == TagMalloc(old(St()), size)
      ensures mem.outOfMemory == (old(mem.outOfMemory) || (bp == NULL && size != 0))
      ensures bp == NULL ==> mem.data[..] == old(mem.data[..])
      ensures KeepsLive(old(mem.data[..]), mem.data[..], old(t), FLOOR)
    {
      hide Consistent, Ok, KeepsLive, LiveWithin, TagPlace, TagExtend, TagExtendAt, ClassOf, FindTakable, AlignUp,
        KeepsReserved, AnyTakable;
      ghost var m, s := mem.data[..], St();
      if size == 0 {
        KeepsLiveRefl(m, t, FLOOR);
        return NULL;
      }
      TagFoundOk(s, size);
      var asize := RoundedSize(size);
      bp := FindFit(asize);
      ghost var m1, t1 := m, s.g.t;
      if bp == NULL {
        var extendsize := Max(asize, CHUNKSIZE);
        AlignUpOk(extendsize);
        bp := ExtendHeap(extendsize);
        if bp == NULL {
          return;
        }
        TagExtendOk(s, extendsize);
        m1, t1 := mem.data[..], t;
      } else {
        KeepsLiveRefl(m, s.g.t, FLOOR);
        LiveRefl(s.g.t, FLOOR);
      }
      bp := Place(bp, asize);
      KeepsLiveTrans(m, m1, mem.data[..], s.g.t, t1, FLOOR);
    }

    /** mm_free */
    method Free(bp: nat)
      requires Valid() && IsLive(t, FLOOR, bp)
      modifies `t, `tags, index, index.roots, mem.data
      ensures Valid() && St() == TagFree(old(St()), bp)
      ensures KeepsLive(old(mem.data[..]), mem.data[..], t, FLOOR)
      ensures FreeStep(old(Heap()), Heap(), bp)
      ensures TaggedLaw.FreeLaw(old(St()), bp, St())
    {
      hide GetWord, Holds, Tiled, Sorted, Threaded, Reserved, Fuse, KeepsLive, LiveWithin, Put, KeepsReserved, TaggedLaw.FreeLaw;
      ghost var m, s := mem.data[..], St();
      TagFreedPending(s, bp);
      FreeAround(s, bp);
      var size := SizeAt(bp);
      var next := NextOf(bp, {});
      RemoveTag(next);
      ghost var m0 := mem.data[..];
      Retile(bp, size, false, true, tags, {});
      ghost var m1, f := mem.data[..], TagFreed(s, bp);
      assert {} + {bp} == {bp} && {bp} - {bp} == {};
      PutFree(bp, size, {bp});
      ghost var m2 := mem.data[..];
      var r := Coalesce(bp, f);
      TagFreeOk(s, bp);
      TaggedLaw.FreeLawful(s, bp);
      FreedKept(m, m0, m1, m2, mem.data[..], s, bp, t);
      DropSeen(m, mem.data[..], s.g.t, t, FLOOR, bp);
    }

    /** mm_realloc, under the conditions for which it is sound. */
    method Realloc(bp: nat, size: Word) returns (newPtr: nat)
      requires Valid() && IsLive(t, FLOOR, bp) && size + 15 + REALLOC_BUFFER < WORD_SPAN
      requires size != 0 ==> TagSupported(St(), bp, size)
      modifies this, mem, mem.data, index, index.roots
      ensures Valid() && (St(), newPtr) == TagRealloc(old(St()), bp, size)
      ensures ResizeStep(old(Heap()), Heap(), bp, size, newPtr)
      ensures TaggedLaw.ReallocLaw(old(St()), bp, size, St(), newPtr)
    {
      hide GetWord, Consistent, Ok, KeepsLive, TagResize, TagSupported, Remainder, KeepsReserved, Asize, TaggedLaw.ReallocLaw;
      TaggedLaw.ReallocLawful(St(), bp, size);
      ghost var s, c := St(), Heap();
      if size == 0 {
        return NULL;
      }
      TagResizeOk(s, bp, size);
      BufferedSizeOk(size);
      var newSize := RoundedSize(size);
      newSize := newSize + REALLOC_BUFFER;
      newPtr := Resize(bp, newSize, size);
      if newPtr == NULL {
        return;
      }
      ResultLive(s, St(), bp, newPtr, newSize);
      var blockBuffer := BufferOf(newPtr, newSize);
      if blockBuffer < 2 * REALLOC_BUFFER {
        ghost var m, s1 := mem.data[..], St();
        var next := NextOf(newPtr, {});
        ReserveOk(s1, newPtr);
        SetTag(next);
        HeapKept(m, mem.data[..], t);
      }
    }

    /** block_buffer, as the code computes it */
    method BufferOf(bp: nat, newSize: Word) returns (blockBuffer: int)
      requires Valid() && bp in t && newSize - t[bp].size < INT_SPAN
      ensures blockBuffer == t[bp].size - newSize
    {
      hide Tiled, Sorted, Threaded, Holds, Reserved;
      Basics({});
      var size := SizeAt(bp);
      PairBounds(t, LO, FLOOR, mem.brk, bp);
      RemainderExact(size, newSize);
      blockBuffer := ToInt((size - newSize) % WORD_SPAN);
    }

    /** What mm_realloc does before it sets the mark */
    method Resize(bp: nat, newSize: Word, size: Word) returns (newPtr: nat)
      requires Valid() && IsLive(t, FLOOR, bp) && 0 < size && size + 15 + REALLOC_BUFFER < WORD_SPAN
      requires TagSupported(St(), bp, size) && newSize == BufferedSize(size)
      modifies this, mem, mem.data, index, index.roots
      ensures Valid() && (St(), newPtr) == TagResize(old(St()), bp, size)
      ensures ResizeStep(old(Heap()), Heap(), bp, size, newPtr)
    {
      hide GetWord, Consistent, Ok, KeepsLive, TagInPlace, TagMove, TagGrowsInPlace, Remainder, KeepsReserved, Asize, AnyTakable;
      BufferedSizeOk(size);
      newPtr := bp;
      var blockBuffer := BufferOf(bp, newSize);
      if blockBuffer < 0 {
        var open := NextOpen(bp);
        if open {
          newPtr := Stretch(bp, newSize, size);
        } else {
          newPtr := Relocate(bp, newSize, size);
        }
      } else {
        StaysSeen(bp, size);
      }
    }

    /** A block left as it is */
    lemma StaysSeen(bp: nat, size: nat)
      requires Valid() && IsLive(t, FLOOR, bp) && size + 8 <= t[bp].size
      ensures ResizeStep(Heap(), Heap(), bp, size, bp) && bp != NULL
    {
      hide Sorted, Threaded, Holds, Reserved;
      Basics({});
      LiveApart(t, LO, FLOOR, mem.brk, bp, bp, mem.data[..]);
    }

    /** The test whether the block behind bp is free or the epilogue. */
    method NextOpen(bp: nat) returns (open: bool)
      requires Valid() && IsLive(t, FLOOR, bp)
      ensures open == NextIsOpen(St().g, bp)
    {
      hide GetWord, Sorted, Threaded, BitsBut, Reserved;
      var next := NextOf(bp, {});
      ReadHead(mem.data[..], t, tags, LO, FLOOR, mem.brk, next);
      open := !GetAlloc(mem, next - 4) || GetSize(mem, next - 4) == 0;
    }

    /** The branch that enlarges the block where it is */
    method Stretch(bp: nat, newSize: Word, ghost size: nat) returns (newPtr: nat)
      requires Valid() && IsLive(t, FLOOR, bp) && newSize % 8 == 0 && NextIsOpen(St().g, bp)
      requires TagGrowsInPlace(St(), bp, newSize) && newSize - t[bp].size < INT_SPAN && size + 8 <= newSize
      modifies this, mem, mem.data, index, index.roots
      ensures Valid() && (St(), newPtr) == TagInPlace(old(St()), bp, newSize)
      ensures ResizeStep(old(Heap()), Heap(), bp, size, newPtr)
    {
      hide GetWord, Consistent, KeepsLive, Remainder, Absorb, TagExtend, TagExtendAt, LiveWithin, KeepsReserved, Reserved, Partial,
        GrowsInPlace, EndsBehind;
      ghost var m, s := mem.data[..], St();
      ghost var rem := Remainder(s.g.t[bp].size + NextSize(s.g.t, bp), newSize);
      Basics({});
      HaveOk(s.g, bp, newSize);
      TagInPlaceOk(s, bp, newSize);
      if rem < 0 {
        ExtensionReady(s, bp, newSize, rem, Extension(rem));
      }
      hide Ok;
      var remainder := Shortfall(bp, newSize);
      var ok, slack := MakeRoom(bp, remainder);
      if !ok {
        SameSeen(bp, size);
        return NULL;
      }
      ghost var m1, t1 := mem.data[..], t;
      Absorbing(bp, newSize + slack);
      newPtr := bp;
      KeepsLiveTrans(m, m1, mem.data[..], s.g.t, t1, FLOOR);
      StretchSeen(m, mem.data[..], s, St(), bp, size);
    }

    lemma SameSeen(bp: nat, size: nat)
      requires IsLive(t, FLOOR, bp)
      ensures ResizeStep(Heap(), Heap(), bp, size, NULL)
    {
    }

    /** remainder, as the code computes it */
    method Shortfall(bp: nat, newSize: Word) returns (remainder: int)
      requires Valid() && IsLive(t, FLOOR, bp)
      ensures remainder == Remainder(t[bp].size + NextSize(t, bp), newSize)
    {
      hide GetWord, Sorted, Threaded, Holds, Reserved, Tiled;
      var next := NextOf(bp, {});
      var bpSize := SizeAt(bp);
      var nextSize := SizeAt(next);
      remainder := ToInt((bpSize + nextSize - newSize) % WORD_SPAN);
    }

    /** Extends the heap if the remainder falls short; slack is the new remainder. */
    method MakeRoom(bp: nat, remainder: int) returns (ok: bool, slack: int)
      requires Valid() && IsLive(t, FLOOR, bp) && -INT_SPAN < remainder
      requires if remainder >= 0 then FreeAt(t, Next(t, bp))
               else EndsBehind(St().g, bp) && !IsReserved(St(), Next(t, bp))
                    && Extension(remainder) % 8 == 0 && 16 <= Extension(remainder)
      modifies this, mem, mem.data, index, index.roots
      ensures Valid() && ok == (old(mem.brk) + Extension(remainder) <= MAX_HEAP)
      ensures !ok ==> St() == old(St()) && mem.data[..] == old(mem.data[..])
      ensures ok ==> St() == if remainder >= 0 then old(St()) else TagExtend(old(St()), Extension(remainder))
      ensures ok ==>
                && IsLive(t, FLOOR, bp) && FreeAt(t, Next(t, bp)) && LiveSame(old(t), t, FLOOR)
                && t[bp].size + NextSize(t, bp) == old(t[bp].size + NextSize(t, bp)) + Extension(remainder)
                && slack == remainder + Extension(remainder)
      ensures KeepsLive(old(mem.data[..]), mem.data[..], old(t), FLOOR)
    {
      hide GetWord, Consistent, Ok, KeepsLive, TagExtend, TagExtendAt, AlignUp, LiveWithin, KeepsReserved;
      ghost var m, s := mem.data[..], St();
      HeapBelowMax(s);
      ok, slack := true, remainder;
      if remainder < 0 {
        var extendsize := Max(-remainder, CHUNKSIZE);
        AlignUpOk(extendsize);
        var p := ExtendHeap(extendsize);
        if p == NULL {
          ok := false;
          return;
        }
        slack := remainder + extendsize;
        TagExtendOk(s, extendsize);
        TagExtendBehind(s, bp, extendsize);
        assert IsLive(s.g.t, FLOOR, bp);
      } else {
        KeepsLiveRefl(m, s.g.t, FLOOR);
        LiveRefl(s.g.t, FLOOR);
      }
    }

    /** remove_free on the next block and the PUT_NOTAGs that give its bytes to bp. */
    method Absorbing(bp: nat, size: nat)
      requires Valid() && IsLive(t, FLOOR, bp) && FreeAt(t, Next(t, bp))
      requires size == t[bp].size + NextSize(t, bp)
      modifies `t, `tags, index, index.roots, mem.data
      ensures |old(index.lists)| == LISTLIMIT && 0 < old(t)[bp].size
      ensures Valid() && St() == Swallowed(old(St()), bp)
      ensures KeepsLive(old(mem.data[..]), mem.data[..], old(t), FLOOR)
    {
      hide GetWord, Holds, Tiled, Sorted, Threaded, Reserved, KeepsLive, Take, Fuse, KeepsReserved;
      ghost var m, s := mem.data[..], St();
      SwallowedOk(s, bp);
      AbsorbTiling(s.g.t, s.g.hi, bp);
      TagsAround(s, bp);
      var next := NextOf(bp, {});
      RemoveFree(next, {});
      assert {} + {next} == {next};
      ghost var m1 := mem.data[..];
      Retile(bp, size, true, false, tags - {bp} - {next}, {next});
      Settled({next} + {bp});
      Seg98.SwallowLive(m, m1, mem.data[..], s.g.t, t, bp);
    }

    /** The branch that moves the block */
    method Relocate(bp: nat, newSize: Word, size: nat) returns (newPtr: nat)
      requires Valid() && IsLive(t, FLOOR, bp) && newSize % 8 == 0 && 16 <= newSize && newSize + 7 < WORD_SPAN
      requires size + 8 <= newSize && bp + size <= MAX_HEAP
      requires AnyTakable(t, tags, newSize) || mem.brk + GrowthFor(newSize) <= MAX_HEAP
      modifies this, mem, mem.data, index, index.roots
      ensures Valid() && (St(), newPtr) == TagMove(old(St()), bp, newSize)
      ensures ResizeStep(old(Heap()), Heap(), bp, size, newPtr)
    {
      hide GetWord, Consistent, Ok, KeepsLive, TagMalloc, TagFree, AnyTakable, Moved;
      ghost var s, c := St(), Heap();
      TagMoveOk(s, bp, newSize);
      newPtr := Malloc(newSize - 8);
      ghost var c1, n := Heap(), t[newPtr].size - 8;
      hide NewBlock, CopyStep, FreeStep, ResizeStep, Asize;
      ghost var c2 := CopyAndFree(newPtr, bp, size);
      MovedResize(c, c1, c2, Heap(), bp, newPtr, size, n);
    }

    /** The end of that branch: the data is copied and the old block freed. */
    method CopyAndFree(newPtr: nat, bp: nat, size: nat) returns (ghost c: AbstractHeap.Heap)
      requires Valid() && IsLive(t, FLOOR, bp) && IsLive(t, FLOOR, newPtr) && newPtr != bp
      requires size + 8 <= t[newPtr].size && bp + size <= MAX_HEAP
      modifies this, mem.data, index, index.roots
      ensures Valid() && St() == TagFree(old(St()), bp)
      ensures CopyStep(old(Heap()), c, bp, newPtr, size) && FreeStep(c, Heap(), bp)
    {
      hide GetWord, Consistent, Ok, TagFree, CopyStep, FreeStep;
      CopyOver(newPtr, bp, size);
      c := Heap();
      Free(bp);
    }

    /** memcpy(new_ptr, bp, MIN(size, new_size)) */
    method CopyOver(newPtr: nat, bp: nat, size: nat)
      requires Valid() && IsLive(t, FLOOR, bp) && IsLive(t, FLOOR, newPtr) && newPtr != bp
      requires size + 8 <= t[newPtr].size && bp + size <= MAX_HEAP
      modifies mem.data
      ensures Valid() && CopyStep(old(Heap()), Heap(), bp, newPtr, size)
      ensures size <= t[bp].size ==> bp + size <= newPtr || newPtr + size <= bp
    {
      hide GetWord, BitsBut, EndAt, Threaded, Sorted, Tiled, Reserved, ContentsOf, CopyStep;
      ghost var m := mem.data[..];
      Basics({});
      LiveApart(t, LO, FLOOR, mem.brk, bp, newPtr, m);
      mem.CopySnapshot(newPtr, bp, size);
      ClientBits(m, mem.data[..], t, tags, mem.brk, newPtr, size);
      ThreadedAfterClient(m, mem.data[..], t, LO, FLOOR, mem.brk, index.lists, index.roots[..], index.Sh(), newPtr, size);
      CopySeen(t, LO, FLOOR, mem.brk, m, mem.data[..], bp, newPtr, size, size);
    }
  }

  lemma HeadKept(m: Mem, tags: set<nat>, tags': set<nat>, r: nat, e: nat, hi: nat)
    requires EndAt(m, hi, tags) && e <= hi
    requires forall x: nat :: x < r || e <= x ==> (x in tags' <==> x in tags)
    ensures EndAt(m, hi, tags')
  {
    hide GetWord;
  }

  lemma EndKept(m: Mem, m': Mem, hi: nat, tags: set<nat>)
    requires EndAt(m, hi, tags) && |m'| == |m| && GetWord(m', hi - 4) == GetWord(m, hi - 4)
    ensures EndAt(m', hi, tags)
  {
    hide GetWord;
  }

  lemma FuseBits(t: Tiles, hi: nat, r: nat, e: nat, alloc: bool, m: Mem, tags: set<nat>, tags': set<nat>)
    requires Tiled(t, LO, FLOOR, hi) && BitsBut(m, t, tags, {})
    requires r in t && FLOOR <= r < e && (e in t || e == hi)
    requires forall x: nat :: x < r || e <= x ==> (x in tags' <==> x in tags)
    ensures Tiled(Fuse(t, r, e, alloc), LO, FLOOR, hi) && BitsBut(m, Fuse(t, r, e, alloc), tags', {r})
    ensures Fuse(t, r, e, alloc)[r] == Block(e - r, alloc) && e <= hi
  {
    hide HeadAt, FootAt;
    FuseTiled(t, LO, FLOOR, hi, r, e, alloc);
    assert e in t ==> BlockOk(t[e], e, LO, FLOOR, hi);
  }

  lemma AllKept(m: Mem, m0: Mem, m1: Mem, m2: Mem, m3: Mem, u: Tiles, t: Tiles)
    requires KeepsLive(m, m0, u, FLOOR) && KeepsLive(m0, m1, u, FLOOR)
    requires KeepsLive(m1, m2, t, FLOOR) && KeepsLive(m2, m3, t, FLOOR) && LiveWithin(u, t, FLOOR)
    ensures KeepsLive(m, m3, u, FLOOR)
  {
    hide KeepsLive;
    LiveRefl(u, FLOOR);
    KeepsLiveTrans(m, m0, m1, u, u, FLOOR);
    KeepsLiveTrans(m, m1, m2, u, t, FLOOR);
    KeepsLiveTrans(m, m2, m3, u, t, FLOOR);
  }

  lemma NotNull(s: Tagging)
    requires Ok(s)
    ensures FLOOR <= s.g.hi
  {
  }

  /** What the header word at x is made of. */
  lemma SetWord(m: Mem, t: Tiles, tags: set<nat>, hi: nat, x: nat)
    requires Holds(m, t, tags, hi) && (x in t || x == hi) && 4 <= x <= |m|
    ensures var b := if x in t then t[x] else Block(0, true); GetWord(m, x - 4) == PackTag(b.size, b.alloc, x in tags)
    ensures TagOf(GetWord(m, x - 4)) == (x in tags) <== (x in t ==> t[x].size % 8 == 0)
  {
    hide GetWord, TagOf;
    if x in t {
      assert HeadAt(m, x, t[x], x in tags);
      if t[x].size % 8 == 0 {
        PackTagParts(t[x].size, t[x].alloc, x in tags);
      }
    } else {
      PackTagParts(0, true, x in tags);
    }
  }

  /** Rewriting the header word at x, and nothing else, moves from tags to tags'. */
  lemma HeaderRewritten(m: Mem, m': Mem, t: Tiles, tags: set<nat>, tags': set<nat>, hi: nat, x: nat,
                        lists: Lists, roots: seq<nat>, s: Shape)
    requires Tiled(t, LO, FLOOR, hi) && hi <= |m| && Holds(m, t, tags, hi) && (x in t || x == hi) && 4 <= x
    requires Wrote(m, m', x - 4, PackTag((if x in t then t[x] else Block(0, true)).size,
                                         (if x in t then t[x] else Block(0, true)).alloc, x in tags'))
    requires forall y: nat :: y != x ==> (y in tags' <==> y in tags)
    requires Sorted(t, lists, {}) && Threaded(m, lists, roots, s) && s.w == 8
    ensures Holds(m', t, tags', hi) && KeepsLive(m, m', t, FLOOR) && Threaded(m', lists, roots, s)
  {
    hide GetWord, Threaded, Sorted, KeepsLive, PackTag;
    if x in t {
      TagWrite(m, m', t, LO, FLOOR, hi, x, x - 4, GetWord(m', x - 4));
      PairBounds(t, LO, FLOOR, hi, x);
      HeaderBits(m, m', t, tags, tags', hi, x);
      HeaderThreaded(m, m', t, hi, x, lists, roots, s, GetWord(m', x - 4));
    } else {
      EndBits(m, m', t, tags, tags', hi);
      EndThreaded(m, m', t, hi, lists, roots, s, {}, GetWord(m', hi - 4));
    }
  }

  lemma HeaderBits(m: Mem, m': Mem, t: Tiles, tags: set<nat>, tags': set<nat>, hi: nat, x: nat)
    requires Holds(m, t, tags, hi) && x in t && x != hi && |m'| == |m|
    requires InMem(m, x - 4) && GetWord(m', x - 4) == PackTag(t[x].size, t[x].alloc, x in tags')
    requires forall y: nat {:trigger t[y]} :: y in t && y != x ==>
               && InMem(m, y - 4) && InMem(m, y + t[y].size - 8)
               && GetWord(m', y - 4) == GetWord(m, y - 4) && GetWord(m', y + t[y].size - 8) == GetWord(m, y + t[y].size - 8)
    requires InMem(m, x + t[x].size - 8) && GetWord(m', x + t[x].size - 8) == GetWord(m, x + t[x].size - 8)
    requires GetWord(m', hi - 4) == GetWord(m, hi - 4)
    requires forall y: nat :: y != x ==> (y in tags' <==> y in tags)
    ensures Holds(m', t, tags', hi)
  {
    hide GetWord, PackTag;
    forall y | y in t
      ensures HeadAt(m', y, t[y], y in tags') && FootAt(m', y, t[y])
    {
      assert HeadAt(m, y, t[y], y in tags) && FootAt(m, y, t[y]);
    }
  }

  lemma HeaderThreaded(m: Mem, m': Mem, t: Tiles, hi: nat, x: nat, lists: Lists, roots: seq<nat>, s: Shape, v: int)
    requires Tiled(t, LO, FLOOR, hi) && x in t && 4 <= x && Wrote(m, m', x - 4, v)
    requires Sorted(t, lists, {}) && Threaded(m, lists, roots, s) && s.w == 8
    ensures Threaded(m', lists, roots, s)
  {
    hide Wrote, Linked, Tiled;
    forall c | 0 <= c < LISTLIMIT
      ensures Linked(m', lists[c], roots[c], NULL, s)
    {
      ListsRoomy(t, LO, FLOOR, hi, lists, {}, c);
      hide Sorted;
      HeaderKeepsLinks(m, m', t, LO, FLOOR, hi, x, x - 4, v, lists[c], roots[c], NULL, s);
    }
  }

  /** A write over the epilogue header */
  lemma EndBits(m: Mem, m': Mem, t: Tiles, tags: set<nat>, tags': set<nat>, hi: nat)
    requires Tiled(t, LO, FLOOR, hi) && BitsBut(m, t, tags, {}) && hi <= |m|
    requires Wrote(m, m', hi - 4, PackTag(0, true, hi in tags'))
    requires forall y: nat :: y != hi ==> (y in tags' <==> y in tags)
    ensures Holds(m', t, tags', hi) && KeepsLive(m, m', t, FLOOR)
  {
    hide GetWord, PackTag;
    forall y | y in t
      ensures HeadAt(m', y, t[y], y in tags') && FootAt(m', y, t[y])
    {
      assert HeadAt(m, y, t[y], y in tags) && FootAt(m, y, t[y]);
      assert BlockOk(t[y], y, LO, FLOOR, hi);
    }
    EndLive(m, m', t, hi, PackTag(0, true, hi in tags'));
  }

  lemma EndLive(m: Mem, m': Mem, t: Tiles, hi: nat, v: int)
    requires Tiled(t, LO, FLOOR, hi) && hi <= |m| && Wrote(m, m', hi - 4, v)
    ensures KeepsLive(m, m', t, FLOOR)
  {
    hide GetWord;
    forall x: nat, a: nat | IsLive(t, FLOOR, x) && x <= a < x + t[x].size - 8 && a < |m|
      ensures m'[a] == m[a]
    {
      assert BlockOk(t[x], x, LO, FLOOR, hi);
    }
  }

  lemma EndThreaded(m: Mem, m': Mem, t: Tiles, hi: nat, lists: Lists, roots: seq<nat>, s: Shape, ex: set<nat>, v: int)
    requires Tiled(t, LO, FLOOR, hi) && Wrote(m, m', hi - 4, v)
    requires Sorted(t, lists, ex) && Threaded(m, lists, roots, s) && s.w == 8
    ensures Threaded(m', lists, roots, s)
  {
    hide Wrote, Linked;
    forall c | 0 <= c < LISTLIMIT
      ensures Linked(m', lists[c], roots[c], NULL, s)
    {
      ListsRoomy(t, LO, FLOOR, hi, lists, ex, c);
      var l: seq<nat> := lists[c];
      assert Linked(m, l, roots[c], NULL, s);
      hide Sorted, Threaded;
      forall i | 0 <= i < |l|
        ensures l[i] + s.w <= hi - 4
      {
        assert l[i] in t;
        assert BlockOk(t[l[i]], l[i], LO, FLOOR, hi);
      }
      OtherWrite(m, m', l, roots[c], NULL, s, hi - 4, v);
    }
  }

  lemma EndWrite(m: Mem, m': Mem, t: Tiles, tags: set<nat>, hi: nat, lists: Lists, roots: seq<nat>, s: Shape, ex: set<nat>)
    requires Tiled(t, LO, FLOOR, hi) && BitsBut(m, t, tags, {}) && hi <= |m| && hi !in tags
    requires Wrote(m, m', hi - 4, PackTag(0, true, false))
    requires Sorted(t, lists, ex) && Threaded(m, lists, roots, s) && s.w == 8
    ensures Holds(m', t, tags, hi) && KeepsLive(m, m', t, FLOOR) && Threaded(m', lists, roots, s)
  {
    hide GetWord, Threaded, Sorted, PackTag, Wrote, KeepsLive;
    EndBits(m, m', t, tags, tags, hi);
    EndThreaded(m, m', t, hi, lists, roots, s, ex, PackTag(0, true, false));
  }

  lemma NewHeader(m: Mem, t: Tiles, tags: set<nat>, p: nat)
    requires BitsBut(m, t, tags, {}) && p in t && t[p].size % 8 == 0
    ensures 4 <= p <= |m| && SizeOf(GetWord(m, p - 4)) == t[p].size
  {
    hide GetWord;
    assert HeadAt(m, p, t[p], p in tags);
    PackTagParts(t[p].size, t[p].alloc, p in tags);
  }

  lemma GrownBits(s: Tagging, size: nat, m: Mem)
    requires Ok(s) && size % 8 == 0 && 16 <= size && s.g.hi + size <= MAX_HEAP && BitsBut(m, s.g.t, s.tags, {})
    ensures var g := TagGrown(s, size);
            && BitsBut(m, g.g.t, g.tags, {s.g.hi}) && Tiled(g.g.t, LO, FLOOR, g.g.hi) && Sorted(g.g.t, g.g.lists, {s.g.hi})
            && g.g.hi !in g.tags && FLOOR <= s.g.hi && LiveWithin(s.g.t, g.g.t, FLOOR)
  {
    hide HeadAt, FootAt, ClassOf;
    GrownPartial(s.g, size);
    GrowTiled(s.g.t, LO, FLOOR, s.g.hi, size);
    hide Sorted;
    assert s.g.hi + size !in s.g.t by {
      BeyondBreak(s.g.t, s.g.hi, s.g.hi + size);
    }
  }

  lemma BeyondBreak(t: Tiles, hi: nat, x: nat)
    requires Tiled(t, LO, FLOOR, hi) && hi <= x
    ensures x !in t
  {
    assert x in t ==> BlockOk(t[x], x, LO, FLOOR, hi);
  }

  /** The heap and lists after a cut with the free part listed */
  ghost function Cutting(g: State, p: nat, a: nat, alloc: bool): State
    requires p in g.t && a <= g.t[p].size && |g.lists| == LISTLIMIT
  {
    State(Cut(g.t, p, a, alloc),
          Put(Take(g.lists, p, g.t[p].size), FreePart(p, a, alloc), if alloc then g.t[p].size - a else a), g.hi)
  }

  lemma CutShown(g: State, p: nat, a: nat, alloc: bool)
    requires Partial(g, {}) && FreeAt(g.t, p) && a % 8 == 0 && 16 <= a && a + 16 <= g.t[p].size
    ensures FreeAt(Cut(g.t, p, a, alloc), FreePart(p, a, alloc))
    ensures Cut(g.t, p, a, alloc)[FreePart(p, a, alloc)].size == if alloc then g.t[p].size - a else a
    ensures LiveWithin(g.t, Cut(g.t, p, a, alloc), FLOOR)
  {
    RemovedPartial(g, {}, p);
    CutPartial(Removed(g, p), p, a, alloc);
    CutSizes(g.t, p, a, alloc);
  }

  lemma CutBits(t: Tiles, hi: nat, p: nat, a: nat, alloc: bool, m: Mem, tags: set<nat>)
    requires Tiled(t, LO, FLOOR, hi) && Reserved(t, hi, tags) && FreeAt(t, p) && p + a !in t && 0 < a < t[p].size
    requires BitsBut(m, t, tags, {})
    ensures BitsBut(m, Cut(t, p, a, alloc), tags, {p} + {p + a}) && p + a !in tags
    ensures var t' := Cut(t, p, a, alloc); t'[p] == Block(a, alloc) && t'[p + a] == Block(t[p].size - a, !alloc)
  {
    hide HeadAt, FootAt;
    assert BlockOk(t[p], p, LO, FLOOR, hi);
  }

  lemma CutHead(m: Mem, t: Tiles, p: nat, a: nat, alloc: bool, tags: set<nat>, un: set<nat>, hi: nat)
    requires p in t && 0 < a < t[p].size && a % 8 == 0 && p + t[p].size <= hi <= |m|
    requires BitsBut(m, Cut(t, p, a, alloc), tags, un) && p !in un
    ensures 4 <= p <= |m| && InMem(m, p + a - 4) && SizeOf(GetWord(m, p - 4)) == a
  {
    hide GetWord;
    assert p in Cut(t, p, a, alloc) && Cut(t, p, a, alloc)[p] == Block(a, alloc);
    assert HeadAt(m, p, Block(a, alloc), p in tags);
    PackTagParts(a, alloc, p in tags);
  }

  lemma NoneLeft(m: Mem, t: Tiles, tags: set<nat>, x: nat, y: nat)
    requires BitsBut(m, t, tags, {x} + {y} - {x} - {y})
    ensures BitsBut(m, t, tags, {})
  {
    hide HeadAt, FootAt;
  }

  lemma WholeTaken(g: State, p: nat)
    requires Partial(g, {}) && FreeAt(g.t, p)
    ensures FLOOR <= p && Next(g.t, p) <= g.hi && (Next(g.t, p) in g.t || Next(g.t, p) == g.hi) && 16 <= g.t[p].size
    ensures forall x: nat :: FreeAt(g.t, x) && p <= x < Next(g.t, p) ==> x == p
    ensures Retag(g.t, p, true) == Fuse(g.t, p, Next(g.t, p), true)
    ensures LiveWithin(g.t, Retag(g.t, p, true), FLOOR)
  {
    PendingAboveFloor(g, p);
    RetagIsFuse(g.t, LO, FLOOR, g.hi, p, true);
  }

  lemma BareBits(m: Mem, s: Shape)
    requires |m| == MAX_HEAP && ShapeOk(s)
    requires GetWord(m, 4) == PackTag(DSIZE, true, false) && GetWord(m, 8) == PackTag(DSIZE, true, false)
    requires GetWord(m, 12) == PackTag(0, true, false)
    ensures TagBits.Holds(m, Bare().t, {}, FLOOR)
    ensures Threaded(m, Bare().lists, seq(LISTLIMIT, _ => NULL), s)
    ensures Reserved(Bare().t, FLOOR, {})
  {
    hide GetWord, PackTag;
    PackTagParts(DSIZE, true, false);
  }

  /** What mm_free finds around the block it is given. */
  lemma FreeAround(s: Tagging, p: nat)
    requires Ok(s) && IsLive(s.g.t, FLOOR, p)
    ensures 16 <= s.g.t[p].size && (Next(s.g.t, p) in s.g.t || Next(s.g.t, p) == s.g.hi)
    ensures forall x: nat :: FreeAt(s.g.t, x) ==> x < p || Next(s.g.t, p) <= x
    ensures Retag(s.g.t, p, false) == Fuse(s.g.t, p, Next(s.g.t, p), false)
    ensures LiveWithin(TagFree(s, p).g.t, s.g.t, FLOOR)
  {
    hide Sorted;
    assert BlockOk(s.g.t[p], p, LO, FLOOR, s.g.hi);
    assert Next(s.g.t, p) in s.g.t || Next(s.g.t, p) == s.g.hi;
    RetagIsFuse(s.g.t, LO, FLOOR, s.g.hi, p, false);
    hide Tiled, Reserved, KeepsReserved;
    TagFreeOk(s, p);
  }

  lemma FreedKept(m: Mem, m0: Mem, m1: Mem, m2: Mem, m3: Mem, s: Tagging, p: nat, t: Tiles)
    requires Ok(s) && IsLive(s.g.t, FLOOR, p) && t == TagFree(s, p).g.t
    requires KeepsLive(m, m0, s.g.t, FLOOR) && KeepsLive(m0, m1, TagFreed(s, p).g.t, FLOOR)
    requires KeepsLive(m1, m2, TagFreed(s, p).g.t, FLOOR) && KeepsLive(m2, m3, TagFreed(s, p).g.t, FLOOR)
    ensures KeepsLive(m, m3, t, FLOOR)
  {
    TagFreedPending(s, p);
    JoinOk(TagFreed(s, p), p);
    LiveRefl(TagFreed(s, p).g.t, FLOOR);
    var f := TagFreed(s, p).g.t;
    assert LiveWithin(t, f, FLOOR) && LiveWithin(f, s.g.t, FLOOR);
    hide Ok, Pending, KeepsLive, LiveWithin, Join, KeepsReserved;
    KeepsLiveSub(m, m0, f, s.g.t, FLOOR);
    KeepsLiveTrans(m, m0, m1, f, f, FLOOR);
    KeepsLiveTrans(m, m1, m2, f, f, FLOOR);
    KeepsLiveTrans(m, m2, m3, f, f, FLOOR);
    KeepsLiveSub(m, m3, t, f, FLOOR);
  }

  lemma HeapBelowMax(s: Tagging)
    requires Ok(s)
    ensures s.g.hi <= MAX_HEAP
  {
  }

  lemma HeapKept(m: Mem, m': Mem, t: Tiles)
    requires KeepsLive(m, m', t, FLOOR)
    ensures ContentsOf(m', t, FLOOR) == ContentsOf(m, t, FLOOR)
  {
    hide KeepsLive, PayloadOf;
    forall p | p in t && IsLive(t, FLOOR, p)
      ensures PayloadOf(m', t, p) == PayloadOf(m, t, p)
    {
      PayloadKept(m, m', t, t, FLOOR, p);
    }
  }

  lemma ResultLive(s: Tagging, s': Tagging, p: nat, r: nat, newSize: nat)
    requires Moved(s, s', p, r, newSize)
    ensures IsLive(s'.g.t, FLOOR, r) && newSize <= s'.g.t[r].size
  {
    hide Ok, KeepsReserved;
  }

  /** What a block swallows and its own header are the only tags it can lose. */
  lemma TagsAround(s: Tagging, p: nat)
    requires Ok(s) && IsLive(s.g.t, FLOOR, p) && FreeAt(s.g.t, Next(s.g.t, p))
    ensures var n := Next(s.g.t, p);
            && p < n < Next(s.g.t, n)
            && forall x: nat :: x < p || Next(s.g.t, n) <= x ==> (x in s.tags - {p} - {n} <==> x in s.tags)
  {
    hide Sorted, Reserved;
    var n := Next(s.g.t, p);
    assert BlockOk(s.g.t[p], p, LO, FLOOR, s.g.hi) && BlockOk(s.g.t[n], n, LO, FLOOR, s.g.hi);
  }

  lemma StretchSeen(m: Mem, m': Mem, s: Tagging, s': Tagging, p: nat, size: nat)
    requires Ok(s) && |m| == MAX_HEAP && KeepsLive(m, m', s.g.t, FLOOR)
    requires GrewTagged(s, s', p) && size + 8 <= s'.g.t[p].size
    ensures ResizeStep(ContentsOf(m, s.g.t, FLOOR), ContentsOf(m', s'.g.t, FLOOR), p, size, p)
  {
    hide Sorted, Tiled, Reserved, KeepsLive, ResizeStep, Grew, ContentsOf, KeepsReserved;
    Seg98.SameSize(m, m', s.g.t);
    Seg98.GrewSeen(m, m', s.g.t, s'.g.t, s.g.hi, s'.g.hi, p, size);
  }

  /** A client may write anything into the payload it was given. */
  lemma ClientBits(m: Mem, m': Mem, t: Tiles, tags: set<nat>, hi: nat, p: nat, n: nat)
    requires Tiled(t, LO, FLOOR, hi) && TagBits.Holds(m, t, tags, hi)
    requires IsLive(t, FLOOR, p) && n <= t[p].size - 8 && SameOutside(m, m', p, n)
    ensures TagBits.Holds(m', t, tags, hi)
  {
    assert p + t[p].size <= hi;
    ClientKeepsTags(m, m', t, hi, p, n);
    hide KeepsTags, SameOutside;
    StillHolds(m, m', t, tags, hi);
  }

  lemma ClientKeepsTags(m: Mem, m': Mem, t: Tiles, hi: nat, p: nat, n: nat)
    requires Tiled(t, LO, FLOOR, hi) && IsLive(t, FLOOR, p) && n <= t[p].size - 8 && SameOutside(m, m', p, n)
    requires hi <= |m|
    ensures KeepsTags(m, m', t, hi)
  {
    assert p + t[p].size <= hi;
    forall x | x in t && InMem(m, x - 4) && InMem(m, x + t[x].size - 8)
      ensures GetWord(m', x - 4) == GetWord(m, x - 4)
      ensures GetWord(m', x + t[x].size - 8) == GetWord(m, x + t[x].size - 8)
    {
      ClientKeepsTag(m, m', t, hi, p, n, x);
    }
  }

  lemma ClientKeepsTag(m: Mem, m': Mem, t: Tiles, hi: nat, p: nat, n: nat, x: nat)
    requires Tiled(t, LO, FLOOR, hi) && IsLive(t, FLOOR, p) && n <= t[p].size - 8 && SameOutside(m, m', p, n)
    requires x in t && InMem(m, x - 4) && InMem(m, x + t[x].size - 8)
    ensures GetWord(m', x - 4) == GetWord(m, x - 4)
    ensures GetWord(m', x + t[x].size - 8) == GetWord(m, x + t[x].size - 8)
  {
    assert x < p ==> x + t[x].size <= p;
    assert p < x ==> p + t[p].size <= x;
    assert BlockOk(t[x], x, LO, FLOOR, hi);
    hide Tiled;
  }
}

/** prologue.c: ten size classes whose list roots are blocks in the heap itself. */
module Prologue {
  import opened Memory
  import opened Tiling
  import opened Tags
  import opened Links
  import opened RootLists
  import opened PrologueSpec
  import PrologueLaw
  import opened Requests
  import opened Contents
  import opened AbstractHeap

  class Allocator {
    const mem: MemLib
    var heapListp: nat
    ghost var t: Tiles
    ghost var lists: Lists

    constructor (mem: MemLib)
      ensures this.mem == mem
    {
      this.mem := mem;
      heapListp, t, lists := NULL, map[], [];
    }

    ghost function St(): State
      reads this, mem
    {
      State(t, lists, mem.brk)
    }

    /** The heap up to the break holds t behind its ten roots. */
    ghost predicate Framed()
      reads this, mem
    {
      mem.Valid() && heapListp == LO && Tiled(t, LO, FLOOR, mem.brk) && Rooted(t)
    }

    /** The tags and lists in memory agree with t; the blocks of ex are not listed. */
    ghost predicate Consistent(ex: set<nat>)
      reads this, mem, mem.data
    {
      && Framed() && Sorted(t, lists, ex)
      && Represents(mem.data[..], t, mem.brk) && Threaded(mem.data[..], lists)
    }

    ghost predicate Valid()
      reads this, mem, mem.data
    {
      Consistent({}) && NoAdjacentFree(t)
    }

    lemma StateOk()
      requires Valid()
      ensures Inv(St())
    {
    }

    /** The bytes behind each live pointer. */
    ghost function Heap(): AbstractHeap.Heap
      reads this, mem.data
    {
      ContentsOf(mem.data[..], t, FLOOR)
    }

    // ----- roots and lists -----

    /** getclass */
    method GetClass(size: nat) returns (class_: nat)
      ensures class_ == ClassOf(size)
    {
      var block := size / 8;
      var i := 0;
      while i < NUM - 1
        invariant i <= NUM - 1 && ClassFrom(block, i) == ClassOf(size)
      {
        if block <= RangeFor(i) && block > RangeFor(i - 1) {
          return i;
        }
        i := i + 1;
      }
      class_ := NUM - 1;
    }

    /** getroot */
    function GetRoot(class_: nat): nat
      reads this
    {
      heapListp + class_ * 2 * 8
    }

    /** insert_freenode */
    method InsertFreenode(bp: nat, ghost ex: set<nat>)
      requires Consistent(ex) && FreeAt(t, bp) && bp in ex
      modifies `lists, mem.data
      ensures |old(lists)| == NUM
      ensures Consistent(ex - {bp}) && lists == Put(old(lists), bp, t[bp].size)
      ensures KeepsLive(old(mem.data[..]), mem.data[..], t, FLOOR)
    {
      hide GetWord, Tiled, Linked, Sorted, Rooted, TaggedBut, ClassOf;
      ghost var m := mem.data[..];
      var size := BlockSize(mem, bp, t, LO, FLOOR, mem.brk);
      var class_ := GetClass(size);
      var root := GetRoot(class_);
      InsertFacts(m, t, mem.brk, lists, ex, class_, bp);
      ghost var l: seq<nat> := Chain(class_, lists[class_]);
      var next := mem.Get(root);
      mem.Put(bp, mem.Get(root));
      ghost var m1 := mem.data[..];
      mem.Put(bp + 8, root);
      ghost var m2 := mem.data[..];
      mem.Put(root, bp);
      ghost var m3 := mem.data[..];
      if next != NULL {
        mem.Put(next + 8, bp);
      }
      assert LinkedInForward(m, m1, m2, m3, mem.data[..], l, Pack(OVERHEAD, true), NODE, 1, bp);
      hide LinkedInForward, Wrote, Threaded, Chain, KeepsLive, KeepsTags;
      InsertThreaded(m, m1, m2, m3, mem.data[..], t, mem.brk, lists, ex, class_, bp);
      PutSorted(t, lists, ex, bp);
      StillRepresents(m, mem.data[..], t, mem.brk);
      lists := lists[class_ := [bp] + lists[class_]];
    }

    /** delete_freenode.  The lists are sorted by the tiling u; the tags in memory may
        already be those of t, in which bp is allocated and smaller. */
    method DeleteFreenode(bp: nat, ghost u: Tiles, ghost ex: set<nat>)
      requires Framed() && Sorted(u, lists, ex) && Threaded(mem.data[..], lists)
      requires Covered(u, t, ex) && FreeAt(u, bp) && bp !in ex && OthersFree(u, t, ex, bp)
      modifies `lists, mem.data
      ensures |old(lists)| == NUM && lists == Take(old(lists), bp, u[bp].size)
      ensures Framed() && Sorted(u, lists, ex + {bp}) && Threaded(mem.data[..], lists)
      ensures KeepsTags(old(mem.data[..]), mem.data[..], t, mem.brk)
      ensures KeepsLive(old(mem.data[..]), mem.data[..], t, FLOOR)
    {
      hide GetWord, Tiled, Linked, Sorted, Rooted, ClassOf, Covered, OthersFree;
      ghost var m := mem.data[..];
      ghost var c, k := DeleteFacts(m, u, t, mem.brk, lists, ex, bp);
      ghost var l: seq<nat> := Chain(c, lists[c]);
      var next, prev := mem.Get(bp), mem.Get(bp + 8);
      mem.Put(prev, next);
      ghost var m1 := mem.data[..];
      if next != NULL {
        mem.Put(next + 8, prev);
      }
      assert UnlinkedForward(m, m1, mem.data[..], l, Pack(OVERHEAD, true), NODE, k + 1);
      hide UnlinkedForward, Wrote, Threaded, Chain, KeepsLive, KeepsTags;
      DeleteThreaded(m, m1, mem.data[..], u, t, mem.brk, lists, ex, c, k);
      TakeSorted(u, lists, ex, bp);
      lists := lists[c := RemoveAt(lists[c], k)];
    }

    // ----- merging -----

    /** The blocks from r on, size bytes in all, become one block with fresh tags. */
    method Retile(r: nat, size: nat, alloc: bool, ghost ex: set<nat>)
      requires Consistent(ex)
      requires r in t && FLOOR <= r && t[r].size <= size && (r + size in t || r + size == mem.brk) && 0 < size
      requires forall x: nat :: FreeAt(t, x) && r <= x < r + size ==> x in ex
      modifies `t, mem.data
      ensures Consistent(ex + {r}) && t == Fuse(old(t), r, r + size, alloc) && r in t && t[r] == Block(size, alloc)
      ensures KeepsLive(old(mem.data[..]), mem.data[..], t, FLOOR)
    {
      hide GetWord, Sorted, Threaded, KeepsLive, Tiled, Rooted;
      ghost var m, t0 := mem.data[..], t;
      FuseTags(t0, LO, FLOOR, mem.brk, r, r + size, alloc, m);
      FuseRooted(t0, mem.brk, r, r + size, alloc);
      FuseSorted(t0, mem.brk, r, r + size, alloc, lists, ex);
      t := Fuse(t, r, r + size, alloc);
      Housing(t, mem.brk, lists, ex + {r}, r);
      ghost var m1 := PutTags(mem, r, size, alloc, t, LO, FLOOR, mem.brk, {r});
      TagsKeepThreaded(m, m1, mem.data[..], t, mem.brk, r, lists);
      assert {r} - {r} == {};
    }

    /** coalesce: the free block bp, on no list yet, is merged and listed. */
    method Coalesce(bp: nat) returns (r: nat)
      requires Consistent({bp}) && FreeAt(t, bp) && NoAdjacentFreeBut(t, bp)
      modifies `t, `lists, mem.data
      ensures FLOOR <= bp && Valid()
      ensures var q := Prev(old(t), LO, FLOOR, old(mem.brk), bp);
              0 < old(t)[bp].size && t == Merged(old(t), q, bp) && r == MergeLow(old(t), q, bp)
      ensures |old(lists)| == NUM && St() == PrologueSpec.Coalesce(old(St()), bp) && r == CoalescedAt(old(St()), bp)
      ensures FreeAt(t, r) && FLOOR <= r && old(t)[bp].size <= t[r].size && LiveSame(old(t), t, FLOOR)
      ensures KeepsLive(old(mem.data[..]), mem.data[..], old(t), FLOOR)
    {
      hide GetWord, Represents, Tiled, Sorted, Threaded, Rooted, Fuse, Take, Put, KeepsLive, LiveWithin, NoAdjacentFree,
        Covered, OthersFree;
      ghost var m, u, hi := mem.data[..], t, mem.brk;
      ghost var m1, m2, ex := m, m, {bp};
      KeepsLiveRefl(m, t, FLOOR);
      FreeRoom(u, hi, bp);
      MergeFacts(u, hi, bp);
      RetagIsFuse(t, LO, FLOOR, hi, bp, false);
      var prev, next, prevAlloc, nextAlloc, size := Neighbours(mem, bp, t, LO, FLOOR, mem.brk);
      r := bp;
      if prevAlloc && nextAlloc {
        InsertFreenode(bp, {bp});
        assert {bp} - {bp} == {};
        return;
      } else if prevAlloc && !nextAlloc {
        var nextSize := BlockSize(mem, next, t, LO, FLOOR, mem.brk);
        size := size + nextSize;
        Unlist(next, {bp});
        m1 := mem.data[..];
        ex := {bp} + {next};
      } else if !prevAlloc && nextAlloc {
        var prevSize := BlockSize(mem, prev, t, LO, FLOOR, mem.brk);
        size := size + prevSize;
        Unlist(prev, {bp});
        m1 := mem.data[..];
        r := prev;
        ex := {bp} + {prev};
      } else {
        var prevSize := BlockSize(mem, prev, t, LO, FLOOR, mem.brk);
        var nextSize := BlockSize(mem, next, t, LO, FLOOR, mem.brk);
        size := size + prevSize + nextSize;
        Unlist(prev, {bp});
        m2 := mem.data[..];
        Unlist(next, {bp} + {prev});
        m1 := mem.data[..];
        KeepsLiveTrans(m, m2, m1, u, u, FLOOR) by {
          LiveRefl(u, FLOOR);
        }
        r := prev;
        ex := {bp} + {prev} + {next};
      }
      Retile(r, size, false, ex);
      m2 := mem.data[..];
      ghost var ex1 := ex + {r};
      InsertFreenode(r, ex1);
      MergedKeeps(m, m1, m2, mem.data[..], u, t);
      NothingPending(t, lists, ex1 - {r});
    }

    /** delete_freenode where tags and lists agree */
    method Unlist(bp: nat, ghost ex: set<nat>)
      requires Consistent(ex) && FreeAt(t, bp) && bp !in ex
      modifies `lists, mem.data
      ensures Consistent(ex + {bp}) && |old(lists)| == NUM && lists == Take(old(lists), bp, t[bp].size)
      ensures KeepsLive(old(mem.data[..]), mem.data[..], t, FLOOR)
    {
      hide GetWord, Tiled, Sorted, Threaded, Rooted, KeepsLive;
      ghost var m := mem.data[..];
      FreeCovered(t, mem.brk, ex);
      DeleteFreenode(bp, t, ex);
      StillRepresents(m, mem.data[..], t, mem.brk);
    }

    // ----- taking a block -----

    /** place: the tags of the allocated part are written while bp is still on its list,
        and only then is bp unlinked. */
    method Place(bp: nat, asize: nat)
      requires Valid() && FreeAt(t, bp) && asize % 8 == 0 && MIN_BLKSIZE <= asize <= t[bp].size
      modifies `t, `lists, mem.data
      ensures Valid() && LiveAdds(old(t), t, FLOOR, bp) && asize <= t[bp].size <= asize + 16
      ensures |old(lists)| == NUM && St() == PrologueSpec.Place(old(St()), bp, asize)
      ensures KeepsLive(old(mem.data[..]), mem.data[..], old(t), FLOOR)
    {
      hide GetWord, TaggedBut, Tiled, Sorted, Threaded, Rooted, Split, KeepsLive, LiveAdds, NoAdjacentFree, Take, Put, Fuse;
      ghost var m, u := mem.data[..], t;
      FreeRoom(t, mem.brk, bp);
      FreeSize(t, mem.brk, bp, asize);
      var csize := BlockSize(mem, bp, t, LO, FLOOR, mem.brk);
      if csize - asize >= MIN_BLKSIZE {
        SplitFacts(u, mem.brk, lists, bp, asize, m);
        t := Split(t, bp, asize);
        TakeFront(bp, asize, u, {bp} + {bp + asize});
        ghost var m1 := mem.data[..];
        var rest := TagRest(bp, asize, csize);
        ghost var m2 := mem.data[..];
        InsertFreenode(rest, {bp + asize});
        assert {bp + asize} - {bp + asize} == {};
        AddedKeeps(m, m1, m2, mem.data[..], u, t, bp);
      } else {
        RetagFacts(u, mem.brk, lists, bp, m);
        t := Retag(t, bp, true);
        TakeFront(bp, csize, u, {bp});
        RetaggedSorted(u, lists, bp);
        assert {bp} - {bp} == {};
        KeepsLiveSub(m, mem.data[..], u, t, FLOOR) by {
          AddedWithin(u, t, bp);
        }
      }
    }

    /** The tags of the part taken, and delete_freenode. */
    method TakeFront(bp: nat, size: nat, ghost u: Tiles, ghost ex: set<nat>)
      requires Framed() && Sorted(u, lists, {}) && Threaded(mem.data[..], lists) && FLOOR <= bp
      requires Covered(u, t, {}) && OthersFree(u, t, {}, bp) && FreeAt(u, bp) && AllHoused(t, lists)
      requires bp in t && t[bp] == Block(size, true) && MIN_BLKSIZE <= size && size % 8 == 0
      requires TaggedBut(mem.data[..], t, ex) && Epilogue(mem.data[..], mem.brk)
      modifies `lists, mem.data
      ensures Framed() && |old(lists)| == NUM && lists == Take(old(lists), bp, u[bp].size)
      ensures Sorted(u, lists, {bp}) && Threaded(mem.data[..], lists)
      ensures TaggedBut(mem.data[..], t, ex - {bp}) && Epilogue(mem.data[..], mem.brk)
      ensures KeepsLive(old(mem.data[..]), mem.data[..], t, FLOOR)
    {
      hide GetWord, Tiled, Sorted, Threaded, Rooted, KeepsLive, TaggedBut, Covered, OthersFree;
      ghost var m := mem.data[..];
      ghost var m1 := PutTags(mem, bp, size, true, t, LO, FLOOR, mem.brk, ex);
      ghost var m2 := mem.data[..];
      TagsKeepThreaded(m, m1, m2, t, mem.brk, bp, lists);
      DeleteFreenode(bp, u, {});
      assert {} + {bp} == {bp};
      StillTagged(m2, mem.data[..], t, mem.brk, ex - {bp});
      KeepsLiveTrans(m, m2, mem.data[..], t, t, FLOOR) by {
        LiveRefl(t, FLOOR);
      }
    }

    /** The tags of the part left over. */
    method TagRest(bp: nat, asize: nat, csize: nat) returns (rest: nat)
      requires Framed() && Sorted(t, lists, {bp + asize}) && Threaded(mem.data[..], lists)
      requires bp in t && t[bp] == Block(asize, true) && asize % 8 == 0 && 0 < asize && FLOOR <= bp
      requires MIN_BLKSIZE <= csize - asize && bp + asize in t && t[bp + asize] == Block(csize - asize, false)
      requires TaggedBut(mem.data[..], t, {bp} + {bp + asize} - {bp}) && Epilogue(mem.data[..], mem.brk)
      modifies mem.data
      ensures Consistent({bp + asize}) && rest == bp + asize
      ensures KeepsLive(old(mem.data[..]), mem.data[..], t, FLOOR)
    {
      hide GetWord, Tiled, Sorted, Threaded, Rooted, KeepsLive, TaggedBut;
      ghost var m := mem.data[..];
      Housing(t, mem.brk, lists, {bp + asize}, bp + asize);
      ReadTagsOf(m, t, bp, {bp} + {bp + asize} - {bp});
      rest := NextBlkp(mem, bp);
      ghost var m1 := PutTags(mem, rest, csize - asize, false, t, LO, FLOOR, mem.brk, {bp} + {bp + asize} - {bp});
      TagsKeepThreaded(m, m1, mem.data[..], t, mem.brk, rest, lists);
      NothingLeft(mem.data[..], t, bp, bp + asize);
    }

    // ----- the search -----

    /** The inner loop of find_fit: the list of one class, starting at its root. */
    method ScanList(class_: nat, asize: nat) returns (bp: nat)
      requires Valid() && class_ < NUM
      ensures |lists| == NUM && bp == FirstFit(t, lists[class_], 0, asize)
    {
      hide GetWord, Tiled, LinkWords, TaggedBut, ClassOf, NoAdjacentFree;
      ghost var m, k := mem.data[..], 0;
      ghost var l: seq<nat> := Chain(class_, lists[class_]);
      assert Linked(m, l, Root(class_), Pack(OVERHEAD, true), NODE);
      bp := GetRoot(class_);
      while bp != NULL
        invariant k <= |l| && bp == if k < |l| then l[k] else NULL
        invariant FirstFit(t, lists[class_], 0, asize) == FirstFit(t, lists[class_], if k == 0 then 0 else k - 1, asize)
        decreases |l| - k
      {
        ChainBlock(t, mem.brk, lists, class_, k);
        ReadNeighbours(m, t, LO, FLOOR, mem.brk, bp);
        if !GetAlloc(mem, bp - 4) && asize <= GetSize(mem, bp - 4) {
          return;
        }
        NodeLinks(m, l, Root(class_), Pack(OVERHEAD, true), k);
        bp := mem.Get(bp);
        k := k + 1;
      }
    }

    /** find_fit */
    method FindFit(asize: nat) returns (bp: nat)
      requires Valid() && MIN_BLKSIZE <= asize
      ensures |lists| == NUM && bp == PrologueSpec.FindFit(t, lists, ClassOf(asize), asize)
    {
      hide GetWord, Represents, Threaded, Rooted, Tiled, ClassOf, NoAdjacentFree, FirstFit;
      var class_ := GetClass(asize);
      var i := class_;
      while i < NUM
        invariant i <= NUM
        invariant PrologueSpec.FindFit(t, lists, class_, asize) == PrologueSpec.FindFit(t, lists, i, asize)
      {
        bp := ScanList(i, asize);
        if bp != NULL {
          return;
        }
        i := i + 1;
      }
      bp := NULL;
    }

    // ----- the heap and its clients -----

    /** extend_heap(words); bp is NULL if sbrk fails. */
    method ExtendHeap(words: nat) returns (bp: nat)
      requires Valid() && 6 <= words && EvenBytes(words) < WORD_SPAN
      modifies this, mem, mem.data
      ensures Valid()
      ensures EvenBytes(words) % 8 == 0 && heapListp == old(heapListp)
      ensures if old(mem.brk) + EvenBytes(words) > MAX_HEAP
              then bp == NULL && St() == old(St()) && mem.data[..] == old(mem.data[..])
              else bp != NULL && MIN_BLKSIZE <= EvenBytes(words) && Inv(old(St()))
                   && St() == Extend(old(St()), EvenBytes(words)) && bp == ExtendAt(old(St()), EvenBytes(words))
      ensures KeepsLive(old(mem.data[..]), mem.data[..], old(t), FLOOR)
    {
      hide GetWord, TaggedBut, Tiled, Sorted, Threaded, Rooted, KeepsLive, LiveWithin, NoAdjacentFree, PrologueSpec.Coalesce;
      ghost var m, u, hi := mem.data[..], t, mem.brk;
      StateOk();
      EvenBytesOk(words);
      var size := if words % 2 == 1 then (words + 1) * 4 else words * 4;
      hide EvenBytes;
      var p := mem.Sbrk(ToInt(size));
      if p == -1 {
        KeepsLiveRefl(m, t, FLOOR);
        return NULL;
      }
      GrowFacts(u, hi, lists, size, m);
      t := t[p := Block(size, false)];
      TagNewBlock(p, size, hi);
      ghost var m1, g := mem.data[..], t;
      bp := Coalesce(p);
      KeepsLiveTrans(m, m1, mem.data[..], u, g, FLOOR) by {
        GrownKeeps(m, m1, u, g);
      }
    }

    /** The three PUTs of extend_heap: the new block's tags and the new epilogue. */
    method TagNewBlock(bp: nat, size: nat, ghost hi: nat)
      requires Framed() && Sorted(t, lists, {bp}) && Threaded(mem.data[..], lists)
      requires bp in t && t[bp] == Block(size, false) && FLOOR <= bp && MIN_BLKSIZE <= size && size % 8 == 0 && bp + size == mem.brk
      requires TaggedBut(mem.data[..], t, {bp})
      modifies mem.data
      ensures Consistent({bp})
      ensures KeepsLive(old(mem.data[..]), mem.data[..], t, FLOOR)
    {
      hide GetWord, Tiled, Sorted, Threaded, Rooted, KeepsLive, TaggedBut;
      ghost var m := mem.data[..];
      Housing(t, mem.brk, lists, {bp}, bp);
      ghost var m1 := PutTags(mem, bp, size, false, t, LO, FLOOR, mem.brk, {bp});
      ghost var m2 := mem.data[..];
      TagsKeepThreaded(m, m1, m2, t, mem.brk, bp, lists);
      assert {bp} - {bp} == {};
      ReadTagsOf(m2, t, bp, {});
      PackParts(0, true);
      mem.Put(NextBlkp(mem, bp) - 4, Pack(0, true));
      EpilogueWrite(m2, mem.data[..], t, LO, FLOOR, mem.brk);
      EpilogueKeepsThreaded(m2, mem.data[..], t, mem.brk, lists);
      KeepsLiveTrans(m, m2, mem.data[..], t, t, FLOOR) by {
        LiveRefl(t, FLOOR);
      }
    }

    /** mm_malloc */
    method Malloc(size: Word) returns (bp: nat)
      requires Valid() && size + 15 < WORD_SPAN
      modifies this, mem, mem.data
      ensures Valid() && heapListp == old(heapListp)
      ensures Inv(old(St())) && (St(), bp) == PrologueSpec.Malloc(old(St()), size)
      ensures bp == NULL ==> mem.data[..] == old(mem.data[..])
      ensures bp != NULL ==> bp in t && 8 <= t[bp].size && NewBlock(old(Heap()), Heap(), bp, t[bp].size - 8)
      ensures KeepsLive(old(mem.data[..]), mem.data[..], old(t), FLOOR)
      ensures PrologueLaw.MallocLaw(old(St()), size, St(), bp)
    {
      hide PrologueLaw.MallocLaw;
      ghost var m, s := mem.data[..], St();
      bp := MallocBlock(size);
      MallocOutcome(s, size);
      PrologueLaw.MallocLawful(s, size);
      if bp != NULL {
        hide GetWord, Represents, BlocksOk, Chained, Apart, Sorted, Threaded, Rooted, KeepsLive, LiveAdds, NoAdjacentFree, PrologueSpec.Malloc;
        NewBlockSeen(m, mem.data[..], s.t, t, LO, FLOOR, mem.brk, bp);
      }
    }

    /** The body of mm_malloc */
    method MallocBlock(size: Word) returns (bp: nat)
      requires Valid() && size + 15 < WORD_SPAN
      modifies this, mem, mem.data
      ensures Valid() && heapListp == old(heapListp)
      ensures Inv(old(St())) && (St(), bp) == PrologueSpec.Malloc(old(St()), size)
      ensures bp == NULL ==> mem.data[..] == old(mem.data[..])
      ensures KeepsLive(old(mem.data[..]), mem.data[..], old(t), FLOOR)
    {
      hide GetWord, Consistent, KeepsLive, LiveWithin, NoAdjacentFree, Fits, Inv, PrologueSpec.Place, Extend, ExtendAt, PrologueSpec.FindFit, ClassOf;
      ghost var m, s := mem.data[..], St();
      StateOk();
      if size == 0 {
        KeepsLiveRefl(m, t, FLOOR);
        return NULL;
      }
      FoundOk(s, size);
      BlockForOk(size);
      var asize := Max(Asize(size), MIN_BLKSIZE);
      hide BlockFor;
      bp := FindFit(asize);
      if bp != NULL {
        Place(bp, asize);
        return;
      }
      var extendsize := Max(asize, CHUNKSIZE);
      Quarter(extendsize);
      bp := ExtendHeap(extendsize / 4);
      if bp == NULL {
        return;
      }
      ExtendInv(s, extendsize);
      ghost var m1, t1 := mem.data[..], t;
      Place(bp, asize);
      KeepsLiveTrans(m, m1, mem.data[..], s.t, t1, FLOOR);
    }

    /** mm_free; freeing NULL does nothing. */
    method Free(bp: nat)
      requires Valid() && (bp != NULL ==> IsLive(t, FLOOR, bp))
      modifies `t, `lists, mem.data
      ensures Valid()
      ensures bp == NULL ==> t == old(t) && lists == old(lists) && mem.data[..] == old(mem.data[..])
      ensures bp != NULL ==> Inv(old(St())) && St() == PrologueSpec.Free(old(St()), bp) && FreeStep(old(Heap()), Heap(), bp)
      ensures KeepsLive(old(mem.data[..]), mem.data[..], t, FLOOR)
      ensures bp != NULL ==> PrologueLaw.FreeLaw(old(St()), bp, St())
    {
      hide GetWord, Represents, Tiled, Sorted, Threaded, Rooted, KeepsLive, LiveAdds, NoAdjacentFree, LiveWithin, Fuse, Take, Put,
        PrologueSpec.Coalesce, Merged, MergeLow, PrologueLaw.FreeLaw;
      ghost var m, u := mem.data[..], t;
      if bp == NULL {
        KeepsLiveRefl(m, t, FLOOR);
        return;
      }
      StateOk();
      PrologueLaw.FreeLawful(St(), bp);
      FreedPartial(St(), bp);
      FreeReady(u, mem.brk, bp);
      var size := BlockSize(mem, bp, t, LO, FLOOR, mem.brk);
      Retile(bp, size, false, {});
      ghost var m1, f := mem.data[..], t;
      assert {} + {bp} == {bp};
      var r := Coalesce(bp);
      FreedKeeps(m, m1, mem.data[..], u, f, t, bp);
      DropSeen(m, mem.data[..], u, t, FLOOR, bp);
    }

    /** mm_init */
    method Init() returns (r: int)
      requires mem.Valid() && mem.brk == 0
      modifies this, mem, mem.data
      ensures r == 0 && Valid() && St() == Initial()
    {
      hide GetWord, Tiled, Sorted, Threaded, Rooted, NoAdjacentFree, TaggedBut, ClassOf, Roots, Extend, ExtendAt;
      var p := mem.Sbrk(8 + NUM * 8 * 2);
      heapListp := p;
      mem.Put(heapListp, 0);
      mem.Put(heapListp + 2 * NUM * 8 + 4, Pack(0, true));
      heapListp := heapListp + 8;
      LayRoots();
      t, lists := Roots(), seq(NUM, _ => []);
      RootsOk();
      RootsHeld(mem.data[..]);
      EvenBytesOk(CHUNKSIZE / 4);
      var bp := ExtendHeap(CHUNKSIZE / 4);
      if bp == NULL {
        return -1;
      }
      r := 0;
    }

    /** The loop of mm_init that builds the roots */
    method LayRoots()
      requires mem.Valid() && heapListp == LO
      modifies mem.data
      ensures RootWords(mem.data[..], NUM)
      ensures GetWord(mem.data[..], FLOOR - 4) == GetWord(old(mem.data[..]), FLOOR - 4)
    {
      hide GetWord;
      var i := 0;
      while i < NUM
        invariant i <= NUM && RootWords(mem.data[..], i)
        invariant GetWord(mem.data[..], FLOOR - 4) == GetWord(old(mem.data[..]), FLOOR - 4)
      {
        LayRoot(i);
        i := i + 1;
      }
    }

    method LayRoot(i: nat)
      requires mem.Valid() && heapListp == LO && i < NUM && RootWords(mem.data[..], i)
      modifies mem.data
      ensures RootWords(mem.data[..], i + 1)
      ensures GetWord(mem.data[..], FLOOR - 4) == GetWord(old(mem.data[..]), FLOOR - 4)
    {
      hide GetWord;
      var root := GetRoot(i);
      mem.Put(root - 4, Pack(OVERHEAD, true));
      mem.Put(root, NULL);
      mem.Put(root + 8, Pack(OVERHEAD, true));
    }
  }

  /** What insert_freenode reads, and where it may write. */
  lemma InsertFacts(m: Mem, t: Tiles, hi: nat, lists: Lists, ex: set<nat>, c: nat, bp: nat)
    requires Tiled(t, LO, FLOOR, hi) && Rooted(t) && hi <= |m| && Sorted(t, lists, ex) && Threaded(m, lists)
    requires FreeAt(t, bp) && bp in ex && c == ClassOf(t[bp].size)
    ensures var l: seq<nat> := Chain(c, lists[c]);
            && l[0] == Root(c) && Root(c) + 4 <= |m| && bp + 12 <= |m| && Root(c) != NULL && bp != NULL
            && GetWord(m, Root(c)) == (if 1 < |l| then l[1] else NULL)
            && (1 < |l| ==> l[1] != NULL && l[1] + 12 <= |m|)
  {
    hide GetWord, ClassOf, LinkWords;
    var l: seq<nat> := Chain(c, lists[c]);
    assert Linked(m, l, Root(c), Pack(OVERHEAD, true), NODE);
    NodeLinks(m, l, Root(c), Pack(OVERHEAD, true), 0);
    FreeRoom(t, hi, bp);
    if 1 < |l| {
      NodeLinks(m, l, Root(c), Pack(OVERHEAD, true), 1);
    }
  }

  lemma NodeLinks(m: Mem, l: seq<nat>, head: nat, root: nat, k: nat)
    requires Linked(m, l, head, root, NODE) && k < |l|
    ensures l[k] + 12 <= |m| && 0 < l[k]
    ensures GetWord(m, l[k]) == After(l, k) && GetWord(m, l[k] + 8) == Before(l, k, root)
  {
    hide GetWord;
    assert NodeAt(m, l, k, root, NODE);
  }

  /** Where bp stands, and what delete_freenode reads there. */
  lemma DeleteFacts(m: Mem, u: Tiles, t: Tiles, hi: nat, lists: Lists, ex: set<nat>, bp: nat) returns (c: nat, k: nat)
    requires Sorted(u, lists, ex) && Threaded(m, lists) && FreeAt(u, bp) && bp !in ex
    ensures c == ClassOf(u[bp].size) && c < NUM && k < |lists[c]| && lists[c][k] == bp
    ensures Without(lists[c], bp) == RemoveAt(lists[c], k)
    ensures var l: seq<nat> := Chain(c, lists[c]);
            && bp + 12 <= |m| && l[k + 1] == bp
            && GetWord(m, bp) == After(l, k + 1) && GetWord(m, bp + 8) == l[k] && l[k] + 12 <= |m|
            && (k + 2 < |l| ==> l[k + 2] != NULL && l[k + 2] + 12 <= |m|)
  {
    hide GetWord, ClassOf, LinkWords;
    c := ClassOf(u[bp].size);
    assert bp in lists[c];
    k := IndexOf(lists[c], bp);
    var l: seq<nat> := Chain(c, lists[c]);
    assert Linked(m, l, Root(c), Pack(OVERHEAD, true), NODE);
    NodeLinks(m, l, Root(c), Pack(OVERHEAD, true), k);
    NodeLinks(m, l, Root(c), Pack(OVERHEAD, true), k + 1);
    if k + 2 < |l| {
      NodeLinks(m, l, Root(c), Pack(OVERHEAD, true), k + 2);
    }
  }

  lemma Housing(t: Tiles, hi: nat, lists: Lists, ex: set<nat>, p: nat)
    requires Tiled(t, LO, FLOOR, hi) && Rooted(t) && Sorted(t, lists, ex) && p in t && FLOOR <= p
    ensures |lists| == NUM && AllHoused(t, lists) && MIN_BLKSIZE <= t[p].size
  {
    hide ClassOf;
    FreeCovered(t, hi, ex);
    ListsHoused(t, t, lists, ex);
  }

  /** What is free around the pending block p, and what merging it with that gives. */
  lemma MergeFacts(t: Tiles, hi: nat, p: nat)
    requires Tiled(t, LO, FLOOR, hi) && FreeAt(t, p) && NoAdjacentFreeBut(t, p)
    ensures FLOOR <= p && 0 < t[p].size
    ensures var q, n := Prev(t, LO, FLOOR, hi, p), Next(t, p);
            var r, e := MergeLow(t, q, p), MergeHigh(t, p);
            && r in t && FLOOR <= r < e && (e in t || e == hi) && q != n && p != n
            && (forall x: nat :: FreeAt(t, x) && r <= x < e ==>
                  x == p || (x == q && FreeAt(t, q)) || (x == n && FreeAt(t, n)))
            && Tiled(Merged(t, q, p), LO, FLOOR, hi) && NoAdjacentFree(Merged(t, q, p))
            && LiveSame(t, Merged(t, q, p), FLOOR)
            && r in Merged(t, q, p) && Merged(t, q, p)[r].size >= t[p].size
            && (FreeAt(t, n) ==> !FreeAt(Merged(t, q, p), n)) && (r != p ==> !FreeAt(Merged(t, q, p), p))
  {
    assert BlockOk(t[p], p, LO, FLOOR, hi);
    var q, n := Prev(t, LO, FLOOR, hi, p), Next(t, p);
    MergedTiled(t, LO, FLOOR, hi, q, p);
    MergedNoAdjacent(t, LO, FLOOR, hi, q, p);
    MergedLive(t, LO, FLOOR, hi, q, p);
    hide NoAdjacentFree, NoAdjacentFreeBut, LiveWithin;
    assert FreeAt(t, n) ==> Next(t, n) == hi || Next(t, n) in t;
    assert BlockOk(t[q], q, LO, FLOOR, hi);
  }

  lemma MergedKeeps(m: Mem, m1: Mem, m2: Mem, m3: Mem, u: Tiles, t: Tiles)
    requires KeepsLive(m, m1, u, FLOOR) && KeepsLive(m1, m2, t, FLOOR) && KeepsLive(m2, m3, t, FLOOR)
    requires LiveWithin(u, t, FLOOR)
    ensures KeepsLive(m, m3, u, FLOOR)
  {
    hide KeepsLive;
    KeepsLiveTrans(m, m1, m2, u, t, FLOOR);
    KeepsLiveTrans(m, m2, m3, u, t, FLOOR);
  }

  /** After a merge no free block is left out of the lists. */
  lemma NothingPending(t: Tiles, lists: Lists, ex: set<nat>)
    requires Sorted(t, lists, ex)
    requires forall x: nat :: x in ex ==> !FreeAt(t, x)
    ensures Sorted(t, lists, {})
  {
    hide ClassOf;
  }

  /** Cutting a listed block: the tiling aimed at, while tags and lists are still old. */
  lemma SplitFacts(u: Tiles, hi: nat, lists: Lists, p: nat, a: nat, m: Mem)
    requires Tiled(u, LO, FLOOR, hi) && Rooted(u) && NoAdjacentFree(u) && FreeAt(u, p) && FLOOR <= p
    requires a % 8 == 0 && MIN_BLKSIZE <= a && a + MIN_BLKSIZE <= u[p].size
    requires Sorted(u, lists, {}) && TaggedBut(m, u, {})
    ensures var t := Split(u, p, a);
            && Tiled(t, LO, FLOOR, hi) && Rooted(t) && NoAdjacentFree(t) && LiveAdds(u, t, FLOOR, p)
            && TaggedBut(m, t, {p} + {p + a}) && Covered(u, t, {}) && OthersFree(u, t, {}, p)
            && |lists| == NUM && AllHoused(t, lists)
            && p in t && t[p] == Block(a, true) && p + a in t && t[p + a] == Block(u[p].size - a, false)
            && Sorted(t, Take(lists, p, u[p].size), {p + a})
  {
    SplitTiled(u, LO, FLOOR, hi, p, a);
    SplitNoAdjacent(u, LO, FLOOR, hi, p, a);
    SplitLive(u, LO, FLOOR, hi, p, a);
    SplitRooted(u, hi, p, a);
    SplitTags(u, p, a, m);
    FreeCovered(u, hi, {});
    hide Tiled, NoAdjacentFree, LiveAdds, TaggedBut, Rooted, Take;
    SplitLists(u, lists, p, a);
  }

  lemma SplitLists(u: Tiles, lists: Lists, p: nat, a: nat)
    requires FreeAt(u, p) && FLOOR <= p && 0 < a <= u[p].size && p + a !in u
    requires Rooted(Split(u, p, a)) && Covered(u, u, {}) && Sorted(u, lists, {})
    ensures Covered(u, Split(u, p, a), {}) && OthersFree(u, Split(u, p, a), {}, p)
    ensures |lists| == NUM && AllHoused(Split(u, p, a), lists)
    ensures Sorted(Split(u, p, a), Take(lists, p, u[p].size), {p + a})
  {
    var t := Split(u, p, a);
    ListsHoused(u, t, lists, {}) by {
      assert Covered(u, t, {});
    }
    TakeSorted(u, lists, {}, p);
    assert {} + {p} == {p};
    hide Sorted, Rooted;
    SplitSorted(u, Take(lists, p, u[p].size), p, a);
  }

  lemma RetagFacts(u: Tiles, hi: nat, lists: Lists, p: nat, m: Mem)
    requires Tiled(u, LO, FLOOR, hi) && Rooted(u) && NoAdjacentFree(u) && FreeAt(u, p) && FLOOR <= p
    requires Sorted(u, lists, {}) && TaggedBut(m, u, {})
    ensures var t := Retag(u, p, true);
            && Tiled(t, LO, FLOOR, hi) && Rooted(t) && NoAdjacentFree(t) && LiveAdds(u, t, FLOOR, p)
            && TaggedBut(m, t, {p}) && Covered(u, t, {}) && OthersFree(u, t, {}, p)
            && |lists| == NUM && AllHoused(t, lists)
            && t[p] == Block(u[p].size, true)
  {
    RetagTiled(u, LO, FLOOR, hi, p, true);
    RetagNoAdjacent(u, p);
    RetagLive(u, LO, FLOOR, hi, p);
    FreeCovered(u, hi, {});
    FreeRoom(u, hi, p);
    hide Tiled, NoAdjacentFree, LiveAdds, Tagged;
    RetagRooted(u, p, true);
    ListsHoused(u, Retag(u, p, true), lists, {});
  }

  lemma AddedWithin(u: Tiles, t: Tiles, p: nat)
    requires LiveAdds(u, t, FLOOR, p)
    ensures LiveWithin(u, t, FLOOR)
  {
  }

  lemma AddedKeeps(m: Mem, m1: Mem, m2: Mem, m3: Mem, u: Tiles, t: Tiles, p: nat)
    requires LiveAdds(u, t, FLOOR, p)
    requires KeepsLive(m, m1, t, FLOOR) && KeepsLive(m1, m2, t, FLOOR) && KeepsLive(m2, m3, t, FLOOR)
    ensures KeepsLive(m, m3, u, FLOOR)
  {
    hide KeepsLive;
    LiveRefl(t, FLOOR);
    AddedWithin(u, t, p);
    KeepsLiveTrans(m, m1, m2, t, t, FLOOR);
    KeepsLiveTrans(m, m2, m3, t, t, FLOOR);
    KeepsLiveSub(m, m3, u, t, FLOOR);
  }

  lemma StillTagged(m: Mem, m': Mem, t: Tiles, hi: nat, ex: set<nat>)
    requires TaggedBut(m, t, ex) && Epilogue(m, hi) && KeepsTags(m, m', t, hi)
    ensures TaggedBut(m', t, ex) && Epilogue(m', hi)
  {
    hide GetWord;
    forall p | p in t && p !in ex
      ensures Tagged(m', p, t[p])
    {
      assert Tagged(m, p, t[p]);
    }
  }

  lemma ChainBlock(t: Tiles, hi: nat, lists: Lists, c: nat, k: nat)
    requires Tiled(t, LO, FLOOR, hi) && Rooted(t) && Sorted(t, lists, {}) && c < NUM && k <= |lists[c]|
    ensures Chain(c, lists[c])[k] in t
    ensures k == 0 ==> t[Chain(c, lists[c])[k]].alloc
    ensures k > 0 ==> FreeAt(t, Chain(c, lists[c])[k]) && ClassOf(t[Chain(c, lists[c])[k]].size) == c
  {
    hide ClassOf, Tiled;
    if k > 0 {
      assert lists[c][k - 1] in lists[c];
    } else {
      assert Root(c) in t;
    }
  }

  lemma GrowFacts(t: Tiles, hi: nat, lists: Lists, size: nat, m: Mem)
    requires Tiled(t, LO, FLOOR, hi) && Rooted(t) && NoAdjacentFree(t) && Sorted(t, lists, {})
    requires size % 8 == 0 && MIN_BLKSIZE <= size && TaggedBut(m, t, {})
    ensures hi !in t && FLOOR <= hi
    ensures var g := t[hi := Block(size, false)];
            && Tiled(g, LO, FLOOR, hi + size) && Rooted(g) && Sorted(g, lists, {hi}) && TaggedBut(m, g, {hi})
            && NoAdjacentFreeBut(g, hi) && LiveSame(t, g, FLOOR)
  {
    GrowTiled(t, LO, FLOOR, hi, size);
    GrowRooted(t, hi, size);
    GrowSorted(t, hi, size, lists);
    hide BlocksOk, Apart, Chained, Rooted, Sorted, Tagged;
    var g := t[hi := Block(size, false)];
    forall x | FreeAt(g, x) && x != hi && Next(g, x) != hi
      ensures !FreeAt(g, Next(g, x))
    {
      assert Next(g, x) == Next(t, x);
    }
  }

  lemma GrownKeeps(m: Mem, m1: Mem, u: Tiles, g: Tiles)
    requires KeepsLive(m, m1, g, FLOOR) && LiveSame(u, g, FLOOR)
    ensures KeepsLive(m, m1, u, FLOOR)
  {
    KeepsLiveSub(m, m1, u, g, FLOOR);
  }

  /** What mm_free finds around the block it is given. */
  lemma FreeReady(t: Tiles, hi: nat, p: nat)
    requires Tiled(t, LO, FLOOR, hi) && IsLive(t, FLOOR, p)
    ensures 16 <= t[p].size && (Next(t, p) in t || Next(t, p) == hi)
    ensures forall x: nat :: FreeAt(t, x) ==> x < p || Next(t, p) <= x
    ensures Fuse(t, p, Next(t, p), false) == Retag(t, p, false)
  {
    assert BlockOk(t[p], p, LO, FLOOR, hi);
    RetagIsFuse(t, LO, FLOOR, hi, p, false);
  }

  lemma FreedKeeps(m: Mem, m1: Mem, m2: Mem, u: Tiles, f: Tiles, t: Tiles, p: nat)
    requires KeepsLive(m, m1, f, FLOOR) && KeepsLive(m1, m2, f, FLOOR)
    requires LiveAdds(f, u, FLOOR, p) && LiveSame(f, t, FLOOR)
    ensures KeepsLive(m, m2, t, FLOOR) && LiveAdds(t, u, FLOOR, p)
  {
    hide KeepsLive;
    LiveRefl(f, FLOOR);
    KeepsLiveTrans(m, m1, m2, f, f, FLOOR);
    KeepsLiveSub(m, m2, t, f, FLOOR);
  }

  /** The first n roots are in memory: two tags and an empty list each. */
  ghost predicate RootWords(m: Mem, n: nat) {
    && |m| == MAX_HEAP && n <= NUM
    && forall c: nat {:trigger Root(c)} :: c < n ==>
         && GetWord(m, Root(c) - 4) == Pack(OVERHEAD, true) && GetWord(m, Root(c)) == NULL
         && GetWord(m, Root(c) + 8) == Pack(OVERHEAD, true)
  }

  lemma RootsHeld(m: Mem)
    requires RootWords(m, NUM) && GetWord(m, FLOOR - 4) == Pack(0, true)
    ensures Represents(m, Roots(), FLOOR)
    ensures Threaded(m, seq(NUM, _ => []))
  {
    hide GetWord;
    forall p | p in Roots()
      ensures Tagged(m, p, Block(OVERHEAD, true))
    {
      assert p == Root((p - 8) / 16);
    }
    forall c | 0 <= c < NUM
      ensures Linked(m, Chain(c, []), Root(c), Pack(OVERHEAD, true), NODE)
    {
      assert Root(c) >= 8;
      assert NodeAt(m, Chain(c, []), 0, Pack(OVERHEAD, true), NODE);
    }
  }
}

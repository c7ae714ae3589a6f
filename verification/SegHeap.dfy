/** The heap under the segregated lists, and the steps the list allocators share:
    reading and rewriting boundary tags while the lists stay in place. */
module SegHeap {
  import opened Memory
  import opened Tiling
  import opened Tags
  import opened Links
  import opened SizeClasses
  import opened SegLists
  import opened SegSpec
  import opened SegPlace
  import opened Requests

  class SegregatedHeap {
    const mem: MemLib
    const index: SegregatedLists
    ghost var t: Tiles

    constructor (mem: MemLib, f: nat, b: nat)
      requires (f == 0 && b == 4) || (f == 4 && b == 0)
      ensures this.mem == mem && index.mem == mem && index.f == f && index.b == b
      ensures fresh(index) && fresh(index.roots) && index.Shaped()
    {
      this.mem := mem;
      index := new SegregatedLists(mem, f, b);
      t := map[];
    }

    ghost function St(): State
      reads this, mem, index
    {
      State(t, index.lists, mem.brk)
    }

    /** The blocks are tagged as t says; all free blocks outside ex are on their lists. */
    ghost predicate Consistent(ex: set<nat>)
      reads this, mem, mem.data, index, index.roots
    {
      && index.mem == mem
      && index.Valid(t, LO, FLOOR, mem.brk, ex)
      && Represents(mem.data[..], t, mem.brk)
      && t[LO] == Block(DSIZE, true)
    }

    ghost predicate Valid()
      reads this, mem, mem.data, index, index.roots
    {
      Consistent({}) && NoAdjacentFree(t)
    }

    lemma ValidState()
      requires Valid()
      ensures Inv(St())
    {
      hide Tiled, Sorted, NoAdjacentFree;
    }

    lemma PartialState(ex: set<nat>)
      requires Consistent(ex)
      ensures Partial(St(), ex) && mem.Valid()
    {
      hide Tiled, Sorted;
    }

    /** insert_block / insert_node / put_free */
    method Insert(bp: nat, size: nat, ghost ex: set<nat>)
      requires Consistent(ex) && FreeAt(t, bp) && bp in ex && size == t[bp].size
      modifies index, index.roots, mem.data
      ensures Consistent(ex - {bp})
      ensures |old(index.lists)| == LISTLIMIT && index.lists == Put(old(index.lists), bp, size)
      ensures KeepsLive(old(mem.data[..]), mem.data[..], t, FLOOR)
    {
      hide GetWord, Tiled, Sorted, Threaded, KeepsLive;
      ghost var m := mem.data[..];
      TwentyLists(St(), ex) by {
        PartialState(ex);
      }
      Readable(m, t, LO, FLOOR, mem.brk);
      index.InsertBlock(bp, size, t, LO, FLOOR, mem.brk, ex);
      StillRepresents(m, mem.data[..], t, mem.brk);
    }

    /** remove_block / delete_node / remove_free */
    method Remove(bp: nat, ghost ex: set<nat>)
      requires Consistent(ex) && FreeAt(t, bp) && bp !in ex
      modifies index, index.roots, mem.data
      ensures Consistent(ex + {bp})
      ensures |old(index.lists)| == LISTLIMIT && index.lists == Take(old(index.lists), bp, t[bp].size)
      ensures KeepsLive(old(mem.data[..]), mem.data[..], t, FLOOR)
    {
      hide GetWord, Tiled, Sorted, Threaded, KeepsLive;
      ghost var m := mem.data[..];
      TwentyLists(St(), ex) by {
        PartialState(ex);
      }
      Readable(m, t, LO, FLOOR, mem.brk);
      index.RemoveBlock(bp, t, LO, FLOOR, mem.brk, ex);
      StillRepresents(m, mem.data[..], t, mem.brk);
    }

    /** The blocks from r on, size bytes in all, become one block with fresh tags. */
    method Retile(r: nat, size: nat, alloc: bool, ghost ex: set<nat>)
      requires Consistent(ex)
      requires r in t && FLOOR <= r && 0 < size && (r + size in t || r + size == mem.brk)
      requires forall x: nat :: FreeAt(t, x) && r <= x < r + size ==> x in ex
      modifies `t, mem.data
      ensures Consistent(ex + {r})
      ensures t == Fuse(old(t), r, r + size, alloc) && t[r] == Block(size, alloc)
      ensures KeepsLive(old(mem.data[..]), mem.data[..], t, FLOOR)
    {
      hide GetWord, Sorted, Threaded, KeepsLive, Tiled;
      ghost var m, s := mem.data[..], St();
      FuseTags(s.t, LO, FLOOR, mem.brk, r, r + size, alloc, m);
      FuseSorted(s.t, LO, FLOOR, mem.brk, r, r + size, alloc, index.lists, ex);
      t := Fuse(t, r, r + size, alloc);
      ghost var m1 := PutTags(mem, r, size, alloc, t, LO, FLOOR, mem.brk, {r});
      TagsKeepThreaded(m, m1, mem.data[..], t, LO, FLOOR, mem.brk, r, index.lists, index.roots[..], index.Sh(), ex + {r});
      assert {r} - {r} == {};
    }

    lemma Settled(ex: set<nat>)
      requires Consistent(ex) && Inv(St())
      ensures Valid()
    {
      hide Tiled, Sorted, NoAdjacentFree, Represents;
    }

    /** coalesce: the free block bp, on no list yet, is merged and listed. */
    method Coalesce(bp: nat) returns (r: nat)
      requires Consistent({bp}) && FreeAt(t, bp) && NoAdjacentFreeBut(t, bp)
      modifies `t, index, index.roots, mem.data
      ensures FLOOR <= bp && |old(index.lists)| == LISTLIMIT && Partial(old(St()), {bp})
      ensures Valid() && St() == SegSpec.Coalesce(old(St()), bp) && r == CoalescedAt(old(St()), bp)
      ensures KeepsLive(old(mem.data[..]), mem.data[..], old(t), FLOOR)
    {
      hide GetWord, Represents, Tiled, Sorted, Threaded, Inv, Fuse, Take, Put, KeepsLive, LiveWithin;
      ghost var m, s := mem.data[..], St();
      ghost var m1, m2, ex := m, m, {bp};
      KeepsLiveRefl(m, t, FLOOR);
      PartialState({bp});
      CoalesceInv(s, bp);
      MergeFacts(s, bp);
      RetagIsFuse(t, LO, FLOOR, mem.brk, bp, false);
      var prev, next, prevAlloc, nextAlloc, size := Neighbours(mem, bp, t, LO, FLOOR, mem.brk);
      r := bp;
      if prevAlloc && nextAlloc {
        Insert(bp, size, {bp});
        Settled({bp} - {bp});
        return;
      } else if prevAlloc && !nextAlloc {
        Remove(next, {bp});
        m1 := mem.data[..];
        var nextSize := BlockSize(mem, next, t, LO, FLOOR, mem.brk);
        size := size + nextSize;
        ex := {bp} + {next};
      } else if !prevAlloc && nextAlloc {
        Remove(prev, {bp});
        m1 := mem.data[..];
        var prevSize := BlockSize(mem, prev, t, LO, FLOOR, mem.brk);
        size := size + prevSize;
        r := prev;
        ex := {bp} + {prev};
      } else {
        Remove(prev, {bp});
        m2 := mem.data[..];
        Remove(next, {bp} + {prev});
        m1 := mem.data[..];
        KeepsLiveTrans(m, m2, m1, s.t, s.t, FLOOR);
        var prevSize := BlockSize(mem, prev, t, LO, FLOOR, mem.brk);
        var nextSize := BlockSize(mem, next, t, LO, FLOOR, mem.brk);
        size := size + prevSize + nextSize;
        r := prev;
        ex := {bp} + {prev} + {next};
      }
      Retile(r, size, false, ex);
      m2 := mem.data[..];
      Insert(r, size, ex + {r});
      KeepsLiveTrans(m, m1, m2, s.t, t, FLOOR);
      KeepsLiveTrans(m, m2, mem.data[..], s.t, t, FLOOR);
      Settled(ex + {r} - {r});
    }

    /** The inner loop of the search: the first block of asize bytes on one list. */
    method Scan(list: nat, asize: nat) returns (bp: nat)
      requires Valid() && list < LISTLIMIT
      ensures |index.lists| == LISTLIMIT && bp == FirstFit(t, index.lists[list], 0, asize)
    {
      hide GetWord, Tiled, LinkWords, Sorted, NoAdjacentFree, TaggedBut;
      ghost var m, l, k := mem.data[..], index.lists[list], 0;
      TwentyListsOf(t, index.lists, {});
      ListInTiling(t, index.lists, {}, list);
      Readable(m, t, LO, FLOOR, mem.brk);
      bp := index.roots[list];
      assert Linked(m, l, index.roots[..][list], NULL, index.Sh());
      while bp != NULL && asize > GetSize(mem, bp - 4)
        invariant k <= |l| && bp == if k < |l| then l[k] else NULL
        invariant FirstFit(t, l, k, asize) == FirstFit(t, l, 0, asize)
        invariant bp != NULL ==> k < |l| && bp in t && 4 <= bp <= mem.data.Length
        decreases |l| - k
      {
        NodeAtOf(m, l, index.roots[list], NULL, index.Sh(), k);
        bp := mem.Get(bp + index.f);
        k := k + 1;
      }
    }

    /** find_fit, or the search loop of mm_malloc */
    method FindFit(asize: nat) returns (bp: nat)
      requires Valid()
      ensures |index.lists| == LISTLIMIT && bp == SegSpec.FindFit(t, index.lists, ClassOf(asize), asize)
    {
      hide Consistent, FirstFit;
      var list, searchsize := 0, asize;
      ghost var c := ClassOf(asize);
      RootsAgree(asize);
      assert ClassFrom(asize, 0) == c;
      hide ClassFrom, ClassOf;
      while list < LISTLIMIT
        invariant list <= LISTLIMIT
        invariant list <= c && list < LISTLIMIT ==> ClassFrom(searchsize, list) == c
        invariant list > c ==> searchsize <= 1 || list == LISTLIMIT
        invariant SegSpec.FindFit(t, index.lists, c, asize) == SegSpec.FindFit(t, index.lists, Max(list, c), asize)
      {
        if list == LISTLIMIT - 1 || (searchsize <= 1 && index.roots[list] != NULL) {
          bp := Scan(list, asize);
          if bp != NULL {
            return;
          }
        }
        ClassStep(searchsize, list);
        searchsize := searchsize / 2;
        list := list + 1;
      }
      bp := NULL;
    }

    lemma RootsAgree(asize: nat)
      requires Valid()
      ensures |index.lists| == LISTLIMIT && index.roots.Length == LISTLIMIT
      ensures forall c :: 0 <= c < LISTLIMIT && index.roots[c] == NULL ==> FirstFit(t, index.lists[c], 0, asize) == NULL
    {
      hide GetWord, Tiled, LinkWords, Sorted, NoAdjacentFree, Represents, Spaced;
      forall c | 0 <= c < LISTLIMIT && index.roots[c] == NULL
        ensures FirstFit(t, index.lists[c], 0, asize) == NULL
      {
        assert Linked(mem.data[..], index.lists[c], index.roots[..][c], NULL, index.Sh());
      }
    }

    /** Block bp, on no list, is cut after size bytes; the front gets the given
        allocation bit, the back the opposite one. */
    method Carve(bp: nat, size: nat, alloc: bool, csize: nat) returns (rest: nat)
      requires Consistent({bp}) && FreeAt(t, bp) && t[bp].size == csize
      requires size % 8 == 0 && 16 <= size && size + 16 <= csize
      modifies `t, mem.data
      ensures Consistent({FreePart(bp, size, alloc)})
      ensures t == Cut(old(t), bp, size, alloc) && rest == bp + size
      ensures KeepsLive(old(mem.data[..]), mem.data[..], old(t), FLOOR)
    {
      hide GetWord, Threaded, TaggedBut, Tiled, Sorted, KeepsLive;
      ghost var m, s, ex := mem.data[..], St(), {bp} + {bp + size};
      PartialState({bp});
      CutPartial(s, bp, size, alloc);
      CutTagged(s.t, bp, size, alloc, m);
      t := Cut(t, bp, size, alloc);
      ghost var roots, free := index.roots[..], {FreePart(bp, size, alloc)};
      ghost var m1 := PutTags(mem, bp, size, alloc, t, LO, FLOOR, mem.brk, ex);
      ghost var m2 := mem.data[..];
      TagsKeepThreaded(m, m1, m2, t, LO, FLOOR, mem.brk, bp, index.lists, roots, index.Sh(), free);
      CutHeader(m2, s.t, bp, size, alloc, ex - {bp});
      rest := NextBlkp(mem, bp);
      ghost var m3 := PutTags(mem, rest, csize - size, !alloc, t, LO, FLOOR, mem.brk, ex - {bp});
      TagsKeepThreaded(m2, m3, mem.data[..], t, LO, FLOOR, mem.brk, rest, index.lists, roots, index.Sh(), free);
      KeepsLiveTrans(m, m2, mem.data[..], t, t, FLOOR);
      KeepsLiveSub(m, mem.data[..], s.t, t, FLOOR);
      NothingLeft(mem.data[..], t, bp, bp + size);
    }

    /** mem_sbrk and the three PUTs of extend_heap; the new block is on no list yet. */
    method Grow(size: Word) returns (bp: int)
      requires Valid() && size % 8 == 0 && 16 <= size
      modifies `t, mem, mem.data
      ensures mem.outOfMemory == (old(mem.outOfMemory) || bp == -1)
      ensures if bp == -1
              then old(mem.brk) + size > MAX_HEAP && Valid() && St() == old(St()) && mem.data[..] == old(mem.data[..])
              else old(mem.brk) + size <= MAX_HEAP && bp == old(mem.brk) && Consistent({old(mem.brk)})
                   && St() == Grown(old(St()), size)
      ensures KeepsLive(old(mem.data[..]), mem.data[..], old(t), FLOOR)
    {
      hide GetWord, Represents, Threaded, Tiled, Inv, Sorted, KeepsLive, LiveWithin;
      ghost var m, s := mem.data[..], St();
      ValidState();
      bp := mem.Sbrk(ToInt(size));
      if bp == -1 {
        KeepsLiveRefl(m, t, FLOOR);
        return;
      }
      GrownPartial(s, size);
      t := t[bp := Block(size, false)];
      TagNewBlock(bp, size, s);
    }

    method TagNewBlock(bp: nat, size: nat, ghost s: State)
      requires mem.Valid() && index.mem == mem && index.Shaped()
      requires Inv(s) && size % 8 == 0 && 16 <= size && s.hi + size <= MAX_HEAP
      requires Represents(mem.data[..], s.t, s.hi) && Threaded(mem.data[..], index.lists, index.roots[..], index.Sh())
      requires St() == Grown(s, size) && bp == s.hi
      modifies mem.data
      ensures Consistent({bp})
      ensures KeepsLive(old(mem.data[..]), mem.data[..], s.t, FLOOR)
    {
      hide GetWord, Threaded, Inv, Tiled, Sorted, KeepsLive;
      ghost var m, roots := mem.data[..], index.roots[..];
      GrownPartial(s, size);
      GrownTagged(s, size, m);
      ghost var m1 := PutTags(mem, bp, size, false, t, LO, FLOOR, mem.brk, {bp});
      ghost var m2 := mem.data[..];
      TagsKeepThreaded(m, m1, m2, t, LO, FLOOR, mem.brk, bp, index.lists, roots, index.Sh(), {bp});
      ReadTagsOf(m2, t, bp, {bp} - {bp});
      PackParts(0, true);
      mem.Put(NextBlkp(mem, bp) - 4, Pack(0, true));
      EpilogueWrite(m2, mem.data[..], t, LO, FLOOR, mem.brk);
      EpilogueKeepsThreaded(m2, mem.data[..], t, LO, FLOOR, mem.brk, index.lists, roots, index.Sh(), {bp});
      KeepsLiveTrans(m, m2, mem.data[..], t, t, FLOOR);
      KeepsLiveSub(m, mem.data[..], s.t, t, FLOOR);
    }

    /** The start of mm_init: empty lists, padding, prologue and epilogue. */
    method LayOut() returns (heapStart: int)
      requires mem.Valid() && mem.brk == 0 && index.mem == mem && index.Shaped()
      modifies `t, mem, mem.data, index, index.roots
      ensures heapStart == 0 && Valid() && St() == Bare()
      ensures mem.outOfMemory == old(mem.outOfMemory)
    {
      hide GetWord;
      index.Reset();
      heapStart := mem.Sbrk(16);
      mem.Put(heapStart, 0);
      mem.Put(heapStart + 4, Pack(DSIZE, true));
      mem.Put(heapStart + 8, Pack(DSIZE, true));
      mem.Put(heapStart + 12, Pack(0, true));
      t := map[LO := Block(DSIZE, true)];
      BareHolds(mem.data[..], index.Sh());
      BareInv();
      hide Partial, Tiled, Sorted, Represents, Threaded;
    }

    /** A client writes n bytes of the payload at p: the allocator does not notice. */
    lemma ClientKeeps(m: Mem, p: nat, n: nat)
      requires index.mem == mem && index.Shaped() && mem.Valid()
      requires Tiled(t, LO, FLOOR, mem.brk) && Sorted(t, index.lists, {}) && NoAdjacentFree(t)
      requires t[LO] == Block(DSIZE, true)
      requires Represents(m, t, mem.brk) && Threaded(m, index.lists, index.roots[..], index.Sh())
      requires IsLive(t, FLOOR, p) && n <= t[p].size - 8 && SameOutside(m, mem.data[..], p, n)
      ensures Valid()
    {
      hide GetWord, TaggedBut, Linked, SameOutside, NoAdjacentFree, Sorted, Tiled;
      ClientWrite(m, mem.data[..], t, LO, FLOOR, mem.brk, p, n);
      ThreadedAfterClient(m, mem.data[..], t, LO, FLOOR, mem.brk, index.lists, index.roots[..], index.Sh(), p, n);
    }
  }

  lemma Readable(m: Mem, t: Tiles, lo: nat, floor: nat, hi: nat)
    requires Tiled(t, lo, floor, hi) && Represents(m, t, hi)
    ensures SizesReadable(m, t)
  {
    hide GetWord;
    forall x | x in t
      ensures InMem(m, x - 4) && SizeOf(GetWord(m, x - 4)) == t[x].size
    {
      assert BlockOk(t[x], x, lo, floor, hi);
      ReadTags(m, x, t[x]);
    }
  }

  /** Where the neighbours of the pending block p stand. */
  lemma MergeFacts(s: State, p: nat)
    requires Partial(s, {p}) && FreeAt(s.t, p)
    ensures FLOOR <= p && |s.lists| == LISTLIMIT
    ensures var q, n := Prev(s.t, LO, FLOOR, s.hi, p), Next(s.t, p);
            var r, e := MergeLow(s.t, q, p), MergeHigh(s.t, p);
            && r in s.t && FLOOR <= r < e && (e in s.t || e == s.hi) && q != n && p != n
            && (forall x: nat :: FreeAt(s.t, x) && r <= x < e ==>
                  x == p || (x == q && FreeAt(s.t, q)) || (x == n && FreeAt(s.t, n)))
  {
    hide Sorted;
    TwentyLists(s, {p});
    PendingAboveFloor(s, p);
    var q, n := Prev(s.t, LO, FLOOR, s.hi, p), Next(s.t, p);
    assert FreeAt(s.t, n) ==> Next(s.t, n) == s.hi || Next(s.t, n) in s.t;
    assert BlockOk(s.t[q], q, LO, FLOOR, s.hi);
  }

  lemma TwentyListsOf(t: Tiles, lists: Lists, ex: set<nat>)
    requires Sorted(t, lists, ex)
    ensures |lists| == LISTLIMIT
  {
  }

  lemma CutTagged(t: Tiles, p: nat, a: nat, alloc: bool, m: Mem)
    requires p in t && 0 < a <= t[p].size && TaggedBut(m, t, {})
    ensures TaggedBut(m, Cut(t, p, a, alloc), {p} + {p + a})
    ensures var t' := Cut(t, p, a, alloc); t'[p] == Block(a, alloc) && t'[p + a] == Block(t[p].size - a, !alloc)
    ensures LO in t && LO != p && LO != p + a ==> Cut(t, p, a, alloc)[LO] == t[LO]
  {
    hide Tagged;
  }

  lemma CutHeader(m: Mem, t: Tiles, p: nat, a: nat, alloc: bool, ex: set<nat>)
    requires p in t && 0 < a <= t[p].size && a % 8 == 0
    requires TaggedBut(m, Cut(t, p, a, alloc), ex) && p !in ex
    ensures 4 <= p <= |m| && p + a - 8 <= |m| && SizeOf(GetWord(m, p - 4)) == a
  {
    hide GetWord;
    ReadTagsOf(m, Cut(t, p, a, alloc), p, ex);
  }

  lemma GrownTagged(s: State, size: nat, m: Mem)
    requires Inv(s) && size % 8 == 0 && 16 <= size && s.hi + size <= MAX_HEAP && TaggedBut(m, s.t, {})
    ensures TaggedBut(m, Grown(s, size).t, {s.hi})
    ensures Grown(s, size).t[s.hi] == Block(size, false) && Grown(s, size).t[LO] == s.t[LO]
    ensures LiveWithin(s.t, Grown(s, size).t, FLOOR)
  {
    hide Tagged;
    GrowTiled(s.t, LO, FLOOR, s.hi, size);
  }

  lemma EpilogueKeepsThreaded(m: Mem, m': Mem, t: Tiles, lo: nat, floor: nat, hi: nat,
                              lists: Lists, roots: seq<nat>, s: Shape, ex: set<nat>)
    requires Tiled(t, lo, floor, hi) && Wrote(m, m', hi - 4, Pack(0, true))
    requires Sorted(t, lists, ex) && Threaded(m, lists, roots, s) && s.w == 8
    ensures Threaded(m', lists, roots, s)
  {
    hide Wrote, Linked, Tiled;
    forall c | 0 <= c < LISTLIMIT
      ensures Linked(m', lists[c], roots[c], NULL, s)
    {
      ListsRoomy(t, lo, floor, hi, lists, ex, c);
      hide Sorted;
      EpilogueKeepsLinks(m, m', t, lo, floor, hi, lists[c], roots[c], NULL, s);
    }
  }

  lemma BareHolds(m: Mem, s: Shape)
    requires |m| == MAX_HEAP && ShapeOk(s)
    requires GetWord(m, 4) == Pack(DSIZE, true) && GetWord(m, 8) == Pack(DSIZE, true)
    requires GetWord(m, 12) == Pack(0, true)
    ensures Represents(m, Bare().t, FLOOR)
    ensures Threaded(m, Bare().lists, seq(LISTLIMIT, _ => NULL), s)
  {
    hide GetWord;
  }

  lemma ThreadedAfterClient(m: Mem, m': Mem, t: Tiles, lo: nat, floor: nat, hi: nat,
                            lists: Lists, roots: seq<nat>, s: Shape, p: nat, n: nat)
    requires Tiled(t, lo, floor, hi) && Sorted(t, lists, {}) && Threaded(m, lists, roots, s) && s.w == 8
    requires IsLive(t, floor, p) && n <= t[p].size - 8 && SameOutside(m, m', p, n)
    ensures Threaded(m', lists, roots, s)
  {
    hide Linked, Tiled, SameOutside;
    forall c | 0 <= c < LISTLIMIT
      ensures Linked(m', lists[c], roots[c], NULL, s)
    {
      ListsRoomy(t, lo, floor, hi, lists, {}, c);
      assert p !in lists[c];
      hide Sorted;
      ClientWriteLinks(m, m', t, lo, floor, hi, p, n, lists[c], roots[c], NULL, s);
    }
  }

  lemma FuseSorted(t: Tiles, lo: nat, floor: nat, hi: nat, r: nat, e: nat, alloc: bool, lists: Lists, ex: set<nat>)
    requires Tiled(t, lo, floor, hi) && Sorted(t, lists, ex)
    requires r in t && floor <= r < e && (e in t || e == hi)
    requires forall x: nat :: FreeAt(t, x) && r <= x < e ==> x in ex
    ensures Sorted(Fuse(t, r, e, alloc), lists, ex + {r})
  {
    hide ClassOf, Tiled;
  }

  lemma ListsRoomy(t: Tiles, lo: nat, floor: nat, hi: nat, lists: Lists, ex: set<nat>, c: nat)
    requires Tiled(t, lo, floor, hi) && Sorted(t, lists, ex) && c < LISTLIMIT
    ensures Roomy(t, lists[c], 8)
  {
    hide ClassOf;
    forall i | 0 <= i < |lists[c]|
      ensures lists[c][i] in t && 16 <= t[lists[c][i]].size
    {
      assert lists[c][i] in lists[c];
      assert BlockOk(t[lists[c][i]], lists[c][i], lo, floor, hi);
    }
  }

  lemma TagsKeepThreaded(m: Mem, m1: Mem, m2: Mem, t: Tiles, lo: nat, floor: nat, hi: nat, p: nat,
                         lists: Lists, roots: seq<nat>, s: Shape, ex: set<nat>)
    requires Tiled(t, lo, floor, hi) && p in t && TagsWritten(m, m1, m2, p, t[p])
    requires Sorted(t, lists, ex) && Threaded(m, lists, roots, s) && s.w == 8
    ensures Threaded(m2, lists, roots, s)
  {
    hide TagsWritten, Linked, Tiled;
    forall c | 0 <= c < LISTLIMIT
      ensures Linked(m2, lists[c], roots[c], NULL, s)
    {
      ListsRoomy(t, lo, floor, hi, lists, ex, c);
      hide Sorted;
      TagsKeepLinks(m, m1, m2, t, lo, floor, hi, p, lists[c], roots[c], NULL, s);
    }
  }

  // ----- what the allocators rely on around these steps -----

  lemma CutReady(s: State, p: nat, a: nat)
    requires Inv(s) && FreeAt(s.t, p) && a % 8 == 0 && 16 <= a && a + 16 <= s.t[p].size
    ensures FreeAt(Cut(s.t, p, a, true), p + a) && NoAdjacentFreeBut(Cut(s.t, p, a, true), p + a)
    ensures LiveWithin(s.t, Cut(s.t, p, a, true), FLOOR)
  {
    RemovedPartial(s, {}, p);
    CutPartial(Removed(s, p), p, a, true);
    CutNoAdjacent(Removed(s, p), p, a, true);
  }

  lemma WholeReady(s: State, p: nat)
    requires Inv(s) && FreeAt(s.t, p)
    ensures FLOOR <= p && Next(s.t, p) <= s.hi && (Next(s.t, p) in s.t || Next(s.t, p) == s.hi) && 16 <= s.t[p].size
    ensures forall x: nat :: FreeAt(s.t, x) && p <= x < Next(s.t, p) ==> x == p
    ensures Retag(s.t, p, true) == Fuse(s.t, p, Next(s.t, p), true)
    ensures LiveWithin(s.t, Retag(s.t, p, true), FLOOR)
  {
    PendingAboveFloor(s, p);
    RetagIsFuse(s.t, LO, FLOOR, s.hi, p, true);
  }

  /** What mm_free finds around the block it is given. */
  lemma FreeReady(s: State, p: nat)
    requires Inv(s) && IsLive(s.t, FLOOR, p)
    ensures 16 <= s.t[p].size && (Next(s.t, p) in s.t || Next(s.t, p) == s.hi)
    ensures forall x: nat :: FreeAt(s.t, x) ==> x < p || Next(s.t, p) <= x
    ensures Retag(s.t, p, false) == Fuse(s.t, p, Next(s.t, p), false)
  {
    LiveAligned(s, p);
    RetagIsFuse(s.t, LO, FLOOR, s.hi, p, false);
  }

  lemma FreedLive(m: Mem, m1: Mem, m2: Mem, s: State, p: nat, t2: Tiles)
    requires Inv(s) && IsLive(s.t, FLOOR, p) && t2 == SegSpec.Free(s, p).t
    requires KeepsLive(m, m1, Freed(s, p).t, FLOOR) && KeepsLive(m1, m2, Freed(s, p).t, FLOOR)
    ensures KeepsLive(m, m2, t2, FLOOR)
  {
    FreedPartial(s, p);
    CoalesceInv(Freed(s, p), p);
    hide Inv, Partial, KeepsLive, LiveWithin, NoAdjacentFreeBut, SegSpec.Coalesce;
    KeepsLiveTrans(m, m1, m2, Freed(s, p).t, Freed(s, p).t, FLOOR) by {
      LiveRefl(Freed(s, p).t, FLOOR);
    }
    KeepsLiveSub(m, m2, t2, Freed(s, p).t, FLOOR);
  }

  lemma TakeBack(s: State, p: nat)
    requires Partial(s, {p}) && FreeAt(s.t, p) && |s.lists| == LISTLIMIT
    ensures Take(Put(s.lists, p, s.t[p].size), p, s.t[p].size) == s.lists
  {
    var c, l := ClassOf(s.t[p].size), s.lists[ClassOf(s.t[p].size)];
    hide ClassOf, Tiled;
    assert IndexOf([p] + l, p) == 0;
    assert RemoveAt([p] + l, 0) == l;
  }
}

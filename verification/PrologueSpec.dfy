/** What the allocator of prologue.c does, as functions on its abstract state: the tiling
    of the heap behind the ten roots, the ten lists, and the break. */
module PrologueSpec {
  import opened Memory
  import opened Tiling
  import opened Links
  import opened RootLists
  import opened Requests

  datatype State = State(t: Tiles, lists: Lists, hi: nat)

  ghost predicate Partial(s: State, ex: set<nat>) {
    Tiled(s.t, LO, FLOOR, s.hi) && s.hi <= MAX_HEAP && Rooted(s.t) && Sorted(s.t, s.lists, ex)
  }

  ghost predicate Inv(s: State) {
    Partial(s, {}) && NoAdjacentFree(s.t)
  }

  // ----- merging -----

  /** The list of free block p loses p; an allocated p is on no list. */
  ghost function Unlisted(t: Tiles, lists: Lists, p: nat): (lists': Lists)
    requires |lists| == NUM
    ensures |lists'| == NUM
  {
    if FreeAt(t, p) then Take(lists, p, t[p].size) else lists
  }

  /** The lists without the neighbours that p will swallow. */
  ghost function NeighboursOut(s: State, p: nat): (lists: Lists)
    requires Tiled(s.t, LO, FLOOR, s.hi) && p in s.t && FLOOR <= p && |s.lists| == NUM
    ensures |lists| == NUM
  {
    Unlisted(s.t, Unlisted(s.t, s.lists, Prev(s.t, LO, FLOOR, s.hi, p)), Next(s.t, p))
  }

  ghost function CoalescedAt(s: State, p: nat): nat
    requires Tiled(s.t, LO, FLOOR, s.hi) && p in s.t && FLOOR <= p
  {
    MergeLow(s.t, Prev(s.t, LO, FLOOR, s.hi, p), p)
  }

  /** The free block p, not on a list, is merged with its free neighbours and listed. */
  ghost function Coalesce(s: State, p: nat): State
    requires Tiled(s.t, LO, FLOOR, s.hi) && p in s.t && FLOOR <= p && |s.lists| == NUM && 0 < s.t[p].size
  {
    var q := Prev(s.t, LO, FLOOR, s.hi, p);
    var r := MergeLow(s.t, q, p);
    State(Merged(s.t, q, p), Put(NeighboursOut(s, p), r, MergeHigh(s.t, p) - r), s.hi)
  }

  lemma UnlistedSorted(t: Tiles, lists: Lists, ex: set<nat>, p: nat)
    requires Sorted(t, lists, ex)
    ensures |lists| == NUM && Sorted(t, Unlisted(t, lists, p), ex + {p})
  {
    hide ClassOf;
    if FreeAt(t, p) {
      TakeSorted(t, lists, ex, p);
    }
  }

  lemma TenLists(s: State, ex: set<nat>)
    requires Partial(s, ex)
    ensures |s.lists| == NUM && Tiled(s.t, LO, FLOOR, s.hi)
  {
  }

  lemma FreeInside(s: State, p: nat)
    requires Tiled(s.t, LO, FLOOR, s.hi) && FreeAt(s.t, p)
    ensures FLOOR <= p && 16 <= s.t[p].size && p + s.t[p].size <= s.hi && p % 8 == 0
  {
    assert BlockOk(s.t[p], p, LO, FLOOR, s.hi);
  }

  /** Swapping the tiling under sorted lists: what is listed stays, and r comes in. */
  lemma RetiledPut(t: Tiles, t': Tiles, lists: Lists, ex: set<nat>, r: nat, size: nat)
    requires Sorted(t, lists, ex)
    requires forall x: nat :: FreeAt(t, x) && x !in ex ==> FreeAt(t', x) && t'[x] == t[x]
    requires forall x: nat :: FreeAt(t', x) && x != r ==> FreeAt(t, x) && x !in ex
    requires r in ex && FreeAt(t', r) && t'[r].size == size
    ensures Sorted(t', Put(lists, r, size), {})
  {
    hide ClassOf;
    assert Sorted(t', lists, {r});
    PutSorted(t', lists, {r}, r);
    hide Sorted, Put;
    assert {r} - {r} == {};
  }

  /** The free blocks other than the merged one are those that were not swallowed. */
  lemma MergedFree(s: State, p: nat)
    requires Tiled(s.t, LO, FLOOR, s.hi) && FreeAt(s.t, p)
    ensures FLOOR <= p && 0 < s.t[p].size
    ensures var q, n := Prev(s.t, LO, FLOOR, s.hi, p), Next(s.t, p);
            var t', r := Merged(s.t, q, p), MergeLow(s.t, q, p);
            && FreeAt(t', r) && t'[r].size == MergeHigh(s.t, p) - r && r in {p} + {q} + {n}
            && (forall x: nat :: FreeAt(s.t, x) && x !in {p} + {q} + {n} ==> FreeAt(t', x) && t'[x] == s.t[x])
            && (forall x: nat :: FreeAt(t', x) && x != r ==> FreeAt(s.t, x) && x !in {p} + {q} + {n})
  {
    FreeInside(s, p);
    MergedTiled(s.t, LO, FLOOR, s.hi, Prev(s.t, LO, FLOOR, s.hi, p), p);
  }

  lemma CoalesceSorted(s: State, p: nat)
    requires Partial(s, {p}) && FreeAt(s.t, p)
    ensures FLOOR <= p && |s.lists| == NUM && 0 < s.t[p].size
    ensures Sorted(Coalesce(s, p).t, Coalesce(s, p).lists, {})
  {
    hide ClassOf, Sorted, Rooted;
    TenLists(s, {p});
    FreeInside(s, p);
    MergedFree(s, p);
    var q, n := Prev(s.t, LO, FLOOR, s.hi, p), Next(s.t, p);
    UnlistedSorted(s.t, s.lists, {p}, q);
    UnlistedSorted(s.t, Unlisted(s.t, s.lists, q), {p} + {q}, n);
    hide Tiled, Unlisted, Put, Merged, MergeLow, MergeHigh;
    RetiledPut(s.t, Merged(s.t, q, p), NeighboursOut(s, p), {p} + {q} + {n}, MergeLow(s.t, q, p),
               MergeHigh(s.t, p) - MergeLow(s.t, q, p));
  }

  lemma CoalesceTiling(s: State, p: nat)
    requires Tiled(s.t, LO, FLOOR, s.hi) && Rooted(s.t) && FreeAt(s.t, p) && NoAdjacentFreeBut(s.t, p)
    ensures FLOOR <= p && 0 < s.t[p].size
    ensures var q := Prev(s.t, LO, FLOOR, s.hi, p);
            var t', r := Merged(s.t, q, p), MergeLow(s.t, q, p);
            && Tiled(t', LO, FLOOR, s.hi) && Rooted(t') && NoAdjacentFree(t') && LiveSame(s.t, t', FLOOR)
            && FreeAt(t', r) && t'[r].size >= s.t[p].size
  {
    FreeInside(s, p);
    var q := Prev(s.t, LO, FLOOR, s.hi, p);
    MergedTiled(s.t, LO, FLOOR, s.hi, q, p);
    MergedNoAdjacent(s.t, LO, FLOOR, s.hi, q, p);
    MergedLive(s.t, LO, FLOOR, s.hi, q, p);
    MergeSpan(s, p);
    hide NoAdjacentFree, NoAdjacentFreeBut, LiveWithin, Rooted;
    FuseRooted(s.t, s.hi, MergeLow(s.t, q, p), MergeHigh(s.t, p), false);
  }

  lemma MergeSpan(s: State, p: nat)
    requires Tiled(s.t, LO, FLOOR, s.hi) && FreeAt(s.t, p)
    ensures FLOOR <= p
    ensures var q := Prev(s.t, LO, FLOOR, s.hi, p);
            var r, e := MergeLow(s.t, q, p), MergeHigh(s.t, p);
            r in s.t && FLOOR <= r < e && r + s.t[r].size <= e && s.t[p].size <= e - r
  {
    FreeInside(s, p);
    var q, n := Prev(s.t, LO, FLOOR, s.hi, p), Next(s.t, p);
    assert BlockOk(s.t[q], q, LO, FLOOR, s.hi);
    assert n in s.t ==> BlockOk(s.t[n], n, LO, FLOOR, s.hi);
  }

  /** The merge restores the invariant and changes no live block. */
  lemma CoalesceInv(s: State, p: nat)
    requires Partial(s, {p}) && FreeAt(s.t, p) && NoAdjacentFreeBut(s.t, p)
    ensures FLOOR <= p && |s.lists| == NUM && 0 < s.t[p].size
    ensures Inv(Coalesce(s, p)) && FreeAt(Coalesce(s, p).t, CoalescedAt(s, p))
    ensures Coalesce(s, p).t[CoalescedAt(s, p)].size >= s.t[p].size
    ensures LiveSame(s.t, Coalesce(s, p).t, FLOOR)
  {
    hide ClassOf;
    CoalesceSorted(s, p);
    CoalesceTiling(s, p);
    hide Sorted, Rooted, Tiled, NoAdjacentFree, NoAdjacentFreeBut, NeighboursOut, LiveWithin, Merged, MergeLow, MergeHigh;
  }

  // ----- growing and freeing -----

  /** The heap after a successful sbrk of size bytes, the new block not yet listed. */
  ghost function Grown(s: State, size: nat): State {
    State(s.t[s.hi := Block(size, false)], s.lists, s.hi + size)
  }

  lemma GrownPartial(s: State, size: nat)
    requires Inv(s) && size % 8 == 0 && MIN_BLKSIZE <= size && s.hi + size <= MAX_HEAP
    ensures Partial(Grown(s, size), {s.hi}) && FreeAt(Grown(s, size).t, s.hi) && s.hi !in s.t
    ensures NoAdjacentFreeBut(Grown(s, size).t, s.hi) && LiveSame(s.t, Grown(s, size).t, FLOOR)
  {
    hide ClassOf, Rooted;
    GrowTiled(s.t, LO, FLOOR, s.hi, size);
    GrowRooted(s.t, s.hi, size);
    GrowSorted(s.t, s.hi, size, s.lists);
    hide BlocksOk, Chained, Apart, Sorted;
    GrownNoAdjacent(s.t, s.hi, size);
  }

  lemma GrownNoAdjacent(t: Tiles, hi: nat, size: nat)
    requires NoAdjacentFree(t) && hi !in t
    ensures NoAdjacentFreeBut(t[hi := Block(size, false)], hi)
  {
    var g := t[hi := Block(size, false)];
    forall x | FreeAt(g, x) && x != hi && Next(g, x) != hi
      ensures !FreeAt(g, Next(g, x))
    {
      assert Next(g, x) == Next(t, x);
    }
  }

  /** extend_heap of size bytes: the new state and the block it returns. */
  ghost function Extend(s: State, size: nat): State
    requires Inv(s) && size % 8 == 0 && MIN_BLKSIZE <= size && s.hi + size <= MAX_HEAP
  {
    GrownPartial(s, size);
    CoalesceInv(Grown(s, size), s.hi);
    Coalesce(Grown(s, size), s.hi)
  }

  ghost function ExtendAt(s: State, size: nat): nat
    requires Inv(s) && size % 8 == 0 && MIN_BLKSIZE <= size && s.hi + size <= MAX_HEAP
  {
    GrownPartial(s, size);
    CoalesceInv(Grown(s, size), s.hi);
    CoalescedAt(Grown(s, size), s.hi)
  }

  lemma ExtendInv(s: State, size: nat)
    requires Inv(s) && size % 8 == 0 && MIN_BLKSIZE <= size && s.hi + size <= MAX_HEAP
    ensures var s', p := Extend(s, size), ExtendAt(s, size);
            Inv(s') && FreeAt(s'.t, p) && size <= s'.t[p].size && s'.hi == s.hi + size && LiveSame(s.t, s'.t, FLOOR)
  {
    GrownPartial(s, size);
    CoalesceInv(Grown(s, size), s.hi);
    hide Inv, Partial, Coalesce, NoAdjacentFreeBut, LiveWithin;
  }

  ghost function Freed(s: State, p: nat): State
    requires p in s.t
  {
    State(Retag(s.t, p, false), s.lists, s.hi)
  }

  lemma FreedPartial(s: State, p: nat)
    requires Inv(s) && IsLive(s.t, FLOOR, p)
    ensures Partial(Freed(s, p), {p}) && FreeAt(Freed(s, p).t, p)
    ensures NoAdjacentFreeBut(Freed(s, p).t, p) && LiveAdds(Freed(s, p).t, s.t, FLOOR, p)
  {
    hide ClassOf, Rooted;
    RetagTiled(s.t, LO, FLOOR, s.hi, p, false);
    RetagRooted(s.t, p, false);
    FreedNoAdjacent(s.t, p);
    hide Tiled, NoAdjacentFree, NoAdjacentFreeBut;
  }

  lemma FreedNoAdjacent(t: Tiles, p: nat)
    requires NoAdjacentFree(t) && p in t
    ensures NoAdjacentFreeBut(Retag(t, p, false), p)
  {
    var f := Retag(t, p, false);
    forall x | FreeAt(f, x) && x != p && Next(f, x) != p
      ensures !FreeAt(f, Next(f, x))
    {
      assert Next(f, x) == Next(t, x);
    }
  }

  lemma RetagRooted(t: Tiles, p: nat, alloc: bool)
    requires Rooted(t) && p in t && FLOOR <= p
    ensures Rooted(Retag(t, p, alloc))
  {
    forall c: nat | c < NUM
      ensures Root(c) != p
    {
      assert Root(c) < FLOOR;
    }
  }

  /** mm_free(p) */
  ghost function Free(s: State, p: nat): State
    requires Inv(s) && IsLive(s.t, FLOOR, p)
  {
    FreedPartial(s, p);
    CoalesceInv(Freed(s, p), p);
    Coalesce(Freed(s, p), p)
  }

  /** Freeing p ends the life of p and of no other block. */
  lemma FreeOk(s: State, p: nat)
    requires Inv(s) && IsLive(s.t, FLOOR, p)
    ensures Inv(Free(s, p)) && Free(s, p).hi == s.hi && LiveAdds(Free(s, p).t, s.t, FLOOR, p)
  {
    FreedPartial(s, p);
    CoalesceInv(Freed(s, p), p);
    hide Inv, Partial, Coalesce, NoAdjacentFreeBut;
  }

  // ----- the search -----

  /** bp is free, has a bytes, and no block that has them is in a lower class. */
  ghost predicate LowestFit(t: Tiles, a: nat, bp: nat) {
    && FreeAt(t, bp) && a <= t[bp].size
    && forall x: nat :: FreeAt(t, x) && a <= t[x].size ==> ClassOf(t[bp].size) <= ClassOf(t[x].size)
  }

  /** So unless only blocks of the last class fit, it is less than twice as large as the
      best fit. */
  lemma GoodFit(t: Tiles, hi: nat, a: nat, bp: nat, best: nat)
    requires Tiled(t, LO, FLOOR, hi) && Rooted(t) && LowestFit(t, a, bp)
    requires FreeAt(t, best) && a <= t[best].size && ClassOf(t[best].size) < NUM - 1
    ensures t[bp].size < 2 * t[best].size
  {
    hide ClassOf, Tiled;
    FreeRoom(t, hi, bp);
    FreeRoom(t, hi, best);
    FreeSize(t, hi, bp, 0);
    FreeSize(t, hi, best, 0);
    WithinTwice(t[bp].size, t[best].size);
  }

  /** The first block of a bytes on the first list, from class c on, that has one. */
  ghost function FindFit(t: Tiles, lists: Lists, c: nat, a: nat): nat
    requires |lists| == NUM && c <= NUM
    decreases NUM - c
  {
    if c == NUM then NULL
    else if FirstFit(t, lists[c], 0, a) != NULL then FirstFit(t, lists[c], 0, a)
    else FindFit(t, lists, c + 1, a)
  }

  lemma FitOnList(t: Tiles, lists: Lists, c: nat, a: nat)
    requires Sorted(t, lists, {}) && NULL !in t && c < NUM
    ensures forall x :: x in lists[c] ==> x in t && x != NULL
    ensures var r := FirstFit(t, lists[c], 0, a);
            && (r != NULL ==> FreeAt(t, r) && a <= t[r].size && ClassOf(t[r].size) == c)
            && (r == NULL ==> forall x: nat :: FreeAt(t, x) && ClassOf(t[x].size) == c ==> t[x].size < a)
  {
    hide ClassOf;
    var l := lists[c];
    forall x | x in l
      ensures x in t && x != NULL
    {
    }
    var k := FirstFitFinds(t, l, 0, a);
    if k < |l| {
      assert l[k] in l;
    } else {
      forall x: nat | FreeAt(t, x) && ClassOf(t[x].size) == c
        ensures t[x].size < a
      {
        assert x in l;
      }
    }
  }

  lemma {:induction false} FindFitFrom(t: Tiles, lists: Lists, c: nat, a: nat)
    requires Sorted(t, lists, {}) && NULL !in t && c <= NUM
    ensures var r := FindFit(t, lists, c, a);
            && (r != NULL ==> FreeAt(t, r) && a <= t[r].size && c <= ClassOf(t[r].size))
            && forall x: nat :: FreeAt(t, x) && a <= t[x].size && c <= ClassOf(t[x].size) ==>
                 r != NULL && ClassOf(t[r].size) <= ClassOf(t[x].size)
    decreases NUM - c
  {
    hide Sorted, ClassFrom;
    if c < NUM {
      FitOnList(t, lists, c, a);
      FindFitFrom(t, lists, c + 1, a);
    }
  }

  /** find_fit fails exactly when no free block is large enough; what it finds lies in the
      lowest class that holds a fit. */
  lemma FindFitOk(s: State, a: nat)
    requires Inv(s) && MIN_BLKSIZE <= a
    ensures |s.lists| == NUM
    ensures var r := FindFit(s.t, s.lists, ClassOf(a), a);
            (r != NULL <==> Fits(s.t, a)) && (r != NULL ==> LowestFit(s.t, a, r))
  {
    hide Sorted, NoAdjacentFree, FindFit, ClassFrom, Rooted;
    NullOutside(s);
    FindFitFrom(s.t, s.lists, ClassOf(a), a);
    hide Tiled;
    forall x: nat | FreeAt(s.t, x) && a <= s.t[x].size
      ensures ClassOf(a) <= ClassOf(s.t[x].size)
    {
      ClassUp(a, s.t[x].size);
    }
  }

  lemma NullOutside(s: State)
    requires Inv(s)
    ensures NULL !in s.t && |s.lists| == NUM
  {
  }

  // ----- taking a block -----

  lemma FreeSize(t: Tiles, hi: nat, p: nat, a: nat)
    requires Tiled(t, LO, FLOOR, hi) && FreeAt(t, p) && a % 8 == 0 && a <= t[p].size
    ensures t[p].size % 8 == 0 && (t[p].size - a >= MIN_BLKSIZE || t[p].size - a <= 16)
  {
    assert BlockOk(t[p], p, LO, FLOOR, hi);
    Mod8(t[p].size, a);
  }

  lemma RetaggedSorted(u: Tiles, lists: Lists, p: nat)
    requires Sorted(u, lists, {p}) && p in u
    ensures Sorted(Retag(u, p, true), lists, {})
  {
    hide ClassOf;
  }

  /** place: a free block is cut, or taken whole. */
  ghost function Place(s: State, p: nat, a: nat): State
    requires p in s.t && a <= s.t[p].size && |s.lists| == NUM
  {
    var lists := Take(s.lists, p, s.t[p].size);
    if s.t[p].size - a >= MIN_BLKSIZE then
      State(Split(s.t, p, a), Put(lists, p + a, s.t[p].size - a), s.hi)
    else State(Retag(s.t, p, true), lists, s.hi)
  }

  /** Both branches restore the invariant and make exactly one block live, of a to a + 16
      bytes. */
  lemma PlaceOk(s: State, p: nat, a: nat)
    requires Inv(s) && FreeAt(s.t, p) && a % 8 == 0 && MIN_BLKSIZE <= a <= s.t[p].size
    ensures |s.lists| == NUM
    ensures Inv(Place(s, p, a)) && LiveAdds(s.t, Place(s, p, a).t, FLOOR, p) && a <= Place(s, p, a).t[p].size <= a + 16
    ensures Place(s, p, a).hi == s.hi
  {
    hide ClassOf, Rooted;
    TenLists(s, {});
    FreeInside(s, p);
    FreeSize(s.t, s.hi, p, a);
    TakeSorted(s.t, s.lists, {}, p);
    assert {} + {p} == {p};
    if s.t[p].size - a >= MIN_BLKSIZE {
      SplitTiled(s.t, LO, FLOOR, s.hi, p, a);
      SplitRooted(s.t, s.hi, p, a);
      SplitNoAdjacent(s.t, LO, FLOOR, s.hi, p, a);
      SplitLive(s.t, LO, FLOOR, s.hi, p, a);
      SplitSorted(s.t, Take(s.lists, p, s.t[p].size), p, a);
      hide Tiled, NoAdjacentFree, LiveAdds, Sorted, Take;
      RestListed(Split(s.t, p, a), Take(s.lists, p, s.t[p].size), p + a);
    } else {
      RetagTiled(s.t, LO, FLOOR, s.hi, p, true);
      RetagRooted(s.t, p, true);
      RetagNoAdjacent(s.t, p);
      RetagLive(s.t, LO, FLOOR, s.hi, p);
      RetaggedSorted(s.t, Take(s.lists, p, s.t[p].size), p);
      hide Tiled, NoAdjacentFree, LiveAdds, Sorted, Take;
    }
  }

  lemma RestListed(t: Tiles, lists: Lists, r: nat)
    requires Sorted(t, lists, {r}) && FreeAt(t, r)
    ensures |lists| == NUM && Sorted(t, Put(lists, r, t[r].size), {})
  {
    hide ClassOf;
    PutSorted(t, lists, {r}, r);
    assert {r} - {r} == {};
  }

  // ----- mm_malloc -----

  /** MAX(ALIGN(size + SIZE_T_SIZE), MIN_BLKSIZE) */
  function BlockFor(size: Word): nat {
    Max(Asize(size), MIN_BLKSIZE)
  }

  lemma BlockForOk(size: Word)
    requires 0 < size && size + 15 < WORD_SPAN
    ensures BlockFor(size) % 8 == 0 && MIN_BLKSIZE <= BlockFor(size) && size + 8 <= BlockFor(size) <= size + 23
  {
    AsizeOk(size);
  }

  lemma FoundOk(s: State, size: Word)
    requires Inv(s) && 0 < size && size + 15 < WORD_SPAN
    ensures |s.lists| == NUM && BlockFor(size) % 8 == 0 && MIN_BLKSIZE <= BlockFor(size)
    ensures var p := FindFit(s.t, s.lists, ClassOf(BlockFor(size)), BlockFor(size));
            (p != NULL <==> Fits(s.t, BlockFor(size))) && (p != NULL ==> LowestFit(s.t, BlockFor(size), p))
  {
    BlockForOk(size);
    hide BlockFor;
    FindFitOk(s, BlockFor(size));
  }

  /** mm_malloc(size): the new state and the pointer returned. */
  ghost function Malloc(s: State, size: Word): (State, nat)
    requires Inv(s) && size + 15 < WORD_SPAN
  {
    if size == 0 then (s, NULL) else
      FoundOk(s, size);
      var a, p := BlockFor(size), FindFit(s.t, s.lists, ClassOf(BlockFor(size)), BlockFor(size));
      if p != NULL then (Place(s, p, a), p)
      else if s.hi + GrowthFor(a) > MAX_HEAP then (s, NULL)
      else
        ExtendInv(s, GrowthFor(a));
        (Place(Extend(s, GrowthFor(a)), ExtendAt(s, GrowthFor(a)), a), ExtendAt(s, GrowthFor(a)))
  }

  /** A granted block is new, leaves the other live blocks alone and is at most 16 bytes
      larger than the size aimed at. */
  ghost predicate Granted(s: State, s': State, size: Word, r: nat) {
    && r != NULL && Inv(s') && LiveAdds(s.t, s'.t, FLOOR, r)
    && BlockFor(size) <= s'.t[r].size <= BlockFor(size) + 16
    && s'.hi == s.hi + if Fits(s.t, BlockFor(size)) then 0 else GrowthFor(BlockFor(size))
  }

  lemma FittingMalloc(s: State, size: Word)
    requires Inv(s) && 0 < size && size + 15 < WORD_SPAN && Fits(s.t, BlockFor(size))
    ensures Granted(s, Malloc(s, size).0, size, Malloc(s, size).1) && Malloc(s, size).1 != NULL
  {
    hide Inv, FindFit, Place, LiveAdds, BlockFor, Fits, ClassOf;
    FoundOk(s, size);
    PlaceOk(s, FindFit(s.t, s.lists, ClassOf(BlockFor(size)), BlockFor(size)), BlockFor(size));
  }

  lemma GrowingMalloc(s: State, size: Word)
    requires Inv(s) && 0 < size && size + 15 < WORD_SPAN
    requires !Fits(s.t, BlockFor(size)) && s.hi + GrowthFor(BlockFor(size)) <= MAX_HEAP
    ensures Granted(s, Malloc(s, size).0, size, Malloc(s, size).1) && Malloc(s, size).1 != NULL
  {
    hide Inv, FindFit, Place, LiveAdds, BlockFor, Fits, ClassOf, Extend, ExtendAt;
    FoundOk(s, size);
    GrownThenPlaced(s, BlockFor(size));
  }

  lemma GrownThenPlaced(s: State, a: nat)
    requires Inv(s) && a % 8 == 0 && MIN_BLKSIZE <= a && s.hi + GrowthFor(a) <= MAX_HEAP
    ensures var s1, p := Extend(s, GrowthFor(a)), ExtendAt(s, GrowthFor(a));
            && Inv(s1) && |s1.lists| == NUM && FreeAt(s1.t, p) && a <= s1.t[p].size && p != NULL
            && Inv(Place(s1, p, a)) && LiveAdds(s.t, Place(s1, p, a).t, FLOOR, p)
            && a <= Place(s1, p, a).t[p].size <= a + 16 && Place(s1, p, a).hi == s.hi + GrowthFor(a)
  {
    ExtendInv(s, GrowthFor(a));
    var s1, p := Extend(s, GrowthFor(a)), ExtendAt(s, GrowthFor(a));
    hide Extend, ExtendAt, ClassOf;
    PlaceOk(s1, p, a);
    FreeInside(s1, p);
    hide Inv, LiveAdds, LiveSame;
    LiveAddsAfterSame(s.t, s1.t, Place(s1, p, a).t, FLOOR, p);
  }

  /** A request fails exactly when it is empty or nothing fits and sbrk cannot deliver;
      a failure changes nothing. */
  lemma MallocOutcome(s: State, size: Word)
    requires Inv(s) && size + 15 < WORD_SPAN
    ensures var (s', r) := Malloc(s, size);
            && (r == NULL <==> size == 0 || (!Fits(s.t, BlockFor(size)) && s.hi + GrowthFor(BlockFor(size)) > MAX_HEAP))
            && (if r == NULL then s' == s else Granted(s, s', size, r))
  {
    hide Inv, Granted, FindFit, Place, Extend, ExtendAt, BlockFor, Fits, ClassOf;
    if size != 0 {
      FoundOk(s, size);
      if Fits(s.t, BlockFor(size)) {
        FittingMalloc(s, size);
      } else if s.hi + GrowthFor(BlockFor(size)) <= MAX_HEAP {
        GrowingMalloc(s, size);
      }
    }
  }

  // ----- mm_init -----

  /** The heap of mm_init before it is extended: ten roots and nothing else. */
  ghost function Roots(): Tiles {
    map p: nat | LO <= p < FLOOR && p % 16 == 8 :: Block(OVERHEAD, true)
  }

  lemma RootsOk()
    ensures Tiled(Roots(), LO, FLOOR, FLOOR) && Rooted(Roots()) && NoAdjacentFree(Roots())
    ensures Sorted(Roots(), seq(NUM, _ => []), {})
    ensures forall p: nat :: !IsLive(Roots(), FLOOR, p)
  {
    hide ClassOf, Rooted, Tiled;
    RootsTiled();
    RootsRooted();
  }

  lemma RootsTiled()
    ensures Tiled(Roots(), LO, FLOOR, FLOOR)
  {
    var t := Roots();
    forall p | p in t
      ensures BlockOk(t[p], p, LO, FLOOR, FLOOR) && (Next(t, p) == FLOOR || Next(t, p) in t)
    {
      var k := p / 16;
      assert p == 16 * k + 8;
    }
    forall p, q | p in t && q in t && p < q
      ensures p + t[p].size <= q
    {
      var k, l := p / 16, q / 16;
      assert p == 16 * k + 8 && q == 16 * l + 8;
    }
  }

  lemma RootsRooted()
    ensures Rooted(Roots())
  {
    forall c: nat | c < NUM
      ensures Root(c) in Roots()
    {
      assert Root(c) == 16 * c + 8;
    }
  }

  ghost function Bare(): State {
    State(Roots(), seq(NUM, _ => []), FLOOR)
  }

  /** The state mm_init leaves behind. */
  ghost function Initial(): State {
    RootsOk();
    Extend(Bare(), CHUNKSIZE)
  }

  lemma InitialOk()
    ensures Inv(Initial()) && Initial().hi == FLOOR + CHUNKSIZE
    ensures forall p: nat :: !IsLive(Initial().t, FLOOR, p)
  {
    RootsOk();
    ExtendInv(Bare(), CHUNKSIZE);
  }
}

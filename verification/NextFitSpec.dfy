/** What the next-fit allocator of implicit.c does, as functions on its abstract state:
    the tiling of the heap, the roving pointer, and the break. */
module NextFitSpec {
  import opened Memory
  import opened Tiling
  import opened Requests

  const LO: nat := 8       // heap_listp: the prologue's (empty) payload
  const FLOOR: nat := 16   // the first block behind the prologue
  const DSIZE: nat := 8

  datatype State = State(t: Tiles, last: nat, hi: nat)

  /** A well-tiled heap; the roving pointer may have been swallowed by a merge in progress. */
  ghost predicate Partial(s: State) {
    Tiled(s.t, LO, FLOOR, s.hi) && s.hi <= MAX_HEAP && s.t[LO] == Block(DSIZE, true)
  }

  /** The roving pointer always stands on a block boundary. */
  ghost predicate Inv(s: State) {
    Partial(s) && NoAdjacentFree(s.t) && s.last in s.t
  }

  // ----- find_fit -----

  /** The first free block of a bytes met walking from p, short of stop; NULL if none. */
  ghost function Scan(t: Tiles, hi: nat, p: nat, stop: nat, a: nat): nat
    requires Tiled(t, LO, FLOOR, hi) && (p in t || p == hi) && stop <= hi
    decreases hi - p
  {
    if p >= stop then NULL
    else if !t[p].alloc && a <= t[p].size then p
    else
      StepForward(t, hi, p);
      Scan(t, hi, Next(t, p), stop, a)
  }

  lemma StepForward(t: Tiles, hi: nat, p: nat)
    requires Tiled(t, LO, FLOOR, hi) && p in t
    ensures p < Next(t, p) <= hi && (Next(t, p) in t || Next(t, p) == hi)
  {
    assert BlockOk(t[p], p, LO, FLOOR, hi);
  }

  ghost predicate FitsAt(t: Tiles, x: nat, a: nat) {
    FreeAt(t, x) && a <= t[x].size
  }

  lemma {:induction false} ScanFirst(t: Tiles, hi: nat, p: nat, stop: nat, a: nat)
    requires Tiled(t, LO, FLOOR, hi) && (p in t || p == hi) && stop <= hi
    ensures var r := Scan(t, hi, p, stop, a);
            && (r != NULL ==> FitsAt(t, r, a) && p <= r < stop)
            && forall x: nat {:trigger FitsAt(t, x, a)} :: FitsAt(t, x, a) && p <= x < stop ==> r != NULL && r <= x
    decreases hi - p
  {
    if p < stop && !(!t[p].alloc && a <= t[p].size) {
      StepForward(t, hi, p);
      ScanFirst(t, hi, Next(t, p), stop, a);
      forall x: nat | FitsAt(t, x, a) && p <= x < stop
        ensures Next(t, p) <= x
      {
      }
    }
  }

  /** From the roving pointer to the end, then from the start to the roving pointer. */
  ghost function FindFit(s: State, a: nat): nat
    requires Inv(s)
  {
    var r := Scan(s.t, s.hi, s.last, s.hi, a);
    if r != NULL then r else
      LastBelow(s);
      Scan(s.t, s.hi, LO, s.last, a)
  }

  lemma LastBelow(s: State)
    requires Inv(s)
    ensures LO <= s.last < s.hi && LO in s.t
  {
    StepForward(s.t, s.hi, s.last);
    assert BlockOk(s.t[s.last], s.last, LO, FLOOR, s.hi);
  }

  /** Where x comes in the order of the search: behind the roving pointer first. */
  ghost predicate NoLater(last: nat, x: nat, y: nat) {
    if x >= last then y >= last ==> x <= y else y < last && x <= y
  }

  /** The two scans visit every block: the search fails exactly when nothing fits, and
      otherwise finds the first fit in cyclic order from the roving pointer. */
  lemma FindFitOk(s: State, a: nat)
    requires Inv(s)
    ensures var r := FindFit(s, a);
            && (r != NULL <==> Fits(s.t, a))
            && (r != NULL ==> FitsAt(s.t, r, a))
            && forall x: nat :: FitsAt(s.t, x, a) ==> NoLater(s.last, r, x)
  {
    LastBelow(s);
    ScanFirst(s.t, s.hi, s.last, s.hi, a);
    ScanFirst(s.t, s.hi, LO, s.last, a);
    hide NoAdjacentFree, Scan;
    forall x: nat | FitsAt(s.t, x, a)
      ensures LO <= x < s.hi
    {
      assert BlockOk(s.t[x], x, LO, FLOOR, s.hi);
    }
    if Fits(s.t, a) {
      var x :| FreeAt(s.t, x) && a <= s.t[x].size;
      assert FitsAt(s.t, x, a);
    }
  }

  // ----- merging -----

  ghost function CoalescedAt(s: State, p: nat): nat
    requires Partial(s) && p in s.t && FLOOR <= p
  {
    MergeLow(s.t, Prev(s.t, LO, FLOOR, s.hi, p), p)
  }

  /** A merge moves the roving pointer to the merged block; otherwise it stays. */
  ghost function Coalesce(s: State, p: nat): State
    requires Partial(s) && p in s.t && FLOOR <= p
  {
    var q, n := Prev(s.t, LO, FLOOR, s.hi, p), Next(s.t, p);
    State(Merged(s.t, q, p), if s.t[q].alloc && !FreeAt(s.t, n) then s.last else MergeLow(s.t, q, p), s.hi)
  }

  ghost predicate NeighbourFree(t: Tiles, p: nat)
    requires p in t
  {
    FreeAt(t, Next(t, p)) || exists q: nat :: FreeAt(t, q) && Next(t, q) == p
  }

  /** What becomes of the roving pointer when the block at p is set free: if that merges
      with a neighbour, it goes to the free block that covers p; otherwise it stays. */
  ghost predicate Roves(s: State, p: nat, s': State)
    requires p in s.t
  {
    if NeighbourFree(s.t, p) then FreeAt(s'.t, s'.last) && s'.last <= p < Next(s'.t, s'.last)
    else s'.last == s.last
  }

  lemma PendingAboveFloor(s: State, p: nat)
    requires Partial(s) && FreeAt(s.t, p)
    ensures FLOOR <= p && p + s.t[p].size <= s.hi && 16 <= s.t[p].size
  {
    assert BlockOk(s.t[p], p, LO, FLOOR, s.hi);
  }

  /** Even if the roving pointer stood on a swallowed block, it is on a boundary again. */
  lemma CoalesceInv(s: State, p: nat)
    requires Partial(s) && FreeAt(s.t, p) && NoAdjacentFreeBut(s.t, p) && s.last in s.t
    ensures FLOOR <= p
    ensures Inv(Coalesce(s, p)) && LiveSame(s.t, Coalesce(s, p).t, FLOOR)
    ensures FreeAt(Coalesce(s, p).t, CoalescedAt(s, p))
    ensures Coalesce(s, p).t[CoalescedAt(s, p)].size >= s.t[p].size
    ensures Roves(s, p, Coalesce(s, p))
  {
    PendingAboveFloor(s, p);
    var q := Prev(s.t, LO, FLOOR, s.hi, p);
    CoalesceRoves(s, p);
    MergedTiled(s.t, LO, FLOOR, s.hi, q, p);
    MergedNoAdjacent(s.t, LO, FLOOR, s.hi, q, p);
    MergedLive(s.t, LO, FLOOR, s.hi, q, p);
    hide NoAdjacentFree, NoAdjacentFreeBut, LiveWithin;
    hide BlocksOk, Chained, Apart;
    if s.t[q].alloc && !FreeAt(s.t, Next(s.t, p)) {
      RetagIsFuse(s.t, LO, FLOOR, s.hi, p, false);
    }
  }

  lemma CoalesceRoves(s: State, p: nat)
    requires Partial(s) && FreeAt(s.t, p)
    ensures FLOOR <= p && Roves(s, p, Coalesce(s, p))
  {
    PendingAboveFloor(s, p);
    var q, n := Prev(s.t, LO, FLOOR, s.hi, p), Next(s.t, p);
    assert BlockOk(s.t[q], q, LO, FLOOR, s.hi);
    assert n in s.t ==> BlockOk(s.t[n], n, LO, FLOOR, s.hi);
    forall x: nat | FreeAt(s.t, x) && Next(s.t, x) == p
      ensures x == q
    {
      assert BlockOk(s.t[x], x, LO, FLOOR, s.hi);
    }
    assert FreeAt(s.t, q) ==> NeighbourFree(s.t, p);
  }

  // ----- growing, freeing, placing -----

  /** The heap after a successful sbrk of size bytes, the new block not yet merged. */
  ghost function Grown(s: State, size: nat): State {
    State(s.t[s.hi := Block(size, false)], s.last, s.hi + size)
  }

  lemma GrownPartial(s: State, size: nat)
    requires Inv(s) && size % 8 == 0 && 16 <= size && s.hi + size <= MAX_HEAP
    ensures Partial(Grown(s, size)) && s.last in Grown(s, size).t
    ensures FreeAt(Grown(s, size).t, s.hi) && NoAdjacentFreeBut(Grown(s, size).t, s.hi) && FLOOR <= s.hi
    ensures LiveSame(s.t, Grown(s, size).t, FLOOR)
  {
    GrowTiled(s.t, LO, FLOOR, s.hi, size);
    hide BlocksOk, Chained, Apart;
    var t' := Grown(s, size).t;
    forall x | FreeAt(t', x) && x != s.hi && Next(t', x) != s.hi
      ensures !FreeAt(t', Next(t', x))
    {
      assert Next(t', x) == Next(s.t, x);
    }
  }

  /** extend_heap of size bytes: the new state and the block it returns. */
  ghost function Extend(s: State, size: nat): State
    requires Inv(s) && size % 8 == 0 && 16 <= size && s.hi + size <= MAX_HEAP
  {
    GrownPartial(s, size);
    Coalesce(Grown(s, size), s.hi)
  }

  ghost function ExtendAt(s: State, size: nat): nat
    requires Inv(s) && size % 8 == 0 && 16 <= size && s.hi + size <= MAX_HEAP
  {
    GrownPartial(s, size);
    CoalescedAt(Grown(s, size), s.hi)
  }

  lemma ExtendInv(s: State, size: nat)
    requires Inv(s) && size % 8 == 0 && 16 <= size && s.hi + size <= MAX_HEAP
    ensures var s', p := Extend(s, size), ExtendAt(s, size);
            Inv(s') && FreeAt(s'.t, p) && FLOOR <= p && size <= s'.t[p].size && s'.hi == s.hi + size
            && LiveSame(s.t, s'.t, FLOOR)
    ensures s.hi in Grown(s, size).t && Roves(Grown(s, size), s.hi, Extend(s, size))
  {
    GrownPartial(s, size);
    CoalesceInv(Grown(s, size), s.hi);
    hide Inv, Partial, Coalesce, NoAdjacentFree, NoAdjacentFreeBut;
    FreeAboveFloor(Coalesce(Grown(s, size), s.hi), CoalescedAt(Grown(s, size), s.hi));
  }

  lemma FreeAboveFloor(s: State, r: nat)
    requires Inv(s) && FreeAt(s.t, r)
    ensures FLOOR <= r
  {
    PendingAboveFloor(s, r);
  }

  ghost function Freed(s: State, p: nat): State
    requires p in s.t
  {
    s.(t := Retag(s.t, p, false))
  }

  lemma FreedPartial(s: State, p: nat)
    requires Inv(s) && IsLive(s.t, FLOOR, p)
    ensures Partial(Freed(s, p)) && FreeAt(Freed(s, p).t, p) && NoAdjacentFreeBut(Freed(s, p).t, p)
    ensures s.last in Freed(s, p).t && LiveAdds(Freed(s, p).t, s.t, FLOOR, p)
  {
    RetagTiled(s.t, LO, FLOOR, s.hi, p, false);
    hide BlocksOk, Chained, Apart;
    var t' := Freed(s, p).t;
    forall x | FreeAt(t', x) && x != p && Next(t', x) != p
      ensures !FreeAt(t', Next(t', x))
    {
      assert Next(t', x) == Next(s.t, x);
    }
  }

  /** mm_free(p) */
  ghost function Free(s: State, p: nat): State
    requires Inv(s) && IsLive(s.t, FLOOR, p)
  {
    FreedPartial(s, p);
    Coalesce(Freed(s, p), p)
  }

  /** Freeing p ends the life of p and of no other block. */
  lemma FreeOk(s: State, p: nat)
    requires Inv(s) && IsLive(s.t, FLOOR, p)
    ensures Inv(Free(s, p)) && Free(s, p).hi == s.hi
    ensures LiveAdds(Free(s, p).t, s.t, FLOOR, p) && Roves(s, p, Free(s, p))
  {
    FreedPartial(s, p);
    CoalesceInv(Freed(s, p), p);
    FreedNeighbours(s, p);
    hide Partial, Coalesce, NoAdjacentFree, Inv, NeighbourFree;
  }

  lemma FreedNeighbours(s: State, p: nat)
    requires Inv(s) && IsLive(s.t, FLOOR, p)
    ensures NeighbourFree(Freed(s, p).t, p) <==> NeighbourFree(s.t, p)
  {
    assert 0 < s.t[p].size by {
      assert BlockOk(s.t[p], p, LO, FLOOR, s.hi);
    }
    hide Inv;
    var t' := Freed(s, p).t;
    assert forall q: nat {:trigger Next(t', q)} {:trigger Next(s.t, q)} :: FreeAt(t', q) && Next(t', q) == p <==> FreeAt(s.t, q) && Next(s.t, q) == p;
  }

  /** place: what is split off is merged if it can be, but it never can. */
  ghost function Place(s: State, p: nat, a: nat): State
    requires Inv(s) && FreeAt(s.t, p) && a % 8 == 0 && 16 <= a <= s.t[p].size
  {
    if s.t[p].size - a >= 2 * DSIZE then
      SplitReady(s, p, a);
      Coalesce(s.(t := Split(s.t, p, a)), p + a)
    else s.(t := Retag(s.t, p, true))
  }

  lemma SplitReady(s: State, p: nat, a: nat)
    requires Inv(s) && FreeAt(s.t, p) && a % 8 == 0 && 16 <= a && a + 16 <= s.t[p].size
    ensures var s1 := s.(t := Split(s.t, p, a));
            Inv(s1) && s.last in s1.t && FreeAt(s1.t, p + a) && FLOOR <= p + a && NoAdjacentFreeBut(s1.t, p + a)
            && LiveAdds(s.t, s1.t, FLOOR, p)
  {
    SplitTiled(s.t, LO, FLOOR, s.hi, p, a);
    SplitNoAdjacent(s.t, LO, FLOOR, s.hi, p, a);
    SplitLive(s.t, LO, FLOOR, s.hi, p, a);
    PendingAboveFloor(s, p);
    hide BlocksOk, Chained, Apart, LiveWithin;
  }

  lemma PlaceInv(s: State, p: nat, a: nat)
    requires Inv(s) && FreeAt(s.t, p) && a % 8 == 0 && 16 <= a <= s.t[p].size
    ensures Inv(Place(s, p, a)) && Place(s, p, a).hi == s.hi
    ensures LiveAdds(s.t, Place(s, p, a).t, FLOOR, p) && a <= Place(s, p, a).t[p].size <= a + 8
    ensures Place(s, p, a).last == s.last
    ensures Place(s, p, a).t[p].size == if s.t[p].size - a >= 16 then a else s.t[p].size
  {
    if s.t[p].size - a >= 2 * DSIZE {
      SplitReady(s, p, a);
      SplitAlone(s, p, a);
      var s1 := s.(t := Split(s.t, p, a));
      CoalesceInv(s1, p + a);
      assert s1.t[p] == Block(a, true);
      hide Inv, Coalesce, NoAdjacentFreeBut, Split;
      LiveAddsThenSame(s.t, s1.t, Coalesce(s1, p + a).t, p);
    } else {
      WholeOk(s, p, a);
    }
  }

  lemma SplitAlone(s: State, p: nat, a: nat)
    requires Inv(s) && FreeAt(s.t, p) && 16 <= a && a + 16 <= s.t[p].size
    ensures p + a in Split(s.t, p, a) && !NeighbourFree(Split(s.t, p, a), p + a)
  {
    var t' := Split(s.t, p, a);
    PendingAboveFloor(s, p);
    assert Next(t', p + a) == Next(s.t, p) && !FreeAt(s.t, Next(s.t, p));
    forall q: nat | FreeAt(t', q) && q != p + a
      ensures Next(t', q) != p + a
    {
      assert BlockOk(s.t[q], q, LO, FLOOR, s.hi) && BlockOk(s.t[p], p, LO, FLOOR, s.hi);
    }
  }

  lemma LiveAddsThenSame(t: Tiles, t1: Tiles, t2: Tiles, p: nat)
    requires LiveAdds(t, t1, FLOOR, p) && LiveSame(t1, t2, FLOOR)
    ensures LiveAdds(t, t2, FLOOR, p) && t2[p] == t1[p]
  {
    assert IsLive(t1, FLOOR, p);
  }

  lemma WholeOk(s: State, p: nat, a: nat)
    requires Inv(s) && FreeAt(s.t, p) && a % 8 == 0 && 16 <= a <= s.t[p].size < a + 16
    ensures Inv(s.(t := Retag(s.t, p, true))) && LiveAdds(s.t, Retag(s.t, p, true), FLOOR, p)
    ensures s.t[p].size <= a + 8
  {
    PendingAboveFloor(s, p);
    assert BlockOk(s.t[p], p, LO, FLOOR, s.hi);
    Mod8(s.t[p].size, a);
    RetagTiled(s.t, LO, FLOOR, s.hi, p, true);
    RetagNoAdjacent(s.t, p);
    RetagLive(s.t, LO, FLOOR, s.hi, p);
    hide BlocksOk, Chained, Apart, NoAdjacentFree;
  }

  // ----- mm_malloc -----

  /** mm_malloc(size): the new state and the pointer returned. */
  ghost function Malloc(s: State, size: Word): (State, nat)
    requires Inv(s) && size + 15 < WORD_SPAN
  {
    if size == 0 then (s, NULL) else
      AsizeOk(size);
      FindFitOk(s, Asize(size));
      var a, p := Asize(size), FindFit(s, Asize(size));
      if p != NULL then (Place(s, p, a), p)
      else if s.hi + GrowthFor(a) > MAX_HEAP then (s, NULL)
      else
        ExtendInv(s, GrowthFor(a));
        (Place(Extend(s, GrowthFor(a)), ExtendAt(s, GrowthFor(a)), a), ExtendAt(s, GrowthFor(a)))
  }

  ghost predicate Granted(s: State, s': State, size: Word, r: nat) {
    && r != NULL && Inv(s') && LiveAdds(s.t, s'.t, FLOOR, r) && size + 8 <= s'.t[r].size <= size + 23
    && s'.hi == s.hi + if Fits(s.t, Asize(size)) then 0 else GrowthFor(Asize(size))
  }

  /** A request fails exactly when it is empty or nothing fits and sbrk cannot deliver,
      and then changes nothing; otherwise the block is new and large enough. */
  lemma MallocOutcome(s: State, size: Word)
    requires Inv(s) && size + 15 < WORD_SPAN
    ensures var (s', r) := Malloc(s, size);
            && (r == NULL <==> size == 0 || (!Fits(s.t, Asize(size)) && s.hi + GrowthFor(Asize(size)) > MAX_HEAP))
            && (if r == NULL then s' == s else Granted(s, s', size, r))
  {
    if size != 0 {
      AsizeOk(size);
      FindFitOk(s, Asize(size));
      hide Inv, FindFit, Place, Extend, ExtendAt, Asize, Fits, Granted;
      if Fits(s.t, Asize(size)) {
        FittingMalloc(s, size);
      } else if s.hi + GrowthFor(Asize(size)) <= MAX_HEAP {
        GrowingMalloc(s, size);
      }
    }
  }

  lemma FittingMalloc(s: State, size: Word)
    requires Inv(s) && 0 < size && size + 15 < WORD_SPAN && Fits(s.t, Asize(size))
    ensures Granted(s, Malloc(s, size).0, size, Malloc(s, size).1) && Malloc(s, size).1 != NULL
  {
    AsizeOk(size);
    FindFitOk(s, Asize(size));
    hide Inv, FindFit, Place, LiveAdds, Fits, Asize;
    PlaceInv(s, FindFit(s, Asize(size)), Asize(size));
  }

  lemma GrowingMalloc(s: State, size: Word)
    requires Inv(s) && 0 < size && size + 15 < WORD_SPAN
    requires !Fits(s.t, Asize(size)) && s.hi + GrowthFor(Asize(size)) <= MAX_HEAP
    ensures Granted(s, Malloc(s, size).0, size, Malloc(s, size).1) && Malloc(s, size).1 != NULL
  {
    AsizeOk(size);
    FindFitOk(s, Asize(size));
    ExtendInv(s, GrowthFor(Asize(size)));
    hide Inv, FindFit, Place, LiveAdds, LiveSame, Fits, Asize, Extend, ExtendAt;
    var s1, p := Extend(s, GrowthFor(Asize(size))), ExtendAt(s, GrowthFor(Asize(size)));
    PlaceInv(s1, p, Asize(size));
    LiveAddsAfterSame(s.t, s1.t, Place(s1, p, Asize(size)).t, FLOOR, p);
  }

  // ----- mm_realloc -----

  /** mm_realloc: a new block, and the old one freed if there is one. */
  ghost function Realloc(s: State, p: nat, size: Word): State
    requires Inv(s) && IsLive(s.t, FLOOR, p) && size + 15 < WORD_SPAN
  {
    GrantedLive(s, p, size);
    if Malloc(s, size).1 == NULL then s else Free(Malloc(s, size).0, p)
  }

  lemma GrantedLive(s: State, p: nat, size: Word)
    requires Inv(s) && IsLive(s.t, FLOOR, p) && size + 15 < WORD_SPAN
    ensures Inv(Malloc(s, size).0) && IsLive(Malloc(s, size).0.t, FLOOR, p)
  {
    hide Malloc, Inv, Asize, Fits;
    MallocOutcome(s, size);
    assert IsLive(s.t, FLOOR, p);
  }

  // ----- mm_init -----

  ghost function Bare(): State {
    State(map[LO := Block(DSIZE, true)], LO, FLOOR)
  }

  lemma BareInv()
    ensures Inv(Bare()) && Bare().hi == FLOOR
  {
  }

  /** The state mm_init leaves behind. */
  ghost function Initial(): State {
    BareInv();
    Extend(Bare(), CHUNKSIZE)
  }

  lemma InitialOk()
    ensures Inv(Initial()) && Initial().hi == FLOOR + CHUNKSIZE
    ensures forall p: nat :: !IsLive(Initial().t, FLOOR, p)
  {
    BareInv();
    ExtendInv(Bare(), CHUNKSIZE);
  }
}

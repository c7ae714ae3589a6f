/** What the explicit-list allocator of mm.c does, as functions on its abstract
    state: the tiling of the heap, the free list in order, and the break. */
module ExplicitSpec {
  import opened Memory
  import opened Tiling
  import opened Links
  import opened Requests

  const LO: nat := 8        // the prologue's payload
  const FLOOR: nat := 24    // the first block behind the prologue
  const MINIMUM: nat := 16

  datatype State = State(t: Tiles, fl: seq<nat>, hi: nat)

  /** The free list holds each free block exactly once, those in ex aside. */
  ghost predicate Listed(s: State, ex: set<nat>) {
    NoDup(s.fl) && forall x: nat :: x in s.fl <==> FreeAt(s.t, x) && x !in ex
  }

  ghost predicate Partial(s: State, ex: set<nat>) {
    && Tiled(s.t, LO, FLOOR, s.hi) && s.hi <= MAX_HEAP
    && s.t[LO] == Block(MINIMUM, true)
    && Listed(s, ex)
  }

  ghost predicate Inv(s: State) {
    Partial(s, {}) && NoAdjacentFree(s.t)
  }

  ghost function Place(s: State, p: nat, a: nat): State
    requires p in s.t && a <= s.t[p].size
  {
    var rest := Without(s.fl, p);
    if s.t[p].size - a >= MINIMUM then State(Split(s.t, p, a), [p + a] + rest, s.hi)
    else State(Retag(s.t, p, true), rest, s.hi)
  }

  ghost function CoalescedAt(s: State, p: nat): nat
    requires Tiled(s.t, LO, FLOOR, s.hi) && p in s.t && FLOOR <= p
  {
    MergeLow(s.t, Prev(s.t, LO, FLOOR, s.hi, p), p)
  }

  ghost function Coalesce(s: State, p: nat): State
    requires Tiled(s.t, LO, FLOOR, s.hi) && p in s.t && FLOOR <= p
  {
    var q := Prev(s.t, LO, FLOOR, s.hi, p);
    State(Merged(s.t, q, p), [MergeLow(s.t, q, p)] + Without(Without(s.fl, q), Next(s.t, p)), s.hi)
  }

  lemma CoalesceInv(s: State, p: nat)
    requires Partial(s, {p}) && FreeAt(s.t, p) && NoAdjacentFreeBut(s.t, p)
    ensures Inv(Coalesce(s, p))
    ensures FreeAt(Coalesce(s, p).t, CoalescedAt(s, p))
    ensures Coalesce(s, p).t[CoalescedAt(s, p)].size >= s.t[p].size
  {
    var q := Prev(s.t, LO, FLOOR, s.hi, p);
    var n := Next(s.t, p);
    MergedTiled(s.t, LO, FLOOR, s.hi, q, p);
    MergedNoAdjacent(s.t, LO, FLOOR, s.hi, q, p);
    WithoutMembers(s.fl, q);
    WithoutMembers(Without(s.fl, q), n);
    var s' := Coalesce(s, p);
    ConsMembers(MergeLow(s.t, q, p), Without(Without(s.fl, q), n));
    forall x: nat
      ensures x in s'.fl <==> FreeAt(s'.t, x)
    {
    }
  }

  lemma CoalesceLive(s: State, p: nat)
    requires Partial(s, {p}) && FreeAt(s.t, p)
    ensures LiveSame(s.t, Coalesce(s, p).t, FLOOR)
  {
    MergedLive(s.t, LO, FLOOR, s.hi, Prev(s.t, LO, FLOOR, s.hi, p), p);
  }

  lemma PlaceInv(s: State, p: nat, a: nat)
    requires Inv(s) && FreeAt(s.t, p) && a % 8 == 0 && 16 <= a <= s.t[p].size
    ensures Inv(Place(s, p, a))
  {
    WithoutMembers(s.fl, p);
    if s.t[p].size - a >= MINIMUM {
      SplitTiled(s.t, LO, FLOOR, s.hi, p, a);
      hide BlocksOk, Chained, Apart, Without;
      ConsMembers(p + a, Without(s.fl, p));
      SplitNoAdjacent(s.t, LO, FLOOR, s.hi, p, a);
    } else {
      RetagTiled(s.t, LO, FLOOR, s.hi, p, true);
      hide BlocksOk, Chained, Apart, Without;
      RetagNoAdjacent(s.t, p);
    }
  }

  lemma PlaceLive(s: State, p: nat, a: nat)
    requires Inv(s) && FreeAt(s.t, p) && a % 8 == 0 && 16 <= a <= s.t[p].size
    ensures LiveAdds(s.t, Place(s, p, a).t, FLOOR, p)
    ensures a <= Place(s, p, a).t[p].size <= a + 8
  {
    if s.t[p].size - a >= MINIMUM {
      SplitLive(s.t, LO, FLOOR, s.hi, p, a);
    } else {
      RetagLive(s.t, LO, FLOOR, s.hi, p);
      Mod8(s.t[p].size, a);
    }
  }

  // ----- extend_heap, mm_malloc, mm_free, mm_realloc -----

  /** The heap after a successful sbrk of size bytes, the new block not yet listed. */
  ghost function Grown(s: State, size: nat): State {
    State(s.t[s.hi := Block(size, false)], s.fl, s.hi + size)
  }

  lemma GrownPartial(s: State, size: nat)
    requires Inv(s) && size % 8 == 0 && 16 <= size && s.hi + size <= MAX_HEAP
    ensures Partial(Grown(s, size), {s.hi})
    ensures FreeAt(Grown(s, size).t, s.hi) && NoAdjacentFreeBut(Grown(s, size).t, s.hi)
    ensures LiveSame(s.t, Grown(s, size).t, FLOOR)
  {
    GrowTiled(s.t, LO, FLOOR, s.hi, size);
    hide BlocksOk, Chained, Apart;
    var t' := Grown(s, size).t;
    forall x | FreeAt(t', x) && x != s.hi && Next(t', x) != s.hi
      ensures !FreeAt(t', Next(t', x))
    {
      assert Next(t', x) == Next(s.t, x);
    }
  }

  /** extend_heap(size / WSIZE): the new state and the block it returns. */
  ghost function Extend(s: State, size: nat): State
    requires Inv(s) && size % 8 == 0 && 16 <= size && s.hi + size <= MAX_HEAP
  {
    GrownPartial(s, size);
    Coalesce(Grown(s, size), s.hi)
  }

  ghost function ExtendAt(s: State, size: nat): nat
    requires Inv(s) && size % 8 == 0 && 16 <= size && s.hi + size <= MAX_HEAP
  {
    GrownPartial(s, size);
    CoalescedAt(Grown(s, size), s.hi)
  }

  lemma ExtendInv(s: State, size: nat)
    requires Inv(s) && size % 8 == 0 && 16 <= size && s.hi + size <= MAX_HEAP
    ensures var s', p := Extend(s, size), ExtendAt(s, size);
            Inv(s') && FreeAt(s'.t, p) && FLOOR <= p && size <= s'.t[p].size && s'.hi == s.hi + size
            && LiveSame(s.t, s'.t, FLOOR)
  {
    GrownPartial(s, size);
    CoalesceInv(Grown(s, size), s.hi);
    CoalesceLive(Grown(s, size), s.hi);
  }

  lemma FindFitOk(s: State, a: nat)
    requires Inv(s)
    ensures forall x :: x in s.fl ==> x in s.t && x != NULL
    ensures FirstFit(s.t, s.fl, 0, a) != NULL <==> Fits(s.t, a)
    ensures Fits(s.t, a) ==> FreeAt(s.t, FirstFit(s.t, s.fl, 0, a)) && a <= s.t[FirstFit(s.t, s.fl, 0, a)].size
  {
    hide NoAdjacentFree, Chained, Apart;
    forall x | x in s.fl
      ensures FreeAt(s.t, x) && x != NULL
    {
    }
    var k := FirstFitFinds(s.t, s.fl, 0, a);
    if k < |s.fl| {
      assert s.fl[k] in s.fl;
      assert FreeAt(s.t, s.fl[k]);
    } else {
      forall p: nat | FreeAt(s.t, p)
        ensures s.t[p].size < a
      {
        assert p in s.fl;
      }
    }
  }

  /** mm_malloc(size): the new state and the pointer returned. */
  ghost function Malloc(s: State, size: Word): (State, nat)
    requires Inv(s) && size + 15 < WORD_SPAN
  {
    if size == 0 then (s, NULL) else
      AsizeOk(size);
      FindFitOk(s, Asize(size));
      var a, p := Asize(size), FirstFit(s.t, s.fl, 0, Asize(size));
      if p != NULL then (Place(s, p, a), p)
      else if s.hi + GrowthFor(a) > MAX_HEAP then (s, NULL)
      else
        ExtendInv(s, GrowthFor(a));
        (Place(Extend(s, GrowthFor(a)), ExtendAt(s, GrowthFor(a)), a), ExtendAt(s, GrowthFor(a)))
  }

  /** A request fails exactly when it is empty or nothing fits and sbrk cannot deliver;
      a failure changes nothing, and the break moves only when nothing fits. */
  lemma MallocOutcome(s: State, size: Word)
    requires Inv(s) && size + 15 < WORD_SPAN
    ensures var (s', r) := Malloc(s, size);
            && (r == NULL <==> size == 0 || (!Fits(s.t, Asize(size)) && s.hi + GrowthFor(Asize(size)) > MAX_HEAP))
            && (r == NULL ==> s' == s)
            && (r != NULL ==> s'.hi == s.hi + if Fits(s.t, Asize(size)) then 0 else GrowthFor(Asize(size)))
  {
    if size != 0 {
      AsizeOk(size);
      FindFitOk(s, Asize(size));
      hide Inv, FirstFit, Asize, Fits;
      if !Fits(s.t, Asize(size)) && s.hi + GrowthFor(Asize(size)) <= MAX_HEAP {
        ExtendInv(s, GrowthFor(Asize(size)));
      }
    }
  }

  /** A granted block is new, leaves the other live blocks alone, keeps the invariant
      and wastes less than 16 bytes beyond its tags. */
  lemma MallocGrants(s: State, size: Word)
    requires Inv(s) && size + 15 < WORD_SPAN
    requires Malloc(s, size).1 != NULL
    ensures var (s', r) := Malloc(s, size);
            && Inv(s') && LiveAdds(s.t, s'.t, FLOOR, r) && r % 8 == 0
            && Asize(size) <= s'.t[r].size <= Asize(size) + 8
            && size + 8 <= s'.t[r].size <= size + 23
  {
    var a := Asize(size);
    AsizeOk(size);
    FindFitOk(s, a);
    hide Inv, LiveWithin, Asize;
    if Fits(s.t, a) {
      PlaceInv(s, FirstFit(s.t, s.fl, 0, a), a);
      PlaceLive(s, FirstFit(s.t, s.fl, 0, a), a);
    } else {
      var s1, p := Extend(s, GrowthFor(a)), ExtendAt(s, GrowthFor(a));
      ExtendInv(s, GrowthFor(a));
      PlaceInv(s1, p, a);
      PlaceLive(s1, p, a);
      LiveAddsAfterSame(s.t, s1.t, Place(s1, p, a).t, FLOOR, p);
    }
    LiveAligned(Malloc(s, size).0, Malloc(s, size).1);
  }

  lemma LiveAligned(s: State, p: nat)
    requires Inv(s) && IsLive(s.t, FLOOR, p)
    ensures p % 8 == 0 && FLOOR <= p && 16 <= s.t[p].size && p + s.t[p].size <= s.hi
  {
  }

  ghost function Freed(s: State, p: nat): State
    requires p in s.t
  {
    State(Retag(s.t, p, false), s.fl, s.hi)
  }

  lemma FreedPartial(s: State, p: nat)
    requires Inv(s) && IsLive(s.t, FLOOR, p)
    ensures Partial(Freed(s, p), {p}) && FreeAt(Freed(s, p).t, p) && NoAdjacentFreeBut(Freed(s, p).t, p)
    ensures LiveAdds(Freed(s, p).t, s.t, FLOOR, p)
  {
    RetagTiled(s.t, LO, FLOOR, s.hi, p, false);
    hide BlocksOk, Chained, Apart;
    var t' := Freed(s, p).t;
    forall x | FreeAt(t', x) && x != p && Next(t', x) != p
      ensures !FreeAt(t', Next(t', x))
    {
      assert Next(t', x) == Next(s.t, x);
    }
  }

  /** mm_free(p) */
  ghost function Free(s: State, p: nat): State
    requires Inv(s) && IsLive(s.t, FLOOR, p)
  {
    FreedPartial(s, p);
    Coalesce(Freed(s, p), p)
  }

  /** Freeing p ends the life of p and of no other block. */
  lemma FreeOk(s: State, p: nat)
    requires Inv(s) && IsLive(s.t, FLOOR, p)
    ensures Inv(Free(s, p)) && Free(s, p).hi == s.hi
    ensures LiveAdds(Free(s, p).t, s.t, FLOOR, p)
  {
    FreedPartial(s, p);
    CoalesceInv(Freed(s, p), p);
    CoalesceLive(Freed(s, p), p);
  }

  /** mm_realloc(p, size) */
  ghost function Realloc(s: State, p: nat, size: Word): (State, nat)
    requires Inv(s) && IsLive(s.t, FLOOR, p) && size + 15 < WORD_SPAN
  {
    var (s1, q) := Malloc(s, size);
    if q == NULL then (s, NULL) else
      MallocGrants(s, size);
      assert IsLive(s.t, FLOOR, p);
      (Free(s1, p), q)
  }

  /** Reallocation ends the life of p, and only of p, when it grants a new block. */
  lemma ReallocOk(s: State, p: nat, size: Word)
    requires Inv(s) && IsLive(s.t, FLOOR, p) && size + 15 < WORD_SPAN
    ensures var (s', q) := Realloc(s, p, size);
            && Inv(s') && s'.hi >= s.hi
            && (q == NULL <==> Malloc(s, size).1 == NULL)
            && (q == NULL ==> s' == s)
            && (q != NULL ==>
                  && q != p && IsLive(s'.t, FLOOR, q) && !IsLive(s'.t, FLOOR, p) && !IsLive(s.t, FLOOR, q)
                  && size + 8 <= s'.t[q].size <= size + 23
                  && (forall x: nat :: x != p && x != q ==>
                        (IsLive(s.t, FLOOR, x) <==> IsLive(s'.t, FLOOR, x)) &&
                        (IsLive(s.t, FLOOR, x) ==> s'.t[x] == s.t[x])))
  {
    MallocOutcome(s, size);
    if Malloc(s, size).1 != NULL {
      MallocGrants(s, size);
      var s1 := Malloc(s, size).0;
      assert IsLive(s.t, FLOOR, p);
      FreeOk(s1, p);
      hide Inv, Malloc, Free, Asize;
    }
  }

  /** The heap mm_init lays out before it extends it. */
  ghost function Bare(): State {
    State(map[LO := Block(MINIMUM, true)], [], FLOOR)
  }

  lemma BareInv()
    ensures Inv(Bare())
  {
  }

  /** The state mm_init leaves behind. */
  ghost function Initial(): State {
    BareInv();
    Extend(Bare(), CHUNKSIZE)
  }

  lemma InitialOk()
    ensures Inv(Initial()) && Initial().hi == FLOOR + CHUNKSIZE
    ensures forall p: nat :: !IsLive(Initial().t, FLOOR, p)
  {
    BareInv();
    ExtendInv(Bare(), CHUNKSIZE);
  }
}

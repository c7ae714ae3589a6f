/** How the segregated-list allocators take a block, and what mm_malloc makes of it.
    One of them always splits off the back of a block; the other chooses between the
    whole block, its tail and its head. */
module SegPlace {
  import opened Memory
  import opened Tiling
  import opened Links
  import opened SizeClasses
  import opened Requests
  import opened SegSpec

  datatype Policy = Front | ThreeWay

  lemma RetakenSorted(t: Tiles, t': Tiles, lists: Lists, p: nat, f: nat)
    requires Sorted(t, lists, {p})
    requires forall x: nat :: FreeAt(t', x) && x != f <==> FreeAt(t, x) && x != p
    requires forall x: nat :: FreeAt(t, x) && x != p ==> x in t' && t'[x] == t[x]
    ensures Sorted(t', lists, {f})
  {
    hide ClassOf;
  }

  ghost function FreePart(p: nat, a: nat, alloc: bool): nat {
    if alloc then p + a else p
  }

  ghost function UsedPart(p: nat, a: nat, alloc: bool): nat {
    if alloc then p else p + a
  }

  /** Cutting a block that is on no list leaves one part for the client and one part
      that is free and still to be listed. */
  lemma CutPartial(s: State, p: nat, a: nat, alloc: bool)
    requires Partial(s, {p}) && FreeAt(s.t, p) && a % 8 == 0 && 16 <= a && a + 16 <= s.t[p].size
    ensures Partial(s.(t := Cut(s.t, p, a, alloc)), {FreePart(p, a, alloc)})
    ensures FLOOR <= p && p + a !in s.t
    ensures FreeAt(Cut(s.t, p, a, alloc), FreePart(p, a, alloc))
    ensures LiveAdds(s.t, Cut(s.t, p, a, alloc), FLOOR, UsedPart(p, a, alloc))
  {
    CutTiled(s.t, LO, FLOOR, s.hi, p, a, alloc);
    hide Tiled;
    hide Sorted;
    RetakenSorted(s.t, Cut(s.t, p, a, alloc), s.lists, p, FreePart(p, a, alloc));
  }

  lemma CutNoAdjacent(s: State, p: nat, a: nat, alloc: bool)
    requires Partial(s, {p}) && NoAdjacentFree(s.t) && FreeAt(s.t, p)
    requires a % 8 == 0 && 16 <= a && a + 16 <= s.t[p].size
    ensures NoAdjacentFree(Cut(s.t, p, a, alloc))
  {
    CutTiled(s.t, LO, FLOOR, s.hi, p, a, alloc);
    var t' := Cut(s.t, p, a, alloc);
    forall x | FreeAt(t', x)
      ensures !FreeAt(t', Next(t', x))
    {
      if x == p + a {
        assert Next(t', x) == Next(s.t, p);
      } else if x != p {
        assert Next(t', x) == Next(s.t, x);
      }
    }
  }

  /** The lists without block p. */
  ghost function Removed(s: State, p: nat): State
    requires p in s.t && |s.lists| == LISTLIMIT
  {
    s.(lists := Take(s.lists, p, s.t[p].size))
  }

  lemma RemovedPartial(s: State, ex: set<nat>, p: nat)
    requires Partial(s, ex) && p in s.t
    ensures |s.lists| == LISTLIMIT && Partial(Removed(s, p), ex + {p})
  {
    hide ClassOf;
    TakeSorted(s.t, s.lists, ex, p);
    hide Sorted, Tiled;
  }

  // ----- place -----

  ghost function PlaceFront(s: State, p: nat, a: nat): State
    requires Inv(s) && FreeAt(s.t, p) && a % 8 == 0 && 16 <= a <= s.t[p].size
  {
    RemovedPartial(s, {}, p);
    if s.t[p].size - a >= 2 * DSIZE then
      CutPartial(Removed(s, p), p, a, true);
      Coalesce(Removed(s, p).(t := Cut(s.t, p, a, true)), p + a)
    else Removed(s, p).(t := Retag(s.t, p, true))
  }

  ghost function PlaceThreeWay(s: State, p: nat, a: nat): (State, nat)
    requires Inv(s) || Partial(s, {})
    requires FreeAt(s.t, p) && a % 8 == 0 && 16 <= a <= s.t[p].size
  {
    RemovedPartial(s, {}, p);
    var rest, lists := s.t[p].size - a, Removed(s, p).lists;
    if rest <= 2 * DSIZE then (State(Retag(s.t, p, true), lists, s.hi), p)
    else if a >= 100 then (State(Cut(s.t, p, rest, false), Put(lists, p, rest), s.hi), p + rest)
    else (State(Cut(s.t, p, a, true), Put(lists, p + a, rest), s.hi), p)
  }

  /** place: the new state and the block the client gets. */
  ghost function Place(pol: Policy, s: State, p: nat, a: nat): (State, nat)
    requires Inv(s) && FreeAt(s.t, p) && a % 8 == 0 && 16 <= a <= s.t[p].size
  {
    if pol.Front? then (PlaceFront(s, p, a), p) else PlaceThreeWay(s, p, a)
  }

  /** How many bytes a granted block may exceed what was asked of place. */
  function Slack(pol: Policy): nat {
    if pol.Front? then 8 else 16
  }

  ghost predicate PlacedOk(s: State, s': State, r: nat, a: nat, slack: nat) {
    && (Inv(s) ==> Inv(s')) && Partial(s', {})
    && LiveAdds(s.t, s'.t, FLOOR, r) && a <= s'.t[r].size <= a + slack && s'.hi == s.hi
  }

  lemma WholeOk(s: State, p: nat, a: nat, slack: nat)
    requires Inv(s) || Partial(s, {})
    requires FreeAt(s.t, p) && a % 8 == 0 && 16 <= a <= s.t[p].size <= a + slack
    ensures |s.lists| == LISTLIMIT
    ensures PlacedOk(s, Removed(s, p).(t := Retag(s.t, p, true)), p, a, slack)
  {
    RemovedPartial(s, {}, p);
    RetagTiled(s.t, LO, FLOOR, s.hi, p, true) by {
      PendingAboveFloor(s, p);
    }
    RetagLive(s.t, LO, FLOOR, s.hi, p);
    WholeSorted(s.t, Removed(s, p).lists, p);
    if Inv(s) {
      RetagNoAdjacent(s.t, p);
    }
    hide Tiled, NoAdjacentFree, Sorted;
  }

  lemma WholeSorted(t: Tiles, lists: Lists, p: nat)
    requires Sorted(t, lists, {} + {p}) && p in t
    ensures Sorted(Retag(t, p, true), lists, {})
  {
    hide ClassOf;
  }

  /** Both ways of cutting keep everything the allocator relies on. */
  lemma CutOk(s: State, p: nat, a: nat, alloc: bool)
    requires Inv(s) || Partial(s, {})
    requires FreeAt(s.t, p) && a % 8 == 0 && 16 <= a && a + 16 <= s.t[p].size
    ensures |s.lists| == LISTLIMIT
    ensures var f := FreePart(p, a, alloc);
            var t' := Cut(s.t, p, a, alloc);
            var rest := s.t[p].size - a;
            PlacedOk(s, State(t', Put(Removed(s, p).lists, f, if alloc then rest else a), s.hi), UsedPart(p, a, alloc),
                     if alloc then a else rest, 0)
  {
    hide ClassOf;
    RemovedPartial(s, {}, p);
    CutPartial(Removed(s, p), p, a, alloc);
    CutSizes(s.t, p, a, alloc);
    CutKeeps(s, p, a, alloc);
    hide Inv, Cut, Take, Put, LiveAdds, Partial;
  }

  lemma CutKeeps(s: State, p: nat, a: nat, alloc: bool)
    requires Inv(s) || Partial(s, {})
    requires FreeAt(s.t, p) && a % 8 == 0 && 16 <= a && a + 16 <= s.t[p].size
    ensures |s.lists| == LISTLIMIT && FreePart(p, a, alloc) in Cut(s.t, p, a, alloc)
    ensures var f, t' := FreePart(p, a, alloc), Cut(s.t, p, a, alloc);
            var s' := State(t', Put(Removed(s, p).lists, f, t'[f].size), s.hi);
            Partial(s', {}) && (Inv(s) ==> Inv(s'))
  {
    RemovedPartial(s, {}, p);
    CutPartial(Removed(s, p), p, a, alloc);
    if Inv(s) {
      CutNoAdjacent(Removed(s, p), p, a, alloc);
    }
    hide ClassOf, NoAdjacentFree, Cut, Tiled;
    PutSorted(Cut(s.t, p, a, alloc), Removed(s, p).lists, {FreePart(p, a, alloc)}, FreePart(p, a, alloc));
    hide Sorted;
    assert {FreePart(p, a, alloc)} - {FreePart(p, a, alloc)} == {};
  }

  lemma CutSizes(t: Tiles, p: nat, a: nat, alloc: bool)
    requires p in t && 0 < a <= t[p].size
    ensures Cut(t, p, a, alloc)[FreePart(p, a, alloc)].size == if alloc then t[p].size - a else a
    ensures Cut(t, p, a, alloc)[UsedPart(p, a, alloc)].size == if alloc then a else t[p].size - a
    ensures LO != p && LO != p + a && LO in t ==> Cut(t, p, a, alloc)[LO] == t[LO]
  {
  }

  lemma NothingToMerge(s: State, p: nat, q: nat)
    requires Partial(s, {p}) && FreeAt(s.t, p)
    requires q in s.t && s.t[q].alloc && q < p && Next(s.t, q) == p && !FreeAt(s.t, Next(s.t, p))
    ensures FLOOR <= p && |s.lists| == LISTLIMIT
    ensures Coalesce(s, p) == s.(lists := Put(s.lists, p, s.t[p].size))
  {
    hide ClassOf;
    PendingAboveFloor(s, p);
    TwentyLists(s, {p});
    assert Prev(s.t, LO, FLOOR, s.hi, p) == q;
    hide Sorted, BlocksOk, Chained, Apart;
    RetagIsFuse(s.t, LO, FLOOR, s.hi, p, false);
  }

  /** The block split off by place never merges: its neighbours are both allocated. */
  lemma FrontIsCut(s: State, p: nat, a: nat)
    requires Inv(s) && FreeAt(s.t, p) && a % 8 == 0 && 16 <= a && a + 16 <= s.t[p].size
    ensures |s.lists| == LISTLIMIT
    ensures PlaceFront(s, p, a) ==
            State(Cut(s.t, p, a, true), Put(Removed(s, p).lists, p + a, s.t[p].size - a), s.hi)
  {
    hide ClassOf;
    RemovedPartial(s, {}, p);
    CutPartial(Removed(s, p), p, a, true);
    CutSurrounded(s, p, a);
    hide Inv, Partial, Coalesce, Take, Put, LiveAdds;
    NothingToMerge(Removed(s, p).(t := Cut(s.t, p, a, true)), p + a, p);
  }

  lemma CutSurrounded(s: State, p: nat, a: nat)
    requires Inv(s) && FreeAt(s.t, p) && 16 <= a && a + 16 <= s.t[p].size && p + a !in s.t
    ensures var t' := Cut(s.t, p, a, true);
            && t'[p] == Block(a, true) && Next(t', p) == p + a && t'[p + a] == Block(s.t[p].size - a, false)
            && !FreeAt(t', Next(t', p + a))
  {
    assert Next(Cut(s.t, p, a, true), p + a) == Next(s.t, p);
    assert !FreeAt(s.t, Next(s.t, p));
  }

  /** Whatever place does, the block granted has at least a bytes and at most slack more,
      no other live block is touched, and the invariant holds again. */
  lemma PlaceOk(pol: Policy, s: State, p: nat, a: nat)
    requires Inv(s) && FreeAt(s.t, p) && a % 8 == 0 && 16 <= a <= s.t[p].size
    ensures PlacedOk(s, Place(pol, s, p, a).0, Place(pol, s, p, a).1, a, Slack(pol))
  {
    if pol.Front? {
      PlaceFrontOk(s, p, a);
    } else {
      PlaceThreeWayOk(s, p, a);
    }
  }

  lemma PlaceFrontOk(s: State, p: nat, a: nat)
    requires Inv(s) && FreeAt(s.t, p) && a % 8 == 0 && 16 <= a <= s.t[p].size
    ensures PlacedOk(s, PlaceFront(s, p, a), p, a, 8)
  {
    hide ClassOf;
    SizeOfFree(s, p, a);
    RemovedPartial(s, {}, p);
    if s.t[p].size - a >= 2 * DSIZE {
      FrontIsCut(s, p, a);
      CutOk(s, p, a, true);
    } else {
      WholeOk(s, p, a, 8);
    }
  }

  lemma PlaceThreeWayOk(s: State, p: nat, a: nat)
    requires Inv(s) || Partial(s, {})
    requires FreeAt(s.t, p) && a % 8 == 0 && 16 <= a <= s.t[p].size
    ensures PlacedOk(s, PlaceThreeWay(s, p, a).0, PlaceThreeWay(s, p, a).1, a, 16)
  {
    hide ClassOf;
    var rest := s.t[p].size - a;
    SizeOfFree(s, p, a);
    RemovedPartial(s, {}, p);
    hide Inv, LiveAdds, Cut, FreeAt, Put, Take;
    if rest <= 2 * DSIZE {
      WholeOk(s, p, a, 16);
    } else if a >= 100 {
      CutOk(s, p, rest, false);
    } else {
      CutOk(s, p, a, true);
    }
  }

  lemma SizeOfFree(s: State, p: nat, a: nat)
    requires Inv(s) || Partial(s, {})
    requires FreeAt(s.t, p) && a % 8 == 0 && 16 <= a <= s.t[p].size
    ensures s.t[p].size % 8 == 0 && (s.t[p].size - a) % 8 == 0
    ensures s.t[p].size - a >= 16 || s.t[p].size - a <= 8
    ensures s.t[p].size - a <= 16 || s.t[p].size - a >= 24
  {
    assert BlockOk(s.t[p], p, LO, FLOOR, s.hi);
    Mod8(s.t[p].size, a);
  }

  // ----- mm_malloc -----

  lemma FoundOk(s: State, size: Word)
    requires Inv(s) && 0 < size && size + 15 < WORD_SPAN
    ensures |s.lists| == LISTLIMIT && Asize(size) % 8 == 0 && 16 <= Asize(size) && size + 8 <= Asize(size) <= size + 15
    ensures var p := FindFit(s.t, s.lists, ClassOf(Asize(size)), Asize(size));
            (p != NULL <==> Fits(s.t, Asize(size))) && (p != NULL ==> FreeAt(s.t, p) && Asize(size) <= s.t[p].size)
  {
    AsizeOk(size);
    FindFitOk(s, Asize(size));
  }

  /** mm_malloc(size): the new state and the pointer returned. */
  ghost function Malloc(pol: Policy, s: State, size: Word): (State, nat)
    requires Inv(s) && size + 15 < WORD_SPAN
  {
    if size == 0 then (s, NULL) else
      FoundOk(s, size);
      var a, p := Asize(size), FindFit(s.t, s.lists, ClassOf(Asize(size)), Asize(size));
      if p != NULL then Place(pol, s, p, a)
      else if s.hi + GrowthFor(a) > MAX_HEAP then (s, NULL)
      else
        ExtendInv(s, GrowthFor(a));
        Place(pol, Extend(s, GrowthFor(a)), ExtendAt(s, GrowthFor(a)), a)
  }

  /** A granted block is new, leaves the other live blocks alone, keeps the invariant and
      exceeds the request by no more than rounding and the placement allow. */
  ghost predicate Granted(pol: Policy, s: State, s': State, size: Word, r: nat) {
    && r != NULL && Inv(s') && LiveAdds(s.t, s'.t, FLOOR, r) && r % 8 == 0
    && Asize(size) <= s'.t[r].size <= Asize(size) + Slack(pol)
    && size + 8 <= s'.t[r].size <= size + 15 + Slack(pol)
    && s'.hi == s.hi + if Fits(s.t, Asize(size)) then 0 else GrowthFor(Asize(size))
  }

  lemma LiveAligned(s: State, p: nat)
    requires Inv(s) && IsLive(s.t, FLOOR, p)
    ensures p % 8 == 0 && FLOOR <= p && 16 <= s.t[p].size && p + s.t[p].size <= s.hi
  {
    assert BlockOk(s.t[p], p, LO, FLOOR, s.hi);
  }

  lemma PlacedAfter(pol: Policy, s: State, s1: State, p: nat, a: nat)
    requires Inv(s1) && FreeAt(s1.t, p) && a % 8 == 0 && 16 <= a <= s1.t[p].size
    requires LiveSame(s.t, s1.t, FLOOR)
    ensures var (s', r) := Place(pol, s1, p, a);
            && Inv(s') && LiveAdds(s.t, s'.t, FLOOR, r) && r % 8 == 0 && FLOOR <= r
            && a <= s'.t[r].size <= a + Slack(pol) && s'.hi == s1.hi
  {
    PlaceOk(pol, s1, p, a);
    hide Inv, LiveSame, LiveWithin, Place;
    LiveAddsAfterSame(s.t, s1.t, Place(pol, s1, p, a).0.t, FLOOR, Place(pol, s1, p, a).1);
    LiveAligned(Place(pol, s1, p, a).0, Place(pol, s1, p, a).1);
  }

  /** A request fails exactly when it is empty or nothing fits and sbrk cannot deliver;
      a failure changes nothing. */
  lemma MallocOutcome(pol: Policy, s: State, size: Word)
    requires Inv(s) && size + 15 < WORD_SPAN
    ensures var (s', r) := Malloc(pol, s, size);
            && (r == NULL <==> size == 0 || (!Fits(s.t, Asize(size)) && s.hi + GrowthFor(Asize(size)) > MAX_HEAP))
            && (if r == NULL then s' == s else Granted(pol, s, s', size, r))
  {
    hide Inv, Granted, FindFit, Place, Extend, ExtendAt, Asize;
    if size != 0 {
      FoundOk(s, size);
      if Fits(s.t, Asize(size)) {
        FittingMalloc(pol, s, size);
      } else if s.hi + GrowthFor(Asize(size)) <= MAX_HEAP {
        GrowingMalloc(pol, s, size);
      }
    }
  }

  lemma FittingMalloc(pol: Policy, s: State, size: Word)
    requires Inv(s) && 0 < size && size + 15 < WORD_SPAN && Fits(s.t, Asize(size))
    ensures Granted(pol, s, Malloc(pol, s, size).0, size, Malloc(pol, s, size).1)
    ensures Malloc(pol, s, size).1 != NULL
  {
    FoundOk(s, size);
    hide Inv, FindFit, Place, LiveSame, LiveAdds, Fits, Asize;
    var a := Asize(size);
    LiveRefl(s.t, FLOOR);
    PlacedAfter(pol, s, s, FindFit(s.t, s.lists, ClassOf(a), a), a);
  }

  lemma GrowingMalloc(pol: Policy, s: State, size: Word)
    requires Inv(s) && 0 < size && size + 15 < WORD_SPAN
    requires !Fits(s.t, Asize(size)) && s.hi + GrowthFor(Asize(size)) <= MAX_HEAP
    ensures Granted(pol, s, Malloc(pol, s, size).0, size, Malloc(pol, s, size).1)
    ensures Malloc(pol, s, size).1 != NULL
  {
    hide FindFit, ClassOf;
    FoundOk(s, size);
    hide Inv, Place, LiveSame, LiveAdds, Fits, Asize, Extend, ExtendAt;
    GrownThenPlaced(pol, s, Asize(size));
  }

  lemma GrownThenPlaced(pol: Policy, s: State, a: nat)
    requires Inv(s) && a % 8 == 0 && 16 <= a && s.hi + GrowthFor(a) <= MAX_HEAP
    ensures Inv(Extend(s, GrowthFor(a))) && FreeAt(Extend(s, GrowthFor(a)).t, ExtendAt(s, GrowthFor(a)))
    ensures a <= Extend(s, GrowthFor(a)).t[ExtendAt(s, GrowthFor(a))].size
    ensures var (s', r) := Place(pol, Extend(s, GrowthFor(a)), ExtendAt(s, GrowthFor(a)), a);
            && Inv(s') && LiveAdds(s.t, s'.t, FLOOR, r) && r % 8 == 0 && FLOOR <= r
            && a <= s'.t[r].size <= a + Slack(pol) && s'.hi == s.hi + GrowthFor(a)
  {
    ExtendInv(s, GrowthFor(a));
    hide Inv, Place, LiveSame, LiveAdds, Extend, ExtendAt;
    PlacedAfter(pol, s, Extend(s, GrowthFor(a)), ExtendAt(s, GrowthFor(a)), a);
  }

  // ----- steps that can be followed by hand -----

  /** If one free block alone is large enough, that is the block mm_malloc takes. */
  lemma MallocHere(pol: Policy, s: State, size: Word, p: nat)
    requires Inv(s) && 0 < size && size + 15 < WORD_SPAN && FreeAt(s.t, p) && Asize(size) <= s.t[p].size
    requires forall x: nat :: FreeAt(s.t, x) && Asize(size) <= s.t[x].size ==> x == p
    ensures Asize(size) % 8 == 0 && 16 <= Asize(size)
    ensures Malloc(pol, s, size) == Place(pol, s, p, Asize(size)) && Inv(Malloc(pol, s, size).0)
  {
    FoundOk(s, size);
    PlaceOk(pol, s, p, Asize(size));
    hide Inv, FindFit, Place, Asize, LiveAdds;
  }

  /** Freeing a block between allocated neighbours only flips its bit and lists it. */
  lemma FreeAlone(s: State, p: nat)
    requires Inv(s) && IsLive(s.t, FLOOR, p) && !FreeAt(s.t, Next(s.t, p))
    requires forall q {:trigger Next(s.t, q)} :: q in s.t && Next(s.t, q) == p ==> s.t[q].alloc
    ensures |s.lists| == LISTLIMIT && Inv(Free(s, p))
    ensures Free(s, p) == State(Retag(s.t, p, false), Put(s.lists, p, s.t[p].size), s.hi)
  {
    hide ClassOf;
    FreeOk(s, p);
    FreedPartial(s, p);
    var f := Freed(s, p);
    PendingAboveFloor(f, p);
    var q := Prev(f.t, LO, FLOOR, s.hi, p);
    assert Next(s.t, q) == p;
    hide Tiled, Sorted;
    NothingToMerge(f, p, q);
  }

  /** After mm_init one free block fills the heap. */
  lemma InitialTiles(chunk: nat)
    requires chunk % 8 == 0 && 16 <= chunk && FLOOR + chunk <= MAX_HEAP
    ensures Inv(Initial(chunk)) && Initial(chunk).hi == FLOOR + chunk
    ensures Initial(chunk).t == map[LO := Block(DSIZE, true), FLOOR := Block(chunk, false)]
  {
    hide ClassOf;
    InitialOk(chunk);
    BareInv();
    GrownPartial(Bare(), chunk);
    NothingToMerge(Grown(Bare(), chunk), FLOOR, LO);
  }

  // ----- mm_realloc of the allocator that always splits off the back -----

  /** mm_realloc: a new block, and the old one freed if there is one. */
  ghost function Replace(s: State, p: nat, size: Word): State
    requires Inv(s) && IsLive(s.t, FLOOR, p) && size + 15 < WORD_SPAN
  {
    GrantedLive(s, p, size);
    if Malloc(Front, s, size).1 == NULL then s else Free(Malloc(Front, s, size).0, p)
  }

  lemma GrantedLive(s: State, p: nat, size: Word)
    requires Inv(s) && IsLive(s.t, FLOOR, p) && size + 15 < WORD_SPAN
    ensures Inv(Malloc(Front, s, size).0) && IsLive(Malloc(Front, s, size).0.t, FLOOR, p)
    ensures s.hi <= Malloc(Front, s, size).0.hi
  {
    hide Malloc, Inv, Asize, Fits;
    MallocOutcome(Front, s, size);
    assert IsLive(s.t, FLOOR, p);
  }
}

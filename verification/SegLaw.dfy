/** What the segregated-list allocators promise, stated without the functions that compute
    it: which block is taken and which end of it, the break, and the order of every list.
    These laws leave exactly one outcome. */
module SegLaw {
  import opened Memory
  import opened Tiling
  import opened Links
  import opened Order
  import opened SizeClasses
  import opened Requests
  import opened SegSpec
  import opened SegPlace

  // ----- the lists -----

  /** Class c is the logarithm of size, the last class being open. */
  ghost predicate InClass(c: nat, size: nat) {
    c < 20 && Pow2(c) <= size && (c < 19 ==> size < 2 * Pow2(c))
  }

  lemma ClassIff(size: nat, c: nat)
    requires 1 <= size
    ensures InClass(c, size) <==> c == ClassOf(size)
  {
    ClassIsLog(size, 0);
    hide ClassFrom;
    PowApart(c, ClassOf(size));
    PowApart(ClassOf(size), c);
  }

  lemma PowApart(x: nat, y: nat)
    ensures x < y ==> 2 * Pow2(x) <= Pow2(y)
  {
    if x < y {
      Pow2Monotone(x + 1, y);
      assert Pow2(x + 1) == 2 * Pow2(x);
    }
  }

  /** The lists keep their order; the free block f, if there is one, heads that of its
      class. */
  ghost predicate ListsFollow(s: State, s': State, f: nat) {
    if f == NULL then Relisted(s.lists, s'.lists, s'.t, NULL, 0)
    else FreeAt(s'.t, f) && exists c: nat :: InClass(c, s'.t[f].size) && Relisted(s.lists, s'.lists, s'.t, f, c)
  }

  // ----- the laws -----

  /** Of the room bytes at b the request gets a: always the front, or, where both ends are
      used, the tail from 100 bytes on and the front below that; a rest too small for a
      block goes with it. */
  ghost predicate Carved(pol: Policy, s: State, s': State, a: nat, b: nat, room: int, r: nat) {
    var rest := room - a;
    && Inv(s') && LiveAdds(s.t, s'.t, FLOOR, r) && rest >= 0
    && (if rest < 16 || (pol.ThreeWay? && rest == 16) then r == b && s'.t[r].size == room && ListsFollow(s, s', NULL)
        else if pol.ThreeWay? && a >= 100 then r == b + rest && s'.t[r].size == a && ListsFollow(s, s', b)
        else r == b && s'.t[r].size == a && ListsFollow(s, s', b + a))
  }

  /** mm_malloc(size) may lead from s to s' and return r, taken from the block at b. */
  ghost predicate MallocFrom(pol: Policy, s: State, size: Word, s': State, r: nat, b: nat) {
    var a := Asize(size);
    if size == 0 || (!Fits(s.t, a) && s.hi + Growth(a) > MAX_HEAP) then r == NULL && s' == s
    else if Fits(s.t, a) then LowestFirst(s.t, s.lists, a, b) && b in s.t && s'.hi == s.hi && Carved(pol, s, s', a, b, s.t[b].size, r)
    else EndsAt(s.t, s.hi, b) && s'.hi == s.hi + Growth(a) && Carved(pol, s, s', a, b, s'.hi - b, r)
  }

  ghost predicate MallocLaw(pol: Policy, s: State, size: Word, s': State, r: nat) {
    exists b: nat :: MallocFrom(pol, s, size, s', r, b)
  }

  /** mm_free(p): p is given up, and the free block that covers it heads its list. */
  ghost predicate FreeLaw(s: State, p: nat, s': State) {
    && Inv(s') && s'.hi == s.hi && LiveAdds(s'.t, s.t, FLOOR, p)
    && exists f: nat :: FreeAt(s'.t, f) && f <= p < Next(s'.t, f) && ListsFollow(s, s', f)
  }

  // ----- the search -----

  lemma {:induction false} FindFitFirst(s: State, c: nat, a: nat) returns (k: nat)
    requires Inv(s) && |s.lists| == LISTLIMIT && c <= LISTLIMIT
    ensures var r := FindFit(s.t, s.lists, c, a);
            r != NULL ==> c <= k < LISTLIMIT && FirstOn(s.t, s.lists[k], a, r)
                          && forall d, x {:trigger x in s.lists[d]} :: c <= d < k && x in s.lists[d] ==> x in s.t && s.t[x].size < a
    decreases LISTLIMIT - c
  {
    k := c;
    hide ClassFrom;
    if c < LISTLIMIT {
      NullOutside(s, {});
      var l := s.lists[c];
      forall x | x in l
        ensures x in s.t && x != NULL
      {
      }
      hide Inv, FirstOn;
      if FirstFit(s.t, l, 0, a) != NULL {
        FirstIsFirst(s.t, l, a);
      } else {
        var n := FirstFitFinds(s.t, l, 0, a);
        forall x | x in l
          ensures s.t[x].size < a
        {
          var j :| 0 <= j < |l| && l[j] == x;
        }
        k := FindFitFirst(s, c + 1, a);
      }
    }
  }

  lemma FoundLowest(s: State, a: nat)
    requires Inv(s) && Fits(s.t, a)
    ensures |s.lists| == LISTLIMIT && LowestFirst(s.t, s.lists, a, FindFit(s.t, s.lists, ClassOf(a), a))
  {
    FindFitOk(s, a);
    var k := FindFitFirst(s, ClassOf(a), a);
    SmallerBelow(s, k, a);
    hide Inv, FindFit, FirstOn, ClassFrom, Fits;
    assert s.lists[k] == s.lists[k];
  }

  lemma SmallerBelow(s: State, k: nat, a: nat)
    requires Inv(s) && k <= |s.lists|
    requires forall d, x {:trigger x in s.lists[d]} :: ClassOf(a) <= d < k && x in s.lists[d] ==> x in s.t && s.t[x].size < a
    ensures NoneBelow(s.t, s.lists, k, a)
  {
    hide ClassFrom;
    forall d, x | 0 <= d < k && x in s.lists[d]
      ensures x in s.t && s.t[x].size < a
    {
      assert FreeAt(s.t, x) && ClassOf(s.t[x].size) == d;
      if a <= s.t[x].size {
        ClassMonotone(a, s.t[x].size, 0);
      }
    }
  }

  // ----- relisting -----

  lemma ListedFree(s: State, c: nat)
    requires Partial(s, {}) && c < LISTLIMIT
    ensures |s.lists| == LISTLIMIT && NoDup(s.lists[c]) && forall x :: x in s.lists[c] ==> FreeAt(s.t, x) && x != NULL
  {
    hide ClassOf;
  }

  /** If putting f in front of a list of l gives the lists of s', all of l survives. */
  lemma FollowsPut(s: State, s': State, l: Lists, f: nat)
    requires Partial(s', {}) && FreeAt(s'.t, f) && f != NULL && |l| == LISTLIMIT && s'.lists == Put(l, f, s'.t[f].size)
    requires Agree(s.lists, l, s'.t, f)
    ensures ListsFollow(s, s', f)
  {
    var c := ClassOf(s'.t[f].size);
    hide ClassOf;
    forall i, x | 0 <= i < |l| && x in l[i]
      ensures FreeAt(s'.t, x) && x != f
    {
      InPut(s', l, f, i, x);
    }
    AgreeRelists(s.lists, l, s'.t, f, c);
    assert 1 <= s'.t[f].size by {
      PendingAboveFloor(s', f);
    }
    ClassIff(s'.t[f].size, c);
  }

  lemma InPut(s: State, l: Lists, f: nat, i: nat, x: nat)
    requires Partial(s, {}) && FreeAt(s.t, f) && |l| == LISTLIMIT && s.lists == Put(l, f, s.t[f].size)
    requires i < LISTLIMIT && x in l[i]
    ensures FreeAt(s.t, x) && x != f
  {
    hide ClassOf;
    var c := ClassOf(s.t[f].size);
    assert x in s.lists[i];
    if i == c {
      var l' := s.lists[c];
      assert l'[0] == f && l' == [f] + l[c];
      var j :| 0 <= j < |l[c]| && l[c][j] == x;
      assert l'[j + 1] == x;
    }
  }

  lemma FollowsNone(s: State, s': State)
    requires Partial(s', {}) && Agree(s.lists, s'.lists, s'.t, NULL)
    ensures ListsFollow(s, s', NULL)
  {
    forall i, x | 0 <= i < |s'.lists| && x in s'.lists[i]
      ensures FreeAt(s'.t, x) && x != NULL
    {
      ListedFree(s', i);
    }
    TwentyLists(s', {});
    AgreeRelists(s.lists, s'.lists, s'.t, NULL, 0);
  }

  // ----- what the allocators do is lawful -----

  lemma PlaceCarves(pol: Policy, s: State, p: nat, a: nat)
    requires Inv(s) && FreeAt(s.t, p) && a % 8 == 0 && 16 <= a <= s.t[p].size
    ensures Carved(pol, s, Place(pol, s, p, a).0, a, p, s.t[p].size, Place(pol, s, p, a).1)
    ensures Place(pol, s, p, a).0.hi == s.hi
  {
    hide ClassOf, Inv, Partial, LiveAdds, Put, Take, ListsFollow, PlaceFront;
    PlaceOk(pol, s, p, a);
    SizeOfFree(s, p, a);
    var rest := s.t[p].size - a;
    if rest < 16 || (pol.ThreeWay? && rest == 16) {
      WholeFollows(s, p);
      if pol.Front? {
        WholePlaced(s, p, a);
      }
    } else {
      if pol.Front? {
        FrontIsCut(s, p, a);
      }
      var tail := pol.ThreeWay? && a >= 100;
      CutFollows(s, p, if tail then rest else a, !tail);
    }
  }

  lemma WholePlaced(s: State, p: nat, a: nat)
    requires Inv(s) && FreeAt(s.t, p) && a % 8 == 0 && 16 <= a <= s.t[p].size < a + 16
    ensures |s.lists| == LISTLIMIT && PlaceFront(s, p, a) == Removed(s, p).(t := Retag(s.t, p, true))
  {
    hide ClassOf;
    TwentyLists(s, {});
  }

  lemma WholeFollows(s: State, p: nat)
    requires Inv(s) || Partial(s, {})
    requires FreeAt(s.t, p)
    ensures |s.lists| == LISTLIMIT
    ensures ListsFollow(s, Removed(s, p).(t := Retag(s.t, p, true)), NULL)
  {
    hide ClassOf;
    TwentyLists(s, {});
    PendingAboveFloor(s, p);
    WholeOk(s, p, s.t[p].size, 0) by {
      assert BlockOk(s.t[p], p, LO, FLOOR, s.hi);
    }
    var s' := Removed(s, p).(t := Retag(s.t, p, true));
    hide Inv, LiveAdds, Sorted;
    AgreeSelf(s.lists, s'.t, NULL);
    AgreeTake(s.lists, s.lists, s'.t, NULL, ClassOf(s.t[p].size), p);
    FollowsNone(s, s');
  }

  lemma CutFollows(s: State, p: nat, a: nat, alloc: bool)
    requires Inv(s) || Partial(s, {})
    requires FreeAt(s.t, p) && a % 8 == 0 && 16 <= a && a + 16 <= s.t[p].size
    ensures |s.lists| == LISTLIMIT
    ensures var f := FreePart(p, a, alloc);
            var s' := State(Cut(s.t, p, a, alloc), Put(Removed(s, p).lists, f, if alloc then s.t[p].size - a else a), s.hi);
            ListsFollow(s, s', f)
  {
    hide ClassOf;
    CutOk(s, p, a, alloc);
    RemovedPartial(s, {}, p);
    CutSizes(s.t, p, a, alloc);
    CutPartial(Removed(s, p), p, a, alloc);
    var f := FreePart(p, a, alloc);
    var s' := State(Cut(s.t, p, a, alloc), Put(Removed(s, p).lists, f, if alloc then s.t[p].size - a else a), s.hi);
    assert FreeAt(s'.t, p) ==> p == f;
    hide Inv, LiveAdds, Partial, Cut;
    AgreeSelf(s.lists, s'.t, f);
    AgreeTake(s.lists, s.lists, s'.t, f, ClassOf(s.t[p].size), p);
    hide Agree;
    FollowsPut(s, s', Removed(s, p).lists, f);
  }

  lemma FollowsThrough(s: State, s1: State, s': State, f: nat)
    requires ListsFollow(s1, s', f) && Agree(s.lists, s1.lists, s'.t, f)
    ensures ListsFollow(s, s', f)
  {
    if f == NULL {
      RelistedThrough(s.lists, s1.lists, s'.lists, s'.t, NULL, 0);
    } else {
      var c: nat :| InClass(c, s'.t[f].size) && Relisted(s1.lists, s'.lists, s'.t, f, c);
      RelistedThrough(s.lists, s1.lists, s'.lists, s'.t, f, c);
    }
  }

  /** What extend_heap returns ends the heap, and the lists keep their order behind it. */
  lemma ExtendEnds(s: State, e: nat)
    requires Inv(s) && e % 8 == 0 && 16 <= e && s.hi + e <= MAX_HEAP
    ensures var s1, p := Extend(s, e), ExtendAt(s, e);
            && Inv(s1) && s1.hi == s.hi + e && LiveSame(s.t, s1.t, FLOOR) && EndsAt(s.t, s.hi, p)
            && FreeAt(s1.t, p) && s1.t[p].size == s1.hi - p && e <= s1.t[p].size
            && forall t, f {:trigger Agree(s.lists, s1.lists, t, f)} :: !FreeAt(t, p) || p == f ==> Agree(s.lists, s1.lists, t, f)
  {
    hide ClassOf, Agree;
    ExtendInv(s, e);
    hide LiveSame;
    var q := ExtendShape(s, e);
    hide Inv, EndsAt;
    var s1, p := Extend(s, e), ExtendAt(s, e);
    forall t, f | !FreeAt(t, p) || p == f
      ensures Agree(s.lists, s1.lists, t, f)
    {
      AgreeExtended(s, Grown(s, e), q, p, s1.t[p].size, t, f);
    }
  }

  lemma ExtendShape(s: State, e: nat) returns (q: nat)
    requires Inv(s) && e % 8 == 0 && 16 <= e && s.hi + e <= MAX_HEAP
    ensures |s.lists| == LISTLIMIT
    ensures var s1, p, g := Extend(s, e), ExtendAt(s, e), Grown(s, e);
            && EndsAt(s.t, s.hi, p) && p in s1.t && s1.t[p].size == s1.hi - p && s1.hi == s.hi + e
            && (FreeAt(g.t, q) ==> q == p) && s1.lists == Put(Unlisted(g, q), p, s1.t[p].size)
  {
    hide ClassOf, Put;
    GrownPartial(s, e);
    TwentyLists(s, {});
    GrowTiled(s.t, LO, FLOOR, s.hi, e);
    var g := Grown(s, e);
    q := Prev(g.t, LO, FLOOR, g.hi, s.hi);
    BeyondBreak(g.t, LO, FLOOR, g.hi);
    hide Inv, Partial, Tiled, NoAdjacentFreeBut, LiveSame;
    ExtensionEnds(s.t, g.t, LO, FLOOR, s.hi, e, q);
    hide EndsAt;
  }

  lemma AgreeExtended(s: State, g: State, q: nat, p: nat, size: nat, t: Tiles, f: nat)
    requires |s.lists| == LISTLIMIT && g.lists == s.lists && (!FreeAt(t, p) || p == f) && (FreeAt(g.t, q) ==> q == p)
    ensures Agree(s.lists, Put(Unlisted(g, q), p, size), t, f)
  {
    hide ClassOf;
    AgreeSelf(s.lists, t, f);
    if FreeAt(g.t, q) {
      AgreeTake(s.lists, s.lists, t, f, ClassOf(g.t[q].size), q);
    }
    AgreePut(s.lists, Unlisted(g, q), t, f, ClassOf(size), p);
  }

  lemma GrownCarves(pol: Policy, s: State, a: nat)
    requires Inv(s) && a % 8 == 0 && 16 <= a && s.hi + GrowthFor(a) <= MAX_HEAP
    ensures var e := GrowthFor(a);
            && e == Growth(a) && Inv(Extend(s, e)) && FreeAt(Extend(s, e).t, ExtendAt(s, e)) && a <= Extend(s, e).t[ExtendAt(s, e)].size
            && EndsAt(s.t, s.hi, ExtendAt(s, e))
            && var (s', r) := Place(pol, Extend(s, e), ExtendAt(s, e), a);
               s'.hi == s.hi + e && Carved(pol, s, s', a, ExtendAt(s, e), s'.hi - ExtendAt(s, e), r)
  {
    var e := GrowthFor(a);
    ExtendEnds(s, e);
    var s1, p := Extend(s, e), ExtendAt(s, e);
    hide Inv, Extend, ExtendAt, EndsAt, Agree;
    PlaceCarves(pol, s1, p, a);
    var s', r := Place(pol, s1, p, a).0, Place(pol, s1, p, a).1;
    hide Place, Carved;
    CarvedThrough(pol, s, s1, s', a, p, s1.t[p].size, r);
  }

  lemma CarvedThrough(pol: Policy, s: State, s1: State, s': State, a: nat, b: nat, room: int, r: nat)
    requires Carved(pol, s1, s', a, b, room, r) && LiveSame(s.t, s1.t, FLOOR) && 0 < a
    requires forall t, f {:trigger Agree(s.lists, s1.lists, t, f)} :: !FreeAt(t, b) || b == f ==> Agree(s.lists, s1.lists, t, f)
    ensures Carved(pol, s, s', a, b, room, r)
  {
    hide Inv, Agree, ListsFollow;
    LiveAddsAfterSame(s.t, s1.t, s'.t, FLOOR, r);
    var rest := room - a;
    var f := if rest < 16 || (pol.ThreeWay? && rest == 16) then NULL else if pol.ThreeWay? && a >= 100 then b else b + a;
    assert IsLive(s'.t, FLOOR, r);
    assert Agree(s.lists, s1.lists, s'.t, f);
    FollowsThrough(s, s1, s', f);
  }

  /** mm_malloc takes the first fit of the lowest class that holds one, or the end of the
      grown heap, and the end of it that the placement says. */
  lemma MallocLawful(pol: Policy, s: State, size: Word)
    requires Inv(s) && size + 15 < WORD_SPAN
    ensures MallocLaw(pol, s, size, Malloc(pol, s, size).0, Malloc(pol, s, size).1)
  {
    hide Inv, Place, Extend, ExtendAt, FindFit, Carved, Asize, Fits, LowestFirst, EndsAt, ClassOf;
    var a := Asize(size);
    if size == 0 {
      assert MallocFrom(pol, s, size, s, NULL, NULL);
    } else {
      FoundOk(s, size);
      if Fits(s.t, a) {
        var b := FindFit(s.t, s.lists, ClassOf(a), a);
        FoundLowest(s, a);
        PlaceCarves(pol, s, b, a);
        assert MallocFrom(pol, s, size, Malloc(pol, s, size).0, Malloc(pol, s, size).1, b);
      } else if s.hi + GrowthFor(a) <= MAX_HEAP {
        GrownCarves(pol, s, a);
        assert MallocFrom(pol, s, size, Malloc(pol, s, size).0, Malloc(pol, s, size).1, ExtendAt(s, GrowthFor(a)));
      } else {
        assert MallocFrom(pol, s, size, s, NULL, NULL);
      }
    }
  }

  lemma FreeLawful(s: State, p: nat)
    requires Inv(s) && IsLive(s.t, FLOOR, p)
    ensures FreeLaw(s, p, Free(s, p))
  {
    hide ClassOf;
    FreeOk(s, p);
    FreedPartial(s, p);
    TwentyLists(s, {});
    CoalesceFollows(Freed(s, p), p);
    hide Inv, Partial, LiveAdds, Coalesce, NoAdjacentFreeBut, ListsFollow;
    FollowsFreed(s, Freed(s, p), Free(s, p), CoalescedAt(Freed(s, p), p));
  }

  lemma FollowsFreed(s: State, s1: State, s': State, f: nat)
    requires s1.lists == s.lists && ListsFollow(s1, s', f)
    ensures ListsFollow(s, s', f)
  {
  }

  lemma CoalesceFollows(s: State, p: nat)
    requires Partial(s, {p}) && FreeAt(s.t, p) && NoAdjacentFreeBut(s.t, p)
    ensures FLOOR <= p && |s.lists| == LISTLIMIT
    ensures var s', f := Coalesce(s, p), CoalescedAt(s, p);
            FreeAt(s'.t, f) && f <= p < Next(s'.t, f) && ListsFollow(s, s', f)
  {
    hide ClassOf, Partial, Inv, Tiled, NoAdjacentFreeBut, Merged, MergeLow, MergeHigh, Agree, ListsFollow, Put, LiveSame;
    CoalesceShape(s, p);
    CoalesceInv(s, p);
    var s', f := Coalesce(s, p), CoalescedAt(s, p);
    FreeInvNotNull(s', f);
    AgreeNeighbours(s, p, Prev(s.t, LO, FLOOR, s.hi, p), Next(s.t, p), s'.t, f);
    FromInv(s');
    hide Coalesce, CoalescedAt, Unlisted;
    FollowsPut(s, s', NeighboursOut(s, p), f);
  }

  lemma CoalesceShape(s: State, p: nat)
    requires Partial(s, {p}) && FreeAt(s.t, p)
    ensures FLOOR <= p && |s.lists| == LISTLIMIT && Tiled(s.t, LO, FLOOR, s.hi) && 0 < s.t[p].size
    ensures var q, n := Prev(s.t, LO, FLOOR, s.hi, p), Next(s.t, p);
            var t', f := Merged(s.t, q, p), MergeLow(s.t, q, p);
            && FreeAt(t', f) && f <= p < Next(t', f) && t'[f].size == MergeHigh(s.t, p) - f
            && (FreeAt(s.t, q) ==> q == f) && (FreeAt(s.t, n) ==> !FreeAt(t', n))
  {
    hide ClassOf, Sorted;
    PendingAboveFloor(s, p);
    TwentyLists(s, {p});
    MergedSpan(s, p);
    hide Partial;
    MergedTiled(s.t, LO, FLOOR, s.hi, Prev(s.t, LO, FLOOR, s.hi, p), p);
    hide Tiled;
  }

  lemma FromInv(s: State)
    requires Inv(s)
    ensures Partial(s, {})
  {
  }

  lemma FreeInvNotNull(s: State, f: nat)
    requires Inv(s) && FreeAt(s.t, f)
    ensures f != NULL
  {
    PendingAboveFloor(s, f);
  }

  lemma MergedSpan(s: State, p: nat)
    requires Partial(s, {p}) && FreeAt(s.t, p)
    ensures FLOOR <= p
    ensures var q := Prev(s.t, LO, FLOOR, s.hi, p);
            MergeLow(s.t, q, p) <= p < MergeHigh(s.t, p)
  {
    PendingAboveFloor(s, p);
    var n := Next(s.t, p);
    assert n in s.t ==> BlockOk(s.t[n], n, LO, FLOOR, s.hi);
  }

  lemma AgreeNeighbours(s: State, p: nat, q: nat, n: nat, t: Tiles, f: nat)
    requires |s.lists| == LISTLIMIT && (FreeAt(s.t, q) ==> !FreeAt(t, q) || q == f) && (FreeAt(s.t, n) ==> !FreeAt(t, n) || n == f)
    ensures Agree(s.lists, Unlisted(s.(lists := Unlisted(s, q)), n), t, f)
  {
    hide ClassOf;
    AgreeSelf(s.lists, t, f);
    if FreeAt(s.t, q) {
      AgreeTake(s.lists, s.lists, t, f, ClassOf(s.t[q].size), q);
    }
    if FreeAt(s.t, n) {
      AgreeTake(s.lists, Unlisted(s, q), t, f, ClassOf(s.t[n].size), n);
    }
  }

  /** Good fit: unless only blocks of 2^19 bytes or more are large enough, the block that
      mm_malloc grants is cut from one less than twice as large as the best fit, the first
      of the lowest class that holds a fit. */
  lemma MallocGoodFit(pol: Policy, s: State, size: Word, best: nat) returns (b: nat)
    requires Inv(s) && 0 < size && size + 15 < WORD_SPAN
    requires FreeAt(s.t, best) && Asize(size) <= s.t[best].size < 0x8_0000
    ensures var r := Malloc(pol, s, size).1;
            && r != NULL && FreeAt(s.t, b) && b <= r < Next(s.t, b)
            && s.t[b].size < 2 * s.t[best].size && LowestFirst(s.t, s.lists, Asize(size), b)
  {
    hide Inv, Place, Extend, ExtendAt, FindFit, Carved, Asize, LowestFirst, ClassOf;
    FoundOk(s, size);
    var a := Asize(size);
    b := FindFit(s.t, s.lists, ClassOf(a), a);
    assert Fits(s.t, a);
    FoundLowest(s, a);
    GoodFit(s, a, best);
    PlaceCarves(pol, s, b, a);
    CarvedWithin(pol, s, Place(pol, s, b, a).0, a, b, s.t[b].size, Place(pol, s, b, a).1);
    NullBelow(s, b);
  }

  lemma CarvedWithin(pol: Policy, s: State, s': State, a: nat, b: nat, room: int, r: nat)
    requires Carved(pol, s, s', a, b, room, r) && 0 < a
    ensures b <= r < b + room
  {
  }

  lemma NullBelow(s: State, b: nat)
    requires Inv(s) && FreeAt(s.t, b)
    ensures NULL < b
  {
    PendingAboveFloor(s, b);
  }

  // ----- and nothing else is -----

  lemma SameTiles(s: State, s': State)
    requires Inv(s) && Inv(s') && s.hi == s'.hi && LiveSame(s.t, s'.t, FLOOR)
    ensures s.t == s'.t
  {
    hide ClassOf, Sorted;
    OnlyPrologue(s);
    OnlyPrologue(s');
    hide Tiled, NoAdjacentFree, LiveSame;
    TilingDetermined(s.t, s'.t, LO, FLOOR, s.hi);
  }

  lemma OnlyPrologue(s: State)
    requires Inv(s)
    ensures LO in s.t && s.t[LO] == Block(DSIZE, true)
    ensures forall x: nat :: x < FLOOR ==> (x in s.t <==> x == LO)
  {
    hide ClassOf, Sorted;
    forall x: nat | x in s.t && x < FLOOR
      ensures x == LO
    {
      assert BlockOk(s.t[x], x, LO, FLOOR, s.hi);
      InOrder(s.t, LO, FLOOR, s.hi, LO, x);
    }
  }

  lemma FollowsSame(s: State, s1: State, s2: State, f: nat)
    requires ListsFollow(s, s1, f) && ListsFollow(s, s2, f) && s1.t == s2.t && (f != NULL ==> FreeAt(s1.t, f) ==> 1 <= s1.t[f].size)
    ensures s1.lists == s2.lists
  {
    hide ClassOf;
    if f == NULL {
      RelistedUnique(s.lists, s1.lists, s2.lists, s1.t, NULL, 0);
    } else {
      var c1: nat :| InClass(c1, s1.t[f].size) && Relisted(s.lists, s1.lists, s1.t, f, c1);
      var c2: nat :| InClass(c2, s2.t[f].size) && Relisted(s.lists, s2.lists, s2.t, f, c2);
      ClassIff(s1.t[f].size, c1);
      ClassIff(s1.t[f].size, c2);
      RelistedUnique(s.lists, s1.lists, s2.lists, s1.t, f, c1);
    }
  }

  lemma SizeAtLeastOne(s: State, f: nat)
    requires Inv(s)
    ensures FreeAt(s.t, f) ==> 1 <= s.t[f].size
  {
    if FreeAt(s.t, f) {
      PendingAboveFloor(s, f);
    }
  }

  lemma CarvedSame(pol: Policy, s: State, s1: State, s2: State, a: nat, b: nat, room: int, r1: nat, r2: nat)
    requires Carved(pol, s, s1, a, b, room, r1) && Carved(pol, s, s2, a, b, room, r2) && s1.hi == s2.hi
    ensures s1 == s2 && r1 == r2
  {
    hide Inv, ListsFollow;
    assert LiveSame(s1.t, s2.t, FLOOR);
    SameTiles(s1, s2);
    var rest := room - a;
    var f := if rest < 16 || (pol.ThreeWay? && rest == 16) then NULL else if pol.ThreeWay? && a >= 100 then b else b + a;
    SizeAtLeastOne(s1, f);
    FollowsSame(s, s1, s2, f);
  }

  lemma MallocSame(pol: Policy, s: State, size: Word, s1: State, r1: nat, s2: State, r2: nat)
    requires Inv(s) && MallocLaw(pol, s, size, s1, r1) && MallocLaw(pol, s, size, s2, r2)
    ensures s1 == s2 && r1 == r2
  {
    hide Inv, Asize, Fits, Carved, Tiled, LowestFirst, EndsAt;
    var a := Asize(size);
    InvTiled(s);
    var b1: nat :| MallocFrom(pol, s, size, s1, r1, b1);
    var b2: nat :| MallocFrom(pol, s, size, s2, r2, b2);
    if size != 0 {
      if Fits(s.t, a) {
        LowestUnique(s.t, s.lists, a, b1, b2);
        CarvedSame(pol, s, s1, s2, a, b1, s.t[b1].size, r1, r2);
      } else if s.hi + Growth(a) <= MAX_HEAP {
        EndsAtUnique(s.t, LO, FLOOR, s.hi, b1, b2);
        CarvedSame(pol, s, s1, s2, a, b1, s1.hi - b1, r1, r2);
      }
    }
  }

  lemma InvTiled(s: State)
    requires Inv(s)
    ensures Tiled(s.t, LO, FLOOR, s.hi)
  {
  }

  /** The law leaves one outcome: what is specified. */
  lemma MallocIff(pol: Policy, s: State, size: Word, s': State, r: nat)
    requires Inv(s) && size + 15 < WORD_SPAN
    ensures MallocLaw(pol, s, size, s', r) <==> (s', r) == Malloc(pol, s, size)
  {
    hide Inv, Malloc, MallocLaw;
    MallocLawful(pol, s, size);
    if MallocLaw(pol, s, size, s', r) {
      MallocSame(pol, s, size, s', r, Malloc(pol, s, size).0, Malloc(pol, s, size).1);
    }
  }

  lemma FreeSame(s: State, p: nat, s1: State, s2: State)
    requires Inv(s) && FreeLaw(s, p, s1) && FreeLaw(s, p, s2)
    ensures s1 == s2
  {
    hide Inv, ListsFollow;
    assert LiveSame(s1.t, s2.t, FLOOR);
    SameTiles(s1, s2);
    InvTiled(s1);
    hide LiveSame, LiveAdds, Tiled;
    var f1: nat :| FreeAt(s1.t, f1) && f1 <= p < Next(s1.t, f1) && ListsFollow(s, s1, f1);
    var f2: nat :| FreeAt(s2.t, f2) && f2 <= p < Next(s2.t, f2) && ListsFollow(s, s2, f2);
    InOrder(s1.t, LO, FLOOR, s1.hi, f1, f2);
    InOrder(s1.t, LO, FLOOR, s1.hi, f2, f1);
    SizeAtLeastOne(s1, f1);
    FollowsSame(s, s1, s2, f1);
  }

  lemma FreeIff(s: State, p: nat, s': State)
    requires Inv(s) && IsLive(s.t, FLOOR, p)
    ensures FreeLaw(s, p, s') <==> s' == Free(s, p)
  {
    hide Inv, Free, FreeLaw;
    FreeLawful(s, p);
    if FreeLaw(s, p, s') {
      FreeSame(s, p, s', Free(s, p));
    }
  }

  /** mm_realloc(p, size) of segreted(84).c: what mm_malloc(size) returns, and if that is a
      block, p is freed. */
  ghost predicate ReplaceLaw(s: State, p: nat, size: Word, s': State, r: nat) {
    exists s1: State :: MallocLaw(Front, s, size, s1, r) && if r == NULL then s' == s1 else FreeLaw(s1, p, s')
  }

  lemma ReplaceIff(s: State, p: nat, size: Word, s': State, r: nat)
    requires Inv(s) && IsLive(s.t, FLOOR, p) && size + 15 < WORD_SPAN
    ensures ReplaceLaw(s, p, size, s', r) <==> (s', r) == (Replace(s, p, size), Malloc(Front, s, size).1)
  {
    hide Inv, Malloc, Free, MallocLaw, FreeLaw;
    GrantedLive(s, p, size);
    var s1 := Malloc(Front, s, size).0;
    MallocIff(Front, s, size, s1, Malloc(Front, s, size).1);
    FailsSame(s, size);
    FreeIff(s1, p, Free(s1, p));
    if ReplaceLaw(s, p, size, s', r) {
      var s2: State :| MallocLaw(Front, s, size, s2, r) && if r == NULL then s' == s2 else FreeLaw(s2, p, s');
      MallocIff(Front, s, size, s2, r);
      FreeIff(s1, p, s');
    }
  }

  lemma FailsSame(s: State, size: Word)
    requires Inv(s) && size + 15 < WORD_SPAN
    ensures Malloc(Front, s, size).1 == NULL ==> Malloc(Front, s, size).0 == s
  {
    hide Inv, Malloc, Asize, Fits;
    MallocOutcome(Front, s, size);
  }

  /** The state after mm_init is the only sound one with that break and nothing live. */
  lemma InitialIff(s: State, chunk: nat)
    requires chunk % 8 == 0 && 16 <= chunk && FLOOR + chunk <= MAX_HEAP
    requires Inv(s) && s.hi == 16 + chunk && forall p: nat :: !IsLive(s.t, FLOOR, p)
    ensures s == Initial(chunk)
  {
    hide Initial, Inv;
    InitialOk(chunk);
    SameTiles(s, Initial(chunk));
    TwentyLists(s, {}) by {
      FromInv(s);
    }
    TwentyLists(Initial(chunk), {}) by {
      FromInv(Initial(chunk));
    }
    forall c | 0 <= c < LISTLIMIT
      ensures s.lists[c] == Initial(chunk).lists[c]
    {
      AtMostOne(s, c);
      AtMostOne(Initial(chunk), c);
    }
  }

  lemma AtMostOne(s: State, c: nat)
    requires Inv(s) && 16 < s.hi && c < LISTLIMIT && forall p: nat :: !IsLive(s.t, FLOOR, p)
    ensures |s.lists| == LISTLIMIT && FreeAt(s.t, 16)
    ensures s.lists[c] == if ClassOf(s.t[16].size) == c then [16] else []
  {
    hide ClassOf;
    OnlyPrologue(s);
    assert Next(s.t, LO) == 16;
    assert 16 in s.t && !IsLive(s.t, FLOOR, 16);
    var l := s.lists[c];
    forall x | x in l
      ensures x == 16
    {
      OneFree(s, x);
    }
    assert ClassOf(s.t[16].size) == c ==> 16 in l;
    forall i | 0 <= i < |l|
      ensures l[i] == 16
    {
      assert l[i] in l;
    }
    if l != [] {
      var k := if |l| >= 2 then 1 else 0;
      assert l[0] == l[k] && l[0] in l;
      assert l == [16];
    }
  }

  lemma OneFree(s: State, x: nat)
    requires Inv(s) && FreeAt(s.t, x) && 16 in s.t && forall p: nat :: !IsLive(s.t, FLOOR, p)
    ensures x == 16
  {
    hide ClassOf, Sorted;
    assert BlockOk(s.t[16], 16, LO, FLOOR, s.hi) && BlockOk(s.t[x], x, LO, FLOOR, s.hi);
    assert !IsLive(s.t, FLOOR, 16) && !IsLive(s.t, FLOOR, Next(s.t, 16));
    assert Next(s.t, 16) == s.hi;
    InOrder(s.t, LO, FLOOR, s.hi, 16, x);
  }
}

/** What mm.c promises, stated without the functions that compute it: which block is taken,
    how large it is, where the break goes, and the order of the free list.  These laws leave
    exactly one outcome. */
module ExplicitLaw {
  import opened Memory
  import opened Tiling
  import opened Links
  import opened Order
  import opened Requests
  import opened ExplicitSpec

  /** The block at r was taken from room bytes for a request of a: the rest is split off if
      it makes a block, and then heads the free list. */
  ghost predicate Carved(s: State, s': State, a: nat, r: nat, room: int) {
    && Inv(s') && LiveAdds(s.t, s'.t, FLOOR, r) && room >= a
    && (if room - a < 16 then s'.t[r].size == room && s'.fl == Survivors(s.fl, s'.t, NULL)
        else s'.t[r].size == a && s'.fl == [r + a] + Survivors(s.fl, s'.t, r + a))
  }

  /** mm_malloc(size) may lead from s to s' and return r: the first fit on the list, or the
      end of a heap grown by just enough. */
  ghost predicate MallocLaw(s: State, size: Word, s': State, r: nat) {
    var a := Asize(size);
    if size == 0 || (!Fits(s.t, a) && s.hi + Growth(a) > MAX_HEAP) then r == NULL && s' == s
    else if Fits(s.t, a) then FirstOn(s.t, s.fl, a, r) && s'.hi == s.hi && Carved(s, s', a, r, s.t[r].size)
    else EndsAt(s.t, s.hi, r) && s'.hi == s.hi + Growth(a) && Carved(s, s', a, r, s'.hi - r)
  }

  /** mm_free(p): p is given up, and the free block that covers it heads the list. */
  ghost predicate FreeLaw(s: State, p: nat, s': State) {
    && Inv(s') && s'.hi == s.hi && LiveAdds(s'.t, s.t, FLOOR, p)
    && s'.fl != [] && s'.fl[0] in s'.t && s'.fl[0] <= p < Next(s'.t, s'.fl[0])
    && s'.fl[1..] == Survivors(s.fl, s'.t, s'.fl[0])
  }

  /** mm_realloc(p, size): what mm_malloc(size) returns, and if that is a block, p is freed. */
  ghost predicate ReallocLaw(s: State, p: nat, size: Word, s': State, r: nat) {
    exists s1: State :: MallocLaw(s, size, s1, r) && if r == NULL then s' == s1 else FreeLaw(s1, p, s')
  }

  // ----- what the allocator does is lawful -----

  lemma PlaceCarves(s: State, p: nat, a: nat)
    requires Inv(s) && FreeAt(s.t, p) && a % 8 == 0 && 16 <= a <= s.t[p].size
    ensures Carved(s, Place(s, p, a), a, p, s.t[p].size)
  {
    PlaceInv(s, p, a);
    PlaceLive(s, p, a);
    ListedFree(s);
    var s', f := Place(s, p, a), if s.t[p].size - a < 16 then NULL else p + a;
    if a < s.t[p].size {
      RestNew(s, p, a);
    }
    hide Inv, LiveAdds;
    forall x | x in s.fl && x != p
      ensures FreeAt(s'.t, x) && x != f
    {
      assert FreeAt(s.t, x);
    }
    JustOneGone(s.fl, p, s'.t, f);
  }

  lemma ListedFree(s: State)
    requires Inv(s)
    ensures NoDup(s.fl) && NULL !in s.t && forall x :: x in s.fl ==> FreeAt(s.t, x)
  {
  }

  lemma RestNew(s: State, p: nat, a: nat)
    requires Inv(s) && FreeAt(s.t, p) && 0 < a < s.t[p].size
    ensures p + a !in s.t
  {
  }

  /** What extend_heap returns ends the heap, and the list keeps its order behind it. */
  lemma ExtendEnds(s: State, e: nat)
    requires Inv(s) && e % 8 == 0 && 16 <= e && s.hi + e <= MAX_HEAP
    ensures var s1, p := Extend(s, e), ExtendAt(s, e);
            && Inv(s1) && s1.hi == s.hi + e && LiveSame(s.t, s1.t, FLOOR) && EndsAt(s.t, s.hi, p)
            && FreeAt(s1.t, p) && s1.t[p].size == s1.hi - p && e <= s1.t[p].size
            && forall t, r {:trigger Survivors(s1.fl, t, r)} :: !FreeAt(t, p) ==> Survivors(s1.fl, t, r) == Survivors(s.fl, t, r)
  {
    hide Inv, LiveSame, EndsAt, Survivors;
    ExtendInv(s, e);
    var q := ExtendShape(s, e);
    ListedFree(s);
    var s1, p := Extend(s, e), ExtendAt(s, e);
    hide Extend, ExtendAt;
    forall t, r | !FreeAt(t, p)
      ensures Survivors(s1.fl, t, r) == Survivors(s.fl, t, r)
    {
      BehindHead(s.fl, p, q, s.hi + e, t, r);
    }
  }

  lemma ExtendShape(s: State, e: nat) returns (q: nat)
    requires Inv(s) && e % 8 == 0 && 16 <= e && s.hi + e <= MAX_HEAP
    ensures var s1, p := Extend(s, e), ExtendAt(s, e);
            && EndsAt(s.t, s.hi, p) && p in s1.t && s1.t[p].size == s1.hi - p && s1.hi == s.hi + e
            && s1.fl == [p] + Without(Without(s.fl, q), s.hi + e) && (q in s.fl ==> q == p) && s.hi + e !in s.fl
  {
    GrownPartial(s, e);
    ListedFree(s);
    InvTiled(s);
    hide Inv, LiveSame, NoAdjacentFreeBut, Tiled;
    GrowTiled(s.t, LO, FLOOR, s.hi, e);
    var g := Grown(s, e).t;
    q := Prev(g, LO, FLOOR, s.hi + e, s.hi);
    BeyondBreak(s.t, LO, FLOOR, s.hi);
    BeyondBreak(g, LO, FLOOR, s.hi + e);
    ExtensionEnds(s.t, g, LO, FLOOR, s.hi, e, q);
    hide Merged, EndsAt;
  }

  lemma BehindHead(l: seq<nat>, p: nat, q: nat, n: nat, t: Tiles, r: nat)
    requires NoDup(l) && !FreeAt(t, p) && n !in l && (q in l ==> q == p)
    ensures Survivors([p] + Without(Without(l, q), n), t, r) == Survivors(l, t, r)
  {
    OneGone(l, q, t, r);
    WithoutMembers(l, q);
    var l' := [p] + Without(Without(l, q), n);
    DropOne(l', 0, t, r);
    assert RemoveAt(l', 0) == Without(Without(l, q), n) == Without(l, q);
  }

  lemma GrownCarves(s: State, a: nat)
    requires Inv(s) && a % 8 == 0 && 16 <= a && s.hi + GrowthFor(a) <= MAX_HEAP
    ensures var e := GrowthFor(a);
            && e == Growth(a) && Inv(Extend(s, e)) && FreeAt(Extend(s, e).t, ExtendAt(s, e)) && a <= Extend(s, e).t[ExtendAt(s, e)].size
            && EndsAt(s.t, s.hi, ExtendAt(s, e)) && Place(Extend(s, e), ExtendAt(s, e), a).hi == s.hi + e
            && Carved(s, Place(Extend(s, e), ExtendAt(s, e), a), a, ExtendAt(s, e), s.hi + e - ExtendAt(s, e))
  {
    var e := GrowthFor(a);
    ExtendEnds(s, e);
    var s1, p := Extend(s, e), ExtendAt(s, e);
    hide Inv, Extend, ExtendAt;
    PlaceCarves(s1, p, a);
    var s' := Place(s1, p, a);
    assert s'.hi == s1.hi;
    hide Place, LiveAdds, LiveSame;
    LiveAddsAfterSame(s.t, s1.t, s'.t, FLOOR, p);
    LiveNotFree(s1.t, s'.t, p);
  }

  lemma LiveNotFree(t: Tiles, t': Tiles, p: nat)
    requires LiveAdds(t, t', FLOOR, p)
    ensures !FreeAt(t', p)
  {
  }

  /** mm_malloc takes the first fit on the list, or the end of the grown heap. */
  lemma MallocLawful(s: State, size: Word)
    requires Inv(s) && size + 15 < WORD_SPAN
    ensures MallocLaw(s, size, Malloc(s, size).0, Malloc(s, size).1)
  {
    if size != 0 {
      AsizeOk(size);
      var a := Asize(size);
      FindFitOk(s, a);
      if Fits(s.t, a) {
        FoundFirst(s, a);
      }
      hide Inv, Place, Extend, ExtendAt, FirstFit, Carved, Asize, Fits, FirstOn, EndsAt;
      if Fits(s.t, a) {
        PlaceCarves(s, FirstFit(s.t, s.fl, 0, a), a);
        assert Place(s, FirstFit(s.t, s.fl, 0, a), a).hi == s.hi by {
          PlaceSameBreak(s, FirstFit(s.t, s.fl, 0, a), a);
        }
      } else if s.hi + GrowthFor(a) <= MAX_HEAP {
        GrownCarves(s, a);
      }
    }
  }

  lemma PlaceSameBreak(s: State, p: nat, a: nat)
    requires p in s.t && a <= s.t[p].size
    ensures Place(s, p, a).hi == s.hi
  {
  }

  lemma FoundFirst(s: State, a: nat)
    requires Inv(s) && Fits(s.t, a)
    ensures FirstOn(s.t, s.fl, a, FirstFit(s.t, s.fl, 0, a))
  {
    FindFitOk(s, a);
    ListedFree(s);
    FirstIsFirst(s.t, s.fl, a);
  }

  lemma FreeLawful(s: State, p: nat)
    requires Inv(s) && IsLive(s.t, FLOOR, p)
    ensures FreeLaw(s, p, Free(s, p))
  {
    FreeOk(s, p);
    FreedPartial(s, p);
    ListedFree(s);
    var f := Freed(s, p).t;
    var q, n := Prev(f, LO, FLOOR, s.hi, p), Next(f, p);
    MergedTiled(f, LO, FLOOR, s.hi, q, p);
    MergeCovers(f, s.hi, q, p);
    var s', r := Free(s, p), MergeLow(f, q, p);
    hide Inv, Partial, NoAdjacentFree, NoAdjacentFreeBut, Tiled, LiveAdds, Merged;
    TwoGone(s.fl, q, n, s'.t, r);
  }

  lemma MergeCovers(t: Tiles, hi: nat, q: nat, p: nat)
    requires Tiled(t, LO, FLOOR, hi) && FreeAt(t, p) && q in t && q < p && Next(t, q) == p
    ensures MergeLow(t, q, p) in Merged(t, q, p)
    ensures MergeLow(t, q, p) <= p < Next(Merged(t, q, p), MergeLow(t, q, p))
  {
    assert BlockOk(t[p], p, LO, FLOOR, hi);
    assert Next(t, p) in t ==> BlockOk(t[Next(t, p)], Next(t, p), LO, FLOOR, hi);
  }

  lemma ReallocLawful(s: State, p: nat, size: Word)
    requires Inv(s) && IsLive(s.t, FLOOR, p) && size + 15 < WORD_SPAN
    ensures ReallocLaw(s, p, size, Realloc(s, p, size).0, Realloc(s, p, size).1)
  {
    MallocLawful(s, size);
    var (s1, r) := Malloc(s, size);
    MallocOutcome(s, size);
    if r != NULL {
      MallocGrants(s, size);
      assert IsLive(s.t, FLOOR, p);
      FreeLawful(s1, p);
    }
    hide Inv, Malloc, Free, MallocLaw, FreeLaw, Asize;
  }

  // ----- and nothing else is -----

  /** Two states with the invariant, the same break and the same live blocks have the same
      tiling. */
  lemma SameTiles(s: State, s': State)
    requires Inv(s) && Inv(s') && s.hi == s'.hi && LiveSame(s.t, s'.t, FLOOR)
    ensures s.t == s'.t
  {
    OnlyPrologue(s);
    OnlyPrologue(s');
    hide Listed, Tiled, NoAdjacentFree, LiveSame;
    TilingDetermined(s.t, s'.t, LO, FLOOR, s.hi);
  }

  lemma OnlyPrologue(s: State)
    requires Inv(s)
    ensures LO in s.t && s.t[LO] == Block(MINIMUM, true)
    ensures forall x: nat :: x < FLOOR ==> (x in s.t <==> x == LO)
  {
    forall x: nat | x in s.t && x < FLOOR
      ensures x == LO
    {
      assert BlockOk(s.t[x], x, LO, FLOOR, s.hi);
      InOrder(s.t, LO, FLOOR, s.hi, LO, x);
    }
  }

  lemma CarvedSame(s: State, s1: State, s2: State, a: nat, r: nat, room: int)
    requires Carved(s, s1, a, r, room) && Carved(s, s2, a, r, room) && s1.hi == s2.hi
    ensures s1 == s2
  {
    hide Inv;
    assert LiveSame(s1.t, s2.t, FLOOR);
    SameTiles(s1, s2);
  }

  /** The law leaves one outcome: what is specified. */
  lemma MallocIff(s: State, size: Word, s': State, r: nat)
    requires Inv(s) && size + 15 < WORD_SPAN
    ensures MallocLaw(s, size, s', r) <==> (s', r) == Malloc(s, size)
  {
    MallocLawful(s, size);
    InvTiled(s);
    hide Inv, Malloc, Carved, Asize, Fits, FirstOn, EndsAt;
    if MallocLaw(s, size, s', r) {
      MallocSame(s, size, s', r, Malloc(s, size).0, Malloc(s, size).1);
    }
  }

  lemma InvTiled(s: State)
    requires Inv(s)
    ensures Tiled(s.t, LO, FLOOR, s.hi)
  {
  }

  lemma MallocSame(s: State, size: Word, s1: State, r1: nat, s2: State, r2: nat)
    requires Inv(s) && MallocLaw(s, size, s1, r1) && MallocLaw(s, size, s2, r2)
    ensures s1 == s2 && r1 == r2
  {
    var a := Asize(size);
    InvTiled(s);
    hide Inv, Asize, Fits, Carved, Tiled;
    if size != 0 {
      if Fits(s.t, a) {
        FirstOnUnique(s.t, s.fl, a, r1, r2);
        hide FirstOn;
        CarvedSame(s, s1, s2, a, r1, s.t[r1].size);
      } else if s.hi + Growth(a) <= MAX_HEAP {
        EndsAtUnique(s.t, LO, FLOOR, s.hi, r1, r2);
        CarvedSame(s, s1, s2, a, r1, s1.hi - r1);
      }
    }
  }

  lemma FreeSame(s: State, p: nat, s1: State, s2: State)
    requires Inv(s) && FreeLaw(s, p, s1) && FreeLaw(s, p, s2)
    ensures s1 == s2
  {
    assert LiveSame(s1.t, s2.t, FLOOR);
    SameTiles(s1, s2);
    InvTiled(s1);
    var r1, r2 := s1.fl[0], s2.fl[0];
    assert r1 == r2 by {
      hide Inv, LiveAdds, LiveSame, Tiled;
      InOrder(s1.t, LO, FLOOR, s1.hi, r1, r2);
      InOrder(s1.t, LO, FLOOR, s1.hi, r2, r1);
    }
    assert s1.fl == [r1] + s1.fl[1..] && s2.fl == [r2] + s2.fl[1..];
  }

  lemma FreeIff(s: State, p: nat, s': State)
    requires Inv(s) && IsLive(s.t, FLOOR, p)
    ensures FreeLaw(s, p, s') <==> s' == Free(s, p)
  {
    FreeLawful(s, p);
    hide Inv, Free, FreeLaw;
    if FreeLaw(s, p, s') {
      FreeSame(s, p, s', Free(s, p));
    }
  }

  lemma ReallocIff(s: State, p: nat, size: Word, s': State, r: nat)
    requires Inv(s) && IsLive(s.t, FLOOR, p) && size + 15 < WORD_SPAN
    ensures ReallocLaw(s, p, size, s', r) <==> (s', r) == Realloc(s, p, size)
  {
    ReallocLawful(s, p, size);
    if ReallocLaw(s, p, size, s', r) {
      var s1: State :| MallocLaw(s, size, s1, r) && if r == NULL then s' == s1 else FreeLaw(s1, p, s');
      MallocIff(s, size, s1, r);
      MallocOutcome(s, size);
      if r != NULL {
        MallocGrants(s, size);
        assert IsLive(s.t, FLOOR, p);
        FreeIff(s1, p, s');
      }
    }
  }

  /** The state after mm_init is the only sound one with that break and nothing live. */
  lemma InitialIff(s: State)
    requires Inv(s) && s.hi == 24 + 4096 && forall p: nat :: !IsLive(s.t, FLOOR, p)
    ensures s == Initial()
  {
    InitialOk();
    hide Initial;
    SameTiles(s, Initial());
    OneFree(s);
    OneFree(Initial());
  }

  lemma OneFree(s: State)
    requires Inv(s) && s.hi == 24 + 4096 && forall p: nat :: !IsLive(s.t, FLOOR, p)
    ensures s.fl == [24]
  {
    OnlyPrologue(s);
    assert Next(s.t, LO) == 24;
    assert 24 in s.t && !IsLive(s.t, FLOOR, 24);
    assert BlockOk(s.t[24], 24, LO, FLOOR, s.hi);
    assert !IsLive(s.t, FLOOR, Next(s.t, 24));
    assert Next(s.t, 24) == s.hi;
    forall x | x in s.fl
      ensures x == 24
    {
      assert FreeAt(s.t, x);
      assert BlockOk(s.t[x], x, LO, FLOOR, s.hi);
    }
    assert 24 in s.fl;
    forall i | 0 <= i < |s.fl|
      ensures s.fl[i] == 24
    {
      assert s.fl[i] in s.fl;
    }
    var k := if |s.fl| >= 2 then 1 else 0;
    assert s.fl[0] == s.fl[k];
  }
}

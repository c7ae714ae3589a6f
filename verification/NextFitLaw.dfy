/** What implicit.c promises, stated without the functions that compute it: which block is
    taken, how large it is, where the break goes and where the roving pointer stands.
    These laws leave exactly one outcome. */
module NextFitLaw {
  import opened Memory
  import opened Tiling
  import opened Order
  import opened Requests
  import opened NextFitSpec

  /** r is the first free block of a bytes in cyclic order from the roving pointer. */
  ghost predicate NextFit(s: State, a: nat, r: nat) {
    FitsAt(s.t, r, a) && forall x: nat {:trigger FitsAt(s.t, x, a)} :: FitsAt(s.t, x, a) ==> NoLater(s.last, r, x)
  }

  /** The front of the room bytes at r is taken, or all of them if the rest is no block. */
  ghost predicate Carved(s: State, s': State, a: nat, r: nat, room: int) {
    Inv(s') && LiveAdds(s.t, s'.t, FLOOR, r) && room >= a && s'.t[r].size == if room - a >= 16 then a else room
  }

  /** mm_malloc(size) may lead from s to s' and return r.  A search leaves the roving
      pointer where it is; so does growing the heap, unless what is added is merged with a
      free block before it: then the pointer goes to that block. */
  ghost predicate MallocLaw(s: State, size: Word, s': State, r: nat) {
    var a := Asize(size);
    if size == 0 || (!Fits(s.t, a) && s.hi + Growth(a) > MAX_HEAP) then r == NULL && s' == s
    else if Fits(s.t, a) then NextFit(s, a, r) && s'.last == s.last && s'.hi == s.hi && Carved(s, s', a, r, s.t[r].size)
    else
      && EndsAt(s.t, s.hi, r) && s'.last == (if r == s.hi then s.last else r)
      && s'.hi == s.hi + Growth(a) && Carved(s, s', a, r, s'.hi - r)
  }

  /** mm_free(p): p is given up, and a merge takes the roving pointer along. */
  ghost predicate FreeLaw(s: State, p: nat, s': State)
    requires p in s.t
  {
    Inv(s') && s'.hi == s.hi && LiveAdds(s'.t, s.t, FLOOR, p) && Roves(s, p, s')
  }

  /** mm_realloc(p, size): what mm_malloc(size) returns, and if that is a block, p is freed. */
  ghost predicate ReallocLaw(s: State, p: nat, size: Word, s': State, r: nat) {
    exists s1: State :: MallocLaw(s, size, s1, r) && if r == NULL then s' == s1 else p in s1.t && FreeLaw(s1, p, s')
  }

  // ----- what the allocator does is lawful -----

  /** What extend_heap returns ends the heap. */
  lemma ExtendEnds(s: State, e: nat)
    requires Inv(s) && e % 8 == 0 && 16 <= e && s.hi + e <= MAX_HEAP
    ensures var s1, p := Extend(s, e), ExtendAt(s, e);
            && Inv(s1) && s1.hi == s.hi + e && LiveSame(s.t, s1.t, FLOOR) && EndsAt(s.t, s.hi, p)
            && FreeAt(s1.t, p) && s1.t[p].size == s1.hi - p && e <= s1.t[p].size
            && s1.last == if p == s.hi then s.last else p
  {
    hide LiveSame, Inv, EndsAt, Roves, Extend, ExtendAt;
    ExtendInv(s, e);
    ExtendShape(s, e);
  }

  lemma ExtendShape(s: State, e: nat)
    requires Inv(s) && e % 8 == 0 && 16 <= e && s.hi + e <= MAX_HEAP
    ensures var s1, p := Extend(s, e), ExtendAt(s, e);
            && EndsAt(s.t, s.hi, p) && FreeAt(s1.t, p) && s1.t[p].size == s1.hi - p && s1.hi == s.hi + e
            && s1.last == if p == s.hi then s.last else p
  {
    hide LiveSame, Inv, NoAdjacentFreeBut, Roves;
    GrownPartial(s, e);
    InvTiled(s);
    hide Tiled;
    GrowTiled(s.t, LO, FLOOR, s.hi, e);
    var g := Grown(s, e).t;
    var q := Prev(g, LO, FLOOR, s.hi + e, s.hi);
    BeyondBreak(s.t, LO, FLOOR, s.hi);
    BeyondBreak(g, LO, FLOOR, s.hi + e);
    ExtensionEnds(s.t, g, LO, FLOOR, s.hi, e, q);
    hide Merged, EndsAt;
  }

  lemma MallocLawful(s: State, size: Word)
    requires Inv(s) && size + 15 < WORD_SPAN
    ensures MallocLaw(s, size, Malloc(s, size).0, Malloc(s, size).1)
  {
    hide Inv, Place, Extend, ExtendAt, FindFit, Asize, Fits, LiveAdds, LiveSame, EndsAt, NoLater;
    var a := Asize(size);
    if size != 0 {
      AsizeOk(size);
      FindFitOk(s, a);
      if Fits(s.t, a) {
        PlaceInv(s, FindFit(s, a), a);
      } else if s.hi + GrowthFor(a) <= MAX_HEAP {
        ExtendEnds(s, GrowthFor(a));
        var s1, p := Extend(s, GrowthFor(a)), ExtendAt(s, GrowthFor(a));
        PlaceInv(s1, p, a);
        LiveAddsAfterSame(s.t, s1.t, Place(s1, p, a).t, FLOOR, p);
      }
    }
  }

  lemma FreeLawful(s: State, p: nat)
    requires Inv(s) && IsLive(s.t, FLOOR, p)
    ensures FreeLaw(s, p, Free(s, p))
  {
    FreeOk(s, p);
  }

  // ----- and nothing else is -----

  lemma SameTiles(s: State, s': State)
    requires Inv(s) && Inv(s') && s.hi == s'.hi && LiveSame(s.t, s'.t, FLOOR)
    ensures s.t == s'.t
  {
    OnlyPrologue(s);
    OnlyPrologue(s');
    hide Tiled, NoAdjacentFree, LiveSame;
    TilingDetermined(s.t, s'.t, LO, FLOOR, s.hi);
  }

  lemma OnlyPrologue(s: State)
    requires Inv(s)
    ensures LO in s.t && s.t[LO] == Block(DSIZE, true)
    ensures forall x: nat :: x < FLOOR ==> (x in s.t <==> x == LO)
  {
    forall x: nat | x in s.t && x < FLOOR
      ensures x == LO
    {
      assert BlockOk(s.t[x], x, LO, FLOOR, s.hi);
      InOrder(s.t, LO, FLOOR, s.hi, LO, x);
    }
  }

  lemma CarvedSame(s: State, s1: State, s2: State, a: nat, r: nat, room: int)
    requires Carved(s, s1, a, r, room) && Carved(s, s2, a, r, room) && s1.hi == s2.hi && s1.last == s2.last
    ensures s1 == s2
  {
    hide Inv;
    assert LiveSame(s1.t, s2.t, FLOOR);
    SameTiles(s1, s2);
  }

  lemma MallocSame(s: State, size: Word, s1: State, r1: nat, s2: State, r2: nat)
    requires Inv(s) && MallocLaw(s, size, s1, r1) && MallocLaw(s, size, s2, r2)
    ensures s1 == s2 && r1 == r2
  {
    hide Inv, Asize, Fits, Carved, Tiled, EndsAt;
    var a := Asize(size);
    InvTiled(s);
    if size != 0 {
      if Fits(s.t, a) {
        assert r1 == r2;
        CarvedSame(s, s1, s2, a, r1, s.t[r1].size);
      } else if s.hi + Growth(a) <= MAX_HEAP {
        EndsAtUnique(s.t, LO, FLOOR, s.hi, r1, r2);
        CarvedSame(s, s1, s2, a, r1, s1.hi - r1);
      }
    }
  }

  lemma InvTiled(s: State)
    requires Inv(s)
    ensures Tiled(s.t, LO, FLOOR, s.hi)
  {
  }

  /** The law leaves one outcome: what is specified. */
  lemma MallocIff(s: State, size: Word, s': State, r: nat)
    requires Inv(s) && size + 15 < WORD_SPAN
    ensures MallocLaw(s, size, s', r) <==> (s', r) == Malloc(s, size)
  {
    hide Inv, Malloc, MallocLaw;
    MallocLawful(s, size);
    if MallocLaw(s, size, s', r) {
      MallocSame(s, size, s', r, Malloc(s, size).0, Malloc(s, size).1);
    }
  }

  lemma FreeIff(s: State, p: nat, s': State)
    requires Inv(s) && IsLive(s.t, FLOOR, p)
    ensures FreeLaw(s, p, s') <==> s' == Free(s, p)
  {
    hide Inv, Free, NeighbourFree;
    FreeLawful(s, p);
    if FreeLaw(s, p, s') {
      var u := Free(s, p);
      assert LiveSame(s'.t, u.t, FLOOR);
      SameTiles(s', u);
      InvTiled(u);
      hide LiveSame, LiveAdds, Tiled;
      if NeighbourFree(s.t, p) {
        InOrder(u.t, LO, FLOOR, u.hi, u.last, s'.last);
        InOrder(u.t, LO, FLOOR, u.hi, s'.last, u.last);
      }
    }
  }

  lemma ReallocIff(s: State, p: nat, size: Word, s': State, r: nat)
    requires Inv(s) && IsLive(s.t, FLOOR, p) && size + 15 < WORD_SPAN
    ensures ReallocLaw(s, p, size, s', r) <==> (s', r) == (Realloc(s, p, size), Malloc(s, size).1)
  {
    hide Inv, Malloc, Free, MallocLaw, FreeLaw, Asize, Fits;
    GrantedLive(s, p, size);
    MallocOutcome(s, size);
    var s1 := Malloc(s, size).0;
    MallocIff(s, size, s1, Malloc(s, size).1);
    FreeIff(s1, p, Free(s1, p));
    if ReallocLaw(s, p, size, s', r) {
      var s2: State :| MallocLaw(s, size, s2, r) && if r == NULL then s' == s2 else p in s2.t && FreeLaw(s2, p, s');
      MallocIff(s, size, s2, r);
      FreeIff(s1, p, s');
    }
  }

  /** The state after mm_init is the only sound one with that break and nothing live, the
      roving pointer at the prologue. */
  lemma InitialIff(s: State)
    requires Inv(s) && s.hi == 16 + 4096 && forall p: nat :: !IsLive(s.t, FLOOR, p)
    ensures s == Initial() <==> s.last == 8
  {
    InitialOk();
    InitialRover();
    hide Initial, Inv;
    SameTiles(s, Initial());
  }

  lemma InitialRover()
    ensures Inv(Initial()) && Initial().last == 8
  {
    BareInv();
    ExtendEnds(Bare(), CHUNKSIZE);
    assert !FreeAt(Bare().t, LO);
  }
}

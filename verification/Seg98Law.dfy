/** What mm_realloc of (98)정리.c promises where it can be relied on, stated without the
    functions that compute it. */
module Seg98Law {
  import opened Memory
  import opened Tiling
  import opened Links
  import opened Order
  import opened SizeClasses
  import opened Requests
  import opened SegSpec
  import opened SegPlace
  import opened SegLaw
  import opened Seg98Spec

  /** By how much the heap grows so that have bytes become newSize: by a page at least, or
      not at all. */
  function Shortage(have: nat, newSize: nat): nat {
    if newSize <= have then 0 else if newSize - have > 4096 then newSize - have else 4096
  }

  /** The bytes in p and in the free block behind it, if there is one. */
  ghost function Reach(t: Tiles, p: nat): nat
    requires p in t
  {
    t[p].size + if FreeAt(t, Next(t, p)) then t[Next(t, p)].size else 0
  }

  /** p grows where it stands, by all that lies behind it, or fails for lack of memory. */
  ghost predicate InPlaceLaw(s: State, p: nat, newSize: nat, s': State, r: nat)
    requires p in s.t
  {
    var have := Reach(s.t, p);
    var more := Shortage(have, newSize);
    if s.hi + more > MAX_HEAP then r == NULL && s' == s
    else
      && r == p && Inv(s') && s'.hi == s.hi + more && Grew(s.t, s'.t, p) && s'.t[p].size == have + more
      && ListsFollow(s, s', NULL)
  }

  /** mm_realloc(p, size): nothing for 0 bytes; in place if the block behind p is free or
      the epilogue; else a new block of the rounded size, and p is freed. */
  ghost predicate ReallocLaw(s: State, p: nat, size: Word, s': State, r: nat)
    requires p in s.t
  {
    if size == 0 then r == NULL && s' == s
    else if FreeAt(s.t, Next(s.t, p)) || Next(s.t, p) == s.hi then InPlaceLaw(s, p, Asize(size), s', r)
    else Moves(s, p, Asize(size), s', r)
  }

  /** r is a new block for newSize - 8 bytes, and p is freed. */
  ghost predicate Moves(s: State, p: nat, newSize: nat, s': State, r: nat) {
    exists s1: State :: 8 <= newSize < WORD_SPAN && MallocLaw(ThreeWay, s, newSize - 8, s1, r) && FreeLaw(s1, p, s')
  }

  // ----- in place -----

  lemma ReachIsHave(s: State, p: nat)
    requires Inv(s) && IsLive(s.t, FLOOR, p) && NextIsOpen(s, p)
    ensures Reach(s.t, p) == s.t[p].size + NextSize(s.t, p)
  {
    hide Sorted;
    HaveAligned(s.t, s.hi, p);
  }

  lemma ExtensionIsShortage(have: nat, newSize: nat)
    ensures Extension(have - newSize) == Shortage(have, newSize)
  {
  }

  lemma AbsorbFollows(s: State, s1: State, p: nat)
    requires Inv(s1) || Partial(s1, {})
    requires IsLive(s1.t, FLOOR, p) && FreeAt(s1.t, Next(s1.t, p)) && Agree(s.lists, s1.lists, Fuse(s1.t, p, Next(s1.t, Next(s1.t, p)), true), NULL)
    requires p < Next(s1.t, Next(s1.t, p))
    ensures |s1.lists| == LISTLIMIT && 0 < s1.t[p].size && ListsFollow(s, Absorb(s1, p), NULL)
  {
    hide ClassOf, Agree;
    AbsorbInv(s1, p);
    var n, s' := Next(s1.t, p), Absorb(s1, p);
    hide Inv, Partial, Grew;
    AgreeTake(s.lists, s1.lists, s'.t, NULL, ClassOf(s1.t[n].size), n);
    hide Absorb;
    FollowsNone(s, s') by {
      AbsorbInv(s1, p);
    }
  }

  lemma InPlaceLawful(s: State, p: nat, newSize: Word)
    requires Inv(s) && IsLive(s.t, FLOOR, p) && newSize % 8 == 0
    requires GrowsInPlace(s, p, newSize) && newSize - s.t[p].size < INT_SPAN && NextIsOpen(s, p)
    ensures InPlaceLaw(s, p, newSize, InPlace(s, p, newSize).0, InPlace(s, p, newSize).1)
  {
    hide Remainder, Inv, GrowsInPlace, ListsFollow, Grew, Absorb, Extend;
    HaveOk(s, p, newSize);
    ReachIsHave(s, p);
    InPlaceOk(s, p, newSize);
    var have := Reach(s.t, p);
    ExtensionIsShortage(have, newSize);
    FromInv98(s);
    if newSize <= have {
      AbsorbHere(s, p);
    } else if s.hi + Shortage(have, newSize) <= MAX_HEAP {
      AbsorbExtended(s, p, Shortage(have, newSize));
    }
  }

  lemma FromInv98(s: State)
    requires Inv(s)
    ensures s.hi <= MAX_HEAP && NULL !in s.t
  {
  }

  lemma AbsorbHere(s: State, p: nat)
    requires Inv(s) && IsLive(s.t, FLOOR, p) && FreeAt(s.t, Next(s.t, p))
    ensures |s.lists| == LISTLIMIT && 0 < s.t[p].size && ListsFollow(s, Absorb(s, p), NULL)
  {
    hide ClassOf, Sorted;
    HaveAligned(s.t, s.hi, p);
    hide Inv;
    AgreeSelf(s.lists, Fuse(s.t, p, Next(s.t, Next(s.t, p)), true), NULL);
    AbsorbFollows(s, s, p);
  }

  lemma AbsorbExtended(s: State, p: nat, e: nat)
    requires Inv(s) && IsLive(s.t, FLOOR, p) && EndsBehind(s, p) && e % 8 == 0 && 16 <= e && s.hi + e <= MAX_HEAP
    ensures var s1 := Extend(s, e);
            && p in s1.t && 0 < s1.t[p].size && FreeAt(s1.t, Next(s1.t, p)) && |s1.lists| == LISTLIMIT
            && ListsFollow(s, Absorb(s1, p), NULL)
  {
    hide ClassOf, Agree, ListsFollow, Absorb;
    ExtendEnds(s, e);
    ExtendBehind(s, p, e);
    var s1, n := Extend(s, e), Next(s.t, p);
    InPlaceGrown(s, p, e);
    hide Extend, EndsBehind, Grew;
    AtTheEnd(s1, p, n, ExtendAt(s, e));
    AbsorbFollows(s, s1, p);
  }

  /** The block behind p, if it ends the heap, is the one that ends the heap. */
  lemma AtTheEnd(s: State, p: nat, n: nat, x: nat)
    requires Inv(s) && IsLive(s.t, FLOOR, p) && n == Next(s.t, p) && FreeAt(s.t, n) && FreeAt(s.t, x) && s.t[x].size == s.hi - x
    requires EndOf(s, p)
    ensures n == x && p < Next(s.t, n) && !FreeAt(Fuse(s.t, p, Next(s.t, n), true), x)
  {
    hide Sorted;
    HaveAligned(s.t, s.hi, p);
    OnlyPrev(s.t, LO, FLOOR, s.hi, n);
  }

  ghost predicate EndOf(s: State, p: nat)
    requires p in s.t
  {
    Next(s.t, p) in s.t && Next(s.t, Next(s.t, p)) == s.hi
  }

  // ----- what mm_realloc does is lawful, and nothing else is -----

  lemma ReallocLawful(s: State, p: nat, size: Word)
    requires Inv(s) && IsLive(s.t, FLOOR, p) && size + 15 < WORD_SPAN && (size != 0 ==> Supported(s, p, size))
    ensures ReallocLaw(s, p, size, Realloc(s, p, size).0, Realloc(s, p, size).1)
  {
    hide Inv, Asize, GrowsInPlace, Fits, InPlace, Move, MallocLaw, FreeLaw, InPlaceLaw, Moves;
    if size != 0 {
      AsizeOk(size);
      if NextIsOpen(s, p) {
        InPlaceLawful(s, p, Asize(size));
      } else {
        MoveIff(s, p, Asize(size), Move(s, p, Asize(size)).0, Move(s, p, Asize(size)).1);
      }
    }
  }

  lemma MoveIff(s: State, p: nat, newSize: Word, s': State, r: nat)
    requires Inv(s) && IsLive(s.t, FLOOR, p) && newSize % 8 == 0 && 16 <= newSize && newSize + 7 < WORD_SPAN
    requires Fits(s.t, newSize) || s.hi + GrowthFor(newSize) <= MAX_HEAP
    ensures Moves(s, p, newSize, s', r) <==> (s', r) == Move(s, p, newSize)
  {
    hide Inv, Fits, Malloc, Free, MallocLaw, FreeLaw, LiveAdds;
    MoveOk(s, p, newSize);
    var (s1, q) := Malloc(ThreeWay, s, newSize - 8);
    MallocIff(ThreeWay, s, newSize - 8, s1, q);
    FreeIff(s1, p, Free(s1, p));
    if Moves(s, p, newSize, s', r) {
      var s2: State :| MallocLaw(ThreeWay, s, newSize - 8, s2, r) && FreeLaw(s2, p, s');
      MallocIff(ThreeWay, s, newSize - 8, s2, r);
      FreeIff(s1, p, s');
    }
  }

  lemma InPlaceSame(s: State, p: nat, newSize: nat, s1: State, r1: nat, s2: State, r2: nat)
    requires p in s.t && InPlaceLaw(s, p, newSize, s1, r1) && InPlaceLaw(s, p, newSize, s2, r2)
    ensures s1 == s2 && r1 == r2
  {
    hide Inv, Reach, ListsFollow;
    if s.hi + Shortage(Reach(s.t, p), newSize) <= MAX_HEAP {
      assert LiveSame(s1.t, s2.t, FLOOR);
      SameTiles(s1, s2);
      FollowsSame(s, s1, s2, NULL);
    }
  }

  /** The law leaves one outcome: what is specified. */
  lemma ReallocIff(s: State, p: nat, size: Word, s': State, r: nat)
    requires Inv(s) && IsLive(s.t, FLOOR, p) && size + 15 < WORD_SPAN && (size != 0 ==> Supported(s, p, size))
    ensures ReallocLaw(s, p, size, s', r) <==> (s', r) == Realloc(s, p, size)
  {
    hide Inv, Asize, GrowsInPlace, Fits, InPlace, Move, MallocLaw, FreeLaw, InPlaceLaw, Moves;
    ReallocLawful(s, p, size);
    if size != 0 && ReallocLaw(s, p, size, s', r) {
      AsizeOk(size);
      if NextIsOpen(s, p) {
        InPlaceSame(s, p, Asize(size), s', r, Realloc(s, p, size).0, Realloc(s, p, size).1);
      } else {
        MoveIff(s, p, Asize(size), s', r);
      }
    }
  }
}

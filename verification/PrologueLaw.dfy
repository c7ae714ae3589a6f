/** What prologue.c promises, stated without the functions that compute it: which block is
    taken, how large it is, the break, and the order of each of the ten lists.  These laws
    leave exactly one outcome. */
module PrologueLaw {
  import opened Memory
  import opened Tiling
  import opened Links
  import opened Order
  import SizeClasses
  import opened Requests
  import opened RootLists
  import opened PrologueSpec

  // ----- the lists -----

  /** Class c holds sizes of more than 2^(c+1) and at most 2^(c+2) double words; the last
      class is open. */
  ghost predicate InRange(c: nat, size: nat) {
    c < 10 && SizeClasses.Pow2(c + 1) < size / 8 && (c < 9 ==> size / 8 <= SizeClasses.Pow2(c + 2))
  }

  lemma RangeIff(size: nat, c: nat)
    requires 24 <= size
    ensures InRange(c, size) <==> c == ClassOf(size)
  {
    hide ClassFrom;
    var d := ClassOf(size);
    ClassIsRange(size);
    if c < d {
      PowUp(c + 2, d + 1);
    } else if d < c {
      PowUp(d + 2, c + 1);
    }
  }

  /** The lists keep their order; the free block f, if there is one, heads that of its
      class. */
  ghost predicate ListsFollow(s: State, s': State, f: nat) {
    if f == NULL then Relisted(s.lists, s'.lists, s'.t, NULL, 0)
    else FreeAt(s'.t, f) && exists c: nat :: InRange(c, s'.t[f].size) && Relisted(s.lists, s'.lists, s'.t, f, c)
  }

  // ----- the laws -----

  /** The front of the room bytes at r is taken; the rest is split off if it makes a block
      of 24 bytes, and then heads its list. */
  ghost predicate Carved(s: State, s': State, a: nat, r: nat, room: int) {
    && Inv(s') && LiveAdds(s.t, s'.t, FLOOR, r) && room >= a
    && (if room - a < 24 then s'.t[r].size == room && ListsFollow(s, s', NULL)
        else s'.t[r].size == a && ListsFollow(s, s', r + a))
  }

  /** mm_malloc(size) may lead from s to s' and return r. */
  ghost predicate MallocLaw(s: State, size: Word, s': State, r: nat) {
    var a := if Asize(size) > 24 then Asize(size) else 24;
    if size == 0 || (!Fits(s.t, a) && s.hi + Growth(a) > MAX_HEAP) then r == NULL && s' == s
    else if Fits(s.t, a) then LowestFirst(s.t, s.lists, a, r) && r in s.t && s'.hi == s.hi && Carved(s, s', a, r, s.t[r].size)
    else EndsAt(s.t, s.hi, r) && s'.hi == s.hi + Growth(a) && Carved(s, s', a, r, s'.hi - r)
  }

  /** mm_free(p): p is given up, and the free block that covers it heads its list. */
  ghost predicate FreeLaw(s: State, p: nat, s': State) {
    && Inv(s') && s'.hi == s.hi && LiveAdds(s'.t, s.t, FLOOR, p)
    && exists f: nat :: FreeAt(s'.t, f) && f <= p < Next(s'.t, f) && ListsFollow(s, s', f)
  }

  // ----- the search -----

  lemma {:induction false} FindFitFirst(s: State, c: nat, a: nat) returns (k: nat)
    requires Inv(s) && |s.lists| == NUM && c <= NUM
    ensures var r := FindFit(s.t, s.lists, c, a);
            r != NULL ==> c <= k < NUM && FirstOn(s.t, s.lists[k], a, r)
                          && forall d, x {:trigger x in s.lists[d]} :: c <= d < k && x in s.lists[d] ==> x in s.t && s.t[x].size < a
    decreases NUM - c
  {
    k := c;
    hide ClassFrom;
    if c < NUM {
      NullOutside(s);
      var l := s.lists[c];
      forall x | x in l
        ensures x in s.t && x != NULL
      {
      }
      hide Inv, FirstOn;
      if FirstFit(s.t, l, 0, a) != NULL {
        FirstIsFirst(s.t, l, a);
      } else {
        var n := FirstFitFinds(s.t, l, 0, a);
        forall x | x in l
          ensures s.t[x].size < a
        {
          var j :| 0 <= j < |l| && l[j] == x;
        }
        k := FindFitFirst(s, c + 1, a);
      }
    }
  }

  lemma FoundLowest(s: State, a: nat)
    requires Inv(s) && Fits(s.t, a) && MIN_BLKSIZE <= a
    ensures |s.lists| == NUM && LowestFirst(s.t, s.lists, a, FindFit(s.t, s.lists, ClassOf(a), a))
  {
    FindFitOk(s, a);
    var k := FindFitFirst(s, ClassOf(a), a);
    SmallerBelow(s, k, a);
    hide Inv, FindFit, FirstOn, ClassFrom, Fits;
    assert s.lists[k] == s.lists[k];
  }

  lemma SmallerBelow(s: State, k: nat, a: nat)
    requires Inv(s) && k <= |s.lists| && MIN_BLKSIZE <= a
    requires forall d, x {:trigger x in s.lists[d]} :: ClassOf(a) <= d < k && x in s.lists[d] ==> x in s.t && s.t[x].size < a
    ensures NoneBelow(s.t, s.lists, k, a)
  {
    hide ClassFrom;
    forall d, x | 0 <= d < k && x in s.lists[d]
      ensures x in s.t && s.t[x].size < a
    {
      assert FreeAt(s.t, x) && ClassOf(s.t[x].size) == d;
      if a <= s.t[x].size {
        ClassUp(a, s.t[x].size);
      }
    }
  }

  // ----- relisting -----

  lemma ListedFree(s: State, c: nat)
    requires Partial(s, {}) && c < NUM
    ensures |s.lists| == NUM && NoDup(s.lists[c]) && forall x :: x in s.lists[c] ==> FreeAt(s.t, x) && x != NULL
  {
    hide ClassOf;
  }

  /** A free block has 24 bytes and is not at NULL. */
  lemma FreeBlock(s: State, f: nat)
    requires Partial(s, {}) && FreeAt(s.t, f)
    ensures f != NULL && 24 <= s.t[f].size
  {
    FreeInside(s, f);
    FreeRoom(s.t, s.hi, f);
  }

  /** If putting f in front of a list of l gives the lists of s', all of l survives. */
  lemma FollowsPut(s: State, s': State, l: Lists, f: nat)
    requires Partial(s', {}) && FreeAt(s'.t, f) && |l| == NUM && s'.lists == Put(l, f, s'.t[f].size)
    requires Agree(s.lists, l, s'.t, f)
    ensures ListsFollow(s, s', f)
  {
    var c := ClassOf(s'.t[f].size);
    hide ClassOf;
    forall i, x | 0 <= i < |l| && x in l[i]
      ensures FreeAt(s'.t, x) && x != f
    {
      InPut(s', l, f, i, x);
    }
    FreeBlock(s', f);
    hide Partial;
    AgreeRelists(s.lists, l, s'.t, f, c);
    RangeIff(s'.t[f].size, c);
  }

  lemma InPut(s: State, l: Lists, f: nat, i: nat, x: nat)
    requires Partial(s, {}) && FreeAt(s.t, f) && |l| == NUM && s.lists == Put(l, f, s.t[f].size)
    requires i < NUM && x in l[i]
    ensures FreeAt(s.t, x) && x != f
  {
    hide ClassOf;
    var c := ClassOf(s.t[f].size);
    assert x in s.lists[i];
    if i == c {
      var l' := s.lists[c];
      assert l'[0] == f && l' == [f] + l[c];
      var j :| 0 <= j < |l[c]| && l[c][j] == x;
      assert l'[j + 1] == x;
    }
  }

  lemma FollowsNone(s: State, s': State)
    requires Partial(s', {}) && Agree(s.lists, s'.lists, s'.t, NULL)
    ensures ListsFollow(s, s', NULL)
  {
    forall i, x | 0 <= i < |s'.lists| && x in s'.lists[i]
      ensures FreeAt(s'.t, x) && x != NULL
    {
      ListedFree(s', i);
    }
    TenLists(s', {});
    AgreeRelists(s.lists, s'.lists, s'.t, NULL, 0);
  }

  // ----- what the allocator does is lawful -----

  lemma PlaceCarves(s: State, p: nat, a: nat)
    requires Inv(s) && FreeAt(s.t, p) && a % 8 == 0 && MIN_BLKSIZE <= a <= s.t[p].size
    ensures |s.lists| == NUM && Carved(s, Place(s, p, a), a, p, s.t[p].size) && Place(s, p, a).hi == s.hi
  {
    hide ClassOf, LiveAdds, Take, Put, Tiled, Rooted, Sorted, NoAdjacentFree, Agree, ListsFollow;
    PlaceOk(s, p, a);
    TenLists(s, {});
    var s' := Place(s, p, a);
    var f := if s.t[p].size - a < 24 then NULL else p + a;
    FreeBlock(s, p);
    TakenAgrees(s, p, s'.t, f);
    FromInv(s');
    if f == NULL {
      hide Partial;
      FollowsNone(s, s');
    } else {
      hide Partial;
      FollowsPut(s, s', Take(s.lists, p, s.t[p].size), f);
    }
  }

  lemma TakenAgrees(s: State, p: nat, t: Tiles, f: nat)
    requires |s.lists| == NUM && p in s.t && !FreeAt(t, p)
    ensures |Take(s.lists, p, s.t[p].size)| == NUM && Agree(s.lists, Take(s.lists, p, s.t[p].size), t, f)
  {
    hide ClassOf;
    AgreeSelf(s.lists, t, f);
    AgreeTake(s.lists, s.lists, t, f, ClassOf(s.t[p].size), p);
  }

  lemma FromInv(s: State)
    requires Inv(s)
    ensures Partial(s, {})
  {
  }

  lemma FollowsThrough(s: State, s1: State, s': State, f: nat)
    requires ListsFollow(s1, s', f) && Agree(s.lists, s1.lists, s'.t, f)
    ensures ListsFollow(s, s', f)
  {
    if f == NULL {
      RelistedThrough(s.lists, s1.lists, s'.lists, s'.t, NULL, 0);
    } else {
      var c: nat :| InRange(c, s'.t[f].size) && Relisted(s1.lists, s'.lists, s'.t, f, c);
      RelistedThrough(s.lists, s1.lists, s'.lists, s'.t, f, c);
    }
  }

  /** What extend_heap returns ends the heap, and the lists keep their order behind it. */
  lemma ExtendEnds(s: State, e: nat)
    requires Inv(s) && e % 8 == 0 && MIN_BLKSIZE <= e && s.hi + e <= MAX_HEAP
    ensures var s1, p := Extend(s, e), ExtendAt(s, e);
            && Inv(s1) && s1.hi == s.hi + e && LiveSame(s.t, s1.t, FLOOR) && EndsAt(s.t, s.hi, p)
            && FreeAt(s1.t, p) && s1.t[p].size == s1.hi - p && e <= s1.t[p].size
            && forall t, f {:trigger Agree(s.lists, s1.lists, t, f)} :: !FreeAt(t, p) || p == f ==> Agree(s.lists, s1.lists, t, f)
  {
    hide ClassOf, Agree, LiveSame;
    ExtendInv(s, e);
    var q := ExtendShape(s, e);
    hide Inv, EndsAt;
    var s1, p := Extend(s, e), ExtendAt(s, e);
    forall t, f | !FreeAt(t, p) || p == f
      ensures Agree(s.lists, s1.lists, t, f)
    {
      AgreeExtended(s, Grown(s, e).t, q, p, s1.t[p].size, t, f);
    }
  }

  lemma ExtendShape(s: State, e: nat) returns (q: nat)
    requires Inv(s) && e % 8 == 0 && MIN_BLKSIZE <= e && s.hi + e <= MAX_HEAP
    ensures |s.lists| == NUM
    ensures var s1, p, g := Extend(s, e), ExtendAt(s, e), Grown(s, e);
            && EndsAt(s.t, s.hi, p) && p in s1.t && s1.t[p].size == s1.hi - p && s1.hi == s.hi + e
            && (FreeAt(g.t, q) ==> q == p) && s1.lists == Put(Unlisted(g.t, s.lists, q), p, s1.t[p].size)
  {
    hide ClassOf, Put, Tiled, NoAdjacentFreeBut, LiveSame, Rooted, Sorted;
    GrownPartial(s, e);
    TenLists(s, {});
    var g := Grown(s, e);
    GrowTiled(s.t, LO, FLOOR, s.hi, e);
    q := Prev(g.t, LO, FLOOR, g.hi, s.hi);
    BeyondBreak(g.t, LO, FLOOR, g.hi);
    hide Inv, Partial;
    ExtensionEnds(s.t, g.t, LO, FLOOR, s.hi, e, q);
    hide EndsAt;
  }

  lemma AgreeExtended(s: State, g: Tiles, q: nat, p: nat, size: nat, t: Tiles, f: nat)
    requires |s.lists| == NUM && (!FreeAt(t, p) || p == f) && (FreeAt(g, q) ==> q == p)
    ensures Agree(s.lists, Put(Unlisted(g, s.lists, q), p, size), t, f)
  {
    hide ClassOf;
    AgreeSelf(s.lists, t, f);
    if FreeAt(g, q) {
      AgreeTake(s.lists, s.lists, t, f, ClassOf(g[q].size), q);
    }
    AgreePut(s.lists, Unlisted(g, s.lists, q), t, f, ClassOf(size), p);
  }

  lemma GrownCarves(s: State, a: nat)
    requires Inv(s) && a % 8 == 0 && MIN_BLKSIZE <= a && s.hi + GrowthFor(a) <= MAX_HEAP
    ensures var e := GrowthFor(a);
            var s1, p := Extend(s, e), ExtendAt(s, e);
            && e == Growth(a) && Inv(s1) && |s1.lists| == NUM && FreeAt(s1.t, p) && a <= s1.t[p].size && EndsAt(s.t, s.hi, p)
            && Place(s1, p, a).hi == s.hi + e && Carved(s, Place(s1, p, a), a, p, s.hi + e - p)
  {
    var e := GrowthFor(a);
    ExtendEnds(s, e);
    var s1, p := Extend(s, e), ExtendAt(s, e);
    hide Inv, Extend, ExtendAt, EndsAt, Agree;
    PlaceCarves(s1, p, a);
    var s' := Place(s1, p, a);
    hide Place, Carved;
    CarvedThrough(s, s1, s', a, p, s1.t[p].size);
  }

  lemma CarvedThrough(s: State, s1: State, s': State, a: nat, r: nat, room: int)
    requires Carved(s1, s', a, r, room) && LiveSame(s.t, s1.t, FLOOR) && 0 < a
    requires forall t, f {:trigger Agree(s.lists, s1.lists, t, f)} :: !FreeAt(t, r) || r == f ==> Agree(s.lists, s1.lists, t, f)
    ensures Carved(s, s', a, r, room)
  {
    hide Inv, Agree, ListsFollow;
    LiveAddsAfterSame(s.t, s1.t, s'.t, FLOOR, r);
    var f := if room - a < 24 then NULL else r + a;
    assert IsLive(s'.t, FLOOR, r);
    assert Agree(s.lists, s1.lists, s'.t, f);
    FollowsThrough(s, s1, s', f);
  }

  /** mm_malloc takes the first fit of the lowest class that holds one, or the end of the
      grown heap. */
  lemma MallocLawful(s: State, size: Word)
    requires Inv(s) && size + 15 < WORD_SPAN
    ensures MallocLaw(s, size, Malloc(s, size).0, Malloc(s, size).1)
  {
    hide Inv, Place, Extend, ExtendAt, FindFit, Carved, Asize, Fits, LowestFirst, EndsAt, ClassOf;
    var a := BlockFor(size);
    if size != 0 {
      FoundOk(s, size);
      if Fits(s.t, a) {
        FoundLowest(s, a);
        PlaceCarves(s, FindFit(s.t, s.lists, ClassOf(a), a), a);
      } else if s.hi + GrowthFor(a) <= MAX_HEAP {
        GrownCarves(s, a);
      }
    }
  }

  lemma FreeLawful(s: State, p: nat)
    requires Inv(s) && IsLive(s.t, FLOOR, p)
    ensures FreeLaw(s, p, Free(s, p))
  {
    hide ClassOf;
    FreeOk(s, p);
    FreedPartial(s, p);
    TenLists(s, {});
    hide Partial, LiveAdds, Coalesce, NoAdjacentFreeBut, ListsFollow;
    CoalesceFollows(Freed(s, p), p);
    hide Inv;
    FollowsFreed(s, Freed(s, p), Free(s, p), CoalescedAt(Freed(s, p), p));
  }

  lemma FollowsFreed(s: State, s1: State, s': State, f: nat)
    requires s1.lists == s.lists && ListsFollow(s1, s', f)
    ensures ListsFollow(s, s', f)
  {
  }

  lemma CoalesceFollows(s: State, p: nat)
    requires Partial(s, {p}) && FreeAt(s.t, p) && NoAdjacentFreeBut(s.t, p)
    ensures FLOOR <= p && |s.lists| == NUM && 0 < s.t[p].size && Tiled(s.t, LO, FLOOR, s.hi)
    ensures var s', f := Coalesce(s, p), CoalescedAt(s, p);
            FreeAt(s'.t, f) && f <= p < Next(s'.t, f) && ListsFollow(s, s', f)
  {
    hide ClassOf, Partial, Inv, Tiled, NoAdjacentFreeBut, Merged, MergeLow, MergeHigh, Agree, ListsFollow, Put, LiveSame;
    TenLists(s, {p});
    CoalesceShape(s, p);
    CoalesceInv(s, p);
    var s', f := Coalesce(s, p), CoalescedAt(s, p);
    AgreeNeighbours(s, p, Prev(s.t, LO, FLOOR, s.hi, p), Next(s.t, p), s'.t, f);
    FromInv(s');
    hide Coalesce, CoalescedAt, Unlisted;
    FollowsPut(s, s', NeighboursOut(s, p), f);
  }

  lemma CoalesceShape(s: State, p: nat)
    requires Tiled(s.t, LO, FLOOR, s.hi) && FreeAt(s.t, p)
    ensures FLOOR <= p && 0 < s.t[p].size
    ensures var q, n := Prev(s.t, LO, FLOOR, s.hi, p), Next(s.t, p);
            var t', f := Merged(s.t, q, p), MergeLow(s.t, q, p);
            && FreeAt(t', f) && f <= p < Next(t', f) && t'[f].size == MergeHigh(s.t, p) - f
            && (FreeAt(s.t, q) ==> q == f) && (FreeAt(s.t, n) ==> !FreeAt(t', n))
  {
    FreeInside(s, p);
    MergeSpan(s, p);
    MergeAround(s, p);
    hide Tiled;
    MergedTiled(s.t, LO, FLOOR, s.hi, Prev(s.t, LO, FLOOR, s.hi, p), p);
  }

  lemma MergeAround(s: State, p: nat)
    requires Tiled(s.t, LO, FLOOR, s.hi) && FreeAt(s.t, p)
    ensures FLOOR <= p && MergeLow(s.t, Prev(s.t, LO, FLOOR, s.hi, p), p) <= p < MergeHigh(s.t, p)
  {
    FreeInside(s, p);
  }

  lemma AgreeNeighbours(s: State, p: nat, q: nat, n: nat, t: Tiles, f: nat)
    requires |s.lists| == NUM && (FreeAt(s.t, q) ==> !FreeAt(t, q) || q == f) && (FreeAt(s.t, n) ==> !FreeAt(t, n) || n == f)
    ensures Agree(s.lists, Unlisted(s.t, Unlisted(s.t, s.lists, q), n), t, f)
  {
    hide ClassOf;
    AgreeSelf(s.lists, t, f);
    if FreeAt(s.t, q) {
      AgreeTake(s.lists, s.lists, t, f, ClassOf(s.t[q].size), q);
    }
    if FreeAt(s.t, n) {
      AgreeTake(s.lists, Unlisted(s.t, s.lists, q), t, f, ClassOf(s.t[n].size), n);
    }
  }

  /** Good fit: unless only blocks of the last class are large enough, the block that
      mm_malloc grants is less than twice as large as the best fit, and the first of the
      lowest class that holds a fit. */
  lemma MallocGoodFit(s: State, size: Word, best: nat)
    requires Inv(s) && 0 < size && size + 15 < WORD_SPAN
    requires FreeAt(s.t, best) && BlockFor(size) <= s.t[best].size && s.t[best].size / 8 <= 1024
    ensures var r := Malloc(s, size).1;
            r != NULL && FreeAt(s.t, r) && s.t[r].size < 2 * s.t[best].size && LowestFirst(s.t, s.lists, BlockFor(size), r)
  {
    hide Inv, Place, Extend, ExtendAt, FindFit, BlockFor, LowestFirst, ClassOf;
    FoundOk(s, size);
    var a := BlockFor(size);
    assert Fits(s.t, a);
    FoundLowest(s, a);
    BelowLast(s, best);
    TiledRooted(s);
    GoodFit(s.t, s.hi, a, FindFit(s.t, s.lists, ClassOf(a), a), best);
  }

  lemma TiledRooted(s: State)
    requires Inv(s)
    ensures Tiled(s.t, LO, FLOOR, s.hi) && Rooted(s.t)
  {
  }

  lemma BelowLast(s: State, best: nat)
    requires Inv(s) && FreeAt(s.t, best) && s.t[best].size / 8 <= 1024
    ensures ClassOf(s.t[best].size) < NUM - 1
  {
    hide ClassFrom;
    FreeBlock(s, best);
    assert SizeClasses.Pow2(10) == 1024;
    RangeIff(s.t[best].size, ClassOf(s.t[best].size));
  }

  // ----- and nothing else is -----

  lemma SameTiles(s: State, s': State)
    requires Inv(s) && Inv(s') && s.hi == s'.hi && LiveSame(s.t, s'.t, FLOOR)
    ensures s.t == s'.t
  {
    hide Tiled, Sorted, NoAdjacentFree, LiveSame, Rooted;
    OnlyRoots(s);
    OnlyRoots(s');
    TilingDetermined(s.t, s'.t, LO, FLOOR, s.hi);
  }

  lemma OnlyRoots(s: State)
    requires Inv(s)
    ensures forall x: nat {:trigger x in s.t} :: x < FLOOR ==> (x in s.t <==> x >= 8 && x % 16 == 8) && (x in s.t ==> s.t[x] == Block(16, true))
  {
    hide Sorted;
    forall x: nat | x < FLOOR
      ensures (x in s.t <==> x >= 8 && x % 16 == 8) && (x in s.t ==> s.t[x] == Block(16, true))
    {
      var c := x / 16;
      assert Root(c) == 16 * c + 8 && 16 * c <= x < 16 * c + 16;
      if x in s.t && x % 16 != 8 {
        assert BlockOk(s.t[x], x, LO, FLOOR, s.hi);
        BetweenRoots(s, x);
      }
    }
  }

  lemma BetweenRoots(s: State, x: nat)
    requires Tiled(s.t, LO, FLOOR, s.hi) && Rooted(s.t) && x in s.t && 8 <= x < FLOOR
    ensures x % 16 == 8
  {
    var c := (x - 8) / 16;
    assert Root(c) in s.t && Root(c) <= x < Root(c) + 16;
    InOrder(s.t, LO, FLOOR, s.hi, Root(c), x);
    assert s.t[Root(c)] == Block(16, true);
  }

  lemma FollowsSame(s: State, s1: State, s2: State, f: nat)
    requires Inv(s1) && ListsFollow(s, s1, f) && ListsFollow(s, s2, f) && s1.t == s2.t
    ensures s1.lists == s2.lists
  {
    hide ClassOf, Inv;
    if f == NULL {
      RelistedUnique(s.lists, s1.lists, s2.lists, s1.t, NULL, 0);
    } else {
      FromInv(s1);
      FreeBlock(s1, f);
      var c1: nat :| InRange(c1, s1.t[f].size) && Relisted(s.lists, s1.lists, s1.t, f, c1);
      var c2: nat :| InRange(c2, s2.t[f].size) && Relisted(s.lists, s2.lists, s2.t, f, c2);
      RangeIff(s1.t[f].size, c1);
      RangeIff(s1.t[f].size, c2);
      RelistedUnique(s.lists, s1.lists, s2.lists, s1.t, f, c1);
    }
  }

  lemma CarvedSame(s: State, s1: State, s2: State, a: nat, r: nat, room: int)
    requires Carved(s, s1, a, r, room) && Carved(s, s2, a, r, room) && s1.hi == s2.hi
    ensures s1 == s2
  {
    hide Inv, ListsFollow;
    assert LiveSame(s1.t, s2.t, FLOOR);
    SameTiles(s1, s2);
    FollowsSame(s, s1, s2, if room - a < 24 then NULL else r + a);
  }

  lemma MallocSame(s: State, size: Word, s1: State, r1: nat, s2: State, r2: nat)
    requires Inv(s) && MallocLaw(s, size, s1, r1) && MallocLaw(s, size, s2, r2)
    ensures s1 == s2 && r1 == r2
  {
    hide Inv, Asize, Fits, Carved, Tiled, LowestFirst, EndsAt;
    var a := if Asize(size) > 24 then Asize(size) else 24;
    FromInv(s);
    TenLists(s, {});
    hide Partial;
    if size != 0 {
      if Fits(s.t, a) {
        LowestUnique(s.t, s.lists, a, r1, r2);
        CarvedSame(s, s1, s2, a, r1, s.t[r1].size);
      } else if s.hi + Growth(a) <= MAX_HEAP {
        EndsAtUnique(s.t, LO, FLOOR, s.hi, r1, r2);
        CarvedSame(s, s1, s2, a, r1, s1.hi - r1);
      }
    }
  }

  /** The law leaves one outcome: what is specified. */
  lemma MallocIff(s: State, size: Word, s': State, r: nat)
    requires Inv(s) && size + 15 < WORD_SPAN
    ensures MallocLaw(s, size, s', r) <==> (s', r) == Malloc(s, size)
  {
    hide Inv, Malloc, MallocLaw;
    MallocLawful(s, size);
    if MallocLaw(s, size, s', r) {
      MallocSame(s, size, s', r, Malloc(s, size).0, Malloc(s, size).1);
    }
  }

  lemma FreeSame(s: State, p: nat, s1: State, s2: State)
    requires Inv(s) && FreeLaw(s, p, s1) && FreeLaw(s, p, s2)
    ensures s1 == s2
  {
    hide Inv, ListsFollow;
    assert LiveSame(s1.t, s2.t, FLOOR);
    SameTiles(s1, s2);
    TiledRooted(s1);
    hide LiveSame, LiveAdds, Tiled;
    var f1: nat :| FreeAt(s1.t, f1) && f1 <= p < Next(s1.t, f1) && ListsFollow(s, s1, f1);
    var f2: nat :| FreeAt(s2.t, f2) && f2 <= p < Next(s2.t, f2) && ListsFollow(s, s2, f2);
    InOrder(s1.t, LO, FLOOR, s1.hi, f1, f2);
    InOrder(s1.t, LO, FLOOR, s1.hi, f2, f1);
    FollowsSame(s, s1, s2, f1);
  }

  lemma FreeIff(s: State, p: nat, s': State)
    requires Inv(s) && IsLive(s.t, FLOOR, p)
    ensures FreeLaw(s, p, s') <==> s' == Free(s, p)
  {
    hide Inv, Free, FreeLaw;
    FreeLawful(s, p);
    if FreeLaw(s, p, s') {
      FreeSame(s, p, s', Free(s, p));
    }
  }

  /** The state after mm_init is the only sound one with that break and nothing live. */
  lemma InitialIff(s: State)
    requires Inv(s) && s.hi == 168 + 4096 && forall p: nat :: !IsLive(s.t, FLOOR, p)
    ensures s == Initial()
  {
    hide Initial, Inv;
    InitialOk();
    SameTiles(s, Initial());
    FromInv(s);
    FromInv(Initial());
    TenLists(s, {});
    TenLists(Initial(), {});
    forall c | 0 <= c < NUM
      ensures s.lists[c] == Initial().lists[c]
    {
      AtMostOne(s, c);
      AtMostOne(Initial(), c);
    }
  }

  lemma AtMostOne(s: State, c: nat)
    requires Inv(s) && 168 < s.hi && c < NUM && forall p: nat :: !IsLive(s.t, FLOOR, p)
    ensures |s.lists| == NUM && FreeAt(s.t, 168)
    ensures s.lists[c] == if ClassOf(s.t[168].size) == c then [168] else []
  {
    hide ClassOf;
    assert Root(9) == 152;
    assert Next(s.t, 152) == 168;
    assert 168 in s.t && !IsLive(s.t, FLOOR, 168);
    var l := s.lists[c];
    forall x | x in l
      ensures x == 168
    {
      OneFree(s, x);
    }
    assert ClassOf(s.t[168].size) == c ==> 168 in l;
    forall i | 0 <= i < |l|
      ensures l[i] == 168
    {
      assert l[i] in l;
    }
    if l != [] {
      var k := if |l| >= 2 then 1 else 0;
      assert l[0] == l[k] && l[0] in l;
      assert l == [168];
    }
  }

  lemma OneFree(s: State, x: nat)
    requires Inv(s) && FreeAt(s.t, x) && FreeAt(s.t, 168) && forall p: nat :: !IsLive(s.t, FLOOR, p)
    ensures x == 168
  {
    hide ClassOf, Sorted, Rooted;
    assert BlockOk(s.t[168], 168, LO, FLOOR, s.hi) && BlockOk(s.t[x], x, LO, FLOOR, s.hi);
    assert !IsLive(s.t, FLOOR, Next(s.t, 168));
    assert Next(s.t, 168) == s.hi;
    InOrder(s.t, LO, FLOOR, s.hi, 168, x);
  }
}

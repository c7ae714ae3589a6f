/** (98)정리.c: what mm_realloc does when it grows a block in place. */
module Seg98Spec {
  import opened Memory
  import opened Tiling
  import opened SizeClasses
  import opened Requests
  import opened SegSpec
  import opened SegPlace

  const INITCHUNKSIZE: nat := 64

  /** The size of the block behind p, 0 for the epilogue. */
  ghost function NextSize(t: Tiles, p: nat): nat
    requires p in t
  {
    if Next(t, p) in t then t[Next(t, p)].size else 0
  }

  /** Block p swallows the free block behind it. */
  ghost function Absorb(s: State, p: nat): State
    requires p in s.t && FreeAt(s.t, Next(s.t, p)) && 0 < s.t[p].size && |s.lists| == LISTLIMIT
  {
    var n := Next(s.t, p);
    State(Fuse(s.t, p, Next(s.t, n), true), Take(s.lists, n, s.t[n].size), s.hi)
  }

  /** What changes for the clients: p is larger. */
  ghost predicate Grew(t: Tiles, t': Tiles, p: nat) {
    && IsLive(t, FLOOR, p) && IsLive(t', FLOOR, p) && t[p].size < t'[p].size
    && forall x: nat :: x != p ==> (IsLive(t, FLOOR, x) <==> IsLive(t', FLOOR, x)) && (IsLive(t, FLOOR, x) ==> t'[x] == t[x])
  }

  lemma AbsorbSorted(t: Tiles, t': Tiles, lists: Lists, n: nat)
    requires Sorted(t, lists, {}) && FreeAt(t, n)
    requires forall x: nat :: FreeAt(t', x) <==> FreeAt(t, x) && x != n
    requires forall x: nat :: FreeAt(t', x) ==> x in t && t'[x] == t[x]
    ensures Sorted(t', Take(lists, n, t[n].size), {})
  {
    hide ClassOf;
    TakeSorted(t, lists, {}, n);
  }

  lemma AbsorbTiling(t: Tiles, hi: nat, p: nat)
    requires Tiled(t, LO, FLOOR, hi) && IsLive(t, FLOOR, p) && FreeAt(t, Next(t, p))
    ensures 0 < t[p].size && (Next(t, Next(t, p)) in t || Next(t, Next(t, p)) == hi)
    ensures forall x: nat :: FreeAt(t, x) && p <= x < Next(t, Next(t, p)) ==> x == Next(t, p)
    ensures var t' := Fuse(t, p, Next(t, Next(t, p)), true);
            && Tiled(t', LO, FLOOR, hi) && t'[LO] == t[LO]
            && t'[p] == Block(t[p].size + t[Next(t, p)].size, true)
            && (forall x: nat :: FreeAt(t', x) <==> FreeAt(t, x) && x != Next(t, p))
            && (forall x: nat :: FreeAt(t', x) ==> x in t && t'[x] == t[x])
            && Grew(t, t', p)
  {
    var n := Next(t, p);
    assert BlockOk(t[p], p, LO, FLOOR, hi) && BlockOk(t[n], n, LO, FLOOR, hi);
    assert Next(t, n) in t || Next(t, n) == hi;
    FuseTiled(t, LO, FLOOR, hi, p, Next(t, n), true);
    BetweenAbsorbed(t, hi, p);
    hide Tiled;
  }

  lemma BetweenAbsorbed(t: Tiles, hi: nat, p: nat)
    requires Tiled(t, LO, FLOOR, hi) && p in t && Next(t, p) in t
    ensures forall x: nat :: x in t && x != p && x != Next(t, p) ==> x < p || Next(t, Next(t, p)) <= x
  {
  }

  lemma AbsorbNoAdjacent(t: Tiles, hi: nat, p: nat)
    requires Tiled(t, LO, FLOOR, hi) && NoAdjacentFree(t) && IsLive(t, FLOOR, p) && FreeAt(t, Next(t, p))
    requires 0 < t[p].size
    ensures NoAdjacentFree(Fuse(t, p, Next(t, Next(t, p)), true))
  {
    AbsorbTiling(t, hi, p);
    var t' := Fuse(t, p, Next(t, Next(t, p)), true);
    forall x | FreeAt(t', x)
      ensures !FreeAt(t', Next(t', x))
    {
      assert FreeAt(t, x);
      assert Next(t', x) == Next(t, x);
    }
  }

  /** Swallowing the next block keeps the invariant and every other live block. */
  lemma AbsorbInv(s: State, p: nat)
    requires Inv(s) || Partial(s, {})
    requires IsLive(s.t, FLOOR, p) && FreeAt(s.t, Next(s.t, p))
    ensures |s.lists| == LISTLIMIT && 0 < s.t[p].size
    ensures Partial(Absorb(s, p), {}) && (Inv(s) ==> Inv(Absorb(s, p))) && Grew(s.t, Absorb(s, p).t, p)
    ensures Absorb(s, p).t[p] == Block(s.t[p].size + NextSize(s.t, p), true)
  {
    TwentyLists(s, {});
    AbsorbTiling(s.t, s.hi, p);
    if Inv(s) {
      AbsorbNoAdjacent(s.t, s.hi, p);
    }
    hide Tiled, NoAdjacentFree, Fuse, Grew;
    AbsorbSorted(s.t, Absorb(s, p).t, s.lists, Next(s.t, p));
    hide Sorted;
  }

  // ----- the extension -----

  /** The remainder mm_realloc computes, in 32-bit arithmetic read back as an int. */
  function Remainder(have: nat, newSize: Word): int {
    ToInt((have - newSize) % WORD_SPAN)
  }

  /** It is the true difference exactly for requests at most 2^31 above what there is. */
  lemma RemainderExact(have: nat, newSize: Word)
    requires have <= MAX_HEAP
    ensures Remainder(have, newSize) == have - newSize <==> newSize - have <= INT_SPAN
  {
    if have >= newSize {
      assert (have - newSize) % WORD_SPAN == have - newSize;
    } else {
      assert (have - newSize) % WORD_SPAN == have - newSize + WORD_SPAN;
    }
  }

  /** By how much the heap grows for a remainder that falls short. */
  function Extension(remainder: int): nat {
    if remainder >= 0 then 0 else Max(-remainder, CHUNKSIZE)
  }

  /** The conditions under which growing in place works: what lies behind p suffices, or
      p is the last block and must grow, or only a free block separates p from the end. */
  ghost predicate GrowsInPlace(s: State, p: nat, newSize: nat)
    requires p in s.t
  {
    var n := Next(s.t, p);
    || (FreeAt(s.t, n) && newSize <= s.t[p].size + NextSize(s.t, p))
    || (n == s.hi && s.t[p].size < newSize)
    || (FreeAt(s.t, n) && Next(s.t, n) == s.hi)
  }

  ghost predicate EndsBehind(s: State, p: nat)
    requires p in s.t
  {
    var n := Next(s.t, p);
    n == s.hi || (FreeAt(s.t, n) && Next(s.t, n) == s.hi)
  }

  /** Behind a block that all but ends the heap, the extension is contiguous. */
  lemma ExtendBehind(s: State, p: nat, e: nat)
    requires Inv(s) && IsLive(s.t, FLOOR, p) && EndsBehind(s, p)
    requires e % 8 == 0 && 16 <= e && s.hi + e <= MAX_HEAP
    ensures var s1, n := Extend(s, e), Next(s.t, p);
            && p in s1.t && s1.t[p] == s.t[p] && FreeAt(s1.t, n) && s1.t[n].size == NextSize(s.t, p) + e
  {
    GrownPartial(s, e);
    hide ClassOf, Sorted;
    var g := Grown(s, e);
    var n, q := Next(s.t, p), Prev(g.t, LO, FLOOR, g.hi, s.hi);
    assert Next(g.t, s.hi) == g.hi && g.hi !in g.t;
    if n == s.hi {
      SamePrev(g.t, LO, FLOOR, g.hi, q, p);
    } else {
      assert Next(g.t, n) == s.hi;
      SamePrev(g.t, LO, FLOOR, g.hi, q, n);
    }
  }

  lemma SamePrev(t: Tiles, lo: nat, floor: nat, hi: nat, x: nat, y: nat)
    requires Tiled(t, lo, floor, hi) && x in t && y in t && Next(t, x) == Next(t, y)
    ensures x == y
  {
    assert BlockOk(t[x], x, lo, floor, hi) && BlockOk(t[y], y, lo, floor, hi);
  }

  // ----- the in-place branch as a whole -----

  ghost function InPlace(s: State, p: nat, newSize: Word): (State, nat)
    requires Inv(s) && IsLive(s.t, FLOOR, p) && newSize % 8 == 0
    requires GrowsInPlace(s, p, newSize) && newSize - s.t[p].size < INT_SPAN
  {
    var rem := Remainder(s.t[p].size + NextSize(s.t, p), newSize);
    HaveOk(s, p, newSize);
    if rem >= 0 then (Absorb(s, p), p)
    else if s.hi + Extension(rem) > MAX_HEAP then (s, NULL)
    else
      ExtendBehind(s, p, Extension(rem));
      ExtendInv(s, Extension(rem));
      (Absorb(Extend(s, Extension(rem)), p), p)
  }

  lemma HaveOk(s: State, p: nat, newSize: Word)
    requires Inv(s) || Partial(s, {})
    requires IsLive(s.t, FLOOR, p) && newSize % 8 == 0
    requires GrowsInPlace(s, p, newSize) && newSize - s.t[p].size < INT_SPAN
    ensures var have := s.t[p].size + NextSize(s.t, p);
            var rem := Remainder(have, newSize);
            && |s.lists| == LISTLIMIT && 0 < s.t[p].size && rem == have - newSize
            && (rem >= 0 ==> FreeAt(s.t, Next(s.t, p)))
            && (rem < 0 ==> EndsBehind(s, p) && Extension(rem) % 8 == 0 && 16 <= Extension(rem) && -rem <= Extension(rem))
  {
    TwentyLists(s, {});
    hide Sorted;
    var n := Next(s.t, p);
    assert BlockOk(s.t[p], p, LO, FLOOR, s.hi);
    assert n in s.t ==> BlockOk(s.t[n], n, LO, FLOOR, s.hi);
    RemainderExact(s.t[p].size + NextSize(s.t, p), newSize);
    hide Tiled, NoAdjacentFree;
    Mod8(s.t[p].size, NextSize(s.t, p));
    Mod8(s.t[p].size + NextSize(s.t, p), newSize);
  }

  /** Under its guard the in-place branch fails only for lack of memory, and then changes
      nothing; otherwise the block keeps its place, the extension is measured by the
      remainder exactly, and all other live blocks and the invariant are kept. */
  lemma InPlaceOk(s: State, p: nat, newSize: Word)
    requires Inv(s) && IsLive(s.t, FLOOR, p) && newSize % 8 == 0
    requires GrowsInPlace(s, p, newSize) && newSize - s.t[p].size < INT_SPAN
    ensures var (s', r) := InPlace(s, p, newSize);
            var rem := Remainder(s.t[p].size + NextSize(s.t, p), newSize);
            && (r == NULL <==> s.hi + Extension(rem) > MAX_HEAP)
            && (r == NULL ==> s' == s)
            && (r != NULL ==>
                  && r == p && Inv(s') && Grew(s.t, s'.t, p) && s'.hi == s.hi + Extension(rem)
                  && s'.t[p].size == newSize + rem + Extension(rem) && newSize <= s'.t[p].size)
  {
    HaveOk(s, p, newSize);
    var rem := Remainder(s.t[p].size + NextSize(s.t, p), newSize);
    if rem >= 0 {
      AbsorbInv(s, p);
      BelowMax(s);
    } else if s.hi + Extension(rem) <= MAX_HEAP {
      InPlaceGrown(s, p, Extension(rem));
    }
  }

  lemma BelowMax(s: State)
    requires Inv(s)
    ensures s.hi <= MAX_HEAP
  {
  }

  lemma InPlaceGrown(s: State, p: nat, e: nat)
    requires Inv(s) && IsLive(s.t, FLOOR, p) && EndsBehind(s, p)
    requires e % 8 == 0 && 16 <= e && s.hi + e <= MAX_HEAP
    ensures var s1 := Extend(s, e);
            && Inv(s1) && IsLive(s1.t, FLOOR, p) && FreeAt(s1.t, Next(s1.t, p)) && 0 < s1.t[p].size
            && Inv(Absorb(s1, p)) && Grew(s.t, Absorb(s1, p).t, p) && Absorb(s1, p).hi == s.hi + e
            && Absorb(s1, p).t[p].size == s.t[p].size + NextSize(s.t, p) + e
  {
    ExtendInv(s, e);
    ExtendBehind(s, p, e);
    hide Inv, Extend;
    var s1 := Extend(s, e);
    AbsorbInv(s1, p);
    GrewAfter(s.t, s1.t, Absorb(s1, p).t, p);
  }

  lemma GrewAfter(t: Tiles, t1: Tiles, t2: Tiles, p: nat)
    requires LiveSame(t, t1, FLOOR) && Grew(t1, t2, p) && IsLive(t, FLOOR, p)
    ensures Grew(t, t2, p)
  {
  }

  // ----- what the in-place branch does for any block it is taken for -----

  /** The branch is taken: the block behind p is free or the epilogue. */
  ghost predicate NextIsOpen(s: State, p: nat)
    requires p in s.t
  {
    FreeAt(s.t, Next(s.t, p)) || Next(s.t, p) == s.hi
  }

  /** The tiling that is left when the branch takes what stands behind p off its list and
      writes size bytes into the tags of p. */
  ghost function Claim(t: Tiles, p: nat, size: nat): Tiles
    requires p in t
  {
    (t - {Next(t, p)})[p := Block(size, true)]
  }

  /** The size it writes, in 32-bit arithmetic, when have bytes lie in p and behind it. */
  function ClaimedSize(have: nat, newSize: Word): nat {
    (newSize + Remainder(have, newSize) + Extension(Remainder(have, newSize))) % WORD_SPAN
  }

  /** What is taken off the list is a free block, the heap is tiled again afterwards, and p
      has room for newSize bytes. */
  ghost predicate Sound(t: Tiles, hi: nat, p: nat, size: nat, newSize: nat)
    requires p in t
  {
    FreeAt(t, Next(t, p)) && Tiled(Claim(t, p, size), LO, FLOOR, hi) && newSize <= size
  }

  /** Only with all of the free block behind p, and nothing more, is the heap tiled again. */
  lemma ClaimTiledIff(t: Tiles, hi: nat, p: nat, size: nat)
    requires Tiled(t, LO, FLOOR, hi) && IsLive(t, FLOOR, p) && FreeAt(t, Next(t, p))
    ensures Tiled(Claim(t, p, size), LO, FLOOR, hi) <==> size == t[p].size + NextSize(t, p)
  {
    var n := Next(t, p);
    assert BlockOk(t[p], p, LO, FLOOR, hi) && BlockOk(t[n], n, LO, FLOOR, hi);
    if size == t[p].size + NextSize(t, p) {
      AbsorbTiling(t, hi, p);
      assert Claim(t, p, size) == Fuse(t, p, Next(t, n), true);
    } else if Tiled(Claim(t, p, size), LO, FLOOR, hi) {
      ClaimNoMore(t, hi, p, size);
      ClaimNoLess(t, hi, p, size);
    }
  }

  lemma ClaimNoMore(t: Tiles, hi: nat, p: nat, size: nat)
    requires Tiled(t, LO, FLOOR, hi) && p in t && FreeAt(t, Next(t, p)) && 0 < t[p].size
    requires Tiled(Claim(t, p, size), LO, FLOOR, hi)
    ensures p + size <= Next(t, Next(t, p))
  {
    var n, t' := Next(t, p), Claim(t, p, size);
    assert BlockOk(t[n], n, LO, FLOOR, hi) && BlockOk(t'[p], p, LO, FLOOR, hi);
    var e := Next(t, n);
    assert e in t || e == hi;
    assert e in t ==> e in t';
  }

  lemma ClaimNoLess(t: Tiles, hi: nat, p: nat, size: nat)
    requires Tiled(t, LO, FLOOR, hi) && p in t && FreeAt(t, Next(t, p)) && 0 < t[p].size
    requires Tiled(Claim(t, p, size), LO, FLOOR, hi)
    ensures Next(t, Next(t, p)) <= p + size
  {
    var n, t' := Next(t, p), Claim(t, p, size);
    assert BlockOk(t[n], n, LO, FLOOR, hi) && BlockOk(t'[p], p, LO, FLOOR, hi);
    var x := p + size;
    assert x == Next(t', p);
    if x in t' {
      assert x in t && x != n && p < x;
    }
  }

  /** Where a free block lies behind p, the claimed extent clears all later blocks exactly
      when what is there suffices or the free block ends the heap; otherwise it runs into
      the block behind the free one. */
  lemma ClaimClearsIff(t: Tiles, hi: nat, p: nat, newSize: Word)
    requires Tiled(t, LO, FLOOR, hi) && hi <= MAX_HEAP && IsLive(t, FLOOR, p) && FreeAt(t, Next(t, p))
    requires newSize - t[p].size < INT_SPAN
    ensures var have := t[p].size + NextSize(t, p);
            (forall x: nat :: x in t && Next(t, p) < x ==> p + have + Extension(Remainder(have, newSize)) <= x)
            <==> newSize <= have || Next(t, Next(t, p)) == hi
  {
    var n := Next(t, p);
    var have := t[p].size + NextSize(t, p);
    assert BlockOk(t[p], p, LO, FLOOR, hi) && BlockOk(t[n], n, LO, FLOOR, hi);
    RemainderExact(have, newSize);
    assert p + have == Next(t, n);
    assert Next(t, n) == hi || Next(t, n) in t;
    forall x: nat | x in t && n < x
      ensures Next(t, n) <= x < hi
    {
      assert BlockOk(t[x], x, LO, FLOOR, hi);
    }
  }

  /** The remainder keeps the alignment of what it is taken from. */
  lemma RemainderAligned(have: nat, newSize: Word)
    requires have % 8 == 0 && newSize % 8 == 0
    ensures Remainder(have, newSize) % 8 == 0
    ensures var e := Extension(Remainder(have, newSize)); e % 8 == 0 && (e == 0 || 16 <= e)
  {
    var d := have - newSize;
    var r := d % WORD_SPAN;
    assert d % 8 == 0 by {
      Mod8(have, newSize);
    }
    assert d == WORD_SPAN * (d / WORD_SPAN) + r;
    assert WORD_SPAN * (d / WORD_SPAN) == 8 * (0x2000_0000 * (d / WORD_SPAN));
    assert r == d - 8 * (0x2000_0000 * (d / WORD_SPAN));
    assert r % 8 == 0;
  }

  /** How many bytes lie in p and behind it. */
  ghost function Have(t: Tiles, p: nat): nat
    requires p in t
  {
    t[p].size + NextSize(t, p)
  }

  lemma HaveAligned(t: Tiles, hi: nat, p: nat)
    requires Tiled(t, LO, FLOOR, hi) && hi <= MAX_HEAP && p in t
    ensures Have(t, p) % 8 == 0 && 8 <= t[p].size && Have(t, p) <= hi && hi !in t
    ensures FreeAt(t, Next(t, p)) ==> 16 <= NextSize(t, p) && p < Next(t, p)
  {
    var n := Next(t, p);
    assert BlockOk(t[p], p, LO, FLOOR, hi);
    assert n in t ==> BlockOk(t[n], n, LO, FLOOR, hi);
    Mod8(t[p].size, NextSize(t, p));
  }

  /** sbrk can deliver what the branch asks for. */
  ghost predicate CanExtend(s: State, p: nat, newSize: Word)
    requires p in s.t
  {
    s.hi + Extension(Remainder(Have(s.t, p), newSize)) <= MAX_HEAP
  }

  /** The heap when the branch unlinks what stands behind p. */
  ghost function AtClaim(s: State, p: nat, newSize: Word): (s1: State)
    requires Inv(s) && p in s.t && newSize % 8 == 0 && CanExtend(s, p, newSize)
  {
    HaveAligned(s.t, s.hi, p);
    RemainderAligned(Have(s.t, p), newSize);
    if Remainder(Have(s.t, p), newSize) >= 0 then s else Extend(s, Extension(Remainder(Have(s.t, p), newSize)))
  }

  /** Blocks that do not touch the break are as they were after an extension. */
  lemma ExtendElsewhere(s: State, e: nat, x: nat)
    requires Inv(s) && e % 8 == 0 && 16 <= e && s.hi + e <= MAX_HEAP
    requires x in s.t && Next(s.t, x) != s.hi
    ensures x in Extend(s, e).t && Extend(s, e).t[x] == s.t[x]
  {
    GrownPartial(s, e);
    hide ClassOf, Sorted;
    var g := Grown(s, e);
    var q := Prev(g.t, LO, FLOOR, g.hi, s.hi);
    assert Next(g.t, s.hi) == g.hi && g.hi !in g.t;
    assert BlockOk(s.t[x], x, LO, FLOOR, s.hi);
    assert x < q;
  }

  /** What the in-place branch does to block p leaves a heap in order. */
  ghost predicate InPlaceSound(s: State, p: nat, newSize: Word)
    requires Inv(s) && p in s.t && newSize % 8 == 0 && CanExtend(s, p, newSize)
  {
    var s1 := AtClaim(s, p, newSize);
    p in s1.t && Sound(s1.t, s1.hi, p, ClaimedSize(Have(s.t, p), newSize), newSize)
  }

  /** That is so exactly when the block can grow in place and the request is less than 2^31
      bytes larger than the block. */
  lemma SoundIff(s: State, p: nat, newSize: Word)
    requires Inv(s) && IsLive(s.t, FLOOR, p) && newSize % 8 == 0 && NextIsOpen(s, p) && CanExtend(s, p, newSize)
    ensures InPlaceSound(s, p, newSize) <==> GrowsInPlace(s, p, newSize) && newSize - s.t[p].size < INT_SPAN
  {
    var have := Have(s.t, p);
    HaveAligned(s.t, s.hi, p);
    hide Inv, GrowsInPlace, NextIsOpen, IsLive, InPlaceSound;
    if newSize - have > INT_SPAN {
      SoundWrapped(s, p, newSize);
    } else if newSize <= have {
      SoundFitting(s, p, newSize);
    } else {
      SoundGrowing(s, p, newSize);
    }
  }

  lemma SoundWrapped(s: State, p: nat, newSize: Word)
    requires Inv(s) && p in s.t && newSize % 8 == 0 && CanExtend(s, p, newSize) && newSize - Have(s.t, p) > INT_SPAN
    ensures !InPlaceSound(s, p, newSize)
  {
    hide Remainder, ClaimedSize, Tiled;
    HaveAligned(s.t, s.hi, p);
    hide Inv, Extend, Have, Sound;
    Wrapped(Have(s.t, p), newSize);
    NeverSound(s.t, s.hi, p, Have(s.t, p), newSize);
  }

  lemma SoundFitting(s: State, p: nat, newSize: Word)
    requires Inv(s) && IsLive(s.t, FLOOR, p) && newSize % 8 == 0 && NextIsOpen(s, p) && CanExtend(s, p, newSize)
    requires newSize <= Have(s.t, p)
    ensures InPlaceSound(s, p, newSize) <==> GrowsInPlace(s, p, newSize)
  {
    hide Remainder, ClaimedSize, Tiled;
    HaveAligned(s.t, s.hi, p);
    hide Inv, Extend, Have, Sound, GrowsInPlace, NextIsOpen, IsLive;
    Unwrapped(Have(s.t, p), newSize);
    SoundWithout(s, p, newSize);
  }

  lemma SoundGrowing(s: State, p: nat, newSize: Word)
    requires Inv(s) && IsLive(s.t, FLOOR, p) && newSize % 8 == 0 && NextIsOpen(s, p) && CanExtend(s, p, newSize)
    requires 0 < newSize - Have(s.t, p) <= INT_SPAN
    ensures InPlaceSound(s, p, newSize) <==> GrowsInPlace(s, p, newSize)
    ensures newSize - Have(s.t, p) <= MAX_HEAP
  {
    hide Remainder, ClaimedSize, Tiled, Inv, Extend, Have, Sound, GrowsInPlace, NextIsOpen;
    MustExtend(s, p, newSize);
    SoundExtended(s, p, newSize, Extension(Remainder(Have(s.t, p), newSize)));
  }

  lemma NeverSound(t: Tiles, hi: nat, p: nat, size: nat, newSize: nat)
    requires p in t && size < newSize
    ensures !Sound(t, hi, p, size, newSize)
  {
  }

  /** More than 2^31 bytes above what there is, the remainder wraps to a positive int, no
      extension is made and the size written is the old one. */
  lemma Wrapped(have: nat, newSize: Word)
    requires have <= MAX_HEAP && newSize - have > INT_SPAN
    ensures Remainder(have, newSize) > 0 && ClaimedSize(have, newSize) == have
  {
    assert (have - newSize) % WORD_SPAN == have - newSize + WORD_SPAN;
  }

  lemma Unwrapped(have: nat, newSize: Word)
    requires have <= MAX_HEAP && newSize - have <= INT_SPAN
    ensures Remainder(have, newSize) == have - newSize
    ensures Extension(Remainder(have, newSize)) <= MAX_HEAP ==>
              ClaimedSize(have, newSize) == have + Extension(Remainder(have, newSize)) && newSize - have <= MAX_HEAP
  {
    RemainderExact(have, newSize);
  }

  lemma SoundWithout(s: State, p: nat, newSize: Word)
    requires Inv(s) || Partial(s, {})
    requires IsLive(s.t, FLOOR, p) && NextIsOpen(s, p) && newSize <= Have(s.t, p)
    ensures Sound(s.t, s.hi, p, Have(s.t, p), newSize) <==> GrowsInPlace(s, p, newSize)
  {
    hide ClassOf, Sorted;
    HaveAligned(s.t, s.hi, p);
    if FreeAt(s.t, Next(s.t, p)) {
      ClaimTiledIff(s.t, s.hi, p, Have(s.t, p));
    }
  }

  /** The extension of a remainder that falls short */
  lemma MustExtend(s: State, p: nat, newSize: Word)
    requires Inv(s) || Partial(s, {})
    requires p in s.t && newSize % 8 == 0 && CanExtend(s, p, newSize) && 0 < newSize - Have(s.t, p) <= INT_SPAN
    ensures var rem := Remainder(Have(s.t, p), newSize);
            var e := Extension(rem);
            && rem < 0 && e % 8 == 0 && 16 <= e && s.hi + e <= MAX_HEAP && newSize <= Have(s.t, p) + e
            && ClaimedSize(Have(s.t, p), newSize) == Have(s.t, p) + e
  {
    hide Remainder;
    HaveAligned(s.t, s.hi, p);
    hide Inv, Have;
    RemainderAligned(Have(s.t, p), newSize);
    Unwrapped(Have(s.t, p), newSize);
  }

  lemma SoundExtended(s: State, p: nat, newSize: nat, e: nat)
    requires Inv(s) && IsLive(s.t, FLOOR, p) && NextIsOpen(s, p) && e % 8 == 0 && 16 <= e && s.hi + e <= MAX_HEAP
    requires Have(s.t, p) < newSize <= Have(s.t, p) + e
    ensures p in Extend(s, e).t && Extend(s, e).hi == s.hi + e
    ensures Sound(Extend(s, e).t, s.hi + e, p, Have(s.t, p) + e, newSize) <==> GrowsInPlace(s, p, newSize)
  {
    hide ClassOf, Sorted, Inv, Tiled, GrowsInPlace, EndsBehind, NextIsOpen;
    BehindExtended(s, p, e);
    OpenMustGrow(s, p, newSize);
    var s1 := Extend(s, e);
    hide Extend;
    TiledOf(s1);
    ClaimTiledIff(s1.t, s1.hi, p, Have(s.t, p) + e);
  }

  lemma OpenMustGrow(s: State, p: nat, newSize: nat)
    requires Inv(s) || Partial(s, {})
    requires p in s.t && NextIsOpen(s, p) && Have(s.t, p) < newSize
    ensures GrowsInPlace(s, p, newSize) <==> EndsBehind(s, p)
  {
    HaveAligned(s.t, s.hi, p);
    hide Inv;
  }

  /** After an extension by e bytes a free block lies behind p; it has grown by e exactly if
      nothing but itself lay between p and the break. */
  lemma BehindExtended(s: State, p: nat, e: nat)
    requires Inv(s) && IsLive(s.t, FLOOR, p) && NextIsOpen(s, p)
    requires e % 8 == 0 && 16 <= e && s.hi + e <= MAX_HEAP
    ensures var s1, n := Extend(s, e), Next(s.t, p);
            && Inv(s1) && s1.hi == s.hi + e && p in s1.t && s1.t[p] == s.t[p] && IsLive(s1.t, FLOOR, p) && FreeAt(s1.t, n)
            && NextSize(s1.t, p) == NextSize(s.t, p) + if EndsBehind(s, p) then e else 0
  {
    hide ClassOf, Sorted;
    ExtendInv(s, e);
    HaveAligned(s.t, s.hi, p);
    var n := Next(s.t, p);
    hide Inv, Extend;
    if EndsBehind(s, p) {
      ExtendBehind(s, p, e);
    } else {
      ExtendElsewhere(s, e, p);
      ExtendElsewhere(s, e, n);
    }
  }

  lemma TiledOf(s: State)
    requires Inv(s)
    ensures Tiled(s.t, LO, FLOOR, s.hi)
  {
  }

  /** A last block that need not grow: the branch is taken, no extension is made, and what
      is taken off its list is the epilogue, whose link words would lie beyond the break. */
  lemma EpilogueUnlinked(s: State, p: nat, newSize: Word)
    requires Inv(s) || Partial(s, {})
    requires IsLive(s.t, FLOOR, p) && Next(s.t, p) == s.hi && newSize <= s.t[p].size
    ensures NextIsOpen(s, p) && Remainder(Have(s.t, p), newSize) >= 0
    ensures !FreeAt(s.t, Next(s.t, p)) && !GrowsInPlace(s, p, newSize)
    ensures s.hi <= Next(s.t, p)
  {
    hide Sorted;
    HaveAligned(s.t, s.hi, p);
    RemainderExact(Have(s.t, p), newSize);
  }

  // ----- when mm_realloc can be relied on -----

  /** Either the block can grow in place, or it moves: then the bytes copied must exist
      and the inner mm_malloc must succeed. */
  ghost predicate Supported(s: State, p: nat, size: Word)
    requires p in s.t
  {
    var a := Asize(size);
    if NextIsOpen(s, p) then GrowsInPlace(s, p, a) && a - s.t[p].size < INT_SPAN
    else p + size <= MAX_HEAP && (Fits(s.t, a) || s.hi + GrowthFor(a) <= MAX_HEAP)
  }

  /** The move branch: a new block, then the old one is freed. */
  ghost function Move(s: State, p: nat, newSize: Word): (State, nat)
    requires Inv(s) && IsLive(s.t, FLOOR, p) && newSize % 8 == 0 && 16 <= newSize && newSize + 7 < WORD_SPAN
    requires Fits(s.t, newSize) || s.hi + GrowthFor(newSize) <= MAX_HEAP
  {
    MoveOk(s, p, newSize);
    var (s1, q) := Malloc(ThreeWay, s, newSize - 8);
    (Free(s1, p), q)
  }

  lemma MoveOk(s: State, p: nat, newSize: Word)
    requires Inv(s) && IsLive(s.t, FLOOR, p) && newSize % 8 == 0 && 16 <= newSize && newSize + 7 < WORD_SPAN
    requires Fits(s.t, newSize) || s.hi + GrowthFor(newSize) <= MAX_HEAP
    ensures var (s1, q) := Malloc(ThreeWay, s, newSize - 8);
            && q != NULL && q != p && Inv(s1) && IsLive(s1.t, FLOOR, p) && IsLive(s1.t, FLOOR, q)
            && newSize <= s1.t[q].size && Inv(Free(s1, p)) && LiveAdds(s.t, s1.t, FLOOR, q) && LiveAdds(Free(s1, p).t, s1.t, FLOOR, p)
  {
    hide Inv, Malloc, Free, LiveAdds, Fits, Asize, IsLive;
    AsizeBack(newSize);
    MoveGrants(s, p, newSize - 8);
    FreeOk(Malloc(ThreeWay, s, newSize - 8).0, p);
  }

  lemma MoveGrants(s: State, p: nat, size: Word)
    requires Inv(s) && IsLive(s.t, FLOOR, p) && 0 < size && size + 15 < WORD_SPAN
    requires Fits(s.t, Asize(size)) || s.hi + GrowthFor(Asize(size)) <= MAX_HEAP
    ensures var (s1, q) := Malloc(ThreeWay, s, size);
            && q != NULL && q != p && Inv(s1) && IsLive(s1.t, FLOOR, p) && IsLive(s1.t, FLOOR, q)
            && size + 8 <= s1.t[q].size && LiveAdds(s.t, s1.t, FLOOR, q)
  {
    hide Asize, Inv, Malloc, Fits, Granted;
    MallocOutcome(ThreeWay, s, size);
    NewApart(s, Malloc(ThreeWay, s, size).0, p, size, Malloc(ThreeWay, s, size).1);
  }

  lemma NewApart(s: State, s1: State, p: nat, size: Word, q: nat)
    requires IsLive(s.t, FLOOR, p) && Granted(ThreeWay, s, s1, size, q)
    ensures q != p && Inv(s1) && IsLive(s1.t, FLOOR, p) && IsLive(s1.t, FLOOR, q)
    ensures size + 8 <= s1.t[q].size && LiveAdds(s.t, s1.t, FLOOR, q)
  {
    hide Inv, Asize, Fits;
    assert IsLive(s.t, FLOOR, p);
  }

  /** mm_realloc(p, size) where it can be relied on */
  ghost function Realloc(s: State, p: nat, size: Word): (State, nat)
    requires Inv(s) && IsLive(s.t, FLOOR, p) && size + 15 < WORD_SPAN && (size != 0 ==> Supported(s, p, size))
  {
    if size == 0 then (s, NULL) else
      AsizeOk(size);
      if NextIsOpen(s, p) then InPlace(s, p, Asize(size)) else Move(s, p, Asize(size))
  }

  /** Block p became block r with room for size bytes, and no other live block changed. */
  ghost predicate Resized(s: State, s': State, p: nat, size: nat, r: nat) {
    && Inv(s') && IsLive(s'.t, FLOOR, r) && size + 8 <= s'.t[r].size
    && (IsLive(s'.t, FLOOR, p) <==> r == p) && (r != p ==> !IsLive(s.t, FLOOR, r))
    && (forall x: nat {:trigger IsLive(s.t, FLOOR, x)} {:trigger IsLive(s'.t, FLOOR, x)} :: x != p && x != r ==>
          (IsLive(s.t, FLOOR, x) <==> IsLive(s'.t, FLOOR, x)) &&
          (IsLive(s.t, FLOOR, x) ==> s'.t[x] == s.t[x]))
  }

  lemma StretchResizes(s: State, s': State, p: nat, size: nat)
    requires Inv(s') && Grew(s.t, s'.t, p) && size + 8 <= s'.t[p].size
    ensures Resized(s, s', p, size, p)
  {
  }

  lemma MoveResizes(s: State, s1: State, s': State, p: nat, q: nat, size: nat)
    requires Inv(s') && p != q && IsLive(s.t, FLOOR, p) && IsLive(s1.t, FLOOR, q) && size + 8 <= s1.t[q].size
    requires LiveAdds(s.t, s1.t, FLOOR, q) && LiveAdds(s'.t, s1.t, FLOOR, p)
    ensures Resized(s, s', p, size, q)
  {
  }

  /** Whatever branch is taken, the result has room for the request, p is live only if it
      was returned, and no other live block changed; a failure, for lack of memory when
      growing in place, changes nothing. */
  lemma ReallocOk(s: State, p: nat, size: Word)
    requires Inv(s) && IsLive(s.t, FLOOR, p) && 0 < size && size + 15 < WORD_SPAN && Supported(s, p, size)
    ensures var (s', r) := Realloc(s, p, size);
            if r == NULL then s' == s && NextIsOpen(s, p) else Resized(s, s', p, size, r)
  {
    AsizeOk(size);
    hide Inv, Asize, GrowsInPlace, Fits, Resized, InPlace, Move;
    if NextIsOpen(s, p) {
      InPlaceResizes(s, p, Asize(size), size);
    } else {
      MoveResizesTo(s, p, Asize(size), size);
    }
  }

  lemma InPlaceResizes(s: State, p: nat, newSize: Word, size: nat)
    requires Inv(s) && IsLive(s.t, FLOOR, p) && newSize % 8 == 0 && size + 8 <= newSize
    requires GrowsInPlace(s, p, newSize) && newSize - s.t[p].size < INT_SPAN
    ensures var (s', r) := InPlace(s, p, newSize);
            if r == NULL then s' == s else Resized(s, s', p, size, r)
  {
    InPlaceOk(s, p, newSize);
    hide Inv, InPlace, Resized, Grew;
    if InPlace(s, p, newSize).1 != NULL {
      StretchResizes(s, InPlace(s, p, newSize).0, p, size);
    }
  }

  lemma MoveResizesTo(s: State, p: nat, newSize: Word, size: nat)
    requires Inv(s) && IsLive(s.t, FLOOR, p) && newSize % 8 == 0 && 16 <= newSize && newSize + 7 < WORD_SPAN
    requires (Fits(s.t, newSize) || s.hi + GrowthFor(newSize) <= MAX_HEAP) && size + 8 <= newSize
    ensures var (s', r) := Move(s, p, newSize);
            r != NULL && Resized(s, s', p, size, r)
  {
    MoveOk(s, p, newSize);
    hide Inv, Malloc, Free, Fits, LiveAdds, Resized;
    var (s1, q) := Malloc(ThreeWay, s, newSize - 8);
    MoveResizes(s, s1, Free(s1, p), p, q, size);
  }
}

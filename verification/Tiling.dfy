/** Boundary tags: the physical tiling of the heap by blocks.
    A tiling maps each block pointer (address of its payload) to its size and
    allocation bit.  The header of block p is the word at p - 4 and its footer the
    word at p + size - 8; the word just below hi is the epilogue header. */
module Tiling {
  import opened Memory

  datatype Block = Block(size: nat, alloc: bool)
  type Tiles = map<nat, Block>

  // ----- the tag macros -----

  /** PACK(size, alloc) for a size whose low three bits are clear. */
  function Pack(size: nat, alloc: bool): nat {
    size + if alloc then 1 else 0
  }

  lemma PackParts(size: nat, alloc: bool)
    requires size % 8 == 0
    ensures SizeOf(Pack(size, alloc)) == size && AllocOf(Pack(size, alloc)) == alloc
  {
    var k := size / 8;
    assert size == 8 * k;
    assert (8 * k + 1) % 8 == 1;
    Odd(4 * k);
  }

  lemma Odd(k: nat)
    ensures (2 * k + 1) % 2 == 1 && (2 * k) % 2 == 0
  {
  }

  /** GET_SIZE of a tag word */
  function SizeOf(w: int): int {
    w - w % 8
  }

  /** GET_ALLOC of a tag word */
  function AllocOf(w: int): bool {
    w % 2 == 1
  }

  function Max(x: int, y: int): int {
    if x > y then x else y
  }

  // ----- tilings -----

  function Next(t: Tiles, p: nat): nat
    requires p in t
  {
    p + t[p].size
  }

  /** A block of the prologue is allocated and lies below floor; any other has
      room for a header, a footer and the two links of a free block. */
  ghost predicate BlockOk(b: Block, p: nat, lo: nat, floor: nat, hi: nat) {
    && lo <= p && p % 8 == 0 && b.size % 8 == 0 && p + b.size <= hi
    && (if p < floor then b.alloc && 8 <= b.size && p + b.size <= floor else 16 <= b.size)
  }

  ghost predicate BlocksOk(t: Tiles, lo: nat, floor: nat, hi: nat) {
    forall p {:trigger t[p]} {:trigger p in t} :: p in t ==> BlockOk(t[p], p, lo, floor, hi)
  }

  ghost predicate Chained(t: Tiles, hi: nat) {
    forall p {:trigger Next(t, p)} :: p in t ==> Next(t, p) == hi || Next(t, p) in t
  }

  ghost predicate Apart(t: Tiles) {
    forall p, q {:trigger t[p], t[q]} :: p in t && q in t && p < q ==> p + t[p].size <= q
  }

  /** The blocks of t fill [lo - 4, hi - 4) exactly.  Those below floor are the
      allocated prologue, those from floor on belong to clients or are free. */
  ghost predicate Tiled(t: Tiles, lo: nat, floor: nat, hi: nat) {
    && 8 <= lo < floor <= hi && lo in t
    && lo % 8 == 0 && floor % 8 == 0 && hi % 8 == 0
    && BlocksOk(t, lo, floor, hi)
    && Chained(t, hi)
    && Apart(t)
  }

  ghost predicate FreeAt(t: Tiles, p: nat) {
    p in t && !t[p].alloc
  }

  /** No two neighbouring blocks are both free. */
  ghost predicate NoAdjacentFree(t: Tiles) {
    forall p {:trigger Next(t, p)} :: FreeAt(t, p) ==> !FreeAt(t, Next(t, p))
  }

  /** The same, leaving block p out of account. */
  ghost predicate NoAdjacentFreeBut(t: Tiles, p: nat) {
    forall x {:trigger Next(t, x)} :: FreeAt(t, x) && x != p && Next(t, x) != p ==> !FreeAt(t, Next(t, x))
  }

  /** Block p is allocated to a client. */
  ghost predicate IsLive(t: Tiles, floor: nat, p: nat) {
    p in t && t[p].alloc && floor <= p
  }

  /** Every block live in t is live in t' with the same extent. */
  ghost predicate LiveWithin(t: Tiles, t': Tiles, floor: nat) {
    forall p: nat {:trigger IsLive(t, floor, p)} ::
      IsLive(t, floor, p) ==> IsLive(t', floor, p) && t'[p] == t[p]
  }

  ghost predicate LiveSame(t: Tiles, t': Tiles, floor: nat) {
    LiveWithin(t, t', floor) && LiveWithin(t', t, floor)
  }

  /** The live blocks of t' are those of t and the new block p. */
  ghost predicate LiveAdds(t: Tiles, t': Tiles, floor: nat, p: nat) {
    && LiveWithin(t, t', floor) && !IsLive(t, floor, p) && IsLive(t', floor, p)
    && forall x: nat {:trigger IsLive(t', floor, x)} :: IsLive(t', floor, x) ==> x == p || IsLive(t, floor, x)
  }

  lemma PrevExists(t: Tiles, lo: nat, floor: nat, hi: nat, x: nat, p: nat) returns (q: nat)
    requires Tiled(t, lo, floor, hi)
    requires p in t || p == hi
    requires x in t && x < p
    ensures q in t && Next(t, q) == p
    decreases p - x
  {
    if Next(t, x) == p {
      q := x;
    } else {
      assert Next(t, x) in t;
      q := PrevExists(t, lo, floor, hi, Next(t, x), p);
    }
  }

  /** The block that ends where p begins. */
  ghost function Prev(t: Tiles, lo: nat, floor: nat, hi: nat, p: nat): (q: nat)
    requires Tiled(t, lo, floor, hi)
    requires (p in t || p == hi) && p > lo
    ensures q in t && q < p && Next(t, q) == p
  {
    PrevDefined(t, lo, floor, hi, p);
    var q :| q in t && Next(t, q) == p;
    q
  }

  lemma PrevDefined(t: Tiles, lo: nat, floor: nat, hi: nat, p: nat)
    requires Tiled(t, lo, floor, hi)
    requires (p in t || p == hi) && p > lo
    ensures exists q :: q in t && Next(t, q) == p
  {
    var q := PrevExists(t, lo, floor, hi, lo, p);
  }

  /** Every byte from the first header to the epilogue lies in exactly one block. */
  lemma {:induction false} Covers(t: Tiles, lo: nat, floor: nat, hi: nat, x: nat, a: nat) returns (p: nat)
    requires Tiled(t, lo, floor, hi)
    requires x in t && x - 4 <= a < hi - 4
    ensures p in t && p - 4 <= a < Next(t, p) - 4
    ensures forall q :: q in t && q - 4 <= a < Next(t, q) - 4 ==> q == p
    decreases hi - x
  {
    if a < Next(t, x) - 4 {
      p := x;
    } else {
      assert Next(t, x) in t;
      p := Covers(t, lo, floor, hi, Next(t, x), a);
    }
  }

  lemma Mod8(x: int, y: int)
    requires x % 8 == 0 && y % 8 == 0
    ensures (x + y) % 8 == 0 && (x - y) % 8 == 0
  {
  }

  // ----- what the allocators do to a tiling -----

  /** The blocks from r up to e become one block. */
  ghost function Fuse(t: Tiles, r: nat, e: nat, alloc: bool): Tiles
    requires r < e
  {
    map x | x in t && (x <= r || e <= x) :: if x == r then Block(e - r, alloc) else t[x]
  }

  lemma FuseTiled(t: Tiles, lo: nat, floor: nat, hi: nat, r: nat, e: nat, alloc: bool)
    requires Tiled(t, lo, floor, hi)
    requires r in t && floor <= r < e && (e in t || e == hi)
    ensures Tiled(Fuse(t, r, e, alloc), lo, floor, hi)
  {
    var t' := Fuse(t, r, e, alloc);
    assert BlockOk(Block(e - r, alloc), r, lo, floor, hi) by {
      assert BlockOk(t[r], r, lo, floor, hi);
      assert r + t[r].size <= e && e % 8 == 0;
      Mod8(e, r);
    }
    assert BlocksOk(t', lo, floor, hi);
    FuseChained(t, lo, floor, hi, r, e, alloc);
    assert Apart(t');
  }

  lemma FuseChained(t: Tiles, lo: nat, floor: nat, hi: nat, r: nat, e: nat, alloc: bool)
    requires Tiled(t, lo, floor, hi)
    requires r in t && floor <= r < e && (e in t || e == hi)
    ensures Chained(Fuse(t, r, e, alloc), hi)
  {
    var t' := Fuse(t, r, e, alloc);
    forall x | x in t'
      ensures Next(t', x) == hi || Next(t', x) in t'
    {
      if x != r {
        assert Next(t', x) == Next(t, x);
        assert x < r ==> x + t[x].size <= r;
      }
    }
  }

  /** Block p becomes an allocated block of a bytes followed by a free rest. */
  ghost function Split(t: Tiles, p: nat, a: nat): Tiles
    requires p in t && a <= t[p].size
  {
    t[p := Block(a, true)][p + a := Block(t[p].size - a, false)]
  }

  lemma SplitTiled(t: Tiles, lo: nat, floor: nat, hi: nat, p: nat, a: nat)
    requires Tiled(t, lo, floor, hi)
    requires FreeAt(t, p) && a % 8 == 0 && 16 <= a && a + 16 <= t[p].size
    ensures Tiled(Split(t, p, a), lo, floor, hi)
    ensures p + a !in t
  {
    var t' := Split(t, p, a);
    assert p + a !in t;
    assert BlockOk(Block(a, true), p, lo, floor, hi) && BlockOk(t'[p + a], p + a, lo, floor, hi) by {
      assert BlockOk(t[p], p, lo, floor, hi);
      Mod8(p, a);
      Mod8(t[p].size, a);
    }
    assert BlocksOk(t', lo, floor, hi);
    forall x | x in t'
      ensures Next(t', x) == hi || Next(t', x) in t'
    {
      if x == p + a {
        assert Next(t', x) == Next(t, p);
      } else if x != p {
        assert Next(t', x) == Next(t, x);
      }
    }
    assert Chained(t', hi);
    forall x, y | x in t' && y in t' && x < y
      ensures x + t'[x].size <= y
    {
      SplitApart(t, lo, floor, hi, p, a, x, y);
    }
    assert Apart(t');
  }

  lemma SplitApart(t: Tiles, lo: nat, floor: nat, hi: nat, p: nat, a: nat, x: nat, y: nat)
    requires Tiled(t, lo, floor, hi)
    requires p in t && a <= t[p].size
    requires x in Split(t, p, a) && y in Split(t, p, a) && x < y
    ensures x + Split(t, p, a)[x].size <= y
  {
    if x == p + a {
      assert y != p && t[p].size >= 0 && t[y].size >= 0;
    } else if y == p + a {
      assert t[p].size >= 0 && t[x].size >= 0;
    } else {
      assert t[x].size >= 0 && t[y].size >= 0;
    }
  }

  /** Changing only the allocation bit of a client block. */
  ghost function Retag(t: Tiles, p: nat, alloc: bool): Tiles
    requires p in t
  {
    t[p := Block(t[p].size, alloc)]
  }

  lemma RetagTiled(t: Tiles, lo: nat, floor: nat, hi: nat, p: nat, alloc: bool)
    requires Tiled(t, lo, floor, hi)
    requires p in t && floor <= p
    ensures Tiled(Retag(t, p, alloc), lo, floor, hi)
  {
    var t' := Retag(t, p, alloc);
    forall x | x in t'
      ensures Next(t', x) == hi || Next(t', x) in t'
    {
      assert Next(t', x) == Next(t, x);
    }
  }

  lemma RetagIsFuse(t: Tiles, lo: nat, floor: nat, hi: nat, p: nat, alloc: bool)
    requires Tiled(t, lo, floor, hi) && p in t
    ensures Retag(t, p, alloc) == Fuse(t, p, Next(t, p), alloc)
    ensures alloc == t[p].alloc ==> Retag(t, p, alloc) == t
  {
  }

  /** A free block of size bytes is added at the end. */
  lemma GrowTiled(t: Tiles, lo: nat, floor: nat, hi: nat, size: nat)
    requires Tiled(t, lo, floor, hi)
    requires size % 8 == 0 && size >= 16
    ensures hi !in t
    ensures Tiled(t[hi := Block(size, false)], lo, floor, hi + size)
  {
    var t' := t[hi := Block(size, false)];
    forall x | x in t'
      ensures Next(t', x) == hi + size || Next(t', x) in t'
    {
      if x != hi {
        assert Next(t', x) == Next(t, x);
      }
    }
  }

  // ----- the merge of a freed block with its free neighbours -----

  /** Where the merged block begins; q is the block before p. */
  ghost function MergeLow(t: Tiles, q: nat, p: nat): nat
    requires q in t
  {
    if t[q].alloc then p else q
  }

  /** Where the merged block ends. */
  ghost function MergeHigh(t: Tiles, p: nat): nat
    requires p in t
  {
    var n := Next(t, p);
    if FreeAt(t, n) then Next(t, n) else n
  }

  ghost function Merged(t: Tiles, q: nat, p: nat): Tiles
    requires q in t && p in t && q < p && t[p].size > 0
  {
    Fuse(t, MergeLow(t, q, p), MergeHigh(t, p), false)
  }

  lemma MergedTiled(t: Tiles, lo: nat, floor: nat, hi: nat, q: nat, p: nat)
    requires Tiled(t, lo, floor, hi)
    requires q in t && q < p && Next(t, q) == p && FreeAt(t, p)
    ensures Tiled(Merged(t, q, p), lo, floor, hi)
    ensures forall x :: FreeAt(Merged(t, q, p), x) <==>
                        FreeAt(t, x) && x != Next(t, p) && (x == p ==> t[q].alloc)
  {
    var n := Next(t, p);
    FuseTiled(t, lo, floor, hi, MergeLow(t, q, p), MergeHigh(t, p), false);
    forall x: nat | FreeAt(t, x) && x != n && (x == p ==> t[q].alloc)
      ensures x <= MergeLow(t, q, p) || MergeHigh(t, p) <= x
    {
    }
  }

  lemma MergedNoAdjacent(t: Tiles, lo: nat, floor: nat, hi: nat, q: nat, p: nat)
    requires Tiled(t, lo, floor, hi)
    requires q in t && q < p && Next(t, q) == p && FreeAt(t, p)
    requires NoAdjacentFreeBut(t, p)
    ensures NoAdjacentFree(Merged(t, q, p))
  {
    MergedTiled(t, lo, floor, hi, q, p);
    var t' := Merged(t, q, p);
    var n := Next(t, p);
    forall x | FreeAt(t', x)
      ensures !FreeAt(t', Next(t', x))
    {
      if x == MergeLow(t, q, p) {
        assert Next(t', x) == MergeHigh(t, p);
        assert FreeAt(t, n) ==> !FreeAt(t, Next(t, n));
      } else {
        assert Next(t', x) == Next(t, x);
      }
    }
  }

  lemma SplitNoAdjacent(t: Tiles, lo: nat, floor: nat, hi: nat, p: nat, a: nat)
    requires Tiled(t, lo, floor, hi) && NoAdjacentFree(t)
    requires FreeAt(t, p) && a % 8 == 0 && 16 <= a && a + 16 <= t[p].size
    ensures NoAdjacentFree(Split(t, p, a))
  {
    SplitTiled(t, lo, floor, hi, p, a);
    var t' := Split(t, p, a);
    forall x | FreeAt(t', x)
      ensures !FreeAt(t', Next(t', x))
    {
      if x == p + a {
        assert Next(t', x) == Next(t, p);
      } else {
        assert Next(t', x) == Next(t, x);
      }
    }
  }

  lemma RetagNoAdjacent(t: Tiles, p: nat)
    requires NoAdjacentFree(t) && p in t
    ensures NoAdjacentFree(Retag(t, p, true))
  {
    var t' := Retag(t, p, true);
    forall x | FreeAt(t', x)
      ensures !FreeAt(t', Next(t', x))
    {
      assert Next(t', x) == Next(t, x);
    }
  }

  // ----- the live blocks -----

  lemma MergedLive(t: Tiles, lo: nat, floor: nat, hi: nat, q: nat, p: nat)
    requires Tiled(t, lo, floor, hi)
    requires q in t && q < p && Next(t, q) == p && FreeAt(t, p)
    ensures LiveSame(t, Merged(t, q, p), floor)
  {
    var r, e := MergeLow(t, q, p), MergeHigh(t, p);
    forall x: nat | IsLive(t, floor, x)
      ensures x < r || e <= x
    {
    }
  }

  lemma SplitLive(t: Tiles, lo: nat, floor: nat, hi: nat, p: nat, a: nat)
    requires Tiled(t, lo, floor, hi)
    requires FreeAt(t, p) && a % 8 == 0 && 16 <= a && a + 16 <= t[p].size
    ensures LiveAdds(t, Split(t, p, a), floor, p)
  {
    assert p + a !in t;
  }

  lemma RetagLive(t: Tiles, lo: nat, floor: nat, hi: nat, p: nat)
    requires Tiled(t, lo, floor, hi) && FreeAt(t, p)
    ensures LiveAdds(t, Retag(t, p, true), floor, p)
  {
  }

  lemma LiveRefl(t: Tiles, floor: nat)
    ensures LiveWithin(t, t, floor) && LiveSame(t, t, floor)
  {
  }

  lemma LiveAddsAfterSame(t: Tiles, t1: Tiles, t2: Tiles, floor: nat, p: nat)
    requires LiveSame(t, t1, floor) && LiveAdds(t1, t2, floor, p)
    ensures LiveAdds(t, t2, floor, p)
  {
  }
}

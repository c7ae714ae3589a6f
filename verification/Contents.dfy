/** The clients' view of a tiled heap, and how allocator steps appear in it. */
module Contents {
  import opened Memory
  import opened Tiling
  import opened Tags
  import opened AbstractHeap

  /** The bytes of the payload at p. */
  ghost function PayloadOf(m: Mem, t: Tiles, p: nat): seq<Byte>
    requires p in t
  {
    if 8 <= t[p].size && p + t[p].size - 8 <= |m| then m[p..p + t[p].size - 8] else []
  }

  ghost function ContentsOf(m: Mem, t: Tiles, floor: nat): Heap {
    map p | p in t && IsLive(t, floor, p) :: PayloadOf(m, t, p)
  }

  lemma PayloadKept(m: Mem, m': Mem, t: Tiles, t': Tiles, floor: nat, p: nat)
    requires KeepsLive(m, m', t, floor) && IsLive(t, floor, p) && p in t' && t'[p] == t[p]
    ensures PayloadOf(m', t', p) == PayloadOf(m, t, p)
  {
    if 8 <= t[p].size && p + t[p].size - 8 <= |m| {
      forall a | p <= a < p + t[p].size - 8
        ensures m'[a] == m[a]
      {
      }
    }
  }

  /** A step that keeps the live payloads and adds block r shows clients one new entry. */
  lemma NewBlockSeen(m: Mem, m': Mem, t: Tiles, t': Tiles, lo: nat, floor: nat, hi': nat, r: nat)
    requires KeepsLive(m, m', t, floor) && LiveAdds(t, t', floor, r)
    requires Tiled(t', lo, floor, hi') && hi' <= |m'|
    ensures 16 <= t'[r].size && r != NULL && NewBlock(ContentsOf(m, t, floor), ContentsOf(m', t', floor), r, t'[r].size - 8)
  {
    assert BlockOk(t'[r], r, lo, floor, hi');
    hide Tiled;
    NewEntry(m, m', t, t', floor, r);
  }

  lemma NewEntry(m: Mem, m': Mem, t: Tiles, t': Tiles, floor: nat, r: nat)
    requires KeepsLive(m, m', t, floor) && LiveAdds(t, t', floor, r)
    ensures var c, c' := ContentsOf(m, t, floor), ContentsOf(m', t', floor);
            r !in c && r in c' && c'[r] == PayloadOf(m', t', r) && c' - {r} == c
  {
    var c, c' := ContentsOf(m, t, floor), ContentsOf(m', t', floor);
    hide KeepsLive, PayloadOf;
    forall p | p in c
      ensures p in c' && c'[p] == c[p]
    {
      assert IsLive(t, floor, p);
      PayloadKept(m, m', t, t', floor, p);
    }
    forall p | p in c'
      ensures p == r || p in c
    {
      assert IsLive(t', floor, p);
    }
    hide IsLive, LiveWithin, ContentsOf;
    assert c' - {r} == c;
  }

  /** If the new block is large enough and not too large, that is a malloc to clients. */
  lemma GrantSeen(m: Mem, m': Mem, t: Tiles, t': Tiles, lo: nat, floor: nat, hi': nat, r: nat, size: nat)
    requires KeepsLive(m, m', t, floor) && LiveAdds(t, t', floor, r)
    requires Tiled(t', lo, floor, hi') && hi' <= |m'|
    requires size + 8 <= t'[r].size <= size + 23
    ensures MallocStep(ContentsOf(m, t, floor), ContentsOf(m', t', floor), size, r)
  {
    NewBlockSeen(m, m', t, t', lo, floor, hi', r);
  }

  /** A step that keeps the live payloads of t' and drops block p is a free. */
  lemma DropSeen(m: Mem, m': Mem, t: Tiles, t': Tiles, floor: nat, p: nat)
    requires KeepsLive(m, m', t', floor) && LiveAdds(t', t, floor, p)
    ensures FreeStep(ContentsOf(m, t, floor), ContentsOf(m', t', floor), p)
  {
    var c, c' := ContentsOf(m, t, floor), ContentsOf(m', t', floor);
    hide KeepsLive;
    forall x | x in c'
      ensures x in c && c'[x] == c[x] && x != p
    {
      assert IsLive(t', floor, x);
      PayloadUnkept(m, m', t, t', floor, x);
    }
    forall x | x in c
      ensures x == p || x in c'
    {
      assert IsLive(t, floor, x);
    }
    assert c' == c - {p};
  }

  lemma PayloadUnkept(m: Mem, m': Mem, t: Tiles, t': Tiles, floor: nat, p: nat)
    requires KeepsLive(m, m', t', floor) && IsLive(t', floor, p) && p in t && t'[p] == t[p]
    ensures PayloadOf(m', t', p) == PayloadOf(m, t, p)
  {
    if 8 <= t[p].size && p + t[p].size - 8 <= |m| {
      forall a | p <= a < p + t[p].size - 8
        ensures m'[a] == m[a]
      {
      }
    }
  }

  /** Writing n bytes at p changes no other payload, and of p's only the first n. */
  lemma WriteSeen(m: Mem, m': Mem, t: Tiles, lo: nat, floor: nat, hi: nat, p: nat, n: nat)
    requires Tiled(t, lo, floor, hi) && hi <= |m|
    requires IsLive(t, floor, p) && n <= t[p].size - 8 && SameOutside(m, m', p, n)
    ensures var c, c' := ContentsOf(m, t, floor), ContentsOf(m', t, floor);
            && p in c && p in c' && |c[p]| == |c'[p]| == t[p].size - 8
            && c' - {p} == c - {p} && c'[p] == m'[p..p + n] + c[p][n..]
  {
    assert BlockOk(t[p], p, lo, floor, hi);
    OtherEntries(m, m', t, lo, floor, hi, p, n);
    hide Apart, Chained, BlocksOk;
    assert m'[p + n..p + t[p].size - 8] == m[p + n..p + t[p].size - 8];
  }

  lemma OtherEntries(m: Mem, m': Mem, t: Tiles, lo: nat, floor: nat, hi: nat, p: nat, n: nat)
    requires Tiled(t, lo, floor, hi) && hi <= |m|
    requires IsLive(t, floor, p) && n <= t[p].size - 8 && SameOutside(m, m', p, n)
    ensures ContentsOf(m', t, floor) - {p} == ContentsOf(m, t, floor) - {p}
  {
    var c, c' := ContentsOf(m, t, floor), ContentsOf(m', t, floor);
    forall x | x in t && x != p
      ensures PayloadOf(m', t, x) == PayloadOf(m, t, x)
    {
      OtherPayload(m, m', t, lo, floor, hi, p, n, x);
    }
    hide Tiled, PayloadOf, SameOutside;
    assert c' - {p} == c - {p};
  }

  lemma OtherPayload(m: Mem, m': Mem, t: Tiles, lo: nat, floor: nat, hi: nat, p: nat, n: nat, x: nat)
    requires Tiled(t, lo, floor, hi) && hi <= |m|
    requires IsLive(t, floor, p) && n <= t[p].size - 8 && SameOutside(m, m', p, n)
    requires x in t && x != p
    ensures PayloadOf(m', t, x) == PayloadOf(m, t, x)
  {
    assert x < p ==> x + t[x].size <= p;
    assert p < x ==> p + t[p].size <= x;
    if 8 <= t[x].size && x + t[x].size - 8 <= |m| {
      assert m'[x..x + t[x].size - 8] == m[x..x + t[x].size - 8];
    }
  }

  lemma PlacedSeen(m: Mem, t: Tiles, lo: nat, floor: nat, hi: nat)
    requires Tiled(t, lo, floor, hi) && hi <= |m|
    ensures WellPlaced(ContentsOf(m, t, floor), hi)
  {
    var c := ContentsOf(m, t, floor);
    forall p | p in c
      ensures 8 <= p && p % 8 == 0 && |c[p]| == t[p].size - 8 && p + |c[p]| <= hi
    {
      assert BlockOk(t[p], p, lo, floor, hi);
    }
  }

  // ----- the copy of mm_realloc -----

  /** The block copied from and the block copied to do not meet, not even with the old
      block's footer and the header behind it, which the copy may read. */
  lemma LiveApart(t: Tiles, lo: nat, floor: nat, hi: nat, p: nat, q: nat, m: Mem)
    requires Tiled(t, lo, floor, hi) && IsLive(t, floor, p) && IsLive(t, floor, q) && hi <= |m|
    ensures p != q ==> q + t[q].size - 8 <= p || p + t[p].size <= q
    ensures 16 <= t[p].size && p + t[p].size <= hi && 16 <= t[q].size && q + t[q].size <= hi
    ensures p in ContentsOf(m, t, floor) && ContentsOf(m, t, floor)[p] == m[p..p + t[p].size - 8]
  {
    assert p < q ==> p + t[p].size <= q;
    assert q < p ==> q + t[q].size <= p;
    assert BlockOk(t[p], p, lo, floor, hi) && BlockOk(t[q], q, lo, floor, hi);
  }

  /** A copy that may read past the old payload, into its footer and the next header,
      still moves the data. */
  lemma CopySeen(t: Tiles, lo: nat, floor: nat, hi: nat, m: Mem, m': Mem, p: nat, q: nat, size: nat, k: nat)
    requires Tiled(t, lo, floor, hi) && IsLive(t, floor, p) && IsLive(t, floor, q) && p != q && hi <= |m|
    requires size + 8 <= t[q].size && Min(size, t[p].size - 8) <= k <= t[q].size - 8 && p + k <= |m|
    requires SameOutside(m, m', q, k) && q + k <= |m| && m'[q..q + k] == m[p..p + k]
    ensures CopyStep(ContentsOf(m, t, floor), ContentsOf(m', t, floor), p, q, size)
  {
    LiveApart(t, lo, floor, hi, p, q, m);
    WriteSeen(m, m', t, lo, floor, hi, q, k);
    hide Tiled, ContentsOf, SameOutside;
    Copied(ContentsOf(m, t, floor), ContentsOf(m', t, floor), m, p, q, size, k);
  }

  lemma Copied(c: Heap, c': Heap, m: Mem, p: nat, q: nat, size: nat, k: nat)
    requires p in c && q in c && q in c' && p != q && c' - {q} == c - {q} && |c'[q]| == |c[q]|
    requires p + |c[p]| <= |m| && c[p] == m[p..p + |c[p]|]
    requires Min(size, |c[p]|) <= k <= |c[q]| && size <= |c[q]| && p + k <= |m| && c'[q] == m[p..p + k] + c[q][k..]
    ensures CopyStep(c, c', p, q, size)
  {
    assert p in c' - {q};
    var n := Min(size, |c[p]|);
    assert c'[q][..n] == m[p..p + k][..n] == c[p][..n];
  }

  /** A copy of n bytes reads at most the old payload, its footer and the header behind it,
      all of it below the break, and writes only the new payload, which it does not read. */
  ghost predicate CopyReach(t: Tiles, hi: nat, newptr: nat, oldptr: nat, size: nat, n: nat) {
    && oldptr in t && newptr in t && n == Min(size, t[oldptr].size)
    && n <= t[oldptr].size && oldptr + n <= hi && n <= t[newptr].size - 8
    && (oldptr + n <= newptr || newptr + n <= oldptr)
  }

  /** How much mm_realloc copies, and the memcpy. */
  method CopyBlock(mem: MemLib, newptr: nat, oldptr: nat, size: nat,
                   ghost t: Tiles, ghost lo: nat, ghost floor: nat, ghost hi: nat) returns (ghost n: nat)
    requires mem.Valid() && Tiled(t, lo, floor, hi) && Represents(mem.data[..], t, hi)
    requires IsLive(t, floor, oldptr) && IsLive(t, floor, newptr) && newptr != oldptr
    requires size + 8 <= t[newptr].size
    modifies mem.data
    ensures CopyReach(t, hi, newptr, oldptr, size, n)
    ensures SameOutside(old(mem.data[..]), mem.data[..], newptr, n)
    ensures CopyStep(ContentsOf(old(mem.data[..]), t, floor), ContentsOf(mem.data[..], t, floor), oldptr, newptr, size)
  {
    hide GetWord, Tiled, TaggedBut, ContentsOf, CopyStep;
    ghost var m := mem.data[..];
    LiveApart(t, lo, floor, hi, oldptr, newptr, m);
    var copySize := BlockSize(mem, oldptr, t, lo, floor, hi);
    if size < copySize {
      copySize := size;
    }
    mem.Copy(newptr, oldptr, copySize);
    n := copySize;
    CopySeen(t, lo, floor, hi, m, mem.data[..], oldptr, newptr, size, copySize);
  }
}

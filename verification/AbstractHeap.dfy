/** What a client of an allocator sees: a map from live pointers to the bytes behind
    them, and the steps an allocation library may take on it. */
module AbstractHeap {
  import opened Memory

  type Heap = map<nat, seq<Byte>>

  function Min(x: nat, y: nat): nat {
    if x < y then x else y
  }

  /** A block of n bytes appeared at r, and nothing else happened. */
  ghost predicate NewBlock(c: Heap, c': Heap, r: nat, n: nat) {
    r != NULL && r !in c && r in c' && |c'[r]| == n && c' - {r} == c
  }

  /** malloc(size) returned r. */
  ghost predicate MallocStep(c: Heap, c': Heap, size: nat, r: nat) {
    if r == NULL then c' == c
    else r in c' && size <= |c'[r]| < size + 16 && NewBlock(c, c', r, |c'[r]|)
  }

  /** free(p) */
  ghost predicate FreeStep(c: Heap, c': Heap, p: nat) {
    p in c && c' == c - {p}
  }

  /** realloc(p, size) returned r: the old block is gone, its data is at r. */
  ghost predicate ReallocStep(c: Heap, c': Heap, p: nat, size: nat, r: nat) {
    && p in c
    && if r == NULL then c' == c
       else
         && r !in c && r in c' && size <= |c'[r]| < size + 16
         && c' - {r} == c - {p}
         && c'[r][..Min(size, |c[p]|)] == c[p][..Min(size, |c[p]|)]
  }

  /** memset(p, v, n) by the client. */
  ghost predicate FillStep(c: Heap, c': Heap, p: nat, v: Byte, n: nat) {
    && p in c && p in c' && |c'[p]| == |c[p]| && n <= |c[p]|
    && c' - {p} == c - {p}
    && (forall i :: 0 <= i < n ==> c'[p][i] == v)
    && c'[p][n..] == c[p][n..]
  }

  /** Payloads are aligned, lie inside the heap and do not overlap. */
  ghost predicate WellPlaced(c: Heap, brk: nat) {
    && (forall p {:trigger c[p]} {:trigger p in c} :: p in c ==> 8 <= p && p % 8 == 0 && p + |c[p]| <= brk)
    && (forall p, q {:trigger c[p], c[q]} :: p in c && q in c && p < q ==> p + |c[p]| <= q)
  }

  /** The first size bytes of block p, or all it has, now also begin block q. */
  ghost predicate CopyStep(c: Heap, c': Heap, p: nat, q: nat, size: nat) {
    && p in c && p in c' && q in c && q in c'
    && c' - {q} == c - {q} && |c'[q]| == |c[q]|
    && Min(size, |c[p]|) <= |c'[q]|
    && c'[q][..Min(size, |c[p]|)] == c[p][..Min(size, |c[p]|)]
  }

  /** malloc, a copy of the old data, and free make a realloc. */
  lemma MovedData(c: Heap, c1: Heap, c2: Heap, c3: Heap, p: nat, q: nat, size: nat)
    requires p in c && q != NULL && MallocStep(c, c1, size, q)
    requires CopyStep(c1, c2, p, q, size) && FreeStep(c2, c3, p)
    ensures ReallocStep(c, c3, p, size, q)
  {
    assert p in c1 && p != q;
    assert c1[p] == c[p] by {
      assert p in c1 - {q};
    }
    assert c3 - {q} == (c2 - {q}) - {p};
    assert c - {p} == (c1 - {q}) - {p};
  }

  /** Block p became block r of at least size bytes, in place or elsewhere, and kept the
      first size bytes or all it had. */
  ghost predicate ResizeStep(c: Heap, c': Heap, p: nat, size: nat, r: nat) {
    && p in c
    && if r == NULL then c' == c
       else
         && (r == p || r !in c) && r in c' && size <= |c'[r]|
         && c' - {r} == c - {p}
         && c'[r][..Min(size, |c[p]|)] == c[p][..Min(size, |c[p]|)]
  }

  lemma MovedResize(c: Heap, c1: Heap, c2: Heap, c3: Heap, p: nat, q: nat, size: nat, n: nat)
    requires p in c && NewBlock(c, c1, q, n) && size <= n
    requires CopyStep(c1, c2, p, q, size) && FreeStep(c2, c3, p)
    ensures ResizeStep(c, c3, p, size, q)
  {
    assert p in c1 && p != q;
    assert c1[p] == c[p] by {
      assert p in c1 - {q};
    }
    assert c3 - {q} == (c2 - {q}) - {p};
    assert c - {p} == (c1 - {q}) - {p};
  }
}

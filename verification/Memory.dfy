/** The simulated memory of memlib.c: a fixed buffer of bytes, a break that only
    grows, and the little-endian words the allocators read and write in it.
    A pointer is the byte offset from the start of the buffer; 0 stands for NULL. */
module Memory {

  const WORD_SPAN: int := 0x1_0000_0000
  const INT_SPAN: int := 0x8000_0000
  const MAX_HEAP: int := 20 * 0x10_0000
  const NULL: nat := 0

  type Byte = b: int | 0 <= b < 256
  type Word = w: int | 0 <= w < WORD_SPAN
  type Mem = seq<Byte>

  ghost predicate InMem(m: Mem, p: int) {
    0 <= p && p + 4 <= |m|
  }

  /** The word stored at address p, least significant byte first. */
  function GetWord(m: Mem, p: int): Word
    requires InMem(m, p)
  {
    m[p] as int + 0x100 * (m[p + 1] as int) + 0x1_0000 * (m[p + 2] as int) + 0x100_0000 * (m[p + 3] as int)
  }

  /** A word is its four bytes: two memories show the same word exactly if those agree. */
  lemma WordIsBytes(m: Mem, m': Mem, p: int)
    requires InMem(m, p) && InMem(m', p)
    ensures GetWord(m, p) == GetWord(m', p) <==> m[p..p + 4] == m'[p..p + 4]
  {
    var b, b' := m[p..p + 4], m'[p..p + 4];
    assert b == [m[p], m[p + 1], m[p + 2], m[p + 3]];
    assert b' == [m'[p], m'[p + 1], m'[p + 2], m'[p + 3]];
    assert b == b' <==> b[0] == b'[0] && b[1] == b'[1] && b[2] == b'[2] && b[3] == b'[3];
  }

  /** m' is m after the word v has been written at p and nothing else. */
  ghost predicate Wrote(m: Mem, m': Mem, p: int, v: int) {
    && |m'| == |m|
    && InMem(m, p)
    && GetWord(m', p) == v
    && (forall a {:trigger m'[a]} :: 0 <= a < |m| && !(p <= a < p + 4) ==> m'[a] == m[a])
    && (forall q {:trigger GetWord(m', q)} ::
          InMem(m, q) && (q + 4 <= p || p + 4 <= q) ==> GetWord(m', q) == GetWord(m, q))
  }

  /** The conversion from size_t to the int parameter of mem_sbrk. */
  function ToInt(x: Word): (r: int)
    ensures -INT_SPAN <= r < INT_SPAN
    ensures (r - x) % WORD_SPAN == 0
  {
    if x < INT_SPAN then x else x - WORD_SPAN
  }

  class MemLib {
    const data: array<Byte>
    var brk: nat
    var outOfMemory: bool   // errno == ENOMEM

    ghost predicate Valid()
      reads this
    {
      data.Length == MAX_HEAP && brk <= MAX_HEAP
    }

    constructor ()
      ensures Valid() && brk == 0 && !outOfMemory && fresh(data)
    {
      data := new Byte[MAX_HEAP](_ => 0);
      brk := 0;
      outOfMemory := false;
    }

    method ResetBrk()
      requires Valid()
      modifies this
      ensures Valid() && brk == 0 && outOfMemory == old(outOfMemory)
    {
      brk := 0;
    }

    /** Extends the heap by incr bytes and returns the old break, or -1. */
    method Sbrk(incr: int) returns (p: int)
      requires Valid()
      modifies this
      ensures Valid()
      ensures p == if 0 <= incr && old(brk) + incr <= MAX_HEAP then old(brk) else -1
      ensures brk == if p == -1 then old(brk) else old(brk) + incr
      ensures outOfMemory == (old(outOfMemory) || p == -1)
    {
      var oldBrk := brk;
      if incr < 0 || brk + incr > MAX_HEAP {
        outOfMemory := true;
        return -1;
      }
      brk := brk + incr;
      p := oldBrk;
    }

    function HeapSize(): nat
      reads this
    {
      brk
    }

    /** GET(p) */
    function Get(p: nat): (w: Word)
      requires p + 4 <= data.Length
      reads data
      ensures w == GetWord(data[..], p)
    {
      GetWord(data[..], p)
    }

    /** PUT(p, v) */
    method Put(p: nat, v: Word)
      requires p + 4 <= data.Length
      modifies data
      ensures Wrote(old(data[..]), data[..], p, v)
    {
      ghost var m := data[..];
      data[p] := v % 0x100;
      data[p + 1] := (v / 0x100) % 0x100;
      data[p + 2] := (v / 0x1_0000) % 0x100;
      data[p + 3] := v / 0x100_0000;
      SplitWord(v);
    }

    /** memcpy(dst, src, n) */
    method Copy(dst: nat, src: nat, n: nat)
      requires dst + n <= data.Length && src + n <= data.Length
      requires dst + n <= src || src + n <= dst
      modifies data
      ensures data[dst..dst + n] == old(data[src..src + n])
      ensures SameOutside(old(data[..]), data[..], dst, n)
    {
      for i := 0 to n
        invariant data[dst..dst + i] == old(data[src..src + i])
        invariant forall a :: 0 <= a < data.Length && !(dst <= a < dst + i) ==> data[a] == old(data[a])
      {
        data[dst + i] := data[src + i];
      }
    }

    /** memcpy of n bytes that may overlap, taken as a snapshot of the source. */
    method CopySnapshot(dst: nat, src: nat, n: nat)
      requires dst + n <= data.Length && src + n <= data.Length
      modifies data
      ensures data[dst..dst + n] == old(data[src..src + n])
      ensures SameOutside(old(data[..]), data[..], dst, n)
    {
      var copy := new Byte[n];
      for i := 0 to n
        invariant copy[..i] == data[src..src + i]
        invariant data[..] == old(data[..])
      {
        copy[i] := data[src + i];
      }
      for i := 0 to n
        invariant data[dst..dst + i] == copy[..i]
        invariant forall a :: 0 <= a < data.Length && !(dst <= a < dst + i) ==> data[a] == old(data[a])
        invariant copy[..n] == old(data[src..src + n])
      {
        data[dst + i] := copy[i];
      }
      assert copy[..n] == data[dst..dst + n];
    }

    /** memset(p, v, n) */
    method Fill(p: nat, v: Byte, n: nat)
      requires p + n <= data.Length
      modifies data
      ensures forall i :: p <= i < p + n ==> data[i] == v
      ensures SameOutside(old(data[..]), data[..], p, n)
    {
      for i := 0 to n
        invariant forall a :: p <= a < p + i ==> data[a] == v
        invariant forall a :: 0 <= a < data.Length && !(p <= a < p + i) ==> data[a] == old(data[a])
      {
        data[p + i] := v;
      }
    }
  }

  /** Outside [p, p + n) the memories agree. */
  ghost predicate SameOutside(m: Mem, m': Mem, p: nat, n: nat) {
    |m'| == |m| && forall a {:trigger m'[a]} :: 0 <= a < |m| && !(p <= a < p + n) ==> m'[a] == m[a]
  }

  lemma SplitWord(v: Word)
    ensures v % 0x100 + 0x100 * ((v / 0x100) % 0x100) + 0x1_0000 * ((v / 0x1_0000) % 0x100)
            + 0x100_0000 * (v / 0x100_0000) == v
  {
    var q1 := v / 0x100;
    var q2 := v / 0x1_0000;
    assert q2 == q1 / 0x100;
    assert v / 0x100_0000 == q2 / 0x100;
  }
}

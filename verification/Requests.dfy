/** What the allocators have in common: rounding of request sizes, how much the heap
    grows, and first fit on one list. */
module Requests {
  import opened Memory
  import opened Tiling

  const CHUNKSIZE: nat := 4096

  /** ALIGN(size + SIZE_T_SIZE) in 32-bit arithmetic. */
  function Asize(size: Word): nat {
    var n := (size + 15) % WORD_SPAN;
    n - n % 8
  }

  lemma AsizeOk(size: Word)
    requires 0 < size && size + 15 < WORD_SPAN
    ensures Asize(size) % 8 == 0 && 16 <= Asize(size)
    ensures size + 8 <= Asize(size) <= size + 15
  {
    var n := size + 15;
    assert n % WORD_SPAN == n;
    assert n - n % 8 == 8 * (n / 8);
  }

  /** The 32-bit rounding makes room for the request exactly when it does not wrap. */
  lemma AsizeCovers(size: Word)
    ensures size + 8 <= Asize(size) <==> size + 15 < WORD_SPAN
  {
    if size + 15 < WORD_SPAN {
      assert (size + 15) % WORD_SPAN == size + 15;
    } else {
      assert (size + 15) % WORD_SPAN == size + 15 - WORD_SPAN;
    }
  }

  /** ALIGN(size) in 32-bit arithmetic. */
  function AlignUp(size: Word): nat {
    var n := (size + 7) % WORD_SPAN;
    n - n % 8
  }

  lemma AlignUpOk(size: Word)
    requires size + 7 < WORD_SPAN
    ensures AlignUp(size) % 8 == 0 && size <= AlignUp(size) <= size + 7
    ensures size % 8 == 0 ==> AlignUp(size) == size
  {
    var n := size + 7;
    assert n % WORD_SPAN == n;
    assert n - n % 8 == 8 * (n / 8);
  }

  /** Small requests get the smallest block, which is what rounding gives too. */
  lemma AsizeOfSmall(size: Word)
    requires 0 < size <= 8
    ensures Asize(size) == 16
  {
  }

  /** Rounding by division gives the same as masking off the low bits. */
  lemma AsizeByDivision(size: Word)
    requires size + 15 < WORD_SPAN
    ensures Asize(size) == 8 * ((size + 15) / 8)
  {
    assert (size + 15) % WORD_SPAN == size + 15;
  }

  /** A request for the payload of a rounded size is rounded to that size again. */
  lemma AsizeBack(a: Word)
    requires a % 8 == 0 && 16 <= a && a + 7 < WORD_SPAN
    ensures Asize(a - 8) == a
  {
    assert (a + 7) % WORD_SPAN == a + 7;
  }

  /** How much mm_malloc asks of sbrk when nothing fits. */
  function GrowthFor(a: nat): nat {
    if a > CHUNKSIZE then a else CHUNKSIZE
  }

  /** The bytes extend_heap asks for: an even number of words. */
  function EvenBytes(words: nat): nat {
    if words % 2 == 1 then (words + 1) * 4 else words * 4
  }

  lemma EvenBytesOk(words: nat)
    ensures EvenBytes(words) % 8 == 0 && 4 * words <= EvenBytes(words) <= 4 * words + 4
    ensures words % 2 == 0 ==> EvenBytes(words) == 4 * words
  {
    var k := words / 2;
    if words % 2 == 1 {
      assert words == 2 * k + 1;
      assert EvenBytes(words) == 8 * (k + 1);
    } else {
      assert words == 2 * k;
      assert EvenBytes(words) == 8 * k;
    }
  }

  lemma Quarter(x: nat)
    requires x % 8 == 0
    ensures EvenBytes(x / 4) == x
  {
    var k := x / 8;
    assert x == 8 * k;
    assert x / 4 == 2 * k;
    assert (2 * k) % 2 == 0;
  }

  /** Some free block has a bytes. */
  ghost predicate Fits(t: Tiles, a: nat) {
    exists p: nat :: FreeAt(t, p) && a <= t[p].size
  }

  /** The first block of l, from position i on, that has a bytes; NULL if none has. */
  ghost function FirstFit(t: Tiles, l: seq<nat>, i: nat, a: nat): nat
    requires i <= |l|
    decreases |l| - i
  {
    if i == |l| then NULL
    else if l[i] in t && a <= t[l[i]].size then l[i]
    else FirstFit(t, l, i + 1, a)
  }

  /** The search stops at the first block that is large enough, and yields NULL exactly
      when there is none. */
  lemma {:induction false} FirstFitFinds(t: Tiles, l: seq<nat>, i: nat, a: nat) returns (k: nat)
    requires i <= |l| && forall x :: x in l ==> x in t && x != NULL
    ensures i <= k <= |l|
    ensures forall j :: i <= j < k ==> t[l[j]].size < a
    ensures if k < |l| then FirstFit(t, l, i, a) == l[k] && a <= t[l[k]].size
            else FirstFit(t, l, i, a) == NULL
    decreases |l| - i
  {
    if i == |l| || a <= t[l[i]].size {
      k := i;
    } else {
      k := FirstFitFinds(t, l, i + 1, a);
    }
  }

  /** The block size mm_malloc aims at where small requests are a case of their own. */
  method RoundedSize(size: Word) returns (asize: nat)
    requires 0 < size && size + 15 < WORD_SPAN
    ensures asize == Asize(size)
  {
    if size <= 8 {
      AsizeOfSmall(size);
      asize := 16;
    } else {
      asize := Asize(size);
    }
  }
}

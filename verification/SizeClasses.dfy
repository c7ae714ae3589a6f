/** The 20 size classes of the segregated allocators and what their lists must hold. */
module SizeClasses {
  import opened Memory
  import opened Tiling
  import opened Links

  const LISTLIMIT: nat := 20

  /** The loop that shifts size down and counts, entered with the given list number. */
  function ClassFrom(size: nat, list: nat): (c: nat)
    requires list < LISTLIMIT
    ensures list <= c < LISTLIMIT
    decreases LISTLIMIT - list
  {
    if list < LISTLIMIT - 1 && size > 1 then ClassFrom(size / 2, list + 1) else list
  }

  /** What is left of size when that loop ends. */
  function ShiftFrom(size: nat, list: nat): nat
    requires list < LISTLIMIT
    decreases LISTLIMIT - list
  {
    if list < LISTLIMIT - 1 && size > 1 then ShiftFrom(size / 2, list + 1) else size
  }

  function ClassOf(size: nat): (c: nat)
    ensures c < LISTLIMIT
  {
    ClassFrom(size, 0)
  }

  lemma ClassStep(size: nat, list: nat)
    requires list < LISTLIMIT
    ensures ClassFrom(size, list) == if list < LISTLIMIT - 1 && size > 1 then ClassFrom(size / 2, list + 1) else list
  {
  }

  function Pow2(k: nat): (p: nat)
    ensures p >= 1
  {
    if k == 0 then 1 else 2 * Pow2(k - 1)
  }

  /** The class number is the logarithm of the size, cut off at the last list. */
  lemma {:induction false} ClassIsLog(size: nat, list: nat)
    requires 1 <= size && list < LISTLIMIT
    ensures var c := ClassFrom(size, list);
            && Pow2(c - list) <= size
            && (c < LISTLIMIT - 1 ==> size < 2 * Pow2(c - list))
    decreases LISTLIMIT - list
  {
    if list < LISTLIMIT - 1 && size > 1 {
      ClassIsLog(size / 2, list + 1);
      var c := ClassFrom(size, list);
      assert Pow2(c - list) == 2 * Pow2(c - list - 1);
    }
  }

  /** A larger block is in the same or a later class. */
  lemma {:induction false} ClassMonotone(x: nat, y: nat, list: nat)
    requires x <= y && list < LISTLIMIT
    ensures ClassFrom(x, list) <= ClassFrom(y, list)
    decreases LISTLIMIT - list
  {
    if list < LISTLIMIT - 1 && x > 1 {
      ClassMonotone(x / 2, y / 2, list + 1);
    }
  }

  function Halve(x: nat, n: nat): nat {
    if n == 0 then x else Halve(x / 2, n - 1)
  }

  /** After the loop at most 1 is left, or in the last class the size over 2^19. */
  lemma {:induction false} ShiftIsSmall(size: nat, list: nat)
    requires list < LISTLIMIT
    ensures if ClassFrom(size, list) < LISTLIMIT - 1 then ShiftFrom(size, list) <= 1
            else ShiftFrom(size, list) == Halve(size, LISTLIMIT - 1 - list)
    decreases LISTLIMIT - list
  {
    if list < LISTLIMIT - 1 && size > 1 {
      ShiftIsSmall(size / 2, list + 1);
    }
  }

  lemma {:induction false} HalveMonotone(x: nat, y: nat, n: nat)
    requires x <= y
    ensures Halve(x, n) <= Halve(y, n)
  {
    if n > 0 {
      HalveMonotone(x / 2, y / 2, n - 1);
    }
  }

  /** Any size the heap can hold is shifted to 40 at most. */
  lemma ShiftBound(size: nat)
    requires size <= MAX_HEAP
    ensures ClassOf(size) == LISTLIMIT - 1 ==> ShiftFrom(size, 0) <= 40
    ensures ClassOf(size) < LISTLIMIT - 1 ==> ShiftFrom(size, 0) <= 1
  {
    ShiftIsSmall(size, 0);
    HalveMonotone(size, MAX_HEAP, 19);
    HalveBy5(MAX_HEAP, 14);
    HalveBy5(655360, 9);
    HalveBy5(20480, 4);
    assert Halve(640, 4) == Halve(320, 3) == Halve(160, 2) == Halve(80, 1) == Halve(40, 0);
  }

  lemma HalveBy5(x: nat, n: nat)
    ensures Halve(x, n + 5) == Halve(x / 32, n)
  {
    var x1 := x / 2;
    var x2 := x1 / 2;
    var x3 := x2 / 2;
    var x4 := x3 / 2;
    assert Halve(x, n + 5) == Halve(x1, n + 4);
    assert Halve(x1, n + 4) == Halve(x2, n + 3);
    assert Halve(x2, n + 3) == Halve(x3, n + 2);
    assert Halve(x3, n + 2) == Halve(x4, n + 1);
    assert Halve(x4, n + 1) == Halve(x4 / 2, n);
    assert x4 / 2 == x / 32;
  }

  // ----- the lists -----

  type Lists = seq<seq<nat>>

  /** Each free block outside ex is on the list of its class, once, and nowhere else. */
  ghost predicate Sorted(t: Tiles, lists: Lists, ex: set<nat>) {
    && |lists| == LISTLIMIT
    && (forall c {:trigger lists[c]} :: 0 <= c < LISTLIMIT ==> NoDup(lists[c]))
    && (forall c, x: nat {:trigger x in lists[c]} :: 0 <= c < LISTLIMIT ==>
          (x in lists[c] <==> FreeAt(t, x) && x !in ex && ClassOf(t[x].size) == c))
  }

  /** Where the search loop of the insertion stops: at the first block not smaller than size. */
  ghost function InsertPos(t: Tiles, l: seq<nat>, size: nat, i: nat): (k: nat)
    requires i <= |l| && forall x :: x in l ==> x in t
    ensures i <= k <= |l|
    decreases |l| - i
  {
    if i < |l| && size > t[l[i]].size then InsertPos(t, l, size, i + 1) else i
  }

  /** For a block on its way into a class, the shifted size is below every size on the
      list, so the search never advances. */
  lemma AlwaysAtHead(t: Tiles, lists: Lists, ex: set<nat>, size: nat)
    requires Sorted(t, lists, ex) && size <= MAX_HEAP
    requires forall x :: x in t ==> 1 <= t[x].size
    ensures forall x :: x in lists[ClassOf(size)] ==> x in t
    ensures InsertPos(t, lists[ClassOf(size)], ShiftFrom(size, 0), 0) == 0
  {
    var l := lists[ClassOf(size)];
    if l != [] {
      assert l[0] in l;
      ShiftBound(size);
      if ClassOf(size) == LISTLIMIT - 1 {
        LastClassIsLarge(t[l[0]].size);
      }
    }
  }

  lemma LastClassIsLarge(size: nat)
    requires 1 <= size && ClassOf(size) == LISTLIMIT - 1
    ensures size >= 0x8_0000
  {
    ClassIsLog(size, 0);
    Pow19();
  }

  lemma Pow19()
    ensures Pow2(19) == 0x8_0000
  {
    assert Pow2(4) == 16;
    assert Pow2(8) == 0x100;
    assert Pow2(12) == 0x1000;
    assert Pow2(16) == 0x1_0000;
  }

  /** Block p goes to the head of the list of its class. */
  ghost function Put(lists: Lists, p: nat, size: nat): Lists
    requires |lists| == LISTLIMIT
  {
    lists[ClassOf(size) := [p] + lists[ClassOf(size)]]
  }

  /** Block p leaves the list of its class. */
  ghost function Take(lists: Lists, p: nat, size: nat): Lists
    requires |lists| == LISTLIMIT
  {
    lists[ClassOf(size) := Without(lists[ClassOf(size)], p)]
  }

  lemma TakeSorted(t: Tiles, lists: Lists, ex: set<nat>, p: nat)
    requires Sorted(t, lists, ex) && p in t
    ensures Sorted(t, Take(lists, p, t[p].size), ex + {p})
  {
    WithoutMembers(lists[ClassOf(t[p].size)], p);
  }

  lemma PutSorted(t: Tiles, lists: Lists, ex: set<nat>, p: nat)
    requires Sorted(t, lists, ex) && FreeAt(t, p) && p in ex
    ensures Sorted(t, Put(lists, p, t[p].size), ex - {p})
  {
    ConsMembers(p, lists[ClassOf(t[p].size)]);
  }

  // ----- the order within a list -----

  ghost predicate Ascending(t: Tiles, l: seq<nat>)
    requires forall x :: x in l ==> x in t
  {
    forall i, j {:trigger l[i], l[j]} :: 0 <= i < j < |l| ==> t[l[i]].size <= t[l[j]].size
  }

  /** A list stays ascending exactly if the block that comes in is no larger than the one
      it comes before: the shifted size decides nothing. */
  lemma AscendingIff(t: Tiles, lists: Lists, ex: set<nat>, p: nat)
    requires Sorted(t, lists, ex) && FreeAt(t, p) && p in ex
    ensures var l, l' := lists[ClassOf(t[p].size)], Put(lists, p, t[p].size)[ClassOf(t[p].size)];
            && (forall x :: x in l ==> x in t) && (forall x :: x in l' ==> x in t)
            && (Ascending(t, l') <==> Ascending(t, l) && (l == [] || t[p].size <= t[l[0]].size))
  {
    hide ClassOf;
    var l := lists[ClassOf(t[p].size)];
    AscendingCons(t, l, p);
  }

  lemma AscendingCons(t: Tiles, l: seq<nat>, p: nat)
    requires p in t && forall x :: x in l ==> x in t
    ensures forall x :: x in [p] + l ==> x in t
    ensures Ascending(t, [p] + l) <==> Ascending(t, l) && (l == [] || t[p].size <= t[l[0]].size)
  {
    var l' := [p] + l;
    if Ascending(t, l') {
      forall i, j | 0 <= i < j < |l|
        ensures t[l[i]].size <= t[l[j]].size
      {
        assert l[i] == l'[i + 1] && l[j] == l'[j + 1];
      }
      assert l != [] ==> p == l'[0] && l[0] == l'[1];
    }
    if Ascending(t, l) && (l == [] || t[p].size <= t[l[0]].size) {
      forall i, j | 0 <= i < j < |l'|
        ensures t[l'[i]].size <= t[l'[j]].size
      {
        assert l'[j] == l[j - 1] && (i > 0 ==> l'[i] == l[i - 1]);
        assert j > 1 ==> t[l[0]].size <= t[l[j - 1]].size;
      }
    }
  }

  /** Compared with the size itself the search would keep every list ascending. */
  lemma UnshiftedKeepsOrder(t: Tiles, l: seq<nat>, p: nat)
    requires p in t && (forall x :: x in l ==> x in t) && Ascending(t, l)
    ensures var l' := InsertAt(l, InsertPos(t, l, t[p].size, 0), p);
            (forall x :: x in l' ==> x in t) && Ascending(t, l')
  {
    var k := InsertPos(t, l, t[p].size, 0);
    InsertPosSplits(t, l, t[p].size, 0);
    hide InsertPos;
    AscendingAt(t, l, k, p);
  }

  lemma AscendingAt(t: Tiles, l: seq<nat>, k: nat, p: nat)
    requires p in t && (forall x :: x in l ==> x in t) && Ascending(t, l) && k <= |l|
    requires forall j :: 0 <= j < k ==> t[l[j]].size <= t[p].size
    requires k < |l| ==> t[p].size <= t[l[k]].size
    ensures (forall x :: x in InsertAt(l, k, p) ==> x in t) && Ascending(t, InsertAt(l, k, p))
  {
    var l' := InsertAt(l, k, p);
    forall i | 0 <= i < |l'|
      ensures l'[i] == (if i < k then l[i] else if i == k then p else l[i - 1]) && l'[i] in t
      ensures if i < k then t[l'[i]].size <= t[p].size else t[p].size <= t[l'[i]].size
    {
      assert i > k ==> t[l[k]].size <= t[l[i - 1]].size;
    }
  }

  lemma {:induction false} InsertPosSplits(t: Tiles, l: seq<nat>, size: nat, i: nat)
    requires i <= |l| && forall x :: x in l ==> x in t
    ensures var k := InsertPos(t, l, size, i);
            (forall j :: i <= j < k ==> t[l[j]].size < size) && (k < |l| ==> size <= t[l[k]].size)
    decreases |l| - i
  {
    if i < |l| && size > t[l[i]].size {
      InsertPosSplits(t, l, size, i + 1);
    }
  }
}

/** The ten free lists of prologue.c, whose roots are fake allocated blocks in the heap.
    A root is 16 bytes: header, next pointer, unused word, footer.  NEXTP is the word at a
    node, PREVP the word 8 bytes on, so that PREVP of a root is its own footer. */
module RootLists {
  import opened Memory
  import opened Tiling
  import opened Tags
  import opened Links
  import opened SizeClasses

  const NUM: nat := 10
  const OVERHEAD: nat := 16
  const LO: nat := 8        // heap_listp: the first root
  const FLOOR: nat := 168   // the first block behind the roots
  const MIN_BLKSIZE: nat := 24
  const NODE: Shape := Shape(0, 8, 12)

  type Lists = seq<seq<nat>>

  // ----- the classes -----

  /** getrangeforclass */
  function RangeFor(class_: int): nat
    requires -1 <= class_
  {
    Pow2(class_ + 2)
  }

  /** The loop of getclass, entered at i, for a size of so many double words. */
  function ClassFrom(block: nat, i: nat): (c: nat)
    requires i <= NUM - 1
    ensures i <= c <= NUM - 1
    decreases NUM - i
  {
    if i == NUM - 1 then NUM - 1
    else if block <= RangeFor(i) && block > RangeFor(i - 1) then i
    else ClassFrom(block, i + 1)
  }

  /** getclass */
  function ClassOf(size: nat): (c: nat)
    ensures c < NUM
  {
    ClassFrom(size / 8, 0)
  }

  lemma {:induction false} ClassFromRange(block: nat, i: nat)
    requires i <= NUM - 1 && block > RangeFor(i - 1)
    ensures var c := ClassFrom(block, i);
            block > RangeFor(c - 1) && (c < NUM - 1 ==> block <= RangeFor(c))
    decreases NUM - i
  {
    hide RangeFor;
    if i < NUM - 1 && !(block <= RangeFor(i) && block > RangeFor(i - 1)) {
      ClassFromRange(block, i + 1);
    }
  }

  /** Class c holds the sizes of more than 2^(c+1) and at most 2^(c+2) double words; the
      last class has no upper bound. */
  lemma ClassIsRange(size: nat)
    requires MIN_BLKSIZE <= size
    ensures var c := ClassOf(size);
            size / 8 > RangeFor(c - 1) && (c < NUM - 1 ==> size / 8 <= RangeFor(c))
  {
    assert RangeFor(-1) == 2 by {
      assert Pow2(1) == 2;
    }
    ClassFromRange(size / 8, 0);
  }

  /** Sizes below the minimum block, which never occur, would land in the last class. */
  lemma {:induction false} TinyClass(block: nat, i: nat)
    requires block <= 2 && i <= NUM - 1
    ensures ClassFrom(block, i) == NUM - 1
    decreases NUM - i
  {
    if i < NUM - 1 {
      assert RangeFor(i - 1) >= 2 by {
        assert Pow2(i + 1) == 2 * Pow2(i);
      }
      TinyClass(block, i + 1);
    }
  }

  lemma {:induction false} PowUp(x: nat, y: nat)
    requires x <= y
    ensures Pow2(x) <= Pow2(y)
    decreases y - x
  {
    if x < y {
      PowUp(x + 1, y);
      assert Pow2(x + 1) == 2 * Pow2(x);
    }
  }

  /** A larger block is in the same or a later class. */
  lemma ClassUp(x: nat, y: nat)
    requires MIN_BLKSIZE <= x <= y
    ensures ClassOf(x) <= ClassOf(y)
  {
    hide ClassFrom;
    ClassIsRange(x);
    ClassIsRange(y);
    if ClassOf(y) < ClassOf(x) {
      PowUp(ClassOf(y) + 2, ClassOf(x) + 1);
    }
  }

  /** Except in the last class, a block of the same or a lower class is less than twice as
      large. */
  lemma WithinTwice(x: nat, y: nat)
    requires MIN_BLKSIZE <= x && MIN_BLKSIZE <= y && x % 8 == 0 && y % 8 == 0
    requires ClassOf(x) <= ClassOf(y) < NUM - 1
    ensures x < 2 * y
  {
    hide ClassFrom;
    ClassIsRange(x);
    ClassIsRange(y);
    PowUp(ClassOf(x) + 2, ClassOf(y) + 2);
    assert Pow2(ClassOf(y) + 2) == 2 * Pow2(ClassOf(y) + 1);
  }

  // ----- the roots -----

  function Root(class_: nat): nat {
    LO + class_ * 2 * 8
  }

  /** The list of class c with its root in front. */
  ghost function Chain(c: nat, l: seq<nat>): seq<nat> {
    [Root(c)] + l
  }

  /** The roots are the first ten blocks; every other block can be a list node. */
  ghost predicate Rooted(t: Tiles) {
    && (forall c: nat {:trigger Root(c)} :: c < NUM ==> Root(c) in t && t[Root(c)] == Block(OVERHEAD, true))
    && (forall x: nat {:trigger x in t} {:trigger t[x]} :: x in t && FLOOR <= x ==> MIN_BLKSIZE <= t[x].size)
  }

  /** Each free block outside ex is on the list of its class, once, and nowhere else. */
  ghost predicate Sorted(t: Tiles, lists: Lists, ex: set<nat>) {
    && |lists| == NUM
    && (forall c {:trigger lists[c]} :: 0 <= c < NUM ==> NoDup(lists[c]))
    && (forall c, x: nat {:trigger x in lists[c]} :: 0 <= c < NUM ==>
          (x in lists[c] <==> FreeAt(t, x) && x !in ex && ClassOf(t[x].size) == c))
  }

  /** Each chain lies in memory.  What would be the back link of a root is its footer. */
  ghost predicate Threaded(m: Mem, lists: Lists) {
    && |lists| == NUM
    && forall c {:trigger lists[c]} :: 0 <= c < NUM ==>
         Linked(m, Chain(c, lists[c]), Root(c), Pack(OVERHEAD, true), NODE)
  }

  ghost predicate ThreadedBut(m: Mem, lists: Lists, ex: nat) {
    && |lists| == NUM
    && forall c {:trigger lists[c]} :: 0 <= c < NUM && c != ex ==>
         Linked(m, Chain(c, lists[c]), Root(c), Pack(OVERHEAD, true), NODE)
  }

  /** Block p goes to the head of the list of its class. */
  ghost function Put(lists: Lists, p: nat, size: nat): Lists
    requires |lists| == NUM
  {
    lists[ClassOf(size) := [p] + lists[ClassOf(size)]]
  }

  /** Block p leaves the list of its class. */
  ghost function Take(lists: Lists, p: nat, size: nat): Lists
    requires |lists| == NUM
  {
    lists[ClassOf(size) := Without(lists[ClassOf(size)], p)]
  }

  lemma TakeSorted(t: Tiles, lists: Lists, ex: set<nat>, p: nat)
    requires Sorted(t, lists, ex) && p in t
    ensures Sorted(t, Take(lists, p, t[p].size), ex + {p})
  {
    hide ClassOf;
    WithoutMembers(lists[ClassOf(t[p].size)], p);
  }

  lemma PutSorted(t: Tiles, lists: Lists, ex: set<nat>, p: nat)
    requires Sorted(t, lists, ex) && FreeAt(t, p) && p in ex
    ensures Sorted(t, Put(lists, p, t[p].size), ex - {p})
  {
    hide ClassOf;
    ConsMembers(p, lists[ClassOf(t[p].size)]);
  }

  /** Every node of l is a block that holds its link words. */
  ghost predicate Housed(t: Tiles, l: seq<nat>) {
    forall i {:trigger l[i]} :: 0 <= i < |l| ==> l[i] in t && OVERHEAD <= t[l[i]].size
  }

  lemma ChainHoused(t: Tiles, lists: Lists, ex: set<nat>, c: nat, u: Tiles)
    requires Sorted(u, lists, ex) && Rooted(t) && c < NUM
    requires forall x: nat :: FreeAt(u, x) && x !in ex ==> x in t && FLOOR <= x
    ensures Housed(t, Chain(c, lists[c]))
  {
    hide ClassOf;
    var l: seq<nat> := Chain(c, lists[c]);
    forall i | 0 <= i < |l|
      ensures l[i] in t && OVERHEAD <= t[l[i]].size
    {
      if i == 0 {
        assert l[i] == Root(c);
      } else {
        assert l[i] == lists[c][i - 1] && lists[c][i - 1] in lists[c];
      }
    }
  }

  /** A write into block x, or over its header, leaves a chain alone if x is not on it, or
      if the write stays off the link words. */
  lemma WriteAway(m: Mem, m': Mem, t: Tiles, lo: nat, floor: nat, hi: nat, x: nat, q: nat, v: int,
                  l: seq<nat>, head: nat, root: nat)
    requires Tiled(t, lo, floor, hi) && Housed(t, l) && Linked(m, l, head, root, NODE)
    requires x in t && x - 4 <= q && q + 8 <= x + t[x].size && Wrote(m, m', q, v)
    requires x !in l || q == x - 4 || x + 12 <= q
    ensures Linked(m', l, head, root, NODE)
  {
    hide GetWord, Wrote, Linked;
    forall i | 0 <= i < |l|
      ensures q + 4 <= l[i] || l[i] + 12 <= q
    {
      assert l[i] in t;
      assert l[i] < x ==> l[i] + t[l[i]].size <= x;
      assert x < l[i] ==> x + t[x].size <= l[i];
    }
    OtherWrite(m, m', l, head, root, NODE, q, v);
  }

  /** x is on no chain but possibly the one of class c, and the others can be written around. */
  ghost predicate Elsewhere(t: Tiles, lists: Lists, c: nat, x: nat)
    requires |lists| == NUM
  {
    forall d {:trigger lists[d]} :: 0 <= d < NUM && d != c ==> Housed(t, Chain(d, lists[d])) && x !in Chain(d, lists[d])
  }

  /** What links the lists, sorted by the tiling u, to the tiling t in memory. */
  ghost predicate Covered(u: Tiles, t: Tiles, ex: set<nat>) {
    forall x: nat {:trigger FreeAt(u, x)} :: FreeAt(u, x) && x !in ex ==> x in t && FLOOR <= x
  }

  lemma RootsApart(c: nat, d: nat)
    requires c < NUM && d < NUM && c != d
    ensures Root(c) != Root(d) && Root(c) < FLOOR && Root(d) < FLOOR
  {
  }

  lemma NodeElsewhere(u: Tiles, t: Tiles, lists: Lists, ex: set<nat>, c: nat, x: nat)
    requires Sorted(u, lists, ex) && Rooted(t) && Covered(u, t, ex) && c < NUM
    requires x in Chain(c, lists[c]) || (x in ex && FLOOR <= x)
    ensures Elsewhere(t, lists, c, x)
  {
    hide ClassOf;
    forall d | 0 <= d < NUM && d != c
      ensures Housed(t, Chain(d, lists[d])) && x !in Chain(d, lists[d])
    {
      ChainHoused(t, lists, ex, d, u);
      RootsApart(c, d);
    }
  }

  /** Writing a link word of a free block, or the next pointer of a root, disturbs no tag,
      no client and no chain the node is not on: the back link of a root is never written. */
  lemma NodeWrite(m: Mem, m': Mem, t: Tiles, hi: nat, lists: Lists, c: nat, x: nat, o: nat, v: int)
    requires Tiled(t, LO, FLOOR, hi) && Rooted(t) && hi <= |m| && ThreadedBut(m, lists, c)
    requires Elsewhere(t, lists, c, x) && (o == 0 || o == 8)
    requires FreeAt(t, x) || (c < NUM && x == Root(c) && o == 0)
    requires Wrote(m, m', x + o, v)
    ensures KeepsTags(m, m', t, hi) && KeepsLive(m, m', t, FLOOR) && ThreadedBut(m', lists, c)
  {
    hide GetWord, Linked, KeepsTags, KeepsLive, Wrote;
    NodeRoom(t, hi, c, x, o);
    PayloadWriteKeepsTags(m, m', t, LO, FLOOR, hi, x, x + o, v);
    hide Tiled;
    forall d | 0 <= d < NUM && d != c
      ensures Linked(m', Chain(d, lists[d]), Root(d), Pack(OVERHEAD, true), NODE)
    {
      WriteAway(m, m', t, LO, FLOOR, hi, x, x + o, v, Chain(d, lists[d]), Root(d), Pack(OVERHEAD, true));
    }
  }

  lemma NodeRoom(t: Tiles, hi: nat, c: nat, x: nat, o: nat)
    requires Tiled(t, LO, FLOOR, hi) && Rooted(t) && (o == 0 || o == 8)
    requires FreeAt(t, x) || (c < NUM && x == Root(c) && o == 0)
    ensures x in t && x + o + 12 <= x + t[x].size && !IsLive(t, FLOOR, x)
  {
    if FreeAt(t, x) {
      assert BlockOk(t[x], x, LO, FLOOR, hi);
    }
  }

  // ----- insertion and deletion -----

  /** insert_freenode's four writes put p behind the root of its class. */
  lemma InsertThreaded(m: Mem, m1: Mem, m2: Mem, m3: Mem, m4: Mem, t: Tiles, hi: nat,
                       lists: Lists, ex: set<nat>, c: nat, p: nat)
    requires Tiled(t, LO, FLOOR, hi) && Rooted(t) && hi <= |m| && Sorted(t, lists, ex) && Threaded(m, lists)
    requires FreeAt(t, p) && p in ex && c < NUM && |m1| == |m2| == |m3| == |m4| == |m|
    requires LinkedInForward(m, m1, m2, m3, m4, Chain(c, lists[c]), Pack(OVERHEAD, true), NODE, 1, p)
    ensures Threaded(m4, lists[c := [p] + lists[c]])
    ensures KeepsTags(m, m4, t, hi) && KeepsLive(m, m4, t, FLOOR)
  {
    hide GetWord, Linked, LinkedInForward, ClassOf, KeepsTags, KeepsLive;
    FreeCovered(t, hi, ex);
    InsertRoom(t, hi, lists, ex, c, p);
    var l: seq<nat> := Chain(c, lists[c]);
    assert Linked(m, l, Root(c), Pack(OVERHEAD, true), NODE);
    FreeRoom(t, hi, p);
    LinkIn(m, m1, m2, m3, m4, l, Root(c), Pack(OVERHEAD, true), NODE, 1, p);
    assert InsertAt(l, 1, p) == Chain(c, [p] + lists[c]);
    hide Tiled, Sorted;
    InsertOthers(m, m1, m2, m3, m4, t, hi, lists, ex, c, p);
  }

  lemma FreeCovered(t: Tiles, hi: nat, ex: set<nat>)
    requires Tiled(t, LO, FLOOR, hi)
    ensures Covered(t, t, ex)
  {
    forall x: nat | FreeAt(t, x) && x !in ex
      ensures x in t && FLOOR <= x
    {
      assert BlockOk(t[x], x, LO, FLOOR, hi);
    }
  }

  lemma FreeRoom(t: Tiles, hi: nat, p: nat)
    requires Tiled(t, LO, FLOOR, hi) && Rooted(t) && FreeAt(t, p)
    ensures FLOOR <= p && MIN_BLKSIZE <= t[p].size && p + t[p].size <= hi
  {
    assert BlockOk(t[p], p, LO, FLOOR, hi);
  }

  /** p keeps clear of the nodes of the chain it will join. */
  lemma InsertRoom(t: Tiles, hi: nat, lists: Lists, ex: set<nat>, c: nat, p: nat)
    requires Tiled(t, LO, FLOOR, hi) && Rooted(t) && Sorted(t, lists, ex) && Covered(t, t, ex) && FreeAt(t, p) && p in ex && c < NUM
    ensures forall i {:trigger Chain(c, lists[c])[i]} :: 0 <= i < |Chain(c, lists[c])| ==>
              p + 12 <= Chain(c, lists[c])[i] || Chain(c, lists[c])[i] + 12 <= p
  {
    ChainHoused(t, lists, ex, c, t);
    FreeRoom(t, hi, p);
    var l: seq<nat> := Chain(c, lists[c]);
    forall i | 0 <= i < |l|
      ensures p + 12 <= l[i] || l[i] + 12 <= p
    {
      ClearOf(t, lists, ex, c, p, i);
      assert l[i] in t;
      assert l[i] < p ==> l[i] + t[l[i]].size <= p;
      assert p < l[i] ==> p + t[p].size <= l[i];
    }
  }

  lemma ClearOf(t: Tiles, lists: Lists, ex: set<nat>, c: nat, p: nat, i: nat)
    requires Sorted(t, lists, ex) && FLOOR <= p && p in ex && c < NUM && i <= |lists[c]|
    ensures Chain(c, lists[c])[i] != p
  {
    hide ClassOf;
    if i > 0 {
      assert Chain(c, lists[c])[i] == lists[c][i - 1] && lists[c][i - 1] in lists[c];
    }
  }

  lemma InsertOthers(m: Mem, m1: Mem, m2: Mem, m3: Mem, m4: Mem, t: Tiles, hi: nat,
                     lists: Lists, ex: set<nat>, c: nat, p: nat)
    requires Tiled(t, LO, FLOOR, hi) && Rooted(t) && hi <= |m| && Sorted(t, lists, ex) && Covered(t, t, ex)
    requires ThreadedBut(m, lists, c) && FreeAt(t, p) && p in ex && FLOOR <= p && c < NUM
    requires |m1| == |m2| == |m3| == |m4| == |m|
    requires LinkedInForward(m, m1, m2, m3, m4, Chain(c, lists[c]), Pack(OVERHEAD, true), NODE, 1, p)
    ensures ThreadedBut(m4, lists, c)
    ensures KeepsTags(m, m4, t, hi) && KeepsLive(m, m4, t, FLOOR)
  {
    hide GetWord, Linked, Wrote, Sorted, Tiled, KeepsTags, KeepsLive, Elsewhere, Rooted, Covered;
    var l: seq<nat> := Chain(c, lists[c]);
    NodeElsewhere(t, t, lists, ex, c, p);
    NodeWrite(m, m1, t, hi, lists, c, p, 0, if 1 < |l| then l[1] else NULL);
    NodeWrite(m1, m2, t, hi, lists, c, p, 8, Root(c));
    KeepsBothTrans(m, m1, m2, t, FLOOR, hi);
    NodeElsewhere(t, t, lists, ex, c, Root(c));
    NodeWrite(m2, m3, t, hi, lists, c, Root(c), 0, p);
    KeepsBothTrans(m, m2, m3, t, FLOOR, hi);
    if 1 < |l| {
      assert l[1] == lists[c][0];
      ListedFree(t, lists, ex, c, 0);
      NodeElsewhere(t, t, lists, ex, c, l[1]);
      NodeWrite(m3, m4, t, hi, lists, c, l[1], 8, p);
      KeepsBothTrans(m, m3, m4, t, FLOOR, hi);
    }
  }

  lemma ListedFree(t: Tiles, lists: Lists, ex: set<nat>, c: nat, i: nat)
    requires Sorted(t, lists, ex) && c < NUM && i < |lists[c]|
    ensures FreeAt(t, lists[c][i]) && lists[c][i] !in ex && ClassOf(t[lists[c][i]].size) == c
  {
    hide ClassOf;
    assert lists[c][i] in lists[c];
  }

  /** delete_freenode's two writes take the node at position k off its list.  The tags in
      memory are those of t, in which the node may already be allocated and smaller. */
  lemma DeleteThreaded(m: Mem, m1: Mem, m2: Mem, u: Tiles, t: Tiles, hi: nat,
                       lists: Lists, ex: set<nat>, c: nat, k: nat)
    requires Tiled(t, LO, FLOOR, hi) && Rooted(t) && hi <= |m| && Sorted(u, lists, ex) && Covered(u, t, ex) && Threaded(m, lists)
    requires c < NUM && k < |lists[c]| && |m1| == |m2| == |m|
    requires OthersFree(u, t, ex, lists[c][k])
    requires UnlinkedForward(m, m1, m2, Chain(c, lists[c]), Pack(OVERHEAD, true), NODE, k + 1)
    ensures Threaded(m2, lists[c := RemoveAt(lists[c], k)])
    ensures KeepsTags(m, m2, t, hi) && KeepsLive(m, m2, t, FLOOR)
  {
    hide GetWord, Linked, UnlinkedForward, Sorted, Tiled, KeepsTags, KeepsLive, Rooted, Covered, OthersFree;
    var l: seq<nat> := Chain(c, lists[c]);
    assert Linked(m, l, Root(c), Pack(OVERHEAD, true), NODE);
    Unlink(m, m1, m2, l, Root(c), Pack(OVERHEAD, true), NODE, k + 1);
    assert RemoveAt(l, k + 1) == Chain(c, RemoveAt(lists[c], k));
    DeleteOthers(m, m1, m2, u, t, hi, lists, ex, c, k);
  }

  /** The listed blocks other than p are free in t as well. */
  ghost predicate OthersFree(u: Tiles, t: Tiles, ex: set<nat>, p: nat) {
    forall x: nat {:trigger FreeAt(u, x)} :: FreeAt(u, x) && x !in ex && x != p ==> FreeAt(t, x)
  }

  lemma DeleteOthers(m: Mem, m1: Mem, m2: Mem, u: Tiles, t: Tiles, hi: nat,
                     lists: Lists, ex: set<nat>, c: nat, k: nat)
    requires Tiled(t, LO, FLOOR, hi) && Rooted(t) && hi <= |m| && Sorted(u, lists, ex) && Covered(u, t, ex)
    requires ThreadedBut(m, lists, c) && c < NUM && k < |lists[c]| && |m1| == |m2| == |m|
    requires OthersFree(u, t, ex, lists[c][k])
    requires UnlinkedForward(m, m1, m2, Chain(c, lists[c]), Pack(OVERHEAD, true), NODE, k + 1)
    ensures ThreadedBut(m2, lists, c)
    ensures KeepsTags(m, m2, t, hi) && KeepsLive(m, m2, t, FLOOR)
  {
    hide GetWord, Linked, Wrote, Sorted, Tiled, KeepsTags, KeepsLive, Elsewhere, Rooted, Covered, OthersFree;
    var l: seq<nat> := Chain(c, lists[c]);
    NodeElsewhere(u, t, lists, ex, c, l[k]);
    AroundNode(u, t, lists, ex, c, k);
    NodeWrite(m, m1, t, hi, lists, c, l[k], 0, After(l, k + 1));
    if k + 2 < |l| {
      NodeElsewhere(u, t, lists, ex, c, l[k + 2]);
      NodeWrite(m1, m2, t, hi, lists, c, l[k + 2], 8, Before(l, k + 1, Pack(OVERHEAD, true)));
      KeepsBothTrans(m, m1, m2, t, FLOOR, hi);
    }
  }

  lemma AroundNode(u: Tiles, t: Tiles, lists: Lists, ex: set<nat>, c: nat, k: nat)
    requires Sorted(u, lists, ex) && c < NUM && k < |lists[c]| && OthersFree(u, t, ex, lists[c][k])
    ensures Chain(c, lists[c])[k] == Root(c) || FreeAt(t, Chain(c, lists[c])[k])
    ensures k + 1 < |lists[c]| ==> FreeAt(t, Chain(c, lists[c])[k + 2])
  {
    hide ClassOf;
    var l := lists[c];
    if k > 0 {
      assert l[k - 1] in l && l[k - 1] != l[k];
    }
    if k + 1 < |l| {
      assert l[k + 1] in l && l[k] != l[k + 1];
    }
  }

  // ----- tags and chains -----

  /** Every chain can be written around. */
  ghost predicate AllHoused(t: Tiles, lists: Lists)
    requires |lists| == NUM
  {
    forall d {:trigger lists[d]} :: 0 <= d < NUM ==> Housed(t, Chain(d, lists[d]))
  }

  lemma ListsHoused(u: Tiles, t: Tiles, lists: Lists, ex: set<nat>)
    requires Sorted(u, lists, ex) && Rooted(t) && Covered(u, t, ex)
    ensures AllHoused(t, lists)
  {
    hide ClassOf;
    forall d | 0 <= d < NUM
      ensures Housed(t, Chain(d, lists[d]))
    {
      ChainHoused(t, lists, ex, d, u);
    }
  }

  /** New tags on a block of at least 24 bytes miss its own link words and all others,
      even while the block is still on a list. */
  lemma TagsKeepThreaded(m: Mem, m1: Mem, m2: Mem, t: Tiles, hi: nat, p: nat, lists: Lists)
    requires Tiled(t, LO, FLOOR, hi) && p in t && FLOOR <= p && MIN_BLKSIZE <= t[p].size && TagsWritten(m, m1, m2, p, t[p])
    requires Threaded(m, lists) && AllHoused(t, lists)
    ensures Threaded(m2, lists)
  {
    hide Linked, Tiled, Wrote;
    forall d | 0 <= d < NUM
      ensures Linked(m2, Chain(d, lists[d]), Root(d), Pack(OVERHEAD, true), NODE)
    {
      var l: seq<nat> := Chain(d, lists[d]);
      assert Linked(m, l, Root(d), Pack(OVERHEAD, true), NODE);
      hide Threaded, Chain;
      WriteAway(m, m1, t, LO, FLOOR, hi, p, p - 4, Pack(t[p].size, t[p].alloc), l, Root(d), Pack(OVERHEAD, true));
      WriteAway(m1, m2, t, LO, FLOOR, hi, p, p + t[p].size - 8, Pack(t[p].size, t[p].alloc), l, Root(d), Pack(OVERHEAD, true));
    }
  }

  lemma EpilogueKeepsThreaded(m: Mem, m': Mem, t: Tiles, hi: nat, lists: Lists)
    requires Tiled(t, LO, FLOOR, hi) && Wrote(m, m', hi - 4, Pack(0, true))
    requires Threaded(m, lists) && AllHoused(t, lists)
    ensures Threaded(m', lists)
  {
    hide Linked, Wrote;
    forall d | 0 <= d < NUM
      ensures Linked(m', Chain(d, lists[d]), Root(d), Pack(OVERHEAD, true), NODE)
    {
      var l: seq<nat> := Chain(d, lists[d]);
      assert Linked(m, l, Root(d), Pack(OVERHEAD, true), NODE);
      forall i | 0 <= i < |l|
        ensures l[i] + 12 <= hi - 4
      {
        assert l[i] in t;
        assert l[i] + t[l[i]].size <= hi;
      }
      hide Threaded, Chain;
      OtherWrite(m, m', l, Root(d), Pack(OVERHEAD, true), NODE, hi - 4, Pack(0, true));
    }
  }

  // ----- what tilings keep -----

  lemma FuseRooted(t: Tiles, hi: nat, r: nat, e: nat, alloc: bool)
    requires Tiled(t, LO, FLOOR, hi) && Rooted(t) && r in t && FLOOR <= r < e && r + t[r].size <= e
    ensures Rooted(Fuse(t, r, e, alloc))
  {
    var t' := Fuse(t, r, e, alloc);
    forall c: nat | c < NUM
      ensures Root(c) in t' && t'[Root(c)] == Block(OVERHEAD, true)
    {
      assert Root(c) < FLOOR;
    }
  }

  lemma FuseSorted(t: Tiles, hi: nat, r: nat, e: nat, alloc: bool, lists: Lists, ex: set<nat>)
    requires Tiled(t, LO, FLOOR, hi) && Sorted(t, lists, ex)
    requires r in t && FLOOR <= r < e && (e in t || e == hi)
    requires forall x: nat :: FreeAt(t, x) && r <= x < e ==> x in ex
    ensures Sorted(Fuse(t, r, e, alloc), lists, ex + {r})
  {
    hide ClassOf, Tiled;
  }

  lemma SplitRooted(t: Tiles, hi: nat, p: nat, a: nat)
    requires Tiled(t, LO, FLOOR, hi) && Rooted(t) && p in t && FLOOR <= p
    requires MIN_BLKSIZE <= a && a + MIN_BLKSIZE <= t[p].size
    ensures Rooted(Split(t, p, a))
  {
    var t' := Split(t, p, a);
    forall c: nat | c < NUM
      ensures Root(c) in t' && t'[Root(c)] == Block(OVERHEAD, true)
    {
      assert Root(c) < FLOOR;
    }
  }

  lemma SplitSorted(t: Tiles, lists: Lists, p: nat, a: nat)
    requires Sorted(t, lists, {p}) && p in t && a <= t[p].size && p + a !in t && 0 < a
    ensures Sorted(Split(t, p, a), lists, {p + a})
  {
    hide ClassOf;
  }

  lemma GrowRooted(t: Tiles, hi: nat, size: nat)
    requires Rooted(t) && hi !in t && FLOOR <= hi && MIN_BLKSIZE <= size
    ensures Rooted(t[hi := Block(size, false)])
  {
    forall c: nat | c < NUM
      ensures Root(c) != hi
    {
      assert Root(c) < FLOOR;
    }
  }

  lemma GrowSorted(t: Tiles, hi: nat, size: nat, lists: Lists)
    requires Sorted(t, lists, {}) && hi !in t
    ensures Sorted(t[hi := Block(size, false)], lists, {hi})
  {
    hide ClassOf;
  }
}

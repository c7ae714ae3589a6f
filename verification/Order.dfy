/** What determines a heap: the live blocks fix the tiling, and what survives on a free list
    keeps its order. */
module Order {
  import opened Memory
  import opened Tiling
  import opened Links
  import opened Requests

  // ----- the live blocks determine the tiling -----

  /** Two tilings of [lo, hi) with the same prologue and the same live blocks, neither with
      two free neighbours. */
  ghost predicate Comparable(t: Tiles, u: Tiles, lo: nat, floor: nat, hi: nat) {
    && Tiled(t, lo, floor, hi) && Tiled(u, lo, floor, hi) && NoAdjacentFree(t) && NoAdjacentFree(u)
    && (forall x: nat {:trigger x in t} {:trigger x in u} :: x < floor ==> (x in t <==> x in u) && (x in t ==> t[x] == u[x]))
    && LiveSame(t, u, floor)
  }

  /** A free block of t that begins a block of u is a block of u, just as large. */
  lemma SameFree(t: Tiles, u: Tiles, lo: nat, floor: nat, hi: nat, x: nat)
    requires Comparable(t, u, lo, floor, hi) && FreeAt(t, x) && x in u && floor <= x
    ensures u[x] == t[x]
  {
    NoShorter(t, u, lo, floor, hi, x);
    NoShorter(u, t, lo, floor, hi, x);
  }

  lemma NoShorter(t: Tiles, u: Tiles, lo: nat, floor: nat, hi: nat, x: nat)
    requires Comparable(t, u, lo, floor, hi) && x in t && x in u && floor <= x && (FreeAt(t, x) || FreeAt(u, x))
    ensures FreeAt(t, x) && FreeAt(u, x) && Next(u, x) <= Next(t, x)
  {
    assert IsLive(t, floor, x) ==> IsLive(u, floor, x);
    assert IsLive(u, floor, x) ==> IsLive(t, floor, x);
    assert BlockOk(t[x], x, lo, floor, hi) && BlockOk(u[x], x, lo, floor, hi);
    var n := Next(t, x);
    assert n in t ==> !FreeAt(t, n);
    assert n in t ==> IsLive(t, floor, n);
    assert IsLive(t, floor, n) ==> IsLive(u, floor, n);
    assert n in t || n == hi;
  }

  lemma {:induction false} SameBlock(t: Tiles, u: Tiles, lo: nat, floor: nat, hi: nat, x: nat)
    requires Comparable(t, u, lo, floor, hi) && x in t
    ensures x in u && u[x] == t[x]
    decreases x
  {
    hide NoAdjacentFree;
    if floor <= x && !IsLive(t, floor, x) {
      assert lo < floor <= x;
      var q := PrevExists(t, lo, floor, hi, lo, x);
      assert BlockOk(t[q], q, lo, floor, hi);
      SameBlock(t, u, lo, floor, hi, q);
      assert Next(u, q) == x;
      assert BlockOk(t[x], x, lo, floor, hi);
      assert x in u;
      SameFree(t, u, lo, floor, hi, x);
    } else if floor <= x {
      assert IsLive(u, floor, x);
    }
  }

  lemma TilingDetermined(t: Tiles, u: Tiles, lo: nat, floor: nat, hi: nat)
    requires Comparable(t, u, lo, floor, hi)
    ensures t == u
  {
    forall x | x in t
      ensures x in u && u[x] == t[x]
    {
      SameBlock(t, u, lo, floor, hi, x);
    }
    forall x | x in u
      ensures x in t
    {
      SameBlock(u, t, lo, floor, hi, x);
    }
  }

  // ----- what stays on a list, in the old order -----

  /** The blocks of l that are still free in t, r aside, in the order of l. */
  ghost function Survivors(l: seq<nat>, t: Tiles, r: nat): seq<nat> {
    if l == [] then []
    else if FreeAt(t, l[0]) && l[0] != r then [l[0]] + Survivors(l[1..], t, r)
    else Survivors(l[1..], t, r)
  }

  lemma {:induction false} AllSurvive(l: seq<nat>, t: Tiles, r: nat)
    requires forall x :: x in l ==> FreeAt(t, x) && x != r
    ensures Survivors(l, t, r) == l
  {
    if l != [] {
      assert l[0] in l && forall x :: x in l[1..] ==> x in l;
      AllSurvive(l[1..], t, r);
      assert l == [l[0]] + l[1..];
    }
  }

  /** Dropping a block that does not survive changes nothing. */
  lemma {:induction false} DropOne(l: seq<nat>, k: nat, t: Tiles, r: nat)
    requires k < |l| && (!FreeAt(t, l[k]) || l[k] == r)
    ensures Survivors(RemoveAt(l, k), t, r) == Survivors(l, t, r)
  {
    var l' := RemoveAt(l, k);
    if k == 0 {
      assert l' == l[1..];
    } else {
      DropOne(l[1..], k - 1, t, r);
      assert l'[0] == l[0] && l'[1..] == RemoveAt(l[1..], k - 1);
    }
  }

  /** A list from which the blocks p and q were taken, and all of which survives, is what
      survives of the whole. */
  lemma TwoGone(l: seq<nat>, p: nat, q: nat, t: Tiles, r: nat)
    requires NoDup(l) && (p in l ==> !FreeAt(t, p) || p == r) && (q in l ==> !FreeAt(t, q) || q == r)
    requires forall x :: x in l && x != p && x != q ==> FreeAt(t, x) && x != r
    ensures Without(Without(l, p), q) == Survivors(l, t, r)
  {
    OneGone(l, p, t, r);
    WithoutMembers(l, p);
    OneGone(Without(l, p), q, t, r);
    WithoutMembers(Without(l, p), q);
    AllSurvive(Without(Without(l, p), q), t, r);
  }

  lemma OneGone(l: seq<nat>, p: nat, t: Tiles, r: nat)
    requires NoDup(l) && (p in l ==> !FreeAt(t, p) || p == r)
    ensures Survivors(Without(l, p), t, r) == Survivors(l, t, r)
  {
    if p in l {
      DropOne(l, IndexOf(l, p), t, r);
    }
  }

  /** If only p is gone, the rest is what survives. */
  lemma JustOneGone(l: seq<nat>, p: nat, t: Tiles, r: nat)
    requires NoDup(l) && (p in l ==> !FreeAt(t, p) || p == r)
    requires forall x :: x in l && x != p ==> FreeAt(t, x) && x != r
    ensures Without(l, p) == Survivors(l, t, r)
  {
    OneGone(l, p, t, r);
    WithoutMembers(l, p);
    AllSurvive(Without(l, p), t, r);
  }

  /** Of each list stays what survives, in order; the free block f, if there is one, is put
      in front of list c. */
  ghost predicate Relisted(l: seq<seq<nat>>, l': seq<seq<nat>>, t: Tiles, f: nat, c: nat) {
    |l'| == |l| && forall i {:trigger l'[i]} {:trigger l[i]} :: 0 <= i < |l| ==>
      l'[i] == (if f != NULL && i == c then [f] else []) + Survivors(l[i], t, f)
  }

  lemma RelistedUnique(l: seq<seq<nat>>, l1: seq<seq<nat>>, l2: seq<seq<nat>>, t: Tiles, f: nat, c: nat)
    requires Relisted(l, l1, t, f, c) && Relisted(l, l2, t, f, c)
    ensures l1 == l2
  {
    forall i | 0 <= i < |l|
      ensures l1[i] == l2[i]
    {
      assert l[i] == l[i];
    }
  }

  /** The same blocks survive of l and of l'. */
  ghost predicate Agree(l: seq<seq<nat>>, l': seq<seq<nat>>, t: Tiles, f: nat) {
    |l'| == |l| && forall i {:trigger l'[i]} {:trigger l[i]} :: 0 <= i < |l| ==> Survivors(l'[i], t, f) == Survivors(l[i], t, f)
  }

  lemma AgreeSelf(l: seq<seq<nat>>, t: Tiles, f: nat)
    ensures Agree(l, l, t, f)
  {
  }

  lemma RelistedThrough(l: seq<seq<nat>>, l1: seq<seq<nat>>, l': seq<seq<nat>>, t: Tiles, f: nat, c: nat)
    requires Relisted(l1, l', t, f, c) && Agree(l, l1, t, f)
    ensures Relisted(l, l', t, f, c)
  {
  }

  /** A block that does not survive may leave its list or come in. */
  lemma AgreeTake(l: seq<seq<nat>>, l': seq<seq<nat>>, t: Tiles, f: nat, c: nat, p: nat)
    requires Agree(l, l', t, f) && c < |l'| && (p in l'[c] ==> !FreeAt(t, p) || p == f)
    ensures Agree(l, l'[c := Without(l'[c], p)], t, f)
  {
    if p in l'[c] {
      DropOne(l'[c], IndexOf(l'[c], p), t, f);
    }
    hide Survivors;
  }

  lemma AgreePut(l: seq<seq<nat>>, l': seq<seq<nat>>, t: Tiles, f: nat, c: nat, p: nat)
    requires Agree(l, l', t, f) && c < |l'| && (!FreeAt(t, p) || p == f)
    ensures Agree(l, l'[c := [p] + l'[c]], t, f)
  {
    DropOne([p] + l'[c], 0, t, f);
    assert RemoveAt([p] + l'[c], 0) == l'[c];
    hide Survivors;
  }

  /** If all of l' survives, putting f in front of one of its lists relists l. */
  lemma AgreeRelists(l: seq<seq<nat>>, l': seq<seq<nat>>, t: Tiles, f: nat, c: nat)
    requires Agree(l, l', t, f) && c < |l'|
    requires forall i, x {:trigger x in l'[i]} :: 0 <= i < |l'| && x in l'[i] ==> FreeAt(t, x) && x != f
    ensures Relisted(l, if f == NULL then l' else l'[c := [f] + l'[c]], t, f, c)
  {
    forall i | 0 <= i < |l'|
      ensures Survivors(l[i], t, f) == l'[i]
    {
      AllSurvive(l'[i], t, f);
      assert l'[i] == l'[i];
    }
    hide Survivors;
    assert forall i :: 0 <= i < |l'| ==> [] + l'[i] == l'[i];
  }

  // ----- which block is taken -----

  /** How many bytes the heap grows by for a block of a bytes: at least a page. */
  function Growth(a: nat): nat {
    if a > 4096 then a else 4096
  }

  /** p is the first block on l that has a bytes. */
  ghost predicate FirstOn(t: Tiles, l: seq<nat>, a: nat, p: nat) {
    exists k {:trigger l[k]} :: 0 <= k < |l| && l[k] == p && p in t && a <= t[p].size
                                && forall j {:trigger l[j]} :: 0 <= j < k ==> l[j] in t && t[l[j]].size < a
  }

  lemma FirstOnUnique(t: Tiles, l: seq<nat>, a: nat, p: nat, p': nat)
    requires FirstOn(t, l, a, p) && FirstOn(t, l, a, p')
    ensures p == p'
  {
    var k :| 0 <= k < |l| && l[k] == p && p in t && a <= t[p].size && forall j :: 0 <= j < k ==> l[j] in t && t[l[j]].size < a;
    var k' :| 0 <= k' < |l| && l[k'] == p' && p' in t && a <= t[p'].size && forall j :: 0 <= j < k' ==> l[j] in t && t[l[j]].size < a;
    assert !(k < k') && !(k' < k);
  }

  lemma FirstIsFirst(t: Tiles, l: seq<nat>, a: nat)
    requires (forall x :: x in l ==> x in t && x != NULL) && FirstFit(t, l, 0, a) != NULL
    ensures FirstOn(t, l, a, FirstFit(t, l, 0, a))
  {
    var k := FirstFitFinds(t, l, 0, a);
    forall j | 0 <= j < k
      ensures l[j] in t && t[l[j]].size < a
    {
      assert l[j] in l;
    }
    assert l[k] == FirstFit(t, l, 0, a) && l[k] in l;
  }

  /** b is the first block of a bytes on the lowest list that holds one. */
  ghost predicate LowestFirst(t: Tiles, lists: seq<seq<nat>>, a: nat, b: nat) {
    exists c {:trigger lists[c]} :: 0 <= c < |lists| && FirstOn(t, lists[c], a, b) && NoneBelow(t, lists, c, a)
  }

  ghost predicate NoneBelow(t: Tiles, lists: seq<seq<nat>>, c: nat, a: nat)
    requires c <= |lists|
  {
    forall d, x {:trigger x in lists[d]} :: 0 <= d < c && x in lists[d] ==> x in t && t[x].size < a
  }

  lemma LowestUnique(t: Tiles, lists: seq<seq<nat>>, a: nat, b1: nat, b2: nat)
    requires LowestFirst(t, lists, a, b1) && LowestFirst(t, lists, a, b2)
    ensures b1 == b2
  {
    var c1 :| 0 <= c1 < |lists| && FirstOn(t, lists[c1], a, b1) && NoneBelow(t, lists, c1, a);
    var c2 :| 0 <= c2 < |lists| && FirstOn(t, lists[c2], a, b2) && NoneBelow(t, lists, c2, a);
    FirstIsOn(t, lists[c1], a, b1);
    FirstIsOn(t, lists[c2], a, b2);
    hide FirstOn;
    assert c1 == c2;
    FirstOnUnique(t, lists[c1], a, b1, b2);
  }

  lemma FirstIsOn(t: Tiles, l: seq<nat>, a: nat, b: nat)
    requires FirstOn(t, l, a, b)
    ensures b in l && b in t && a <= t[b].size
  {
  }

  /** Where the free block begins that holds what is added at the break hi: the free block
      that ends there, or the break itself. */
  ghost predicate EndsAt(t: Tiles, hi: nat, p: nat) {
    || (FreeAt(t, p) && Next(t, p) == hi)
    || (p == hi && forall q {:trigger Next(t, q)} :: q in t && Next(t, q) == hi ==> t[q].alloc)
  }

  lemma EndsAtUnique(t: Tiles, lo: nat, floor: nat, hi: nat, p: nat, p': nat)
    requires Tiled(t, lo, floor, hi) && EndsAt(t, hi, p) && EndsAt(t, hi, p')
    ensures p == p'
  {
    if FreeAt(t, p) && Next(t, p) == hi && FreeAt(t, p') && Next(t, p') == hi {
      assert BlockOk(t[p], p, lo, floor, hi) && BlockOk(t[p'], p', lo, floor, hi);
    }
  }

  /** Merging a block added at the break gives a free block from there to the new break. */
  lemma ExtensionEnds(t: Tiles, g: Tiles, lo: nat, floor: nat, hi: nat, e: nat, q: nat)
    requires Tiled(t, lo, floor, hi) && hi !in t && 16 <= e && g == t[hi := Block(e, false)] && Tiled(g, lo, floor, hi + e)
    requires q in g && q < hi && Next(g, q) == hi
    ensures var t', r := Merged(g, q, hi), MergeLow(g, q, hi);
            && EndsAt(t, hi, r) && r in t' && t'[r] == Block(hi + e - r, false)
            && (r == q || (r == hi && t[q].alloc))
            && (forall x: nat :: FreeAt(t', x) && x != r ==> FreeAt(t, x) && t'[x] == t[x])
            && (forall x: nat :: FreeAt(t, x) && x != q ==> FreeAt(t', x) && x != r && t'[x] == t[x])
  {
    hide Tiled;
    BeyondBreak(g, lo, floor, hi + e);
    OnlyPrev(t, lo, floor, hi, q);
    MergedTiled(g, lo, floor, hi + e, q, hi);
  }

  lemma InOrder(t: Tiles, lo: nat, floor: nat, hi: nat, p: nat, q: nat)
    requires Tiled(t, lo, floor, hi) && p in t && q in t
    ensures p < q ==> Next(t, p) <= q
  {
  }

  lemma BeyondBreak(t: Tiles, lo: nat, floor: nat, hi: nat)
    requires Tiled(t, lo, floor, hi)
    ensures hi !in t
  {
    assert hi in t ==> BlockOk(t[hi], hi, lo, floor, hi);
  }

  lemma OnlyPrev(t: Tiles, lo: nat, floor: nat, hi: nat, q: nat)
    requires Tiled(t, lo, floor, hi) && q in t
    ensures forall x :: x in t && Next(t, x) == Next(t, q) ==> x == q
  {
    forall x | x in t && Next(t, x) == Next(t, q)
      ensures x == q
    {
      assert BlockOk(t[x], x, lo, floor, hi) && BlockOk(t[q], q, lo, floor, hi);
    }
  }
}

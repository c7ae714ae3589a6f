/** Doubly linked lists threaded through the first bytes of the nodes.
    The forward link of node p is the word at p + f, the backward link the word at
    p + b; a node occupies w bytes for its links. */
module Links {
  import opened Memory

  datatype Shape = Shape(f: nat, b: nat, w: nat)

  ghost predicate ShapeOk(s: Shape) {
    (s.f + 4 <= s.b || s.b + 4 <= s.f) && s.f + 4 <= s.w && s.b + 4 <= s.w
  }

  function First(l: seq<nat>): nat {
    if l == [] then NULL else l[0]
  }

  function After(l: seq<nat>, i: nat): nat
    requires i < |l|
  {
    if i + 1 < |l| then l[i + 1] else NULL
  }

  function Before(l: seq<nat>, i: nat, root: nat): nat
    requires i < |l|
  {
    if i > 0 then l[i - 1] else root
  }

  /** The link areas of the nodes do not overlap. */
  ghost predicate Spaced(l: seq<nat>, w: nat) {
    forall i, j {:trigger l[i], l[j]} :: 0 <= i < j < |l| ==> l[i] + w <= l[j] || l[j] + w <= l[i]
  }

  ghost predicate InBounds(m: Mem, l: seq<nat>, w: nat) {
    forall i {:trigger l[i]} :: 0 <= i < |l| ==> 0 < l[i] && l[i] + w <= |m|
  }

  ghost predicate Placed(m: Mem, l: seq<nat>, s: Shape) {
    ShapeOk(s) && InBounds(m, l, s.w) && Spaced(l, s.w)
  }

  /** The two links of the node at position i. */
  ghost predicate NodeAt(m: Mem, l: seq<nat>, i: nat, root: nat, s: Shape)
    requires ShapeOk(s) && i < |l| && l[i] + s.w <= |m|
  {
    GetWord(m, l[i] + s.f) == After(l, i) && GetWord(m, l[i] + s.b) == Before(l, i, root)
  }

  /** The forward links run along l and the backward links invert them. */
  ghost predicate LinkWords(m: Mem, l: seq<nat>, root: nat, s: Shape)
    requires ShapeOk(s) && InBounds(m, l, s.w)
  {
    forall i: nat {:trigger NodeAt(m, l, i, root, s)} :: i < |l| ==> NodeAt(m, l, i, root, s)
  }

  /** From head the forward links visit exactly l and end in NULL; the backward
      links invert them and the first one holds root. */
  ghost predicate Linked(m: Mem, l: seq<nat>, head: nat, root: nat, s: Shape) {
    Placed(m, l, s) && head == First(l) && LinkWords(m, l, root, s)
  }

  /** A write away from all nodes leaves the list alone. */
  lemma OtherWrite(m: Mem, m': Mem, l: seq<nat>, head: nat, root: nat, s: Shape, q: nat, v: int)
    requires Linked(m, l, head, root, s)
    requires Wrote(m, m', q, v)
    requires forall i {:trigger l[i]} :: 0 <= i < |l| ==> q + 4 <= l[i] || l[i] + s.w <= q
    ensures Linked(m', l, head, root, s)
  {
    hide GetWord;
    forall i: nat | i < |l|
      ensures NodeAt(m', l, i, root, s)
    {
      assert NodeAt(m, l, i, root, s);
    }
  }

  // ----- insertion -----

  function InsertAt(l: seq<nat>, k: nat, p: nat): seq<nat>
    requires k <= |l|
  {
    l[..k] + [p] + l[k..]
  }

  /** The four link words that insertion of p before position k must set. */
  ghost predicate InsertedWords(m: Mem, m': Mem, l: seq<nat>, root: nat, s: Shape, k: nat, p: nat)
    requires ShapeOk(s) && InBounds(m, l, s.w) && k <= |l| && p + s.w <= |m| && |m| == |m'|
  {
    && GetWord(m', p + s.f) == (if k < |l| then l[k] else NULL)
    && GetWord(m', p + s.b) == (if k > 0 then l[k - 1] else root)
    && (forall i {:trigger l[i]} :: 0 <= i < |l| ==>
          && GetWord(m', l[i] + s.f) == (if i == k - 1 then p else GetWord(m, l[i] + s.f))
          && GetWord(m', l[i] + s.b) == (if i == k then p else GetWord(m, l[i] + s.b)))
  }

  lemma Insert(m: Mem, m': Mem, l: seq<nat>, head: nat, root: nat, s: Shape, k: nat, p: nat)
    requires Linked(m, l, head, root, s) && k <= |l|
    requires 0 < p && p + s.w <= |m| && |m'| == |m|
    requires forall i {:trigger l[i]} :: 0 <= i < |l| ==> p + s.w <= l[i] || l[i] + s.w <= p
    requires InsertedWords(m, m', l, root, s, k, p)
    ensures Linked(m', InsertAt(l, k, p), if k == 0 then p else head, root, s)
  {
    InsertSpaced(l, k, p, s.w);
    InsertBounds(m', l, k, p, s);
    InsertLinkWords(m, m', l, root, s, k, p);
  }

  lemma InsertBounds(m: Mem, l: seq<nat>, k: nat, p: nat, s: Shape)
    requires InBounds(m, l, s.w) && k <= |l| && 0 < p && p + s.w <= |m|
    ensures InBounds(m, InsertAt(l, k, p), s.w)
  {
  }

  lemma InsertLinkWords(m: Mem, m': Mem, l: seq<nat>, root: nat, s: Shape, k: nat, p: nat)
    requires ShapeOk(s) && InBounds(m, l, s.w) && k <= |l| && p + s.w <= |m| && |m| == |m'|
    requires InBounds(m', InsertAt(l, k, p), s.w)
    requires LinkWords(m, l, root, s) && InsertedWords(m, m', l, root, s, k, p)
    ensures LinkWords(m', InsertAt(l, k, p), root, s)
  {
    forall i: nat | i < |l| + 1
      ensures NodeAt(m', InsertAt(l, k, p), i, root, s)
    {
      InsertNodeAt(m, m', l, root, s, k, p, i);
    }
  }

  lemma InsertNodeAt(m: Mem, m': Mem, l: seq<nat>, root: nat, s: Shape, k: nat, p: nat, i: nat)
    requires ShapeOk(s) && InBounds(m, l, s.w) && k <= |l| && p + s.w <= |m| && |m| == |m'|
    requires InBounds(m', InsertAt(l, k, p), s.w)
    requires LinkWords(m, l, root, s) && InsertedWords(m, m', l, root, s, k, p)
    requires i <= |l|
    ensures NodeAt(m', InsertAt(l, k, p), i, root, s)
  {
    hide GetWord;
    InsertNeighbours(l, k, p, i, root);
    if i < k {
      assert NodeAt(m, l, i, root, s);
    } else if i > k {
      assert NodeAt(m, l, i - 1, root, s);
    }
  }

  lemma InsertNeighbours(l: seq<nat>, k: nat, p: nat, i: nat, root: nat)
    requires k <= |l| && i <= |l|
    ensures i < k ==>
      InsertAt(l, k, p)[i] == l[i]
      && After(InsertAt(l, k, p), i) == (if i + 1 == k then p else After(l, i))
      && Before(InsertAt(l, k, p), i, root) == Before(l, i, root)
    ensures i == k ==>
      InsertAt(l, k, p)[i] == p
      && After(InsertAt(l, k, p), i) == (if k < |l| then l[k] else NULL)
      && Before(InsertAt(l, k, p), i, root) == (if k > 0 then l[k - 1] else root)
    ensures i > k ==>
      InsertAt(l, k, p)[i] == l[i - 1]
      && After(InsertAt(l, k, p), i) == After(l, i - 1)
      && Before(InsertAt(l, k, p), i, root) == (if i == k + 1 then p else Before(l, i - 1, root))
  {
  }

  lemma InsertSpaced(l: seq<nat>, k: nat, p: nat, w: nat)
    requires Spaced(l, w) && k <= |l|
    requires forall i {:trigger l[i]} :: 0 <= i < |l| ==> p + w <= l[i] || l[i] + w <= p
    ensures Spaced(InsertAt(l, k, p), w)
  {
    var l' := InsertAt(l, k, p);
    forall i, j | 0 <= i < j < |l'|
      ensures l'[i] + w <= l'[j] || l'[j] + w <= l'[i]
    {
      assert l'[i] == if i < k then l[i] else if i == k then p else l[i - 1];
      assert l'[j] == if j < k then l[j] else if j == k then p else l[j - 1];
    }
  }

  // ----- removal -----

  function RemoveAt(l: seq<nat>, k: nat): seq<nat>
    requires k < |l|
  {
    l[..k] + l[k + 1..]
  }

  function IndexOf(l: seq<nat>, p: nat): (k: nat)
    requires p in l
    ensures k < |l| && l[k] == p && p !in l[..k]
  {
    if l[0] == p then 0 else 1 + IndexOf(l[1..], p)
  }

  /** The list without p. */
  function Without(l: seq<nat>, p: nat): seq<nat> {
    if p in l then RemoveAt(l, IndexOf(l, p)) else l
  }

  /** The two link words that removal of position k must set. */
  ghost predicate RemovedWords(m: Mem, m': Mem, l: seq<nat>, root: nat, s: Shape, k: nat)
    requires ShapeOk(s) && InBounds(m, l, s.w) && k < |l| && |m| == |m'|
  {
    forall i {:trigger l[i]} :: 0 <= i < |l| && i != k ==>
      && GetWord(m', l[i] + s.f) == (if i + 1 == k then After(l, k) else GetWord(m, l[i] + s.f))
      && GetWord(m', l[i] + s.b) == (if i == k + 1 then Before(l, k, root) else GetWord(m, l[i] + s.b))
  }

  lemma Remove(m: Mem, m': Mem, l: seq<nat>, head: nat, root: nat, s: Shape, k: nat)
    requires Linked(m, l, head, root, s) && k < |l| && |m'| == |m|
    requires RemovedWords(m, m', l, root, s, k)
    ensures Linked(m', RemoveAt(l, k), if k == 0 then After(l, 0) else head, root, s)
  {
    RemoveSpaced(l, k, s.w);
    RemoveBounds(m', l, k, s);
    RemoveLinkWords(m, m', l, root, s, k);
  }

  lemma RemoveBounds(m: Mem, l: seq<nat>, k: nat, s: Shape)
    requires InBounds(m, l, s.w) && k < |l|
    ensures InBounds(m, RemoveAt(l, k), s.w)
  {
  }

  lemma RemoveLinkWords(m: Mem, m': Mem, l: seq<nat>, root: nat, s: Shape, k: nat)
    requires ShapeOk(s) && InBounds(m, l, s.w) && k < |l| && |m'| == |m|
    requires InBounds(m', RemoveAt(l, k), s.w)
    requires LinkWords(m, l, root, s) && RemovedWords(m, m', l, root, s, k)
    ensures LinkWords(m', RemoveAt(l, k), root, s)
  {
    hide GetWord;
    var l' := RemoveAt(l, k);
    forall i: nat | i < |l'|
      ensures NodeAt(m', l', i, root, s)
    {
      if i < k {
        assert NodeAt(m, l, i, root, s);
        assert l'[i] == l[i];
      } else {
        assert NodeAt(m, l, i + 1, root, s);
        assert l'[i] == l[i + 1];
      }
    }
  }

  lemma RemoveSpaced(l: seq<nat>, k: nat, w: nat)
    requires Spaced(l, w) && k < |l|
    ensures Spaced(RemoveAt(l, k), w)
  {
    var l' := RemoveAt(l, k);
    forall i, j | 0 <= i < j < |l'|
      ensures l'[i] + w <= l'[j] || l'[j] + w <= l'[i]
    {
      assert l'[i] == if i < k then l[i] else l[i + 1];
      assert l'[j] == if j < k then l[j] else l[j + 1];
    }
  }

  // ----- the writes that insert and remove -----

  /** Forward link of the predecessor first, backward link of the successor second. */
  ghost predicate UnlinkedForward(m: Mem, m1: Mem, m2: Mem, l: seq<nat>, root: nat, s: Shape, k: nat)
    requires k < |l|
  {
    && (k > 0 ==> Wrote(m, m1, l[k - 1] + s.f, After(l, k)))
    && (k == 0 ==> m1 == m)
    && (k + 1 < |l| ==> Wrote(m1, m2, l[k + 1] + s.b, Before(l, k, root)))
    && (k + 1 == |l| ==> m2 == m1)
  }

  /** Backward link of the successor first, forward link of the predecessor second. */
  ghost predicate UnlinkedBackward(m: Mem, m1: Mem, m2: Mem, l: seq<nat>, root: nat, s: Shape, k: nat)
    requires k < |l|
  {
    && (k + 1 < |l| ==> Wrote(m, m1, l[k + 1] + s.b, Before(l, k, root)))
    && (k + 1 == |l| ==> m1 == m)
    && (k > 0 ==> Wrote(m1, m2, l[k - 1] + s.f, After(l, k)))
    && (k == 0 ==> m2 == m1)
  }

  lemma Unlink(m: Mem, m1: Mem, m2: Mem, l: seq<nat>, head: nat, root: nat, s: Shape, k: nat)
    requires Linked(m, l, head, root, s) && k < |l| && |m1| == |m| && |m2| == |m|
    requires UnlinkedForward(m, m1, m2, l, root, s, k) || UnlinkedBackward(m, m1, m2, l, root, s, k)
    ensures Linked(m2, RemoveAt(l, k), if k == 0 then After(l, 0) else head, root, s)
  {
    hide GetWord, LinkWords;
    forall i | 0 <= i < |l| && i != k
      ensures GetWord(m2, l[i] + s.f) == (if i + 1 == k then After(l, k) else GetWord(m, l[i] + s.f))
      ensures GetWord(m2, l[i] + s.b) == (if i == k + 1 then Before(l, k, root) else GetWord(m, l[i] + s.b))
    {
      UnlinkAt(m, m1, m2, l, root, s, k, i);
    }
    Remove(m, m2, l, head, root, s, k);
  }

  lemma UnlinkAt(m: Mem, m1: Mem, m2: Mem, l: seq<nat>, root: nat, s: Shape, k: nat, i: nat)
    requires Placed(m, l, s) && k < |l| && |m1| == |m| && |m2| == |m|
    requires UnlinkedForward(m, m1, m2, l, root, s, k) || UnlinkedBackward(m, m1, m2, l, root, s, k)
    requires i < |l| && i != k
    ensures GetWord(m2, l[i] + s.f) == (if i + 1 == k then After(l, k) else GetWord(m, l[i] + s.f))
    ensures GetWord(m2, l[i] + s.b) == (if i == k + 1 then Before(l, k, root) else GetWord(m, l[i] + s.b))
  {
    hide GetWord, Spaced;
    if k > 0 {
      if i != k - 1 {
        SpacedAt(l, s.w, i, k - 1);
      }
    }
    if k + 1 < |l| {
      if i != k + 1 {
        SpacedAt(l, s.w, i, k + 1);
      }
      if k > 0 {
        SpacedAt(l, s.w, k - 1, k + 1);
      }
    }
  }

  /** The links of p first, then the backward link of its successor, then the
      forward link of its predecessor. */
  ghost predicate LinkedIn(m: Mem, m1: Mem, m2: Mem, m3: Mem, m4: Mem,
                           l: seq<nat>, root: nat, s: Shape, k: nat, p: nat)
    requires k <= |l|
  {
    && Wrote(m, m1, p + s.f, if k < |l| then l[k] else NULL)
    && Wrote(m1, m2, p + s.b, if k > 0 then l[k - 1] else root)
    && (k < |l| ==> Wrote(m2, m3, l[k] + s.b, p))
    && (k == |l| ==> m3 == m2)
    && (k > 0 ==> Wrote(m3, m4, l[k - 1] + s.f, p))
    && (k == 0 ==> m4 == m3)
  }

  /** The same, but the forward link of the predecessor comes before the backward link
      of the successor. */
  ghost predicate LinkedInForward(m: Mem, m1: Mem, m2: Mem, m3: Mem, m4: Mem,
                                  l: seq<nat>, root: nat, s: Shape, k: nat, p: nat)
    requires k <= |l|
  {
    && Wrote(m, m1, p + s.f, if k < |l| then l[k] else NULL)
    && Wrote(m1, m2, p + s.b, if k > 0 then l[k - 1] else root)
    && (k > 0 ==> Wrote(m2, m3, l[k - 1] + s.f, p))
    && (k == 0 ==> m3 == m2)
    && (k < |l| ==> Wrote(m3, m4, l[k] + s.b, p))
    && (k == |l| ==> m4 == m3)
  }

  lemma LinkIn(m: Mem, m1: Mem, m2: Mem, m3: Mem, m4: Mem,
               l: seq<nat>, head: nat, root: nat, s: Shape, k: nat, p: nat)
    requires Linked(m, l, head, root, s) && k <= |l|
    requires 0 < p && p + s.w <= |m| && |m1| == |m2| == |m3| == |m4| == |m|
    requires forall i {:trigger l[i]} :: 0 <= i < |l| ==> p + s.w <= l[i] || l[i] + s.w <= p
    requires LinkedIn(m, m1, m2, m3, m4, l, root, s, k, p) || LinkedInForward(m, m1, m2, m3, m4, l, root, s, k, p)
    ensures Linked(m4, InsertAt(l, k, p), if k == 0 then p else head, root, s)
  {
    hide GetWord, LinkWords, LinkedIn, LinkedInForward;
    forall i | 0 <= i < |l|
      ensures GetWord(m4, l[i] + s.f) == (if i == k - 1 then p else GetWord(m, l[i] + s.f))
      ensures GetWord(m4, l[i] + s.b) == (if i == k then p else GetWord(m, l[i] + s.b))
    {
      if LinkedIn(m, m1, m2, m3, m4, l, root, s, k, p) {
        LinkInAt(m, m1, m2, m3, m4, l, root, s, k, p, i);
      } else {
        LinkInForwardAt(m, m1, m2, m3, m4, l, root, s, k, p, i);
      }
    }
    LinkInNew(m, m1, m2, m3, m4, l, root, s, k, p);
    Insert(m, m4, l, head, root, s, k, p);
  }

  lemma LinkInNew(m: Mem, m1: Mem, m2: Mem, m3: Mem, m4: Mem,
                  l: seq<nat>, root: nat, s: Shape, k: nat, p: nat)
    requires Placed(m, l, s) && k <= |l|
    requires 0 < p && p + s.w <= |m| && |m1| == |m2| == |m3| == |m4| == |m|
    requires forall i {:trigger l[i]} :: 0 <= i < |l| ==> p + s.w <= l[i] || l[i] + s.w <= p
    requires LinkedIn(m, m1, m2, m3, m4, l, root, s, k, p) || LinkedInForward(m, m1, m2, m3, m4, l, root, s, k, p)
    ensures GetWord(m4, p + s.f) == (if k < |l| then l[k] else NULL)
    ensures GetWord(m4, p + s.b) == (if k > 0 then l[k - 1] else root)
  {
    hide GetWord, Spaced;
  }

  lemma LinkInAt(m: Mem, m1: Mem, m2: Mem, m3: Mem, m4: Mem,
                 l: seq<nat>, root: nat, s: Shape, k: nat, p: nat, i: nat)
    requires Placed(m, l, s) && k <= |l| && i < |l|
    requires 0 < p && p + s.w <= |m| && |m1| == |m2| == |m3| == |m4| == |m|
    requires forall i {:trigger l[i]} :: 0 <= i < |l| ==> p + s.w <= l[i] || l[i] + s.w <= p
    requires LinkedIn(m, m1, m2, m3, m4, l, root, s, k, p)
    ensures GetWord(m4, l[i] + s.f) == (if i == k - 1 then p else GetWord(m, l[i] + s.f))
    ensures GetWord(m4, l[i] + s.b) == (if i == k then p else GetWord(m, l[i] + s.b))
  {
    hide GetWord, Spaced;
    assert p + s.w <= l[i] || l[i] + s.w <= p;
    if k < |l| && i != k {
      SpacedAt(l, s.w, i, k);
    }
    if k > 0 && i != k - 1 {
      SpacedAt(l, s.w, i, k - 1);
    }
  }

  lemma LinkInForwardAt(m: Mem, m1: Mem, m2: Mem, m3: Mem, m4: Mem,
                        l: seq<nat>, root: nat, s: Shape, k: nat, p: nat, i: nat)
    requires Placed(m, l, s) && k <= |l| && i < |l|
    requires 0 < p && p + s.w <= |m| && |m1| == |m2| == |m3| == |m4| == |m|
    requires forall i {:trigger l[i]} :: 0 <= i < |l| ==> p + s.w <= l[i] || l[i] + s.w <= p
    requires LinkedInForward(m, m1, m2, m3, m4, l, root, s, k, p)
    ensures GetWord(m4, l[i] + s.f) == (if i == k - 1 then p else GetWord(m, l[i] + s.f))
    ensures GetWord(m4, l[i] + s.b) == (if i == k then p else GetWord(m, l[i] + s.b))
  {
    hide GetWord, Spaced;
    assert p + s.w <= l[i] || l[i] + s.w <= p;
    if k < |l| && i != k {
      SpacedAt(l, s.w, i, k);
    }
    if k > 0 && i != k - 1 {
      SpacedAt(l, s.w, i, k - 1);
    }
  }

  lemma SpacedAt(l: seq<nat>, w: nat, i: nat, j: nat)
    requires Spaced(l, w) && i < |l| && j < |l| && i != j
    ensures l[i] + w <= l[j] || l[j] + w <= l[i]
  {
    if i < j {
      assert l[i] + w <= l[j] || l[j] + w <= l[i];
    } else {
      assert l[j] + w <= l[i] || l[i] + w <= l[j];
    }
  }

  ghost predicate NoDup(l: seq<nat>) {
    forall i, j {:trigger l[i], l[j]} :: 0 <= i < j < |l| ==> l[i] != l[j]
  }

  lemma WithoutMembers(l: seq<nat>, p: nat)
    requires NoDup(l)
    ensures NoDup(Without(l, p))
    ensures forall x :: x in Without(l, p) <==> x in l && x != p
  {
    if p in l {
      var k := IndexOf(l, p);
      var l' := RemoveAt(l, k);
      forall x | x in l && x != p
        ensures x in l'
      {
        var i :| 0 <= i < |l| && l[i] == x;
        assert l'[if i < k then i else i - 1] == x;
      }
      forall i, j | 0 <= i < j < |l'|
        ensures l'[i] != l'[j]
      {
        assert l'[i] == if i < k then l[i] else l[i + 1];
        assert l'[j] == if j < k then l[j] else l[j + 1];
      }
    }
  }

  lemma ConsMembers(p: nat, l: seq<nat>)
    requires NoDup(l) && p !in l
    ensures NoDup([p] + l)
    ensures forall x :: x in [p] + l <==> x in l || x == p
  {
  }
}

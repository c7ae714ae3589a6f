/** The driver's list of allocated payload extents: a singly linked list. */
module Ranges {
  import opened Memory

  datatype Range = Range(lo: nat, hi: int)

  /** The overlap test of add_range. */
  predicate Detects(r: Range, lo: nat, hi: int) {
    (r.lo <= lo <= r.hi) || (r.lo <= hi <= r.hi)
  }

  predicate Overlap(r: Range, lo: nat, hi: int) {
    lo <= r.hi && r.lo <= hi
  }

  /** The test misses exactly the overlaps in which the new extent sticks out on both sides. */
  lemma DetectsWhen(r: Range, lo: nat, hi: int)
    requires lo <= hi && r.lo <= r.hi
    ensures Detects(r, lo, hi) <==> Overlap(r, lo, hi) && !(lo < r.lo && r.hi < hi)
  {
  }

  /** An overlap that is not noticed. */
  lemma MissedOverlap()
    ensures Overlap(Range(16, 23), 8, 39) && !Detects(Range(16, 23), 8, 39)
  {
  }

  function RemoveFirst(rs: seq<Range>, lo: nat): seq<Range> {
    if rs == [] then []
    else if rs[0].lo == lo then rs[1..]
    else [rs[0]] + RemoveFirst(rs[1..], lo)
  }

  class Node {
    var lo: nat
    var hi: int
    var next: Node?

    constructor (lo: nat, hi: int, next: Node?)
      ensures this.lo == lo && this.hi == hi && this.next == next
    {
      this.lo, this.hi, this.next := lo, hi, next;
    }
  }

  class RangeList {
    var head: Node?
    ghost var nodes: seq<Node>

    ghost predicate Valid()
      reads this, nodes
    {
      && (forall i, j :: 0 <= i < j < |nodes| ==> nodes[i] != nodes[j])
      && head == NodeFrom(0)
      && (forall i {:trigger nodes[i]} :: 0 <= i < |nodes| ==> nodes[i].next == NodeFrom(i + 1))
    }

    ghost function NodeFrom(i: nat): Node?
      reads this
    {
      if i < |nodes| then nodes[i] else null
    }

    ghost function RangeAt(i: nat): Range
      requires i < |nodes|
      reads this, nodes
    {
      Range(nodes[i].lo, nodes[i].hi)
    }

    /** The extents on the list, newest first. */
    ghost function Listed(): (rs: seq<Range>)
      reads this, nodes
      ensures |rs| == |nodes|
      ensures forall i :: 0 <= i < |rs| ==> rs[i] == RangeAt(i)
    {
      seq(|nodes|, i requires 0 <= i < |nodes| reads this, nodes => RangeAt(i))
    }

    constructor ()
      ensures Valid() && Listed() == [] && nodes == []
    {
      head, nodes := null, [];
    }

    /** add_range: refuses an extent that is unaligned, leaves the heap [0, brk) or is
        found to overlap a listed one. */
    method AddRange(lo: nat, size: nat, brk: nat) returns (ok: bool)
      requires Valid() && 0 < size
      modifies this
      ensures Valid()
      ensures ok <==> lo % 8 == 0 && lo + size <= brk
                      && forall r :: r in old(Listed()) ==> !Detects(r, lo, lo + size - 1)
      ensures Listed() == if ok then [Range(lo, lo + size - 1)] + old(Listed()) else old(Listed())
      ensures if ok then |nodes| > 0 && fresh(nodes[0]) && nodes[1..] == old(nodes) else nodes == old(nodes)
    {
      var hi: int := lo + size - 1;
      if lo % 8 != 0 {
        return false;
      }
      if lo < 0 || lo > brk - 1 || hi < 0 || hi > brk - 1 {
        return false;
      }
      var overlaps := FindsOverlap(lo, hi);
      if overlaps {
        return false;
      }
      Push(lo, hi);
      ok := true;
    }

    /** The search loop of add_range. */
    method FindsOverlap(lo: nat, hi: int) returns (found: bool)
      requires Valid()
      ensures found <==> exists r :: r in Listed() && Detects(r, lo, hi)
    {
      var p := head;
      ghost var i := 0;
      while p != null
        invariant i <= |nodes| && p == NodeFrom(i)
        invariant forall j :: 0 <= j < i ==> !Detects(Listed()[j], lo, hi)
        decreases |nodes| - i
      {
        if (p.lo <= lo && lo <= p.hi) || (p.lo <= hi && hi <= p.hi) {
          assert Detects(Listed()[i], lo, hi);
          return true;
        }
        p := p.next;
        i := i + 1;
      }
      found := false;
    }

    /** A new extent goes to the front. */
    method Push(lo: nat, hi: int)
      requires Valid()
      modifies this
      ensures Valid()
      ensures Listed() == [Range(lo, hi)] + old(Listed())
      ensures |nodes| > 0 && fresh(nodes[0]) && nodes[1..] == old(nodes)
    {
      ghost var was := Listed();
      var n := new Node(lo, hi, head);
      head, nodes := n, [n] + nodes;
      forall j | 0 <= j < |nodes|
        ensures RangeAt(j) == ([Range(lo, hi)] + was)[j]
        ensures nodes[j].next == NodeFrom(j + 1)
      {
      }
      assert Listed() == [Range(lo, hi)] + was;
    }

    /** remove_range: takes the first extent that begins at lo off the list. */
    method RemoveRange(lo: nat)
      requires Valid()
      modifies this, nodes
      ensures Valid()
      ensures Listed() == RemoveFirst(old(Listed()), lo)
      ensures forall i :: 0 <= i < |nodes| ==> nodes[i] in old(nodes)
    {
      var p, prev: Node? := head, null;
      ghost var i := 0;
      while p != null
        invariant i <= |nodes| && p == NodeFrom(i)
        invariant prev == if i == 0 then null else nodes[i - 1]
        invariant forall j :: 0 <= j < i ==> nodes[j].lo != lo
        decreases |nodes| - i
      {
        if p.lo == lo {
          Unlink(prev, p, i);
          return;
        }
        prev := p;
        p := p.next;
        i := i + 1;
      }
      RemoveFirstNone(Listed(), lo);
    }

    /** *prevpp = p->next */
    method Unlink(prev: Node?, p: Node, ghost i: nat)
      requires Valid() && i < |nodes| && nodes[i] == p
      requires prev == if i == 0 then null else nodes[i - 1]
      requires forall j :: 0 <= j < i ==> nodes[j].lo != p.lo
      modifies this, nodes
      ensures Valid()
      ensures Listed() == RemoveFirst(old(Listed()), old(p.lo))
      ensures forall i :: 0 <= i < |nodes| ==> nodes[i] in old(nodes)
    {
      hide Listed;
      ghost var was, all := Listed(), nodes;
      RemoveFirstAt(was, i, p.lo);
      Bypass(prev, p, i);
      hide Valid, RemoveFirst;
      forall j | 0 <= j < |nodes|
        ensures nodes[j] in all && Listed()[j] == was[if j < i then j else j + 1]
      {
        assert nodes[j] == all[if j < i then j else j + 1];
      }
      WithoutAt(was, i, Listed());
    }

    /** The pointer update of Unlink */
    method Bypass(prev: Node?, p: Node, ghost i: nat)
      requires Valid() && i < |nodes| && nodes[i] == p
      requires prev == if i == 0 then null else nodes[i - 1]
      modifies this, nodes
      ensures Valid() && nodes == old(nodes[..i] + nodes[i + 1..])
      ensures forall n :: n in old(nodes) ==> n.lo == old(n.lo) && n.hi == old(n.hi)
    {
      if prev == null {
        head := p.next;
      } else {
        prev.next := p.next;
      }
      ghost var all := nodes;
      nodes := Bypassed(all, i);
      forall j | 0 <= j < |nodes|
        ensures nodes[j].next == NodeFrom(j + 1)
      {
        var k := if j < i then j else j + 1;
        assert j == i - 1 || all[k].next == old(all[k].next);
      }
    }

    /** clear_ranges */
    method ClearRanges()
      requires Valid()
      modifies this
      ensures Valid() && Listed() == [] && nodes == []
    {
      head, nodes := null, [];
    }
  }

  ghost function Bypassed(all: seq<Node>, i: nat): (l: seq<Node>)
    requires i < |all|
    requires forall j, k :: 0 <= j < k < |all| ==> all[j] != all[k]
    ensures |l| == |all| - 1 && forall j :: 0 <= j < |l| ==> l[j] == all[if j < i then j else j + 1]
    ensures forall j, k :: 0 <= j < k < |l| ==> l[j] != l[k]
  {
    all[..i] + all[i + 1..]
  }

  lemma WithoutAt(rs: seq<Range>, k: nat, rs': seq<Range>)
    requires k < |rs| && |rs'| == |rs| - 1
    requires forall j :: 0 <= j < |rs'| ==> rs'[j] == rs[if j < k then j else j + 1]
    ensures rs' == rs[..k] + rs[k + 1..]
  {
  }

  lemma {:induction false} RemoveFirstAt(rs: seq<Range>, k: nat, lo: nat)
    requires k < |rs| && rs[k].lo == lo
    requires forall j :: 0 <= j < k ==> rs[j].lo != lo
    ensures RemoveFirst(rs, lo) == rs[..k] + rs[k + 1..]
  {
    if k > 0 {
      RemoveFirstAt(rs[1..], k - 1, lo);
      assert rs[..k] == [rs[0]] + rs[1..][..k - 1];
    }
  }

  lemma {:induction false} RemoveFirstNone(rs: seq<Range>, lo: nat)
    requires forall j :: 0 <= j < |rs| ==> rs[j].lo != lo
    ensures RemoveFirst(rs, lo) == rs
  {
    if rs != [] {
      RemoveFirstNone(rs[1..], lo);
    }
  }
}

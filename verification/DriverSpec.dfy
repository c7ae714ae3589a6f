/** The books the trace driver keeps, and why they agree with the heap. */
module DriverSpec {
  import opened Memory
  import opened AbstractHeap
  import opened Ranges
  import opened Trace

  ghost predicate Filled(bytes: seq<Byte>, n: nat, v: int) {
    n <= |bytes| && forall j :: 0 <= j < n ==> bytes[j] == v
  }

  /** Block id is outstanding with size bytes at p, all of them the low byte of id. */
  ghost predicate Recorded(c: Heap, id: nat, p: nat, size: nat) {
    p in c && 0 < size && Filled(c[p], size, id % 0x100)
  }

  /** blocks and sizes describe exactly the outstanding blocks, at distinct places. */
  ghost predicate BookOk(live: map<nat, nat>, blocks: seq<nat>, sizes: seq<nat>, c: Heap) {
    && (forall id {:trigger id in live} :: id in live ==>
          id < |blocks| && id < |sizes| && sizes[id] == live[id] && Recorded(c, id, blocks[id], live[id]))
    && (forall i, j {:trigger i in live, j in live} :: i in live && j in live && i != j ==> blocks[i] != blocks[j])
  }

  /** Every listed extent lies in a live payload of its own. */
  ghost predicate RangesOk(rs: seq<Range>, c: Heap) {
    && (forall i {:trigger rs[i]} :: 0 <= i < |rs| ==>
          rs[i].lo in c && rs[i].lo <= rs[i].hi < rs[i].lo + |c[rs[i].lo]|)
    && (forall i, j {:trigger rs[i], rs[j]} :: 0 <= i < j < |rs| ==> rs[i].lo != rs[j].lo)
  }

  /** The extent of a block of size bytes at lo */
  function Extent(lo: nat, size: nat): Range {
    Range(lo, lo as int + size as int - 1)
  }

  /** r is the extent of an outstanding request. */
  ghost predicate Requested(r: Range, live: map<nat, nat>, blocks: seq<nat>) {
    exists id {:trigger id in live} :: id in live && id < |blocks| && r == Extent(blocks[id], live[id])
  }

  /** What is listed is exactly the extents of the outstanding requests. */
  ghost predicate Extents(rs: seq<Range>, live: map<nat, nat>, blocks: seq<nat>) {
    && (forall id {:trigger id in live} :: id in live ==> id < |blocks| && Extent(blocks[id], live[id]) in rs)
    && (forall r {:trigger r in rs} :: r in rs ==> Requested(r, live, blocks))
  }

  /** No two outstanding ids have the same block. */
  ghost predicate Distinct(live: map<nat, nat>, blocks: seq<nat>) {
    forall i, j {:trigger i in live, j in live} :: i in live && j in live && i < |blocks| && j < |blocks| && i != j ==> blocks[i] != blocks[j]
  }

  lemma ExtentsAdd(rs: seq<Range>, live: map<nat, nat>, blocks: seq<nat>, id: nat, p: nat, size: nat)
    requires Extents(rs, live, blocks) && id !in live && id < |blocks|
    ensures Extents([Extent(p, size)] + rs, live[id := size], blocks[id := p])
  {
    var rs', live', blocks' := [Extent(p, size)] + rs, live[id := size], blocks[id := p];
    assert rs'[0] in rs';
    forall r | r in rs'
      ensures Requested(r, live', blocks')
    {
      if r in rs {
        assert Requested(r, live, blocks);
        var x :| x in live && x < |blocks| && r == Extent(blocks[x], live[x]);
        assert x in live';
      } else {
        assert id in live';
      }
    }
  }

  lemma ExtentsDrop(rs: seq<Range>, live: map<nat, nat>, blocks: seq<nat>, id: nat)
    requires Extents(rs, live, blocks) && Distinct(live, blocks) && id in live
    requires forall i, j {:trigger rs[i], rs[j]} :: 0 <= i < j < |rs| ==> rs[i].lo != rs[j].lo
    ensures id < |blocks| && Extents(RemoveFirst(rs, blocks[id]), live - {id}, blocks)
  {
    assert id < |blocks|;
    var k :| 0 <= k < |rs| && rs[k] == Extent(blocks[id], live[id]);
    RemoveFirstAt(rs, k, blocks[id]);
    hide RemoveFirst, Extent, Distinct, Requested;
    var rs' := rs[..k] + rs[k + 1..];
    forall r | r in rs'
      ensures Requested(r, live - {id}, blocks)
    {
      OtherExtent(rs, k, r);
      OtherRequest(r, live, blocks, id);
    }
    forall x | x in live - {id}
      ensures x < |blocks| && Extent(blocks[x], (live - {id})[x]) in rs'
    {
      assert x in live;
      ExtentsDiffer(live, blocks, id, x);
      StillThere(rs, k, Extent(blocks[x], live[x]));
    }
  }

  lemma OtherRequest(r: Range, live: map<nat, nat>, blocks: seq<nat>, id: nat)
    requires Requested(r, live, blocks) && id in live && id < |blocks| && r.lo != blocks[id]
    ensures Requested(r, live - {id}, blocks)
  {
    var x :| x in live && x < |blocks| && r == Extent(blocks[x], live[x]);
    assert x in live - {id};
  }

  lemma ExtentsDiffer(live: map<nat, nat>, blocks: seq<nat>, i: nat, j: nat)
    requires Distinct(live, blocks) && i in live && j in live && i != j && i < |blocks| && j < |blocks|
    ensures Extent(blocks[i], live[i]) != Extent(blocks[j], live[j])
  {
  }

  lemma OtherExtent(rs: seq<Range>, k: nat, r: Range)
    requires k < |rs| && r in rs[..k] + rs[k + 1..]
    requires forall i, j {:trigger rs[i], rs[j]} :: 0 <= i < j < |rs| ==> rs[i].lo != rs[j].lo
    ensures r in rs && r.lo != rs[k].lo
  {
  }

  lemma StillThere(rs: seq<Range>, k: nat, r: Range)
    requires k < |rs| && r in rs && r != rs[k]
    ensures r in rs[..k] + rs[k + 1..]
  {
    var j :| 0 <= j < |rs| && rs[j] == r;
    var rs' := rs[..k] + rs[k + 1..];
    assert rs'[if j < k then j else j - 1] == r;
  }

  /** A realloc: the old extent goes, the new one comes. */
  lemma ExtentsMove(rs: seq<Range>, live: map<nat, nat>, blocks: seq<nat>, id: nat, p: nat, size: nat)
    requires Extents(rs, live, blocks) && Distinct(live, blocks) && id in live
    requires forall i, j {:trigger rs[i], rs[j]} :: 0 <= i < j < |rs| ==> rs[i].lo != rs[j].lo
    ensures id < |blocks|
    ensures Extents([Extent(p, size)] + RemoveFirst(rs, blocks[id]), live[id := size], blocks[id := p])
  {
    ExtentsDrop(rs, live, blocks, id);
    ExtentsAdd(RemoveFirst(rs, blocks[id]), live - {id}, blocks, id, p, size);
    assert (live - {id})[id := size] == live[id := size];
  }

  lemma BooksApart(live: map<nat, nat>, blocks: seq<nat>, sizes: seq<nat>, rs: seq<Range>, c: Heap)
    requires BookOk(live, blocks, sizes, c) && RangesOk(rs, c)
    ensures Distinct(live, blocks)
    ensures forall i, j {:trigger rs[i], rs[j]} :: 0 <= i < j < |rs| ==> rs[i].lo != rs[j].lo
  {
  }

  // ----- one request of each kind -----

  lemma AllocBook(live: map<nat, nat>, blocks: seq<nat>, sizes: seq<nat>,
                  c: Heap, c1: Heap, c2: Heap, id: nat, size: nat, p: nat)
    requires BookOk(live, blocks, sizes, c) && id !in live && id < |blocks| && id < |sizes|
    requires 0 < size && p != NULL && MallocStep(c, c1, size, p) && FillStep(c1, c2, p, id % 0x100, size)
    ensures BookOk(live[id := size], blocks[id := p], sizes[id := size], c2)
  {
    var live', blocks', sizes' := live[id := size], blocks[id := p], sizes[id := size];
    forall x | x in live'
      ensures x < |blocks'| && x < |sizes'| && sizes'[x] == live'[x] && Recorded(c2, x, blocks'[x], live'[x])
      ensures x != id ==> x in live && blocks'[x] != p
    {
      if x != id {
        assert x in live && Recorded(c, x, blocks[x], live[x]);
        Untouched(c, c1, c2, p, blocks[x]);
      }
    }
  }

  /** What malloc and the fill leave of the other blocks. */
  lemma Untouched(c: Heap, c1: Heap, c2: Heap, p: nat, q: nat)
    requires q in c && p !in c && c1 - {p} == c && c2 - {p} == c1 - {p}
    ensures q != p && q in c2 && c2[q] == c[q]
  {
    assert q in c2 - {p};
  }

  lemma ReallocBook(live: map<nat, nat>, blocks: seq<nat>, sizes: seq<nat>,
                    c: Heap, c1: Heap, c2: Heap, id: nat, size: nat, p: nat)
    requires BookOk(live, blocks, sizes, c) && id in live
    requires 0 < size && p != NULL && ReallocStep(c, c1, blocks[id], size, p) && FillStep(c1, c2, p, id % 0x100, size)
    ensures BookOk(live[id := size], blocks[id := p], sizes[id := size], c2)
  {
    var live', blocks', sizes' := live[id := size], blocks[id := p], sizes[id := size];
    var old' := blocks[id];
    forall x | x in live'
      ensures x < |blocks'| && x < |sizes'| && sizes'[x] == live'[x] && Recorded(c2, x, blocks'[x], live'[x])
      ensures x != id ==> x in live && blocks'[x] != p
    {
      if x != id {
        assert x in live && Recorded(c, x, blocks[x], live[x]);
        assert blocks[x] != old';
        assert blocks[x] in c - {old'};
        Untouched(c - {old'}, c1, c2, p, blocks[x]);
      }
    }
  }

  lemma FreeBook(live: map<nat, nat>, blocks: seq<nat>, sizes: seq<nat>, c: Heap, id: nat)
    requires BookOk(live, blocks, sizes, c) && id in live
    ensures BookOk(live - {id}, blocks, sizes, c - {blocks[id]})
  {
    var live', c' := live - {id}, c - {blocks[id]};
    forall x | x in live'
      ensures x < |blocks| && x < |sizes| && sizes[x] == live'[x] && Recorded(c', x, blocks[x], live'[x])
    {
      assert x in live && Recorded(c, x, blocks[x], live[x]);
      assert blocks[x] != blocks[id];
    }
  }

  // ----- the range list -----

  /** A block that malloc placed apart from the others passes the overlap test. */
  lemma NewRange(rs: seq<Range>, c: Heap, c1: Heap, brk: nat, p: nat, size: nat)
    requires RangesOk(rs, c) && WellPlaced(c1, brk)
    requires p in c1 && p !in c && c1 - {p} == c && 0 < size <= |c1[p]|
    ensures forall r :: r in rs ==> !Detects(r, p, p + size - 1)
    ensures RangesOk([Range(p, p + size - 1)] + rs, c1)
  {
    forall r | r in rs
      ensures !Detects(r, p, p + size - 1)
    {
      var i :| 0 <= i < |rs| && rs[i] == r;
      assert r.lo in c && r.lo in c1 - {p};
      assert c1[r.lo] == c[r.lo];
      assert r.lo < p ==> r.lo + |c1[r.lo]| <= p;
      assert p < r.lo ==> p + |c1[p]| <= r.lo;
    }
    var rs' := [Range(p, p + size - 1)] + rs;
    forall i | 0 <= i < |rs'|
      ensures rs'[i].lo in c1 && rs'[i].lo <= rs'[i].hi < rs'[i].lo + |c1[rs'[i].lo]|
      ensures i > 0 ==> rs'[i].lo != p
    {
      if i > 0 {
        assert rs'[i] == rs[i - 1];
        assert rs[i - 1].lo in c1 - {p};
      }
    }
  }

  lemma FillRange(rs: seq<Range>, c: Heap, c': Heap, p: nat)
    requires RangesOk(rs, c) && p in c && p in c' && |c'[p]| == |c[p]| && c' - {p} == c - {p}
    ensures RangesOk(rs, c')
  {
    forall i | 0 <= i < |rs|
      ensures rs[i].lo in c' && |c'[rs[i].lo]| == |c[rs[i].lo]|
    {
      if rs[i].lo != p {
        assert rs[i].lo in c - {p};
        assert c'[rs[i].lo] == (c' - {p})[rs[i].lo];
      }
    }
  }

  lemma DropRange(rs: seq<Range>, c: Heap, p: nat)
    requires RangesOk(rs, c)
    ensures RangesOk(RemoveFirst(rs, p), c - {p})
  {
    if k: int :| 0 <= k < |rs| && rs[k].lo == p {
      forall j | 0 <= j < k
        ensures rs[j].lo != p
      {
      }
      RemoveFirstAt(rs, k, p);
      DropRangeAt(rs, c, k);
    } else {
      RemoveFirstNone(rs, p);
    }
  }

  lemma DropRangeAt(rs: seq<Range>, c: Heap, k: nat)
    requires RangesOk(rs, c) && k < |rs|
    ensures RangesOk(rs[..k] + rs[k + 1..], c - {rs[k].lo})
  {
    var rs' := rs[..k] + rs[k + 1..];
    forall i | 0 <= i < |rs'|
      ensures rs'[i].lo in c - {rs[k].lo} && rs'[i].lo <= rs'[i].hi < rs'[i].lo + |c[rs'[i].lo]|
    {
      assert rs'[i] == if i < k then rs[i] else rs[i + 1];
    }
    forall i, j | 0 <= i < j < |rs'|
      ensures rs'[i].lo != rs'[j].lo
    {
      assert rs'[i] == if i < k then rs[i] else rs[i + 1];
      assert rs'[j] == if j < k then rs[j] else rs[j + 1];
    }
  }

  // ----- space utilisation -----

  ghost predicate Fits(c: Heap, p: nat, size: nat) {
    p in c && 0 < size <= |c[p]|
  }

  /** The outstanding blocks lie in live payloads of their own that are large enough. */
  ghost predicate PlacedBook(live: map<nat, nat>, blocks: seq<nat>, sizes: seq<nat>, c: Heap) {
    && (forall id {:trigger id in live} :: id in live ==>
          id < |blocks| && id < |sizes| && sizes[id] == live[id] && Fits(c, blocks[id], live[id]))
    && (forall i, j {:trigger i in live, j in live} :: i in live && j in live && i != j ==> blocks[i] != blocks[j])
  }

  lemma PlacedAlloc(live: map<nat, nat>, blocks: seq<nat>, sizes: seq<nat>, c: Heap, c': Heap, id: nat, size: nat, p: nat)
    requires PlacedBook(live, blocks, sizes, c) && id !in live && id < |blocks| && id < |sizes|
    requires 0 < size && p != NULL && MallocStep(c, c', size, p)
    ensures PlacedBook(live[id := size], blocks[id := p], sizes[id := size], c')
  {
    var live', blocks', sizes' := live[id := size], blocks[id := p], sizes[id := size];
    forall x | x in live'
      ensures x < |blocks'| && x < |sizes'| && sizes'[x] == live'[x] && Fits(c', blocks'[x], live'[x])
      ensures x != id ==> x in live && blocks'[x] != p
    {
      if x != id {
        assert x in live && Fits(c, blocks[x], live[x]);
        Untouched(c, c', c', p, blocks[x]);
      }
    }
  }

  lemma PlacedRealloc(live: map<nat, nat>, blocks: seq<nat>, sizes: seq<nat>, c: Heap, c': Heap, id: nat, size: nat, p: nat)
    requires PlacedBook(live, blocks, sizes, c) && id in live
    requires 0 < size && p != NULL && ReallocStep(c, c', blocks[id], size, p)
    ensures PlacedBook(live[id := size], blocks[id := p], sizes[id := size], c')
  {
    var live', blocks', sizes' := live[id := size], blocks[id := p], sizes[id := size];
    forall x | x in live'
      ensures x < |blocks'| && x < |sizes'| && sizes'[x] == live'[x] && Fits(c', blocks'[x], live'[x])
      ensures x != id ==> x in live && blocks'[x] != p
    {
      if x != id {
        assert x in live && Fits(c, blocks[x], live[x]) && blocks[x] != blocks[id];
        assert blocks[x] in c - {blocks[id]};
        Untouched(c - {blocks[id]}, c', c', p, blocks[x]);
      }
    }
  }

  lemma PlacedFree(live: map<nat, nat>, blocks: seq<nat>, sizes: seq<nat>, c: Heap, id: nat)
    requires PlacedBook(live, blocks, sizes, c) && id in live
    ensures PlacedBook(live - {id}, blocks, sizes, c - {blocks[id]})
  {
    forall x | x in live - {id}
      ensures x < |blocks| && Fits(c - {blocks[id]}, blocks[x], live[x])
    {
      assert x in live && Fits(c, blocks[x], live[x]) && blocks[x] != blocks[id];
    }
  }

  /** Outstanding blocks do not overlap, so together they fit below the break. */
  lemma DemandFits(live: map<nat, nat>, blocks: seq<nat>, sizes: seq<nat>, c: Heap, brk: nat)
    requires PlacedBook(live, blocks, sizes, c) && WellPlaced(c, brk)
    ensures Total(live) <= brk
  {
    forall x | x in live
      ensures blocks[x] + live[x] <= brk
    {
      assert Fits(c, blocks[x], live[x]);
    }
    DemandBelow(live.Keys, live, blocks, sizes, c, brk, brk);
  }

  lemma {:induction false} DemandBelow(ids: set<nat>, live: map<nat, nat>, blocks: seq<nat>, sizes: seq<nat>, c: Heap,
                                      brk: nat, bound: nat)
    requires PlacedBook(live, blocks, sizes, c) && WellPlaced(c, brk) && ids <= live.Keys
    requires forall x :: x in ids ==> blocks[x] + live[x] <= bound
    ensures SumOver(ids, live) <= bound
    decreases |ids|
  {
    if ids != {} {
      var y := Highest(ids, live, blocks, sizes, c);
      forall x | x in ids - {y}
        ensures blocks[x] + live[x] <= blocks[y]
      {
        assert x in live && y in live && blocks[x] != blocks[y];
        assert Fits(c, blocks[x], live[x]) && Fits(c, blocks[y], live[y]);
        assert blocks[x] + |c[blocks[x]]| <= blocks[y];
      }
      DemandBelow(ids - {y}, live, blocks, sizes, c, brk, blocks[y]);
      SumOverSplit(ids, live, y);
    }
  }

  lemma {:induction false} Highest(ids: set<nat>, live: map<nat, nat>, blocks: seq<nat>, sizes: seq<nat>, c: Heap) returns (y: nat)
    requires PlacedBook(live, blocks, sizes, c) && ids <= live.Keys && ids != {}
    ensures y in ids && forall x :: x in ids ==> blocks[x] <= blocks[y]
    decreases |ids|
  {
    y :| y in ids;
    if ids - {y} != {} {
      var z := Highest(ids - {y}, live, blocks, sizes, c);
      if blocks[z] > blocks[y] {
        y := z;
      }
    }
  }
}

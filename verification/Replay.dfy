/** A trace replayed on the specification of mm.c: which state the allocator is in after
    each request, where the outstanding blocks are, and whether it runs out of memory. */
module Replay {
  import opened Memory
  import opened Tiling
  import opened Requests
  import opened Trace
  import ExplicitSpec

  /** Stuck once mm_malloc or mm_realloc has returned NULL; before that the allocator's
      state and the block of each outstanding id. */
  datatype Progress = Stuck | At(s: ExplicitSpec.State, blocks: map<nat, nat>)

  /** The ids in blocks are those outstanding, each with a live block of its own, and no
      other block is live. */
  ghost predicate Tracks(r: Progress, live: map<nat, nat>) {
    r.At? ==>
      && ExplicitSpec.Inv(r.s) && r.blocks.Keys == live.Keys
      && (forall i {:trigger r.blocks[i]} :: i in r.blocks ==> IsLive(r.s.t, ExplicitSpec.FLOOR, r.blocks[i]))
      && (forall i, j {:trigger r.blocks[i], r.blocks[j]} :: i in r.blocks && j in r.blocks && i != j ==> r.blocks[i] != r.blocks[j])
      && (forall p: nat {:trigger IsLive(r.s.t, ExplicitSpec.FLOOR, p)} :: IsLive(r.s.t, ExplicitSpec.FLOOR, p) ==>
            exists i {:trigger r.blocks[i]} :: i in r.blocks && r.blocks[i] == p)
  }

  /** What one request makes of it. */
  ghost function Follow(r: Progress, op: Op, live: map<nat, nat>, numIds: nat): (r': Progress)
    requires Tracks(r, live) && OpOk(op, live, numIds)
  {
    if r.Stuck? then Stuck else
      match op
      case Alloc(id, size) =>
        var (s, p) := ExplicitSpec.Malloc(r.s, size);
        if p == NULL then Stuck else At(s, r.blocks[id := p])
      case Realloc(id, size) =>
        var (s, p) := ExplicitSpec.Realloc(r.s, r.blocks[id], size);
        if p == NULL then Stuck else At(s, r.blocks[id := p])
      case Free(id) =>
        At(ExplicitSpec.Free(r.s, r.blocks[id]), r.blocks - {id})
  }

  lemma FollowTracks(r: Progress, op: Op, live: map<nat, nat>, numIds: nat)
    requires Tracks(r, live) && OpOk(op, live, numIds)
    ensures Tracks(Follow(r, op, live, numIds), Step(live, op))
  {
    hide Tracks, Follow;
    if r.At? {
      match op {
        case Alloc(id, size) => AllocTracks(r, id, size, live, numIds);
        case Realloc(id, size) => ReallocTracks(r, id, size, live, numIds);
        case Free(id) => FreeTracks(r, id, live, numIds);
      }
    } else {
      StuckTracks(r, op, live, numIds);
    }
  }

  lemma StuckTracks(r: Progress, op: Op, live: map<nat, nat>, numIds: nat)
    requires r.Stuck? && Tracks(r, live) && OpOk(op, live, numIds)
    ensures Tracks(Follow(r, op, live, numIds), Step(live, op))
  {
  }

  lemma AllocTracks(r: Progress, id: nat, size: nat, live: map<nat, nat>, numIds: nat)
    requires r.At? && Tracks(r, live) && OpOk(Alloc(id, size), live, numIds)
    ensures Tracks(Follow(r, Alloc(id, size), live, numIds), Step(live, Alloc(id, size)))
  {
    hide ExplicitSpec.Inv, ExplicitSpec.Malloc, Asize;
    var (s', p) := ExplicitSpec.Malloc(r.s, size);
    if p != NULL {
      ExplicitSpec.MallocGrants(r.s, size);
      NoLeak(r.s.t, s'.t, r.blocks, id, p);
    }
  }

  lemma ReallocTracks(r: Progress, id: nat, size: nat, live: map<nat, nat>, numIds: nat)
    requires r.At? && Tracks(r, live) && OpOk(Op.Realloc(id, size), live, numIds)
    ensures Tracks(Follow(r, Op.Realloc(id, size), live, numIds), Step(live, Op.Realloc(id, size)))
  {
    hide ExplicitSpec.Inv, ExplicitSpec.Malloc, ExplicitSpec.Realloc;
    ExplicitSpec.ReallocOk(r.s, r.blocks[id], size);
    var (s', p) := ExplicitSpec.Realloc(r.s, r.blocks[id], size);
    if p != NULL {
      NoLeak(r.s.t, s'.t, r.blocks, id, p);
    }
  }

  lemma FreeTracks(r: Progress, id: nat, live: map<nat, nat>, numIds: nat)
    requires r.At? && Tracks(r, live) && OpOk(Op.Free(id), live, numIds)
    ensures Tracks(Follow(r, Op.Free(id), live, numIds), Step(live, Op.Free(id)))
  {
    hide ExplicitSpec.Inv, ExplicitSpec.Free;
    ExplicitSpec.FreeOk(r.s, r.blocks[id]);
    var t', b' := ExplicitSpec.Free(r.s, r.blocks[id]).t, r.blocks - {id};
    forall q: nat | IsLive(t', ExplicitSpec.FLOOR, q)
      ensures exists i {:trigger b'[i]} :: i in b' && b'[i] == q
    {
      assert IsLive(r.s.t, ExplicitSpec.FLOOR, q) && q != r.blocks[id];
      var i :| i in r.blocks && r.blocks[i] == q;
      assert b'[i] == q;
    }
  }

  /** If each live block of t has an id, so has each one after p is granted to id. */
  lemma NoLeak(t: Tiles, t': Tiles, blocks: map<nat, nat>, id: nat, p: nat)
    requires forall q: nat :: IsLive(t', ExplicitSpec.FLOOR, q) && q != p ==>
               IsLive(t, ExplicitSpec.FLOOR, q) && (id in blocks ==> q != blocks[id])
    requires forall q: nat {:trigger IsLive(t, ExplicitSpec.FLOOR, q)} :: IsLive(t, ExplicitSpec.FLOOR, q) ==>
               exists i {:trigger blocks[i]} :: i in blocks && blocks[i] == q
    ensures var b' := blocks[id := p];
            forall q: nat {:trigger IsLive(t', ExplicitSpec.FLOOR, q)} :: IsLive(t', ExplicitSpec.FLOOR, q) ==>
              exists i {:trigger b'[i]} :: i in b' && b'[i] == q
  {
    var b' := blocks[id := p];
    forall q: nat | IsLive(t', ExplicitSpec.FLOOR, q)
      ensures exists i {:trigger b'[i]} :: i in b' && b'[i] == q
    {
      if q == p {
        assert b'[id] == q;
      } else {
        assert IsLive(t, ExplicitSpec.FLOOR, q);
        var i :| i in blocks && blocks[i] == q;
        assert b'[i] == q;
      }
    }
  }

  lemma Prefixes(ops: seq<Op>, numIds: nat, n: nat)
    requires WellFormed(ops, numIds) && n <= |ops|
    ensures WellFormed(ops[..n], numIds)
  {
    forall i: nat | i < n
      ensures OpOk(ops[..n][i], Outstanding(ops[..n][..i]), numIds)
    {
      assert ops[..n][..i] == ops[..i];
      assert OpOk(ops[i], Outstanding(ops[..i]), numIds);
    }
  }

  /** mm_init, then all requests of ops */
  ghost function Replayed(ops: seq<Op>, numIds: nat): (r: Progress)
    requires WellFormed(ops, numIds)
    ensures Tracks(r, Outstanding(ops))
    decreases |ops|
  {
    if ops == [] then
      ExplicitSpec.InitialOk();
      At(ExplicitSpec.Initial(), map[])
    else
      var n := |ops| - 1;
      Prefixes(ops, numIds, n);
      assert OpOk(ops[n], Outstanding(ops[..n]), numIds);
      FollowTracks(Replayed(ops[..n], numIds), ops[n], Outstanding(ops[..n]), numIds);
      Follow(Replayed(ops[..n], numIds), ops[n], Outstanding(ops[..n]), numIds)
  }

  /** The requests up to number i, and then that one */
  lemma ReplaySnoc(ops: seq<Op>, numIds: nat, i: nat)
    requires WellFormed(ops, numIds) && i < |ops|
    ensures WellFormed(ops[..i], numIds) && WellFormed(ops[..i + 1], numIds)
    ensures OpOk(ops[i], Outstanding(ops[..i]), numIds)
    ensures Replayed(ops[..i + 1], numIds) == Follow(Replayed(ops[..i], numIds), ops[i], Outstanding(ops[..i]), numIds)
  {
    Prefixes(ops, numIds, i);
    Prefixes(ops, numIds, i + 1);
    assert OpOk(ops[i], Outstanding(ops[..i]), numIds);
    assert ops[..i + 1][..i] == ops[..i];
  }

  /** Once the driver has given up, it has given up for good. */
  lemma {:induction false} StaysStuck(ops: seq<Op>, numIds: nat, i: nat)
    requires WellFormed(ops, numIds) && i <= |ops| && WellFormed(ops[..i], numIds) && Replayed(ops[..i], numIds).Stuck?
    ensures Replayed(ops, numIds).Stuck?
    decreases |ops| - i
  {
    if i == |ops| {
      assert ops[..i] == ops;
    } else {
      ReplaySnoc(ops, numIds, i);
      StaysStuck(ops, numIds, i + 1);
    }
  }

  /** A request gets through exactly if it is a free, or asks for something and either some
      free block fits or the heap can still grow by max(asize, 4096). */
  lemma FollowsIff(r: Progress, op: Op, live: map<nat, nat>, numIds: nat)
    requires Tracks(r, live) && OpOk(op, live, numIds) && r.At?
    ensures Follow(r, op, live, numIds).At? <==>
            op.Free? || (op.size > 0 &&
                         (Fits(r.s.t, Asize(op.size)) || r.s.hi + GrowthFor(Asize(op.size)) <= MAX_HEAP))
  {
    hide ExplicitSpec.Inv, ExplicitSpec.Malloc, ExplicitSpec.Realloc, ExplicitSpec.Free, Asize, Fits;
    if !op.Free? {
      ExplicitSpec.MallocOutcome(r.s, op.size);
      if op.Realloc? {
        ExplicitSpec.ReallocOk(r.s, r.blocks[op.id], op.size);
      }
    }
  }

  // ----- the driver's arrays beside it -----

  /** The allocator is in state s and the driver's array has the blocks as replayed. */
  ghost predicate Matches(r: Progress, s: ExplicitSpec.State, blocks: seq<nat>, live: map<nat, nat>) {
    && r.At? && Tracks(r, live) && r.s == s
    && forall id {:trigger r.blocks[id]} {:trigger id in live} :: id in live ==> id < |blocks| && id in r.blocks && blocks[id] == r.blocks[id]
  }

  lemma AllocMatches(r: Progress, s: ExplicitSpec.State, s': ExplicitSpec.State, blocks: seq<nat>, live: map<nat, nat>,
                     numIds: nat, id: nat, size: nat, p: nat)
    requires Matches(r, s, blocks, live) && OpOk(Alloc(id, size), live, numIds) && ExplicitSpec.Inv(s)
    requires (s', p) == ExplicitSpec.Malloc(s, size)
    ensures Follow(r, Alloc(id, size), live, numIds).At? <==> p != NULL
    ensures p != NULL && id < |blocks| ==>
              Matches(Follow(r, Alloc(id, size), live, numIds), s', blocks[id := p], live[id := size])
  {
    hide ExplicitSpec.Inv, ExplicitSpec.Malloc, Tracks;
    FollowTracks(r, Alloc(id, size), live, numIds);
    if p != NULL && id < |blocks| {
      SameBlocks(r.blocks, blocks, live, id, p);
    }
  }

  lemma ReallocMatches(r: Progress, s: ExplicitSpec.State, s': ExplicitSpec.State, blocks: seq<nat>, live: map<nat, nat>,
                       numIds: nat, id: nat, size: nat, p: nat)
    requires Matches(r, s, blocks, live) && OpOk(Op.Realloc(id, size), live, numIds) && ExplicitSpec.Inv(s)
    requires IsLive(s.t, ExplicitSpec.FLOOR, blocks[id]) && (s', p) == ExplicitSpec.Realloc(s, blocks[id], size)
    ensures Follow(r, Op.Realloc(id, size), live, numIds).At? <==> p != NULL
    ensures p != NULL ==>
              Matches(Follow(r, Op.Realloc(id, size), live, numIds), s', blocks[id := p], live[id := size])
  {
    hide ExplicitSpec.Inv, ExplicitSpec.Realloc, Tracks;
    FollowTracks(r, Op.Realloc(id, size), live, numIds);
    if p != NULL {
      SameBlocks(r.blocks, blocks, live, id, p);
    }
  }

  lemma SameBlocks(tracked: map<nat, nat>, blocks: seq<nat>, live: map<nat, nat>, id: nat, p: nat)
    requires id < |blocks| && forall i {:trigger tracked[i]} {:trigger i in live} :: i in live ==> i < |blocks| && i in tracked && blocks[i] == tracked[i]
    ensures var t', b' := tracked[id := p], blocks[id := p];
            |b'| == |blocks| && forall i {:trigger t'[i]} {:trigger i in live} :: i in live || i == id ==> i < |b'| && i in t' && b'[i] == t'[i]
  {
  }

  lemma FreeMatches(r: Progress, s: ExplicitSpec.State, s': ExplicitSpec.State, blocks: seq<nat>, live: map<nat, nat>,
                    numIds: nat, id: nat)
    requires Matches(r, s, blocks, live) && OpOk(Op.Free(id), live, numIds) && ExplicitSpec.Inv(s)
    requires IsLive(s.t, ExplicitSpec.FLOOR, blocks[id]) && s' == ExplicitSpec.Free(s, blocks[id])
    ensures Matches(Follow(r, Op.Free(id), live, numIds), s', blocks, live - {id})
  {
    FollowTracks(r, Op.Free(id), live, numIds);
    hide ExplicitSpec.Inv, ExplicitSpec.Free, Tracks;
  }

  // ----- a bound that does not look at the heap -----

  /** By how much the requests of ops can make the heap grow at most. */
  ghost function Demand(ops: seq<Op>): nat {
    if ops == [] then 0
    else
      var op := ops[|ops| - 1];
      Demand(ops[..|ops| - 1]) + if op.Free? || op.size >= INT_SPAN then 0 else GrowthFor(Asize(op.size))
  }

  /** The heap is never larger than the first extension and that demand. */
  lemma {:induction false} HeapBounded(ops: seq<Op>, numIds: nat)
    requires WellFormed(ops, numIds) && AllNonEmpty(ops)
    requires ExplicitSpec.FLOOR + CHUNKSIZE + Demand(ops) <= MAX_HEAP
    ensures Replayed(ops, numIds).At? && Replayed(ops, numIds).s.hi <= ExplicitSpec.FLOOR + CHUNKSIZE + Demand(ops)
    decreases |ops|
  {
    hide Asize, Fits, ExplicitSpec.Initial, Follow;
    ExplicitSpec.InitialOk();
    if ops != [] {
      var n := |ops| - 1;
      ReplaySnoc(ops, numIds, n);
      assert ops[..n + 1] == ops;
      forall i | 0 <= i < n
        ensures NonEmpty(ops[..n][i])
      {
        assert NonEmpty(ops[i]);
      }
      assert NonEmpty(ops[n]);
      HeapBounded(ops[..n], numIds);
      FollowsIff(Replayed(ops[..n], numIds), ops[n], Outstanding(ops[..n]), numIds);
      FollowGrows(Replayed(ops[..n], numIds), ops[n], Outstanding(ops[..n]), numIds);
    }
  }

  lemma FollowGrows(r: Progress, op: Op, live: map<nat, nat>, numIds: nat)
    requires Tracks(r, live) && OpOk(op, live, numIds) && r.At? && Follow(r, op, live, numIds).At?
    ensures Follow(r, op, live, numIds).s.hi <= r.s.hi + if op.Free? then 0 else GrowthFor(Asize(op.size))
  {
    hide ExplicitSpec.Inv, ExplicitSpec.Malloc, ExplicitSpec.Free, Asize, Fits;
    match op {
      case Alloc(id, size) =>
        ExplicitSpec.MallocOutcome(r.s, size);
      case Realloc(id, size) =>
        ExplicitSpec.MallocOutcome(r.s, size);
        ExplicitSpec.ReallocOk(r.s, r.blocks[id], size);
        ExplicitSpec.MallocGrants(r.s, size);
        ExplicitSpec.FreeOk(ExplicitSpec.Malloc(r.s, size).0, r.blocks[id]);
      case Free(id) =>
        ExplicitSpec.FreeOk(r.s, r.blocks[id]);
    }
  }

  /** Two requests that the allocator serves and the driver refuses: the low byte of the id
      does not survive the comparison. */
  lemma SignedCharTrace() returns (ops: seq<Op>)
    ensures ops == [Alloc(128, 1), Op.Realloc(128, 1)] && WellFormed(ops, 129)
    ensures Replayed(ops, 129).At? && !AllPassable(ops)
  {
    ops := [Alloc(128, 1), Op.Realloc(128, 1)];
    assert ops[..0] == [] && ops[..1] == [Alloc(128, 1)];
    assert ops[..1][..0] == [];
    assert Outstanding(ops[..1]) == map[128 := 1];
    assert !Passable(ops[1]);
    assert Demand(ops[..1]) == 4096 && Demand(ops) == 8192;
    hide Replayed, Demand;
    HeapBounded(ops, 129);
  }
}

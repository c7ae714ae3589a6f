/** mdriver.c: the trace interpreter that checks the allocator of mm.c. */
module Driver {
  import opened Memory
  import opened AbstractHeap
  import opened Trace
  import opened Ranges
  import opened DriverSpec
  import Explicit
  import ExplicitSpec
  import Replay
  import Tiling
  import Tags

  class TraceDriver {
    const mm: Explicit.Allocator
    const ranges: RangeList
    const blocks: array<nat>
    const sizes: array<nat>
    const numIds: nat
    ghost var live: map<nat, nat>

    constructor (numIds: nat)
      ensures Separate() && ranges.Valid() && mm.mem.Valid() && !mm.mem.outOfMemory
      ensures this.numIds == numIds
    {
      var mem := new MemLib();
      mm := new Explicit.Allocator(mem);
      ranges := new RangeList();
      blocks := new nat[numIds];
      sizes := new nat[numIds];
      this.numIds := numIds;
      live := map[];
    }

    /** The driver's arrays, list nodes and the heap are different objects. */
    ghost predicate Separate()
      reads this, ranges
    {
      && blocks != sizes && blocks.Length == sizes.Length == numIds
      && {blocks, sizes} !! {mm.mem.data}
    }

    /** The allocator and the range list are each in order. */
    ghost predicate Ready()
      reads this, mm, mm.mem, mm.mem.data, ranges, ranges.nodes
    {
      Separate() && mm.Valid() && ranges.Valid()
    }

    ghost predicate Valid()
      reads this, mm, mm.mem, mm.mem.data, ranges, ranges.nodes, blocks, sizes
    {
      && Ready()
      && BookOk(live, blocks[..], sizes[..], C())
      && RangesOk(L(), C()) && Extents(L(), live, blocks[..])
    }

    /** The clients' heap */
    ghost function C(): AbstractHeap.Heap
      reads this, mm, mm.mem.data
    {
      mm.Heap()
    }

    /** The recorded extents */
    ghost function L(): seq<Range>
      reads this, ranges, ranges.nodes
    {
      ranges.Listed()
    }

    function Brk(): nat
      reads this, mm.mem
    {
      mm.mem.HeapSize()
    }

    ghost predicate OutOfMemory()
      reads this, mm.mem
    {
      mm.mem.outOfMemory
    }

    /** The allocator and the outstanding blocks are where the replay of the trace is. */
    ghost predicate Follows(r: Replay.Progress)
      reads this, mm, mm.mem, blocks
    {
      Replay.Matches(r, mm.St(), blocks[..], live)
    }

    /** What the books say about an outstanding id. */
    lemma Booked(id: nat)
      requires Valid() && id in live
      ensures id < numIds && blocks.Length == sizes.Length == numIds
      ensures sizes[id] == live[id] && Recorded(C(), id, blocks[id], live[id])
    {
    }

    /** What is left to do after a block was granted, checked and filled. */
    method Remember(id: nat, p: nat, size: nat)
      requires Ready() && id < numIds
      requires BookOk(live[id := size], blocks[..][id := p], sizes[..][id := size], C())
      requires RangesOk(L(), C()) && Extents(L(), live[id := size], blocks[..][id := p])
      modifies `live, blocks, sizes
      ensures Valid() && live == old(live)[id := size] && blocks[..] == old(blocks[..])[id := p]
    {
      hide BookOk, RangesOk, Extents, Explicit.Allocator.Valid;
      ghost var b, s := blocks[..], sizes[..];
      blocks[id] := p;
      sizes[id] := size;
      live := live[id := size];
      assert blocks[..] == b[id := p] && sizes[..] == s[id := size];
    }

    /** case ALLOC: the calls of mm_malloc and add_range */
    method Grant(id: nat, size: nat) returns (p: nat)
      requires Valid()
      requires OpOk(Op.Alloc(id, size), live, numIds)
      modifies mm, mm.mem, mm.mem.data, ranges
      ensures OutOfMemory() == (old(OutOfMemory()) || (p == NULL && size != 0)) && (size == 0 ==> p == NULL)
      ensures p != NULL ==>
                && Ready()
                && MallocStep(old(C()), C(), size, p)
                && RangesOk(L(), C()) && L() == [Extent(p, size)] + old(L())
      ensures (mm.St(), p) == ExplicitSpec.Malloc(old(mm.St()), size)
      ensures forall i :: 0 <= i < |ranges.nodes| ==> ranges.nodes[i] in old(ranges.nodes) || fresh(ranges.nodes[i])
    {
      hide ExplicitSpec.Malloc, ExplicitSpec.Inv, ExplicitSpec.Partial, Explicit.Holds, Tags.KeepsLive, Explicit.Allocator.Valid;
      p := mm.Malloc(size);
      if p == NULL {
        return;
      }
      var added := RecordRange(old(C()), p, size);
      if !added {
        p := NULL;
      }
    }

    /** case ALLOC */
    method DoAlloc(id: nat, size: nat, ghost r: Replay.Progress) returns (ok: bool)
      requires Valid() && Follows(r)
      requires OpOk(Op.Alloc(id, size), live, numIds)
      modifies this`live, mm, mm.mem, mm.mem.data, ranges, blocks, sizes
      ensures if ok then Passable(Op.Alloc(id, size)) && OutOfMemory() == old(OutOfMemory()) else Passable(Op.Alloc(id, size)) ==> OutOfMemory()
      ensures Replay.Tracks(r, old(live)) && (ok <==> Replay.Follow(r, Op.Alloc(id, size), old(live), numIds).At?)
      ensures ok ==> Follows(Replay.Follow(r, Op.Alloc(id, size), old(live), numIds))
      ensures ok ==> Valid() && live == Step(old(live), Op.Alloc(id, size))
      ensures forall i :: 0 <= i < |ranges.nodes| ==> ranges.nodes[i] in old(ranges.nodes) || fresh(ranges.nodes[i])
    {
      hide Explicit.Allocator.Valid, Explicit.Allocator.Heap, RangesOk, BookOk, Extents, RangeList.Valid, RangeList.Listed, FillStep,
        Replay.Tracks, Replay.Follow, ExplicitSpec.Malloc, ExplicitSpec.Inv;
      ghost var c, s, l, b, rs := C(), mm.St(), live, blocks[..], L();
      mm.StateOk();
      var p := Grant(id, size);
      Replay.AllocMatches(r, s, mm.St(), b, l, numIds, id, size, p);
      if p == NULL {
        return false;
      }
      ghost var c1 := C();
      mm.Memset(p, id % 0x100, size);
      AllocBook(live, blocks[..], sizes[..], c, c1, C(), id, size, p);
      ExtentsAdd(rs, live, b, id, p, size);
      FillKeepsRanges(L(), c1, C(), p, id % 0x100, size);
      Remember(id, p, size);
      ok := true;
    }

    /** The bytes as the comparison newp[j] != (index & 0xFF) sees them, plain char being signed. */
    static function SignedChar(b: Byte): int {
      if b < 0x80 then b else b - 0x100
    }

    /** case REALLOC: the loop that compares the first n bytes of the new block */
    method SameData(newp: nat, n: nat, id: nat) returns (same: bool)
      requires newp + n <= mm.mem.data.Length
      ensures same <==> forall j :: newp <= j < newp + n ==> SignedChar(mm.mem.data[j]) == id % 0x100
    {
      for j := 0 to n
        invariant forall i :: newp <= i < newp + j ==> SignedChar(mm.mem.data[i]) == id % 0x100
      {
        if SignedChar(mm.mem.data[newp + j]) != id % 0x100 {
          return false;
        }
      }
      same := true;
    }

    /** case REALLOC: the calls of mm_realloc, remove_range and add_range */
    method Regrant(id: nat, size: nat) returns (newp: nat)
      requires Valid()
      requires OpOk(Op.Realloc(id, size), live, numIds)
      modifies mm, mm.mem, mm.mem.data, ranges, ranges.nodes
      ensures OutOfMemory() == (old(OutOfMemory()) || (newp == NULL && size != 0)) && (size == 0 ==> newp == NULL)
      ensures newp != NULL ==>
                && Ready()
                && ReallocStep(old(C()), C(), blocks[id], size, newp)
                && RangesOk(L(), C()) && L() == [Extent(newp, size)] + RemoveFirst(old(L()), blocks[id])
      ensures Tiling.IsLive(old(mm.t), ExplicitSpec.FLOOR, blocks[id])
      ensures (mm.St(), newp) == ExplicitSpec.Realloc(old(mm.St()), blocks[id], size)
      ensures forall i :: 0 <= i < |ranges.nodes| ==> ranges.nodes[i] in old(ranges.nodes) || fresh(ranges.nodes[i])
    {
      hide Explicit.Allocator.Valid, Explicit.Allocator.Heap, RangeList.Valid, RangeList.Listed, BookOk, RangesOk, Extents, RemoveFirst, ReallocStep,
        ExplicitSpec.Realloc, ExplicitSpec.Inv, Tiling.IsLive;
      ghost var c := C();
      Booked(id);
      DropRange(L(), c, blocks[id]);
      var oldp := blocks[id];
      newp := MoveBlock(oldp, size);
      if newp == NULL {
        return;
      }
      ReallocPlaces(c, C(), oldp, size, newp);
      ForgetRange(oldp);
      var added := RecordRange(c - {oldp}, newp, size);
      if !added {
        newp := NULL;
      }
    }

    /** The call of mm_realloc */
    method MoveBlock(oldp: nat, size: nat) returns (newp: nat)
      requires Ready()
      requires oldp in C() && size < INT_SPAN
      modifies mm, mm.mem, mm.mem.data
      ensures Ready() && L() == old(L())
      ensures Tiling.IsLive(old(mm.t), ExplicitSpec.FLOOR, oldp)
      ensures (mm.St(), newp) == ExplicitSpec.Realloc(old(mm.St()), oldp, size)
      ensures OutOfMemory() == (old(OutOfMemory()) || (newp == NULL && size != 0)) && (size == 0 ==> newp == NULL)
      ensures ReallocStep(old(C()), C(), oldp, size, newp) && old(Brk()) <= Brk()
    {
      hide Explicit.Allocator.Valid, Explicit.Allocator.Heap, ExplicitSpec.Realloc, ReallocStep, Tiling.IsLive, RangeList.Valid, RangeList.Listed;
      mm.InHeapIsLive(oldp);
      newp := mm.Realloc(oldp, size);
    }

    /** The call of remove_range */
    method ForgetRange(p: nat)
      requires Ready()
      modifies ranges, ranges.nodes
      ensures Ready() && C() == old(C())
      ensures L() == RemoveFirst(old(L()), p)
      ensures forall i :: 0 <= i < |ranges.nodes| ==> ranges.nodes[i] in old(ranges.nodes)
    {
      hide Explicit.Allocator.Valid;
      ranges.RemoveRange(p);
    }

    /** The call of add_range for a block that was not there in c */
    method RecordRange(ghost c: AbstractHeap.Heap, p: nat, size: nat) returns (added: bool)
      requires Ready() && RangesOk(L(), c)
      requires p in C() && p !in c && C() - {p} == c && 0 < size <= |C()[p]|
      modifies ranges
      ensures added && Ready() && C() == old(C())
      ensures RangesOk(L(), C()) && L() == [Extent(p, size)] + old(L())
      ensures |ranges.nodes| > 0 && fresh(ranges.nodes[0]) && ranges.nodes[1..] == old(ranges.nodes)
    {
      hide Explicit.Allocator.Valid, Explicit.Allocator.Heap, RangeList.Valid, RangeList.Listed, RangesOk, WellPlaced;
      mm.PayloadsPlaced();
      NewRange(L(), c, C(), mm.mem.brk, p, size);
      added := ranges.AddRange(p, size, mm.mem.HeapSize());
    }

    /** case REALLOC */
    method DoRealloc(id: nat, size: nat, ghost r: Replay.Progress) returns (ok: bool)
      requires Valid() && Follows(r)
      requires OpOk(Op.Realloc(id, size), live, numIds)
      modifies this`live, mm, mm.mem, mm.mem.data, ranges, ranges.nodes, blocks, sizes
      ensures if ok then Passable(Op.Realloc(id, size)) && OutOfMemory() == old(OutOfMemory()) else Passable(Op.Realloc(id, size)) ==> OutOfMemory()
      ensures Replay.Tracks(r, old(live))
      ensures ok <==> Passable(Op.Realloc(id, size)) && Replay.Follow(r, Op.Realloc(id, size), old(live), numIds).At?
      ensures ok ==> Follows(Replay.Follow(r, Op.Realloc(id, size), old(live), numIds))
      ensures ok ==> Valid() && live == Step(old(live), Op.Realloc(id, size))
      ensures forall i :: 0 <= i < |ranges.nodes| ==> ranges.nodes[i] in old(ranges.nodes) || fresh(ranges.nodes[i])
    {
      hide Explicit.Allocator.Valid, Explicit.Allocator.Heap, RangeList.Valid, RangeList.Listed, RangesOk, BookOk, Extents, Distinct, RemoveFirst, ReallocStep, FillStep,
        Replay.Tracks, Replay.Follow, ExplicitSpec.Realloc, ExplicitSpec.Inv;
      ghost var c, s, l, b, rs := C(), mm.St(), live, blocks[..], L();
      Booked(id);
      mm.StateOk();
      BooksApart(live, b, sizes[..], rs, c);
      var newp := Regrant(id, size);
      Replay.ReallocMatches(r, s, mm.St(), b, l, numIds, id, size, newp);
      if newp == NULL {
        return false;
      }
      ghost var c1 := C();
      MovedBytes(c, id, blocks[id], live[id], size, newp);
      var oldsize := sizes[id];
      if size < oldsize {
        oldsize := size;
      }
      var same := SameData(newp, oldsize, id);
      if !same {
        return false;
      }
      assert SignedChar(mm.mem.data[newp]) == id % 0x100;
      mm.Memset(newp, id % 0x100, size);
      ReallocBook(live, blocks[..], sizes[..], c, c1, C(), id, size, newp);
      ExtentsMove(rs, live, b, id, newp, size);
      FillKeepsRanges(L(), c1, C(), newp, id % 0x100, size);
      Remember(id, newp, size);
      ok := true;
    }

    /** case FREE */
    method DoFree(id: nat, ghost r: Replay.Progress)
      requires Valid() && OpOk(Op.Free(id), live, numIds) && Follows(r)
      modifies this`live, mm, mm.mem.data, ranges, ranges.nodes
      ensures Valid() && live == Step(old(live), Op.Free(id))
      ensures Replay.Tracks(r, old(live)) && Follows(Replay.Follow(r, Op.Free(id), old(live), numIds))
      ensures forall i :: 0 <= i < |ranges.nodes| ==> ranges.nodes[i] in old(ranges.nodes) || fresh(ranges.nodes[i])
    {
      hide Explicit.Allocator.Valid, Explicit.Allocator.Heap, RangeList.Valid, RangeList.Listed, RangesOk, BookOk, Extents, Distinct, RemoveFirst,
        Replay.Tracks, Replay.Follow, ExplicitSpec.Free, ExplicitSpec.Inv;
      ghost var s, l := mm.St(), live;
      Booked(id);
      mm.StateOk();
      BooksApart(live, blocks[..], sizes[..], L(), C());
      FreeBook(live, blocks[..], sizes[..], C(), id);
      DropRange(L(), C(), blocks[id]);
      ExtentsDrop(L(), live, blocks[..], id);
      var p := blocks[id];
      ForgetRange(p);
      ReleaseBlock(p);
      Replay.FreeMatches(r, s, mm.St(), blocks[..], l, numIds, id);
      live := live - {id};
    }

    /** The call of mm_free */
    method ReleaseBlock(p: nat)
      requires Ready() && p in C()
      modifies mm, mm.mem.data
      ensures Ready() && L() == old(L())
      ensures Tiling.IsLive(old(mm.t), ExplicitSpec.FLOOR, p) && mm.St() == ExplicitSpec.Free(old(mm.St()), p)
      ensures FreeStep(old(C()), C(), p)
    {
      hide Explicit.Allocator.Valid, Explicit.Allocator.Heap, ExplicitSpec.Free, FreeStep, Tags.KeepsLive, Tiling.IsLive, RangeList.Valid, RangeList.Listed;
      mm.InHeapIsLive(p);
      mm.Free(p);
    }

    /** eval_mm_valid: 1 if the allocator passed, else 0.  It passes exactly when every
        request is one the driver can get past and the allocator, replayed on the trace,
        never returns NULL, that is, when sbrk never failed. */
    method EvalMmValid(ops: seq<Op>) returns (r: int)
      requires Separate() && mm.mem.Valid() && ranges.Valid()
      requires WellFormed(ops, numIds)
      modifies this, mm, mm.mem, mm.mem.data, ranges, ranges.nodes, blocks, sizes
      ensures r == 0 || r == 1
      ensures r == 1 <==> AllPassable(ops) && Replay.Replayed(ops, numIds).At?
      ensures !old(OutOfMemory()) ==> (r == 1 <==> AllPassable(ops) && !OutOfMemory())
    {
      hide Explicit.Allocator.Valid, BookOk, RangesOk, Extents, Passable, OpOk, Ready, AllPassable, Outstanding, Follows,
        Replay.Follow, Replay.Replayed, Replay.Tracks;
      var inited := Start();
      if inited < 0 {
        return 0;
      }
      NothingYet(ops);
      for i := 0 to |ops|
        invariant Valid() && OutOfMemory() == old(OutOfMemory()) && WellFormed(ops[..i], numIds)
        invariant live == Outstanding(ops[..i]) && AllPassable(ops[..i])
        invariant Follows(Replay.Replayed(ops[..i], numIds))
        invariant fresh(ranges.nodes)
      {
        OutstandingSnoc(ops, i);
        PassableSnoc(ops, i);
        Replay.ReplaySnoc(ops, numIds, i);
        var ok := DoOp(ops[i], Replay.Replayed(ops[..i], numIds));
        if !ok {
          GivesUp(ops, i);
          return 0;
        }
      }
      assert ops[..|ops|] == ops;
      Arrived(Replay.Replayed(ops, numIds));
      r := 1;
    }

    lemma Arrived(r: Replay.Progress)
      requires Follows(r)
      ensures r.At? && r.s.hi == Brk()
    {
    }

    /** A request that does not get through is the end of the trace. */
    lemma GivesUp(ops: seq<Op>, i: nat)
      requires WellFormed(ops, numIds) && i < |ops| && WellFormed(ops[..i + 1], numIds)
      requires !(Passable(ops[i]) && Replay.Replayed(ops[..i + 1], numIds).At?)
      ensures !(AllPassable(ops) && Replay.Replayed(ops, numIds).At?)
    {
      hide Replay.Replayed;
      if Passable(ops[i]) {
        Replay.StaysStuck(ops, numIds, i + 1);
      }
    }

    /** The heap, the range list and the allocator are set up afresh. */
    method Start() returns (r: int)
      requires Separate() && mm.mem.Valid() && ranges.Valid()
      modifies this, mm, mm.mem, mm.mem.data, ranges, ranges.nodes
      ensures r == 0 && Ready() && OutOfMemory() == old(OutOfMemory()) && 0 < Brk() && L() == [] && ranges.nodes == [] && live == map[]
      ensures mm.St() == ExplicitSpec.Initial()
    {
      hide Explicit.Allocator.Valid;
      live := map[];
      mm.mem.ResetBrk();
      ranges.ClearRanges();
      r := mm.Init();
    }

    /** The switch over the request type */
    method DoOp(op: Op, ghost r: Replay.Progress) returns (ok: bool)
      requires Valid() && OpOk(op, live, numIds) && Follows(r)
      modifies this`live, mm, mm.mem, mm.mem.data, ranges, ranges.nodes, blocks, sizes
      ensures if ok then Passable(op) && OutOfMemory() == old(OutOfMemory()) else Passable(op) ==> OutOfMemory()
      ensures Replay.Tracks(r, old(live))
      ensures ok <==> Passable(op) && Replay.Follow(r, op, old(live), numIds).At?
      ensures ok ==> Valid() && live == Step(old(live), op) && Follows(Replay.Follow(r, op, old(live), numIds))
      ensures forall i :: 0 <= i < |ranges.nodes| ==> ranges.nodes[i] in old(ranges.nodes) || fresh(ranges.nodes[i])
    {
      hide Explicit.Allocator.Valid, BookOk, RangesOk, Extents, Ready, Replay.Tracks, Replay.Follow;
      match op {
        case Alloc(id, size) => ok := DoAlloc(id, size, r);
        case Realloc(id, size) => ok := DoRealloc(id, size, r);
        case Free(id) => DoFree(id, r); ok := true;
      }
    }

    lemma NothingYet(ops: seq<Op>)
      requires live == map[] && Ready() && L() == [] && mm.St() == ExplicitSpec.Initial()
      ensures Valid() && live == Outstanding(ops[..0]) && AllPassable(ops[..0])
      ensures WellFormed(ops[..0], numIds) && Follows(Replay.Replayed(ops[..0], numIds))
    {
      hide Explicit.Allocator.Valid;
    }

    // ----- eval_mm_util -----

    /** The state of eval_mm_util between requests. */
    ghost predicate UtilValid()
      reads this, mm, mm.mem, mm.mem.data, ranges, ranges.nodes, blocks, sizes
    {
      Ready() && PlacedBook(live, blocks[..], sizes[..], C())
    }

    /** case ALLOC of eval_mm_util */
    method UtilAlloc(id: nat, size: nat, ghost r: Replay.Progress) returns (ok: bool)
      requires UtilValid() && OpOk(Op.Alloc(id, size), live, numIds) && Follows(r)
      modifies this`live, mm, mm.mem, mm.mem.data, blocks, sizes
      ensures if ok then size > 0 && OutOfMemory() == old(OutOfMemory()) else size > 0 ==> OutOfMemory()
      ensures old(Brk()) <= Brk()
      ensures ok ==> UtilValid() && live == old(live)[id := size]
      ensures Replay.Tracks(r, old(live)) && (ok <==> Replay.Follow(r, Op.Alloc(id, size), old(live), numIds).At?)
      ensures ok ==> Follows(Replay.Follow(r, Op.Alloc(id, size), old(live), numIds))
    {
      hide Explicit.Allocator.Valid, Explicit.Allocator.Heap, PlacedBook, Replay.Tracks, Replay.Follow, ExplicitSpec.Malloc, ExplicitSpec.Inv;
      ghost var c, s, l, b := C(), mm.St(), live, blocks[..];
      mm.StateOk();
      var p := NewBlock(size);
      Replay.AllocMatches(r, s, mm.St(), b, l, numIds, id, size, p);
      if p == NULL {
        return false;
      }
      PlacedAlloc(live, blocks[..], sizes[..], c, C(), id, size, p);
      UtilRemember(id, p, size);
      ok := true;
    }

    method UtilRemember(id: nat, p: nat, size: nat)
      requires Ready() && id < numIds
      requires PlacedBook(live[id := size], blocks[..][id := p], sizes[..][id := size], C())
      modifies `live, blocks, sizes
      ensures UtilValid() && live == old(live)[id := size] && blocks[..] == old(blocks[..])[id := p]
    {
      hide PlacedBook, Explicit.Allocator.Valid;
      ghost var b, s := blocks[..], sizes[..];
      blocks[id] := p;
      sizes[id] := size;
      live := live[id := size];
      assert blocks[..] == b[id := p] && sizes[..] == s[id := size];
    }

    /** The call of mm_malloc */
    method NewBlock(size: nat) returns (p: nat)
      requires Ready() && size < INT_SPAN
      modifies mm, mm.mem, mm.mem.data
      ensures Ready() && (mm.St(), p) == ExplicitSpec.Malloc(old(mm.St()), size)
      ensures OutOfMemory() == (old(OutOfMemory()) || (p == NULL && size != 0)) && (size == 0 ==> p == NULL)
      ensures MallocStep(old(C()), C(), size, p) && old(Brk()) <= Brk()
    {
      hide Explicit.Allocator.Valid, Explicit.Allocator.Heap, ExplicitSpec.Malloc, MallocStep, Tags.KeepsLive, RangeList.Valid, RangeList.Listed;
      p := mm.Malloc(size);
    }

    lemma UtilBooked(id: nat)
      requires UtilValid() && id in live
      ensures id < numIds && blocks.Length == sizes.Length == numIds
      ensures sizes[id] == live[id] && Fits(C(), blocks[id], live[id])
    {
    }

    /** case REALLOC of eval_mm_util */
    method UtilRealloc(id: nat, size: nat, ghost r: Replay.Progress) returns (ok: bool)
      requires UtilValid() && OpOk(Op.Realloc(id, size), live, numIds) && Follows(r)
      modifies this`live, mm, mm.mem, mm.mem.data, blocks, sizes
      ensures if ok then size > 0 && OutOfMemory() == old(OutOfMemory()) else size > 0 ==> OutOfMemory()
      ensures old(Brk()) <= Brk()
      ensures ok ==> UtilValid() && live == old(live)[id := size]
      ensures Replay.Tracks(r, old(live)) && (ok <==> Replay.Follow(r, Op.Realloc(id, size), old(live), numIds).At?)
      ensures ok ==> Follows(Replay.Follow(r, Op.Realloc(id, size), old(live), numIds))
    {
      hide Explicit.Allocator.Valid, Explicit.Allocator.Heap, PlacedBook, ReallocStep,
        Replay.Tracks, Replay.Follow, ExplicitSpec.Realloc, ExplicitSpec.Inv;
      ghost var c, s, l, b := C(), mm.St(), live, blocks[..];
      UtilBooked(id);
      mm.StateOk();
      var newp := MoveBlock(blocks[id], size);
      Replay.ReallocMatches(r, s, mm.St(), b, l, numIds, id, size, newp);
      if newp == NULL {
        return false;
      }
      PlacedRealloc(live, blocks[..], sizes[..], c, C(), id, size, newp);
      UtilRemember(id, newp, size);
      ok := true;
    }

    /** case FREE of eval_mm_util */
    method UtilFree(id: nat, ghost r: Replay.Progress)
      requires UtilValid() && OpOk(Op.Free(id), live, numIds) && Follows(r)
      modifies this`live, mm, mm.mem.data
      ensures UtilValid() && live == old(live) - {id}
      ensures Replay.Tracks(r, old(live)) && Follows(Replay.Follow(r, Op.Free(id), old(live), numIds))
    {
      hide Explicit.Allocator.Valid, Explicit.Allocator.Heap, PlacedBook, Replay.Tracks, Replay.Follow, ExplicitSpec.Free, ExplicitSpec.Inv;
      ghost var s, l := mm.St(), live;
      UtilBooked(id);
      mm.StateOk();
      PlacedFree(live, blocks[..], sizes[..], C(), id);
      var p := blocks[id];
      ReleaseBlock(p);
      Replay.FreeMatches(r, s, mm.St(), blocks[..], l, numIds, id);
      live := live - {id};
    }

    /** The outstanding requests fit below the break. */
    lemma UtilFits()
      requires UtilValid()
      ensures Total(live) <= mm.mem.brk <= MAX_HEAP
    {
      mm.PayloadsPlaced();
      DemandFits(live, blocks[..], sizes[..], C(), mm.mem.brk);
    }

    /** The switch of eval_mm_util, with the running totals. */
    method UtilOp(op: Op, total: int, maxTotal: int, ghost r: Replay.Progress) returns (ok: bool, total': int, maxTotal': int)
      requires UtilValid() && OpOk(op, live, numIds) && Follows(r)
      requires total == Total(live)
      modifies this`live, mm, mm.mem, mm.mem.data, blocks, sizes
      ensures if ok then NonEmpty(op) && OutOfMemory() == old(OutOfMemory()) else NonEmpty(op) ==> OutOfMemory()
      ensures Replay.Tracks(r, old(live)) && (ok <==> Replay.Follow(r, op, old(live), numIds).At?)
      ensures ok ==> UtilValid() && live == Step(old(live), op) && Follows(Replay.Follow(r, op, old(live), numIds))
      ensures ok ==> total' == Total(live) && maxTotal' == (if op.Free? then maxTotal else Max(total', maxTotal))
      ensures old(Brk()) <= Brk()
    {
      hide Explicit.Allocator.Valid, UtilValid, Replay.Tracks, Follows, ExplicitSpec.Malloc, ExplicitSpec.Realloc;
      Arrived(r);
      TotalStep(live, op, numIds);
      total', maxTotal' := total, maxTotal;
      match op {
        case Alloc(id, size) =>
          ok := UtilAlloc(id, size, r);
          if ok {
            total' := total + size;
            maxTotal' := Max(total', maxTotal);
          }
        case Realloc(id, newsize) =>
          var oldsize := OldSize(id);
          ok := UtilRealloc(id, newsize, r);
          if ok {
            total' := total + (newsize - oldsize);
            maxTotal' := Max(total', maxTotal);
          }
        case Free(id) =>
          var size := OldSize(id);
          UtilFree(id, r);
          total' := total - size;
          ok := true;
      }
    }

    /** trace->block_sizes[id] */
    method OldSize(id: nat) returns (size: nat)
      requires UtilValid() && id in live
      ensures size == live[id]
    {
      hide Explicit.Allocator.Valid, Ready;
      UtilBooked(id);
      size := sizes[id];
    }

    static function Max(x: int, y: int): int {
      if x > y then x else y
    }

    /** eval_mm_util: the peak demand over the heap size, unless a request fails and the
        driver gives up.  It never exceeds 1, and no total leaves the heap's size. */
    method EvalMmUtil(ops: seq<Op>) returns (ok: bool, util: real)
      requires Separate() && mm.mem.Valid() && ranges.Valid()
      requires WellFormed(ops, numIds)
      modifies this, mm, mm.mem, mm.mem.data, ranges, ranges.nodes, blocks, sizes
      ensures ok <==> Replay.Replayed(ops, numIds).At?
      ensures !old(OutOfMemory()) ==> (ok <==> AllNonEmpty(ops) && !OutOfMemory())
      ensures ok ==> Brk() == Replay.Replayed(ops, numIds).s.hi
      ensures ok ==> 0 < Brk() <= MAX_HEAP && Peak(ops) <= Brk() && util == Peak(ops) as real / Brk() as real
      ensures ok ==> 0.0 <= util <= 1.0
    {
      hide Explicit.Allocator.Valid, UtilValid, OpOk, Outstanding, Total, Peak, AllNonEmpty, NonEmpty, Follows,
        Replay.Follow, Replay.Replayed, Replay.Tracks;
      var inited := Start();
      UtilNothingYet(ops);
      var totalSize, maxTotalSize := 0, 0;
      for i := 0 to |ops|
        invariant UtilValid() && OutOfMemory() == old(OutOfMemory()) && 0 < Brk() && WellFormed(ops[..i], numIds)
        invariant Follows(Replay.Replayed(ops[..i], numIds))
        invariant live == Outstanding(ops[..i])
        invariant totalSize == Total(live) && maxTotalSize == Peak(ops[..i])
        invariant totalSize <= maxTotalSize <= Brk()
        invariant AllNonEmpty(ops[..i])
      {
        OutstandingSnoc(ops, i);
        PeakStep(ops, i, numIds);
        NonEmptySnoc(ops, i);
        Replay.ReplaySnoc(ops, numIds, i);
        ok, totalSize, maxTotalSize := UtilOp(ops[i], totalSize, maxTotalSize, Replay.Replayed(ops[..i], numIds));
        if !ok {
          Replay.StaysStuck(ops, numIds, i + 1);
          return false, 0.0;
        }
        UtilFits();
      }
      assert ops[..|ops|] == ops;
      UtilFits();
      Arrived(Replay.Replayed(ops, numIds));
      ok := true;
      util := maxTotalSize as real / Brk() as real;
      RatioAtMostOne(maxTotalSize, Brk());
    }

    lemma UtilNothingYet(ops: seq<Op>)
      requires live == map[] && Ready() && mm.St() == ExplicitSpec.Initial()
      ensures WellFormed(ops[..0], numIds) && Follows(Replay.Replayed(ops[..0], numIds))
      ensures UtilValid() && live == Outstanding(ops[..0]) && Total(live) == 0 && Peak(ops[..0]) == 0
      ensures AllNonEmpty(ops[..0])
    {
      hide Explicit.Allocator.Valid;
    }

    /** After the move the old data, the low byte of the id, lies at q. */
    lemma MovedBytes(c: AbstractHeap.Heap, id: nat, p: nat, n: nat, size: nat, q: nat)
      requires Ready() && Recorded(c, id, p, n) && ReallocStep(c, C(), p, size, q) && q != NULL
      ensures q in C() && size <= |C()[q]| && q + size <= mm.mem.data.Length
      ensures forall a :: q <= a < q + n && a < q + size ==> mm.mem.data[a] == id % 0x100
    {
      RegrantKeepsData(c, C(), id, p, n, size, q);
      mm.InHeapIsLive(q);
      mm.PayloadsPlaced();
      forall a | q <= a < q + n && a < q + size
        ensures mm.mem.data[a] == id % 0x100
      {
        assert C()[q][a - q] == mm.mem.data[a];
      }
    }
  }

  /** The first bytes of the moved block still carry the id. */
  lemma RegrantKeepsData(c: AbstractHeap.Heap, c1: AbstractHeap.Heap, id: nat, p: nat, n: nat, size: nat, q: nat)
    requires Recorded(c, id, p, n) && ReallocStep(c, c1, p, size, q) && q != NULL
    ensures q in c1 && size <= |c1[q]|
    ensures forall j :: 0 <= j < n && j < size ==> c1[q][j] == id % 0x100
  {
    var k := AbstractHeap.Min(size, |c[p]|);
    forall j | 0 <= j < n && j < size
      ensures c1[q][j] == id % 0x100
    {
      assert c1[q][j] == c1[q][..k][j] == c[p][..k][j] == c[p][j];
    }
  }

  lemma FillKeepsRanges(rs: seq<Range>, c: AbstractHeap.Heap, c': AbstractHeap.Heap, p: nat, v: Byte, n: nat)
    requires RangesOk(rs, c) && FillStep(c, c', p, v, n)
    ensures RangesOk(rs, c')
  {
    FillRange(rs, c, c', p);
  }

  lemma RatioAtMostOne(x: nat, y: nat)
    requires x <= y && 0 < y
    ensures 0.0 <= x as real / y as real <= 1.0
  {
  }

  lemma ReallocPlaces(c: AbstractHeap.Heap, c1: AbstractHeap.Heap, p: nat, size: nat, q: nat)
    requires ReallocStep(c, c1, p, size, q) && q != NULL
    ensures q in c1 && q !in c - {p} && c1 - {q} == c - {p} && size <= |c1[q]|
  {
  }
}

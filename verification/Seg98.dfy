/** (98)정리.c: 20 size classes, placement from either side, growth in place. */
module Seg98 {
  import opened Memory
  import opened Tiling
  import opened Tags
  import opened Links
  import opened SizeClasses
  import opened SegLists
  import opened SegSpec
  import opened SegPlace
  import opened SegHeap
  import opened Seg98Spec
  import SegLaw
  import Seg98Law
  import opened Requests
  import opened Contents
  import opened AbstractHeap

  class Allocator {
    const h: SegregatedHeap

    /** A list runs along PRED, the word at ptr; SUCC, the word at ptr + WSIZE, runs back. */
    constructor (mem: MemLib)
      ensures h.mem == mem && h.index.mem == mem && h.index.Shaped() && fresh(h) && fresh(h.index) && fresh(h.index.roots)
    {
      h := new SegregatedHeap(mem, 0, 4);
    }

    ghost predicate Valid()
      reads h, h.mem, h.mem.data, h.index, h.index.roots
    {
      h.Valid() && Inv(h.St())
    }

    ghost function St(): State
      reads h, h.mem, h.index
    {
      h.St()
    }

    /** The bytes behind each live pointer. */
    ghost function Heap(): AbstractHeap.Heap
      reads h, h.mem.data
    {
      ContentsOf(h.mem.data[..], h.t, FLOOR)
    }

    /** coalesce: ptr is free and already on its list; s is the state without it there. */
    method Coalesce(ptr: nat, ghost s: State) returns (r: nat)
      requires Partial(s, {ptr}) && FreeAt(s.t, ptr) && NoAdjacentFreeBut(s.t, ptr) && |s.lists| == LISTLIMIT
      requires h.Consistent({}) && h.St() == s.(lists := Put(s.lists, ptr, s.t[ptr].size))
      modifies h, h.index, h.index.roots, h.mem.data
      ensures FLOOR <= ptr
      ensures Valid() && St() == SegSpec.Coalesce(s, ptr) && r == CoalescedAt(s, ptr)
      ensures KeepsLive(old(h.mem.data[..]), h.mem.data[..], s.t, FLOOR)
    {
      hide GetWord, Tiled, Sorted, Threaded, Inv, Take, Put, KeepsLive, NoAdjacentFree, TaggedBut;
      ghost var m := h.mem.data[..];
      CoalesceInv(s, ptr);
      TakeBack(s, ptr);
      var prevAlloc, nextAlloc := Around(ptr);
      if prevAlloc && nextAlloc {
        KeepsLiveRefl(m, s.t, FLOOR);
        NothingToMerge(s, ptr, Prev(s.t, LO, FLOOR, s.hi, ptr));
        h.Settled({});
        return ptr;
      }
      h.Remove(ptr, {});
      assert {} + {ptr} == {ptr};
      ghost var m1 := h.mem.data[..];
      r := h.Coalesce(ptr);
      KeepsLiveTrans(m, m1, h.mem.data[..], s.t, s.t, FLOOR) by {
        LiveRefl(s.t, FLOOR);
      }
    }

    /** The two allocation bits coalesce reads, both from headers. */
    method Around(ptr: nat) returns (prevAlloc: bool, nextAlloc: bool)
      requires h.Consistent({}) && FreeAt(h.t, ptr)
      ensures FLOOR <= ptr
      ensures prevAlloc == h.t[Prev(h.t, LO, FLOOR, h.mem.brk, ptr)].alloc
      ensures nextAlloc == !FreeAt(h.t, Next(h.t, ptr))
    {
      hide GetWord, Sorted, Threaded;
      ghost var m, q := h.mem.data[..], 0;
      h.PartialState({});
      PendingAboveFloor(h.St(), ptr);
      hide BlocksOk, Chained, Apart;
      q := Prev(h.t, LO, FLOOR, h.mem.brk, ptr);
      ReadNeighbours(m, h.t, LO, FLOOR, h.mem.brk, ptr);
      ReadNeighbours(m, h.t, LO, FLOOR, h.mem.brk, q);
      prevAlloc := GetAlloc(h.mem, PrevBlkp(h.mem, ptr) - 4);
      nextAlloc := GetAlloc(h.mem, NextBlkp(h.mem, ptr) - 4);
    }

    /** extend_heap; ptr is NULL if sbrk fails. */
    method ExtendHeap(size: Word) returns (ptr: nat)
      requires Valid() && 16 <= size && size + 7 < WORD_SPAN
      modifies h, h.mem, h.mem.data, h.index, h.index.roots
      ensures Valid()
      ensures h.mem.outOfMemory == (old(h.mem.outOfMemory) || ptr == NULL)
      ensures AlignUp(size) % 8 == 0 && 16 <= AlignUp(size)
      ensures if old(h.mem.brk) + AlignUp(size) > MAX_HEAP
              then ptr == NULL && St() == old(St()) && h.mem.data[..] == old(h.mem.data[..])
              else ptr == ExtendAt(old(St()), AlignUp(size)) && ptr != NULL
                   && St() == Extend(old(St()), AlignUp(size))
      ensures KeepsLive(old(h.mem.data[..]), h.mem.data[..], old(h.t), FLOOR)
    {
      hide GetWord, SegregatedHeap.Consistent, Inv, KeepsLive, LiveWithin, SegSpec.Coalesce, CoalescedAt, Put;
      ghost var m, s := h.mem.data[..], St();
      AlignUpOk(size);
      var asize := AlignUp(size);
      hide AlignUp;
      var p := h.Grow(asize);
      if p == -1 {
        return NULL;
      }
      ExtendInv(s, asize);
      GrownPartial(s, asize);
      TwentyLists(Grown(s, asize), {s.hi});
      hide Partial;
      ghost var m1, g := h.mem.data[..], Grown(s, asize);
      h.Insert(p, asize, {s.hi});
      assert {s.hi} - {s.hi} == {};
      ghost var m2 := h.mem.data[..];
      ptr := Coalesce(p, g);
      GrownLive(m, m1, m2, h.mem.data[..], s.t, g.t);
    }

    /** place: the whole block, its tail, or its head. */
    method Place(ptr: nat, asize: nat) returns (r: nat)
      requires Valid() && FreeAt(h.t, ptr) && asize % 8 == 0 && 16 <= asize <= h.t[ptr].size
      modifies h, h.index, h.index.roots, h.mem.data
      ensures Valid() && (St(), r) == PlaceThreeWay(old(St()), ptr, asize) && FLOOR <= r
      ensures KeepsLive(old(h.mem.data[..]), h.mem.data[..], old(h.t), FLOOR)
    {
      hide GetWord, Represents, Tiled, Sorted, Threaded, NoAdjacentFree, Fuse, Take, Put, KeepsLive, LiveWithin;
      ghost var m, s := h.mem.data[..], St();
      PlaceThreeWayOk(s, ptr, asize);
      SizeOfFree(s, ptr, asize);
      RemovedPartial(s, {}, ptr);
      var ptrSize := BlockSize(h.mem, ptr, h.t, LO, FLOOR, h.mem.brk);
      var remainder := ptrSize - asize;
      h.Remove(ptr, {});
      assert {} + {ptr} == {ptr};
      ghost var m1 := h.mem.data[..];
      if remainder <= 2 * DSIZE {
        WholeReady(s, ptr);
        h.Retile(ptr, ptrSize, true, {ptr});
        KeepsLiveTrans(m, m1, h.mem.data[..], s.t, h.t, FLOOR);
        h.Settled({ptr} + {ptr});
        r := ptr;
      } else if asize >= 100 {
        r := TakeTail(ptr, asize, remainder, s);
        KeepsLiveTrans(m, m1, h.mem.data[..], s.t, s.t, FLOOR) by {
          LiveRefl(s.t, FLOOR);
        }
      } else {
        r := TakeHead(ptr, asize, remainder, s);
        KeepsLiveTrans(m, m1, h.mem.data[..], s.t, s.t, FLOOR) by {
          LiveRefl(s.t, FLOOR);
        }
      }
    }

    /** place for large requests: the front stays free. */
    method TakeTail(ptr: nat, asize: nat, remainder: nat, ghost s: State) returns (r: nat)
      requires Inv(s) && FreeAt(s.t, ptr) && s.t[ptr].size == asize + remainder && |s.lists| == LISTLIMIT
      requires asize % 8 == 0 && 16 <= asize && remainder % 8 == 0 && 16 <= remainder
      requires h.Consistent({ptr}) && h.St() == Removed(s, ptr)
      modifies h, h.index, h.index.roots, h.mem.data
      ensures Valid() && r == ptr + remainder
      ensures St() == State(Cut(s.t, ptr, remainder, false), Put(Take(s.lists, ptr, s.t[ptr].size), ptr, remainder), s.hi)
      ensures KeepsLive(old(h.mem.data[..]), h.mem.data[..], s.t, FLOOR)
    {
      hide GetWord, SegregatedHeap.Consistent, Inv, KeepsLive, LiveWithin, Take, Put;
      ghost var m := h.mem.data[..];
      CutOk(s, ptr, remainder, false);
      CutLive(s, ptr, remainder, false);
      r := h.Carve(ptr, remainder, false, asize + remainder);
      ghost var m1 := h.mem.data[..];
      h.Insert(ptr, remainder, {ptr});
      KeepsLiveTrans(m, m1, h.mem.data[..], s.t, h.t, FLOOR);
      h.Settled({ptr} - {ptr});
    }

    /** place for small requests: the back stays free. */
    method TakeHead(ptr: nat, asize: nat, remainder: nat, ghost s: State) returns (r: nat)
      requires Inv(s) && FreeAt(s.t, ptr) && s.t[ptr].size == asize + remainder && |s.lists| == LISTLIMIT
      requires asize % 8 == 0 && 16 <= asize && remainder % 8 == 0 && 16 <= remainder
      requires h.Consistent({ptr}) && h.St() == Removed(s, ptr)
      modifies h, h.index, h.index.roots, h.mem.data
      ensures Valid() && r == ptr
      ensures St() == State(Cut(s.t, ptr, asize, true), Put(Take(s.lists, ptr, s.t[ptr].size), ptr + asize, remainder), s.hi)
      ensures KeepsLive(old(h.mem.data[..]), h.mem.data[..], s.t, FLOOR)
    {
      hide GetWord, SegregatedHeap.Consistent, Inv, KeepsLive, LiveWithin, Take, Put;
      ghost var m := h.mem.data[..];
      CutOk(s, ptr, asize, true);
      CutLive(s, ptr, asize, true);
      var rest := h.Carve(ptr, asize, true, asize + remainder);
      ghost var m1 := h.mem.data[..];
      h.Insert(rest, remainder, {ptr + asize});
      KeepsLiveTrans(m, m1, h.mem.data[..], s.t, h.t, FLOOR);
      h.Settled({ptr + asize} - {ptr + asize});
      r := ptr;
    }

    /** mm_init */
    method Init() returns (r: int)
      requires h.mem.Valid() && h.mem.brk == 0 && h.index.mem == h.mem && h.index.Shaped()
      modifies h, h.mem, h.mem.data, h.index, h.index.roots
      ensures r == 0 && Valid() && St() == Initial(INITCHUNKSIZE)
      ensures h.mem.outOfMemory == old(h.mem.outOfMemory)
    {
      hide SegregatedHeap.Consistent, Inv, KeepsLive, NoAdjacentFree, ClassOf, Bare, Extend, ExtendAt, AlignUp;
      var heapStart := h.LayOut();
      BareInv();
      AlignUpOk(INITCHUNKSIZE);
      var ptr := ExtendHeap(INITCHUNKSIZE);
      if ptr == NULL {
        return -1;
      }
      r := 0;
    }

    /** mm_malloc */
    method Malloc(size: Word) returns (ptr: nat)
      requires Valid() && size + 15 < WORD_SPAN
      modifies h, h.mem, h.mem.data, h.index, h.index.roots
      ensures Valid()
      ensures (St(), ptr) == SegPlace.Malloc(ThreeWay, old(St()), size)
      ensures h.mem.outOfMemory == (old(h.mem.outOfMemory) || (ptr == NULL && size != 0))
      ensures ptr == NULL ==> h.mem.data[..] == old(h.mem.data[..])
      ensures KeepsLive(old(h.mem.data[..]), h.mem.data[..], old(h.t), FLOOR)
      ensures if ptr == NULL then Heap() == old(Heap())
              else ptr in h.t && 8 <= h.t[ptr].size && NewBlock(old(Heap()), Heap(), ptr, h.t[ptr].size - 8)
      ensures SegLaw.MallocLaw(ThreeWay, old(St()), size, St(), ptr)
    {
      hide SegLaw.MallocLaw;
      ptr := MallocBlock(size);
      MallocOutcome(ThreeWay, old(St()), size);
      SegLaw.MallocLawful(ThreeWay, old(St()), size);
      if ptr != NULL {
        hide GetWord, KeepsLive, SegPlace.Malloc, LiveAdds, Represents, Threaded, Sorted, BlocksOk, Chained, Apart;
        NewBlockSeen(old(h.mem.data[..]), h.mem.data[..], old(h.t), h.t, LO, FLOOR, h.mem.brk, ptr);
      }
    }

    /** The body of mm_malloc */
    method MallocBlock(size: Word) returns (ptr: nat)
      requires Valid() && size + 15 < WORD_SPAN
      modifies h, h.mem, h.mem.data, h.index, h.index.roots
      ensures Valid()
      ensures (St(), ptr) == SegPlace.Malloc(ThreeWay, old(St()), size)
      ensures h.mem.outOfMemory == (old(h.mem.outOfMemory) || (ptr == NULL && size != 0))
      ensures ptr == NULL ==> h.mem.data[..] == old(h.mem.data[..])
      ensures KeepsLive(old(h.mem.data[..]), h.mem.data[..], old(h.t), FLOOR)
    {
      hide SegregatedHeap.Consistent, NoAdjacentFree, Inv, KeepsLive, LiveWithin, PlaceThreeWay, Extend, ExtendAt,
        ClassOf, SegSpec.FindFit, AlignUp;
      ghost var m, s := h.mem.data[..], St();
      if size == 0 {
        KeepsLiveRefl(m, h.t, FLOOR);
        return NULL;
      }
      FoundOk(s, size);
      var asize := RoundedSize(size);
      ptr := h.FindFit(asize);
      ghost var m1, t1 := m, s.t;
      if ptr == NULL {
        var extendsize := Max(asize, CHUNKSIZE);
        AlignUpOk(extendsize);
        ptr := ExtendHeap(extendsize);
        if ptr == NULL {
          return;
        }
        ExtendInv(s, extendsize);
        m1, t1 := h.mem.data[..], h.t;
      } else {
        KeepsLiveRefl(m, s.t, FLOOR);
        LiveRefl(s.t, FLOOR);
      }
      ptr := Place(ptr, asize);
      KeepsLiveTrans(m, m1, h.mem.data[..], s.t, t1, FLOOR);
    }

    /** mm_free */
    method Free(ptr: nat)
      requires Valid() && IsLive(h.t, FLOOR, ptr)
      modifies h, h.index, h.index.roots, h.mem.data
      ensures Valid()
      ensures St() == SegSpec.Free(old(St()), ptr)
      ensures KeepsLive(old(h.mem.data[..]), h.mem.data[..], h.t, FLOOR)
      ensures FreeStep(old(Heap()), Heap(), ptr)
      ensures SegLaw.FreeLaw(old(St()), ptr, St())
    {
      hide SegLaw.FreeLaw, GetWord, Represents, Tiled, Sorted, Threaded, NoAdjacentFree, Fuse, KeepsLive, LiveWithin, Put;
      ghost var m, s := h.mem.data[..], St();
      FreedPartial(s, ptr);
      FreeReady(s, ptr);
      var size := BlockSize(h.mem, ptr, h.t, LO, FLOOR, h.mem.brk);
      h.Retile(ptr, size, false, {});
      ghost var m1, f := h.mem.data[..], Freed(s, ptr);
      assert {} + {ptr} == {ptr} && {ptr} - {ptr} == {};
      h.Insert(ptr, size, {ptr});
      ghost var m2 := h.mem.data[..];
      var r := Coalesce(ptr, f);
      FreeOk(s, ptr);
      SegLaw.FreeLawful(s, ptr);
      KeepsLiveTrans(m1, m2, h.mem.data[..], f.t, f.t, FLOOR) by {
        LiveRefl(f.t, FLOOR);
      }
      FreedLive(m, m1, h.mem.data[..], s, ptr, h.t);
      DropSeen(m, h.mem.data[..], s.t, h.t, FLOOR, ptr);
    }

    /** mm_realloc, under the conditions for which it is sound. */
    method Realloc(ptr: nat, size: Word) returns (newPtr: nat)
      requires Valid() && IsLive(h.t, FLOOR, ptr) && size + 15 < WORD_SPAN
      requires size != 0 ==> Supported(St(), ptr, size)
      modifies h, h.mem, h.mem.data, h.index, h.index.roots
      ensures Valid()
      ensures (St(), newPtr) == Seg98Spec.Realloc(old(St()), ptr, size)
      ensures ResizeStep(old(Heap()), Heap(), ptr, size, newPtr)
      ensures Seg98Law.ReallocLaw(old(St()), ptr, size, St(), newPtr)
    {
      hide GetWord, SegregatedHeap.Consistent, NoAdjacentFree, Inv, KeepsLive, InPlace, Move, GrowsInPlace, Fits, Seg98Law.ReallocLaw;
      Seg98Law.ReallocLawful(St(), ptr, size);
      if size == 0 {
        return NULL;
      }
      var newSize := RoundedSize(size);
      AsizeOk(size);
      var open := NextOpen(ptr);
      if open {
        newPtr := Stretch(ptr, newSize, size);
      } else {
        newPtr := Relocate(ptr, newSize, size);
      }
    }

    /** The test whether the block behind ptr is free or the epilogue. */
    method NextOpen(ptr: nat) returns (open: bool)
      requires Valid() && IsLive(h.t, FLOOR, ptr)
      ensures open == NextIsOpen(St(), ptr)
    {
      hide GetWord, Sorted, Threaded, NoAdjacentFree;
      ReadNeighbours(h.mem.data[..], h.t, LO, FLOOR, h.mem.brk, ptr);
      assert Next(h.t, ptr) in h.t ==> BlockOk(h.t[Next(h.t, ptr)], Next(h.t, ptr), LO, FLOOR, h.mem.brk);
      hide Tiled;
      var next := NextBlkp(h.mem, ptr);
      open := !GetAlloc(h.mem, next - 4) || GetSize(h.mem, next - 4) == 0;
    }

    /** The branch of mm_realloc that enlarges the block where it is. */
    method Stretch(ptr: nat, newSize: Word, ghost size: nat) returns (newPtr: nat)
      requires Valid() && IsLive(h.t, FLOOR, ptr) && newSize % 8 == 0 && NextIsOpen(St(), ptr)
      requires GrowsInPlace(St(), ptr, newSize) && newSize - h.t[ptr].size < INT_SPAN && size + 8 <= newSize
      modifies h, h.mem, h.mem.data, h.index, h.index.roots
      ensures Valid() && (St(), newPtr) == InPlace(old(St()), ptr, newSize)
      ensures ResizeStep(old(Heap()), Heap(), ptr, size, newPtr)
    {
      hide GetWord, SegregatedHeap.Consistent, NoAdjacentFree, Inv, KeepsLive, GrowsInPlace, Absorb, Extend, ExtendAt, AlignUp, LiveWithin;
      ghost var m, s := h.mem.data[..], St();
      h.PartialState({});
      HaveOk(s, ptr, newSize);
      InPlaceOk(s, ptr, newSize);
      var remainder := Shortfall(ptr, newSize);
      var ok, slack := MakeRoom(ptr, remainder);
      if !ok {
        return NULL;
      }
      ghost var m1, t1 := h.mem.data[..], h.t;
      Swallow(ptr, newSize + slack);
      newPtr := ptr;
      KeepsLiveTrans(m, m1, h.mem.data[..], s.t, t1, FLOOR);
      StretchSeen(m, h.mem.data[..], s, h.St(), ptr, size);
    }

    /** Extends the heap if the remainder falls short; slack is the new remainder. */
    method MakeRoom(ptr: nat, remainder: int) returns (ok: bool, slack: int)
      requires Valid() && IsLive(h.t, FLOOR, ptr) && -INT_SPAN < remainder
      requires if remainder >= 0 then FreeAt(h.t, Next(h.t, ptr))
               else EndsBehind(St(), ptr) && Extension(remainder) % 8 == 0 && 16 <= Extension(remainder)
      modifies h, h.mem, h.mem.data, h.index, h.index.roots
      ensures Valid() && ok == (old(h.mem.brk) + Extension(remainder) <= MAX_HEAP)
      ensures !ok ==> St() == old(St()) && h.mem.data[..] == old(h.mem.data[..])
      ensures ok ==> St() == if remainder >= 0 then old(St()) else Extend(old(St()), Extension(remainder))
      ensures ok ==>
                && IsLive(h.t, FLOOR, ptr) && FreeAt(h.t, Next(h.t, ptr)) && LiveSame(old(h.t), h.t, FLOOR)
                && h.t[ptr].size + NextSize(h.t, ptr) == old(h.t[ptr].size + NextSize(h.t, ptr)) + Extension(remainder)
                && slack == remainder + Extension(remainder)
      ensures KeepsLive(old(h.mem.data[..]), h.mem.data[..], old(h.t), FLOOR)
    {
      hide GetWord, SegregatedHeap.Consistent, NoAdjacentFree, Inv, KeepsLive, Absorb, Extend, ExtendAt, AlignUp, LiveWithin;
      ghost var m, s := h.mem.data[..], St();
      BelowMax(s);
      ok, slack := true, remainder;
      if remainder < 0 {
        var extendsize := Max(-remainder, CHUNKSIZE);
        AlignUpOk(extendsize);
        var bp := ExtendHeap(extendsize);
        if bp == NULL {
          ok := false;
          return;
        }
        slack := remainder + extendsize;
        ExtendInv(s, extendsize);
        ExtendBehind(s, ptr, extendsize);
        assert IsLive(s.t, FLOOR, ptr);
      } else {
        KeepsLiveRefl(m, s.t, FLOOR);
        LiveRefl(s.t, FLOOR);
      }
    }

    /** remainder, as the code computes it */
    method Shortfall(ptr: nat, newSize: Word) returns (remainder: int)
      requires Valid() && IsLive(h.t, FLOOR, ptr)
      ensures remainder == Remainder(h.t[ptr].size + NextSize(h.t, ptr), newSize)
    {
      hide GetWord, Sorted, Threaded, NoAdjacentFree;
      ReadNeighbours(h.mem.data[..], h.t, LO, FLOOR, h.mem.brk, ptr);
      hide Tiled;
      var have := GetSize(h.mem, ptr - 4) + GetSize(h.mem, NextBlkp(h.mem, ptr) - 4);
      remainder := ToInt((have - newSize) % WORD_SPAN);
    }

    /** delete_node on the next block and the two PUTs that give its bytes to ptr. */
    method Swallow(ptr: nat, size: nat)
      requires Valid() && IsLive(h.t, FLOOR, ptr) && FreeAt(h.t, Next(h.t, ptr))
      requires size == h.t[ptr].size + NextSize(h.t, ptr)
      modifies h, h.index, h.index.roots, h.mem.data
      ensures |old(h.index.lists)| == LISTLIMIT && 0 < old(h.t)[ptr].size
      ensures Valid() && St() == Absorb(old(St()), ptr)
      ensures KeepsLive(old(h.mem.data[..]), h.mem.data[..], old(h.t), FLOOR)
    {
      hide GetWord, Represents, Tiled, Sorted, Threaded, Inv, NoAdjacentFree, KeepsLive, Take, Fuse;
      ghost var m, s := h.mem.data[..], St();
      AbsorbInv(s, ptr);
      AbsorbTiling(s.t, s.hi, ptr);
      var next := NextOf(ptr);
      h.Remove(next, {});
      assert {} + {next} == {next};
      ghost var m1 := h.mem.data[..];
      h.Retile(ptr, size, true, {next});
      h.Settled({next} + {ptr});
      SwallowLive(m, m1, h.mem.data[..], s.t, h.t, ptr);
    }

    /** The branch of mm_realloc that moves the block. */
    method Relocate(ptr: nat, newSize: Word, size: nat) returns (newPtr: nat)
      requires Valid() && IsLive(h.t, FLOOR, ptr) && newSize % 8 == 0 && 16 <= newSize && newSize + 7 < WORD_SPAN
      requires size + 8 <= newSize && ptr + size <= MAX_HEAP
      requires Fits(h.t, newSize) || h.mem.brk + GrowthFor(newSize) <= MAX_HEAP
      modifies h, h.mem, h.mem.data, h.index, h.index.roots
      ensures Valid() && (St(), newPtr) == Move(old(St()), ptr, newSize)
      ensures ResizeStep(old(Heap()), Heap(), ptr, size, newPtr) && newPtr != NULL && newPtr != ptr
    {
      hide GetWord, SegregatedHeap.Consistent, NoAdjacentFree, Inv, KeepsLive, SegPlace.Malloc, SegSpec.Free, Fits;
      ghost var s, c := St(), Heap();
      MoveOk(s, ptr, newSize);
      newPtr := Malloc(newSize - 8);
      ghost var c1, n := Heap(), h.t[newPtr].size - 8;
      hide NewBlock, CopyStep, FreeStep, ResizeStep, Asize;
      ghost var c2 := CopyAndFree(newPtr, ptr, size);
      MovedResize(c, c1, c2, Heap(), ptr, newPtr, size, n);
    }

    /** The end of that branch: the data is copied and the old block freed. */
    method CopyAndFree(newPtr: nat, ptr: nat, size: nat) returns (ghost c: AbstractHeap.Heap)
      requires Valid() && IsLive(h.t, FLOOR, ptr) && IsLive(h.t, FLOOR, newPtr) && newPtr != ptr
      requires size + 8 <= h.t[newPtr].size && ptr + size <= MAX_HEAP
      modifies h, h.mem.data, h.index, h.index.roots
      ensures Valid() && St() == SegSpec.Free(old(St()), ptr)
      ensures CopyStep(old(Heap()), c, ptr, newPtr, size) && FreeStep(c, Heap(), ptr)
    {
      hide GetWord, SegregatedHeap.Consistent, NoAdjacentFree, Inv, SegSpec.Free, CopyStep, FreeStep;
      CopyOver(newPtr, ptr, size);
      c := Heap();
      Free(ptr);
    }

    /** memcpy(new_ptr, ptr, size) */
    method CopyOver(newPtr: nat, ptr: nat, size: nat)
      requires Valid() && IsLive(h.t, FLOOR, ptr) && IsLive(h.t, FLOOR, newPtr) && newPtr != ptr
      requires size + 8 <= h.t[newPtr].size && ptr + size <= MAX_HEAP
      modifies h.mem.data
      ensures Valid() && CopyStep(old(Heap()), Heap(), ptr, newPtr, size)
      ensures size <= h.t[ptr].size ==> ptr + size <= newPtr || newPtr + size <= ptr
    {
      hide GetWord, TaggedBut, Threaded, Sorted, Tiled, NoAdjacentFree, ContentsOf, CopyStep;
      ghost var m := h.mem.data[..];
      LiveApart(h.t, LO, FLOOR, h.mem.brk, ptr, newPtr, m);
      h.mem.CopySnapshot(newPtr, ptr, size);
      h.ClientKeeps(m, newPtr, size);
      CopySeen(h.t, LO, FLOOR, h.mem.brk, m, h.mem.data[..], ptr, newPtr, size, size);
    }

    method NextOf(ptr: nat) returns (next: nat)
      requires Valid() && ptr in h.t
      ensures next == Next(h.t, ptr)
    {
      hide GetWord, Sorted, Threaded, NoAdjacentFree;
      ReadNeighbours(h.mem.data[..], h.t, LO, FLOOR, h.mem.brk, ptr);
      hide Tiled;
      next := NextBlkp(h.mem, ptr);
    }
  }

  lemma CutLive(s: State, p: nat, a: nat, alloc: bool)
    requires Inv(s) && FreeAt(s.t, p) && a % 8 == 0 && 16 <= a && a + 16 <= s.t[p].size
    ensures FreeAt(Cut(s.t, p, a, alloc), FreePart(p, a, alloc))
    ensures Cut(s.t, p, a, alloc)[FreePart(p, a, alloc)].size == if alloc then s.t[p].size - a else a
    ensures LiveWithin(s.t, Cut(s.t, p, a, alloc), FLOOR)
  {
    RemovedPartial(s, {}, p);
    CutPartial(Removed(s, p), p, a, alloc);
    CutSizes(s.t, p, a, alloc);
  }

  lemma GrownLive(m: Mem, m1: Mem, m2: Mem, m3: Mem, t: Tiles, g: Tiles)
    requires KeepsLive(m, m1, t, FLOOR) && KeepsLive(m1, m2, g, FLOOR) && KeepsLive(m2, m3, g, FLOOR)
    requires LiveWithin(t, g, FLOOR)
    ensures KeepsLive(m, m3, t, FLOOR)
  {
    hide KeepsLive;
    KeepsLiveTrans(m1, m2, m3, g, g, FLOOR) by {
      LiveRefl(g, FLOOR);
    }
    hide LiveWithin;
    KeepsLiveTrans(m, m1, m3, t, g, FLOOR);
  }

  /** Swallowing a free block keeps every payload byte, those of p included. */
  lemma SwallowLive(m: Mem, m1: Mem, m2: Mem, t: Tiles, t': Tiles, p: nat)
    requires KeepsLive(m, m1, t, FLOOR) && KeepsLive(m1, m2, t', FLOOR) && Grew(t, t', p)
    ensures KeepsLive(m, m2, t, FLOOR)
  {
    forall x: nat, a: nat | IsLive(t, FLOOR, x) && x <= a < x + t[x].size - 8 && a < |m|
      ensures m2[a] == m[a]
    {
      assert m1[a] == m[a];
      assert IsLive(t', FLOOR, x) && m2[a] == m1[a];
    }
  }

  lemma StretchSeen(m: Mem, m': Mem, s: State, s': State, p: nat, size: nat)
    requires Inv(s) && Inv(s') && |m| == MAX_HEAP && KeepsLive(m, m', s.t, FLOOR)
    requires Grew(s.t, s'.t, p) && size + 8 <= s'.t[p].size
    ensures ResizeStep(ContentsOf(m, s.t, FLOOR), ContentsOf(m', s'.t, FLOOR), p, size, p)
  {
    hide Sorted, Tiled, NoAdjacentFree, KeepsLive, ResizeStep, Grew, ContentsOf;
    SameSize(m, m', s.t);
    GrewSeen(m, m', s.t, s'.t, s.hi, s'.hi, p, size);
  }

  lemma SameSize(m: Mem, m': Mem, t: Tiles)
    requires KeepsLive(m, m', t, FLOOR)
    ensures |m'| == |m|
  {
  }

  /** To clients, a block that grew in place kept its address and its bytes. */
  lemma GrewSeen(m: Mem, m': Mem, t: Tiles, t': Tiles, hi: nat, hi': nat, p: nat, size: nat)
    requires KeepsLive(m, m', t, FLOOR) && Grew(t, t', p)
    requires Tiled(t, LO, FLOOR, hi) && hi <= |m| && Tiled(t', LO, FLOOR, hi') && hi' <= |m'|
    requires size + 8 <= t'[p].size
    ensures ResizeStep(ContentsOf(m, t, FLOOR), ContentsOf(m', t', FLOOR), p, size, p)
  {
    LiveApart(t, LO, FLOOR, hi, p, p, m);
    LiveApart(t', LO, FLOOR, hi', p, p, m');
    hide Tiled;
    var c, c' := ContentsOf(m, t, FLOOR), ContentsOf(m', t', FLOOR);
    assert c'[p][..t[p].size - 8] == c[p] by {
      forall a | p <= a < p + t[p].size - 8
        ensures m'[a] == m[a]
      {
      }
    }
    GrewOthers(m, m', t, t', p);
    hide ContentsOf, KeepsLive, Grew;
    assert c'[p][..Min(size, |c[p]|)] == c'[p][..t[p].size - 8][..Min(size, |c[p]|)];
  }

  lemma GrewOthers(m: Mem, m': Mem, t: Tiles, t': Tiles, p: nat)
    requires KeepsLive(m, m', t, FLOOR) && Grew(t, t', p)
    ensures ContentsOf(m', t', FLOOR) - {p} == ContentsOf(m, t, FLOOR) - {p}
  {
    var c, c' := ContentsOf(m, t, FLOOR), ContentsOf(m', t', FLOOR);
    hide KeepsLive, PayloadOf;
    forall x | x in c && x != p
      ensures x in c' && c'[x] == c[x]
    {
      assert IsLive(t, FLOOR, x);
      PayloadKept(m, m', t, t', FLOOR, x);
    }
    forall x | x in c' && x != p
      ensures x in c
    {
      assert IsLive(t', FLOOR, x);
    }
    hide IsLive, ContentsOf, Grew;
    assert c' - {p} == c - {p};
  }
}

/** segreted(84).c: 20 size classes, the back of every larger block is split off. */
module Seg84 {
  import opened Memory
  import opened Tiling
  import opened Tags
  import opened SizeClasses
  import opened SegLists
  import opened SegSpec
  import opened SegPlace
  import SegLaw
  import opened SegHeap
  import opened Requests
  import opened Contents
  import opened AbstractHeap

  class Allocator {
    const h: SegregatedHeap

    /** PRED_FREE is the word at bp, SUCC_FREE the word at bp + WSIZE. */
    constructor (mem: MemLib)
      ensures h.mem == mem && h.index.mem == mem && h.index.Shaped() && fresh(h) && fresh(h.index) && fresh(h.index.roots)
    {
      h := new SegregatedHeap(mem, 4, 0);
    }

    ghost predicate Valid()
      reads h, h.mem, h.mem.data, h.index, h.index.roots
    {
      h.Valid() && Inv(h.St())
    }

    ghost function St(): State
      reads h, h.mem, h.index
    {
      h.St()
    }

    /** The bytes behind each live pointer. */
    ghost function Heap(): AbstractHeap.Heap
      reads h, h.mem.data
    {
      ContentsOf(h.mem.data[..], h.t, FLOOR)
    }

    /** place */
    method Place(bp: nat, asize: nat)
      requires Valid() && FreeAt(h.t, bp) && asize % 8 == 0 && 16 <= asize <= h.t[bp].size
      modifies h, h.index, h.index.roots, h.mem.data
      ensures Valid() && St() == PlaceFront(old(St()), bp, asize)
      ensures KeepsLive(old(h.mem.data[..]), h.mem.data[..], old(h.t), FLOOR)
    {
      hide GetWord, Represents, Tiled, Sorted, Threaded, NoAdjacentFree, Fuse, Cut, Take, Put, KeepsLive, LiveWithin;
      ghost var m, s := h.mem.data[..], St();
      PlaceFrontOk(s, bp, asize);
      RemovedPartial(s, {}, bp);
      var csize := BlockSize(h.mem, bp, h.t, LO, FLOOR, h.mem.brk);
      h.Remove(bp, {});
      assert {} + {bp} == {bp};
      ghost var m1 := h.mem.data[..];
      if csize - asize >= 2 * DSIZE {
        CutReady(s, bp, asize);
        var rest := h.Carve(bp, asize, true, csize);
        ghost var m2, t2 := h.mem.data[..], h.t;
        rest := h.Coalesce(rest);
        KeepsLiveTrans(m, m1, m2, s.t, s.t, FLOOR);
        KeepsLiveTrans(m, m2, h.mem.data[..], s.t, t2, FLOOR);
      } else {
        WholeReady(s, bp);
        h.Retile(bp, csize, true, {bp});
        KeepsLiveTrans(m, m1, h.mem.data[..], s.t, h.t, FLOOR);
        h.Settled({bp} + {bp});
      }
    }

    /** extend_heap(words); bp is NULL if sbrk fails. */
    method ExtendHeap(words: nat) returns (bp: nat)
      requires Valid() && 4 <= words && EvenBytes(words) < WORD_SPAN
      modifies h, h.mem, h.mem.data, h.index, h.index.roots
      ensures Valid()
      ensures h.mem.outOfMemory == (old(h.mem.outOfMemory) || bp == NULL)
      ensures EvenBytes(words) % 8 == 0 && 16 <= EvenBytes(words)
      ensures if old(h.mem.brk) + EvenBytes(words) > MAX_HEAP
              then bp == NULL && St() == old(St()) && h.mem.data[..] == old(h.mem.data[..])
              else bp == ExtendAt(old(St()), EvenBytes(words)) && bp != NULL
                   && St() == Extend(old(St()), EvenBytes(words))
      ensures KeepsLive(old(h.mem.data[..]), h.mem.data[..], old(h.t), FLOOR)
    {
      hide GetWord, SegregatedHeap.Consistent, Inv, KeepsLive, LiveWithin, SegSpec.Coalesce, CoalescedAt, Partial;
      ghost var m, s := h.mem.data[..], St();
      EvenBytesOk(words);
      var size := if words % 2 == 1 then (words + 1) * 4 else words * 4;
      hide EvenBytes;
      var p := h.Grow(size);
      if p == -1 {
        return NULL;
      }
      ExtendInv(s, size);
      GrownPartial(s, size);
      ghost var m1 := h.mem.data[..];
      bp := h.Coalesce(p);
      KeepsLiveTrans(m, m1, h.mem.data[..], s.t, Grown(s, size).t, FLOOR);
    }

    /** mm_init */
    method Init() returns (r: int)
      requires h.mem.Valid() && h.mem.brk == 0 && h.index.mem == h.mem && h.index.Shaped()
      modifies h, h.mem, h.mem.data, h.index, h.index.roots
      ensures r == 0 && Valid() && St() == Initial(CHUNKSIZE)
      ensures h.mem.outOfMemory == old(h.mem.outOfMemory)
    {
      hide SegregatedHeap.Consistent, Inv, KeepsLive, NoAdjacentFree, ClassOf, Bare, Extend, ExtendAt, EvenBytes;
      var heapListp := h.LayOut();
      BareInv();
      EvenBytesOk(CHUNKSIZE / 4);
      var bp := ExtendHeap(CHUNKSIZE / 4);
      if bp == NULL {
        return -1;
      }
      r := 0;
    }

    /** mm_malloc */
    method Malloc(size: Word) returns (bp: nat)
      requires Valid() && size + 15 < WORD_SPAN
      modifies h, h.mem, h.mem.data, h.index, h.index.roots
      ensures Valid()
      ensures (St(), bp) == SegPlace.Malloc(Front, old(St()), size)
      ensures h.mem.outOfMemory == (old(h.mem.outOfMemory) || (bp == NULL && size != 0))
      ensures bp == NULL ==> h.mem.data[..] == old(h.mem.data[..])
      ensures KeepsLive(old(h.mem.data[..]), h.mem.data[..], old(h.t), FLOOR)
      ensures MallocStep(old(Heap()), Heap(), size, bp)
      ensures SegLaw.MallocLaw(Front, old(St()), size, St(), bp)
    {
      hide SegLaw.MallocLaw;
      bp := MallocBlock(size);
      MallocOutcome(Front, old(St()), size);
      SegLaw.MallocLawful(Front, old(St()), size);
      if bp != NULL {
        hide GetWord, KeepsLive, SegPlace.Malloc, LiveAdds, Represents, Threaded, Sorted, BlocksOk, Chained, Apart;
        GrantSeen(old(h.mem.data[..]), h.mem.data[..], old(h.t), h.t, LO, FLOOR, h.mem.brk, bp, size);
      }
    }

    /** The body of mm_malloc */
    method MallocBlock(size: Word) returns (bp: nat)
      requires Valid() && size + 15 < WORD_SPAN
      modifies h, h.mem, h.mem.data, h.index, h.index.roots
      ensures Valid()
      ensures (St(), bp) == SegPlace.Malloc(Front, old(St()), size)
      ensures h.mem.outOfMemory == (old(h.mem.outOfMemory) || (bp == NULL && size != 0))
      ensures bp == NULL ==> h.mem.data[..] == old(h.mem.data[..])
      ensures KeepsLive(old(h.mem.data[..]), h.mem.data[..], old(h.t), FLOOR)
    {
      hide SegregatedHeap.Consistent, NoAdjacentFree, Inv, KeepsLive, LiveWithin, PlaceFront, Extend, ExtendAt, ClassOf, SegSpec.FindFit;
      ghost var m, s := h.mem.data[..], St();
      if size == 0 {
        KeepsLiveRefl(m, h.t, FLOOR);
        return NULL;
      }
      FoundOk(s, size);
      var asize := Asize(size);
      bp := h.FindFit(asize);
      if bp != NULL {
        Place(bp, asize);
        return;
      }
      var extendsize := Max(asize, CHUNKSIZE);
      Quarter(extendsize);
      bp := ExtendHeap(extendsize / 4);
      if bp == NULL {
        return;
      }
      ExtendInv(s, extendsize);
      ghost var m1, t1 := h.mem.data[..], h.t;
      Place(bp, asize);
      KeepsLiveTrans(m, m1, h.mem.data[..], s.t, t1, FLOOR);
    }

    /** mm_free */
    method Free(bp: nat)
      requires Valid() && IsLive(h.t, FLOOR, bp)
      modifies h, h.index, h.index.roots, h.mem.data
      ensures Valid()
      ensures St() == SegSpec.Free(old(St()), bp)
      ensures KeepsLive(old(h.mem.data[..]), h.mem.data[..], h.t, FLOOR)
      ensures FreeStep(old(Heap()), Heap(), bp)
      ensures SegLaw.FreeLaw(old(St()), bp, St())
    {
      hide SegLaw.FreeLaw, GetWord, Represents, Tiled, Sorted, Threaded, NoAdjacentFree, Fuse, KeepsLive, LiveWithin;
      ghost var m, s := h.mem.data[..], St();
      FreedPartial(s, bp);
      FreeReady(s, bp);
      var size := BlockSize(h.mem, bp, h.t, LO, FLOOR, h.mem.brk);
      h.Retile(bp, size, false, {});
      ghost var m1, t1 := h.mem.data[..], h.t;
      assert {} + {bp} == {bp};
      var r := h.Coalesce(bp);
      FreeOk(s, bp);
      SegLaw.FreeLawful(s, bp);
      FreedLive(m, m1, h.mem.data[..], s, bp, h.t);
      DropSeen(m, h.mem.data[..], s.t, h.t, FLOOR, bp);
    }

    /** mm_realloc */
    method Realloc(ptr: nat, size: Word) returns (newptr: nat)
      requires Valid() && IsLive(h.t, FLOOR, ptr) && size + 15 < WORD_SPAN
      modifies h, h.mem, h.mem.data, h.index, h.index.roots
      ensures Valid()
      ensures newptr == SegPlace.Malloc(Front, old(St()), size).1
      ensures St() == SegPlace.Replace(old(St()), ptr, size)
      ensures newptr == NULL ==> St() == old(St()) && h.mem.data[..] == old(h.mem.data[..])
      ensures ReallocStep(old(Heap()), Heap(), ptr, size, newptr)
      ensures SegLaw.ReplaceLaw(old(St()), ptr, size, St(), newptr)
    {
      hide SegLaw.MallocLaw, SegLaw.FreeLaw, SegregatedHeap.Consistent, NoAdjacentFree, Inv, KeepsLive, SegPlace.Malloc, SegSpec.Free;
      ghost var s, c := St(), Heap();
      newptr := Malloc(size);
      MallocOutcome(Front, s, size);
      if newptr == NULL {
        return;
      }
      ghost var c1 := Heap();
      assert IsLive(s.t, FLOOR, ptr) && IsLive(h.t, FLOOR, newptr);
      hide MallocStep, CopyStep, FreeStep, ReallocStep;
      ghost var n := CopyOver(newptr, ptr, size);
      ghost var c2 := Heap();
      Free(ptr);
      MovedData(c, c1, c2, Heap(), ptr, newptr, size);
    }

    method CopyOver(newptr: nat, oldptr: nat, size: nat) returns (ghost n: nat)
      requires Valid() && IsLive(h.t, FLOOR, oldptr) && IsLive(h.t, FLOOR, newptr) && newptr != oldptr
      requires size + 8 <= h.t[newptr].size
      modifies h.mem.data
      ensures Valid() && CopyStep(old(Heap()), Heap(), oldptr, newptr, size)
      ensures CopyReach(h.t, h.mem.brk, newptr, oldptr, size, n) && SameOutside(old(h.mem.data[..]), h.mem.data[..], newptr, n)
    {
      hide Represents, Threaded, Sorted, Tiled, NoAdjacentFree, ContentsOf, CopyStep;
      ghost var m := h.mem.data[..];
      n := CopyBlock(h.mem, newptr, oldptr, size, h.t, LO, FLOOR, h.mem.brk);
      h.ClientKeeps(m, newptr, n);
    }
  }
}

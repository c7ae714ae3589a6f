/** implicit.c: the implicit-list allocator with a roving pointer (next fit). */
module NextFit {
  import opened Memory
  import opened Tiling
  import opened Tags
  import opened NextFitSpec
  import NextFitLaw
  import opened Requests
  import opened Contents
  import opened AbstractHeap

  class Allocator {
    const mem: MemLib
    var heapListp: nat
    var lastFreep: nat
    ghost var t: Tiles

    constructor (mem: MemLib)
      ensures this.mem == mem
    {
      this.mem := mem;
      heapListp, lastFreep, t := NULL, NULL, map[];
    }

    ghost function St(): State
      reads this, mem
    {
      State(t, lastFreep, mem.brk)
    }

    /** The heap holds the tiling; no free block need be merged yet. */
    ghost predicate Consistent()
      reads this, mem, mem.data
    {
      && mem.Valid() && heapListp == LO
      && NextFitSpec.Partial(St()) && Represents(mem.data[..], t, mem.brk)
    }

    ghost predicate Valid()
      reads this, mem, mem.data
    {
      Consistent() && Inv(St())
    }

    /** The bytes behind each live pointer. */
    ghost function Heap(): AbstractHeap.Heap
      reads this, mem.data
    {
      ContentsOf(mem.data[..], t, FLOOR)
    }

    /** The blocks from r on, size bytes in all, become one block with fresh tags. */
    method Retile(r: nat, size: nat, alloc: bool)
      requires Consistent()
      requires r in t && FLOOR <= r && 0 < size && (r + size in t || r + size == mem.brk)
      modifies `t, mem.data
      ensures Consistent() && t == Fuse(old(t), r, r + size, alloc)
      ensures KeepsLive(old(mem.data[..]), mem.data[..], t, FLOOR)
    {
      hide GetWord, Tiled, KeepsLive;
      ghost var m := mem.data[..];
      FuseTags(t, LO, FLOOR, mem.brk, r, r + size, alloc, m);
      t := Fuse(t, r, r + size, alloc);
      ghost var m1 := PutTags(mem, r, size, alloc, t, LO, FLOOR, mem.brk, {r});
      assert {r} - {r} == {};
    }

    /** coalesce */
    method Coalesce(bp: nat) returns (r: nat)
      requires Consistent() && FreeAt(t, bp) && NoAdjacentFreeBut(t, bp) && lastFreep in t
      modifies `t, `lastFreep, mem.data
      ensures FLOOR <= bp && NextFitSpec.Partial(old(St()))
      ensures Valid() && St() == NextFitSpec.Coalesce(old(St()), bp) && r == CoalescedAt(old(St()), bp)
      ensures Roves(old(St()), bp, St())
      ensures KeepsLive(old(mem.data[..]), mem.data[..], old(t), FLOOR)
    {
      hide GetWord, Represents, Tiled, Inv, Fuse, KeepsLive, LiveWithin;
      ghost var m, s := mem.data[..], St();
      CoalesceInv(s, bp);
      MergeFacts(s, bp);
      RetagIsFuse(t, LO, FLOOR, mem.brk, bp, false);
      var prev, next, prevAlloc, nextAlloc, size := Neighbours(mem, bp, t, LO, FLOOR, mem.brk);
      r := bp;
      if prevAlloc && nextAlloc {
        KeepsLiveRefl(m, t, FLOOR);
        return;
      } else if prevAlloc && !nextAlloc {
        var nextSize := BlockSize(mem, next, t, LO, FLOOR, mem.brk);
        size := size + nextSize;
      } else if !prevAlloc && nextAlloc {
        var prevSize := BlockSize(mem, prev, t, LO, FLOOR, mem.brk);
        size := size + prevSize;
        r := prev;
      } else {
        var prevSize := BlockSize(mem, prev, t, LO, FLOOR, mem.brk);
        var nextSize := BlockSize(mem, next, t, LO, FLOOR, mem.brk);
        size := size + prevSize + nextSize;
        r := prev;
      }
      Retile(r, size, false);
      lastFreep := r;
      KeepsLiveSub(m, mem.data[..], s.t, t, FLOOR);
    }

    /** find_fit: from the roving pointer to the epilogue, then from the start to it. */
    method FindFit(asize: nat) returns (bp: nat)
      requires Valid()
      modifies `lastFreep
      ensures Valid() && St() == old(St()) && bp == NextFitSpec.FindFit(St(), asize)
    {
      hide GetWord, Tiled, NoAdjacentFree, TaggedBut;
      ghost var s, m := St(), mem.data[..];
      LastBelow(s);
      var oldLastFreep := lastFreep;
      bp := lastFreep;
      ghost var r := Scan(t, s.hi, s.last, s.hi, asize);
      while true
        invariant lastFreep == s.last && (bp in t || bp == s.hi) && r == Scan(t, s.hi, bp, s.hi, asize)
        decreases s.hi - bp
      {
        HeaderAt(m, s, bp);
        if GetSize(mem, bp - 4) == 0 {
          break;
        }
        if !GetAlloc(mem, bp - 4) && asize <= GetSize(mem, bp - 4) {
          return;
        }
        StepForward(t, s.hi, bp);
        bp := NextBlkp(mem, bp);
      }
      bp := heapListp;
      ghost var r2 := Scan(t, s.hi, LO, s.last, asize);
      while bp < oldLastFreep
        invariant lastFreep == s.last && bp in t && bp <= s.last && r2 == Scan(t, s.hi, bp, s.last, asize)
        decreases s.hi - bp
      {
        HeaderAt(m, s, bp);
        if !GetAlloc(mem, bp - 4) && asize <= GetSize(mem, bp - 4) {
          return;
        }
        StepForward(t, s.hi, bp);
        StepShort(t, s.hi, bp, s.last);
        bp := NextBlkp(mem, bp);
      }
      lastFreep := bp;
      bp := NULL;
    }

    /** The first half of a split: both new blocks get their tags. */
    method Carve(bp: nat, asize: nat, csize: nat) returns (rest: nat)
      requires Valid() && FreeAt(t, bp) && t[bp].size == csize
      requires asize % 8 == 0 && 16 <= asize && asize + 16 <= csize
      modifies `t, mem.data
      ensures Valid() && t == Split(old(t), bp, asize) && rest == bp + asize
      ensures KeepsLive(old(mem.data[..]), mem.data[..], old(t), FLOOR)
    {
      hide GetWord, TaggedBut, Tiled, KeepsLive, NoAdjacentFree, LiveWithin;
      ghost var m, s, ex := mem.data[..], St(), {bp} + {bp + asize};
      SplitReady(s, bp, asize);
      SplitTags(s.t, bp, asize, m);
      t := Split(t, bp, asize);
      ghost var m1 := PutTags(mem, bp, asize, true, t, LO, FLOOR, mem.brk, ex);
      ghost var m2 := mem.data[..];
      SplitHeader(m2, s.t, bp, asize, ex - {bp});
      rest := NextBlkp(mem, bp);
      m1 := PutTags(mem, rest, csize - asize, false, t, LO, FLOOR, mem.brk, ex - {bp});
      KeepsLiveTrans(m, m2, mem.data[..], t, t, FLOOR) by {
        LiveRefl(t, FLOOR);
      }
      KeepsLiveSub(m, mem.data[..], s.t, t, FLOOR);
      NothingLeft(mem.data[..], t, bp, bp + asize);
    }

    /** place */
    method Place(bp: nat, asize: nat)
      requires Valid() && FreeAt(t, bp) && asize % 8 == 0 && 16 <= asize <= t[bp].size
      modifies `t, `lastFreep, mem.data
      ensures Valid() && St() == NextFitSpec.Place(old(St()), bp, asize) && lastFreep == old(lastFreep)
      ensures KeepsLive(old(mem.data[..]), mem.data[..], old(t), FLOOR)
    {
      hide GetWord, Represents, Tiled, Inv, Fuse, KeepsLive, LiveWithin, Split;
      ghost var m, s := mem.data[..], St();
      PlaceInv(s, bp, asize);
      PlaceFacts(s, bp);
      var csize := BlockSize(mem, bp, t, LO, FLOOR, mem.brk);
      if csize - asize >= 2 * DSIZE {
        SplitReady(s, bp, asize);
        var rest := Carve(bp, asize, csize);
        ghost var m1, t1 := mem.data[..], t;
        rest := Coalesce(rest);
        KeepsLiveTrans(m, m1, mem.data[..], s.t, t1, FLOOR);
      } else {
        Retile(bp, csize, true);
        KeepsLiveSub(m, mem.data[..], s.t, t, FLOOR);
      }
    }

    /** extend_heap(words); bp is NULL if sbrk fails. */
    method ExtendHeap(words: nat) returns (bp: nat)
      requires Valid() && 4 <= words && EvenBytes(words) < WORD_SPAN
      modifies this, mem, mem.data
      ensures Valid()
      ensures mem.outOfMemory == (old(mem.outOfMemory) || bp == NULL)
      ensures EvenBytes(words) % 8 == 0 && 16 <= EvenBytes(words)
      ensures if old(mem.brk) + EvenBytes(words) > MAX_HEAP
              then bp == NULL && St() == old(St()) && mem.data[..] == old(mem.data[..])
              else bp == ExtendAt(old(St()), EvenBytes(words)) && bp != NULL
                   && St() == Extend(old(St()), EvenBytes(words))
      ensures KeepsLive(old(mem.data[..]), mem.data[..], old(t), FLOOR)
    {
      hide GetWord, Represents, Tiled, Inv, Fuse, KeepsLive, LiveWithin;
      ghost var m, s := mem.data[..], St();
      EvenBytesOk(words);
      var size := if words % 2 == 1 then (words + 1) * 4 else words * 4;
      hide EvenBytes;
      var p := mem.Sbrk(ToInt(size));
      if p == -1 {
        KeepsLiveRefl(m, t, FLOOR);
        return NULL;
      }
      ExtendInv(s, size);
      GrownPartial(s, size);
      t := t[p := Block(size, false)];
      TagNewBlock(p, size, s);
      ghost var m1 := mem.data[..];
      bp := Coalesce(p);
      KeepsLiveTrans(m, m1, mem.data[..], s.t, Grown(s, size).t, FLOOR);
    }

    /** The three PUTs of extend_heap: the new block's tags and the new epilogue. */
    method TagNewBlock(bp: nat, size: nat, ghost s: State)
      requires mem.Valid() && Inv(s) && size % 8 == 0 && 16 <= size && s.hi + size <= MAX_HEAP && heapListp == LO
      requires Represents(mem.data[..], s.t, s.hi) && St() == Grown(s, size) && bp == s.hi
      modifies mem.data
      ensures Consistent()
      ensures KeepsLive(old(mem.data[..]), mem.data[..], s.t, FLOOR)
    {
      hide GetWord, Inv, Tiled, KeepsLive;
      ghost var m := mem.data[..];
      GrownPartial(s, size);
      GrownTags(s, size, m);
      ghost var m1 := PutTags(mem, bp, size, false, t, LO, FLOOR, mem.brk, {bp});
      ghost var m2 := mem.data[..];
      ReadTagsOf(m2, t, bp, {bp} - {bp});
      PackParts(0, true);
      mem.Put(NextBlkp(mem, bp) - 4, Pack(0, true));
      EpilogueWrite(m2, mem.data[..], t, LO, FLOOR, mem.brk);
      KeepsLiveTrans(m, m2, mem.data[..], t, t, FLOOR);
      KeepsLiveSub(m, mem.data[..], s.t, t, FLOOR);
    }

    /** mm_init */
    method Init() returns (r: int)
      requires mem.Valid() && mem.brk == 0
      modifies this, mem, mem.data
      ensures r == 0 && Valid() && St() == Initial()
      ensures mem.outOfMemory == old(mem.outOfMemory)
    {
      hide GetWord, Tiled, Inv, ExtendAt, Extend;
      var p := mem.Sbrk(16);
      if p == -1 {
        return -1;
      }
      LayOut(p);
      heapListp := p + 8;
      lastFreep := heapListp;
      t := map[LO := Block(DSIZE, true)];
      BareInv();
      BareTags(mem.data[..]);
      hide Represents, Bare, EvenBytes;
      EvenBytesOk(CHUNKSIZE / 4);
      var bp := ExtendHeap(CHUNKSIZE / 4);
      if bp == NULL {
        return -1;
      }
      r := 0;
    }

    method LayOut(heapStart: nat)
      requires mem.Valid() && heapStart == 0
      modifies mem.data
      ensures GetWord(mem.data[..], 4) == Pack(DSIZE, true) && GetWord(mem.data[..], 8) == Pack(DSIZE, true)
      ensures GetWord(mem.data[..], 12) == Pack(0, true)
    {
      hide GetWord;
      mem.Put(heapStart, 0);
      mem.Put(heapStart + 4, Pack(DSIZE, true));
      mem.Put(heapStart + 8, Pack(DSIZE, true));
      mem.Put(heapStart + 12, Pack(0, true));
    }

    /** mm_malloc */
    method Malloc(size: Word) returns (bp: nat)
      requires Valid() && size + 15 < WORD_SPAN
      modifies this, mem, mem.data
      ensures Valid() && (St(), bp) == NextFitSpec.Malloc(old(St()), size)
      ensures mem.outOfMemory == (old(mem.outOfMemory) || (bp == NULL && size != 0))
      ensures bp == NULL ==> mem.data[..] == old(mem.data[..])
      ensures KeepsLive(old(mem.data[..]), mem.data[..], old(t), FLOOR)
      ensures MallocStep(old(Heap()), Heap(), size, bp)
      ensures NextFitLaw.MallocLaw(old(St()), size, St(), bp)
    {
      hide NextFitLaw.MallocLaw;
      bp := MallocBlock(size);
      MallocOutcome(old(St()), size);
      NextFitLaw.MallocLawful(old(St()), size);
      if bp != NULL {
        hide GetWord, KeepsLive, NextFitSpec.Malloc, LiveAdds, Represents, BlocksOk, Chained, Apart;
        GrantSeen(old(mem.data[..]), mem.data[..], old(t), t, LO, FLOOR, mem.brk, bp, size);
      }
    }

    /** The body of mm_malloc */
    method MallocBlock(size: Word) returns (bp: nat)
      requires Valid() && size + 15 < WORD_SPAN
      modifies this, mem, mem.data
      ensures Valid() && (St(), bp) == NextFitSpec.Malloc(old(St()), size)
      ensures mem.outOfMemory == (old(mem.outOfMemory) || (bp == NULL && size != 0))
      ensures bp == NULL ==> mem.data[..] == old(mem.data[..])
      ensures KeepsLive(old(mem.data[..]), mem.data[..], old(t), FLOOR)
    {
      hide GetWord, Represents, Tiled, Inv, KeepsLive, LiveWithin, NextFitSpec.Place, NextFitSpec.FindFit, Extend, ExtendAt;
      ghost var m, s := mem.data[..], St();
      if size == 0 {
        KeepsLiveRefl(m, t, FLOOR);
        return NULL;
      }
      var asize := DividedSize(size);
      AsizeOk(size);
      FindFitOk(s, Asize(size));
      bp := FindFit(asize);
      if bp != NULL {
        Place(bp, asize);
        return;
      }
      var extendsize := Max(asize, CHUNKSIZE);
      Quarter(extendsize);
      bp := ExtendHeap(extendsize / 4);
      if bp == NULL {
        return;
      }
      ExtendInv(s, extendsize);
      ghost var m1, t1 := mem.data[..], t;
      Place(bp, asize);
      KeepsLiveTrans(m, m1, mem.data[..], s.t, t1, FLOOR);
    }

    /** The block size for a request, rounded by division instead of a mask */
    method DividedSize(size: Word) returns (asize: nat)
      requires 0 < size && size + 15 < WORD_SPAN
      ensures asize == Asize(size)
    {
      if size <= DSIZE {
        AsizeOfSmall(size);
        asize := 2 * DSIZE;
      } else {
        asize := DSIZE * ((size + DSIZE + (DSIZE - 1)) / DSIZE);
        AsizeByDivision(size);
      }
    }

    /** mm_free */
    method Free(bp: nat)
      requires Valid() && IsLive(t, FLOOR, bp)
      modifies `t, `lastFreep, mem.data
      ensures Valid() && St() == NextFitSpec.Free(old(St()), bp)
      ensures KeepsLive(old(mem.data[..]), mem.data[..], t, FLOOR)
      ensures FreeStep(old(Heap()), Heap(), bp)
      ensures NextFitLaw.FreeLaw(old(St()), bp, St())
    {
      hide NextFitLaw.FreeLaw, GetWord, Represents, Tiled, NoAdjacentFree, Fuse, KeepsLive, LiveWithin;
      ghost var m, s := mem.data[..], St();
      FreedPartial(s, bp);
      FreeReady(s, bp);
      var size := BlockSize(mem, bp, t, LO, FLOOR, mem.brk);
      Retile(bp, size, false);
      ghost var m1 := mem.data[..];
      var r := Coalesce(bp);
      FreeOk(s, bp);
      NextFitLaw.FreeLawful(s, bp);
      FreedLive(m, m1, mem.data[..], s, bp, t);
      DropSeen(m, mem.data[..], s.t, t, FLOOR, bp);
    }

    /** mm_realloc */
    method Realloc(ptr: nat, size: Word) returns (newptr: nat)
      requires Valid() && IsLive(t, FLOOR, ptr) && size + 15 < WORD_SPAN
      modifies this, mem, mem.data
      ensures Valid() && newptr == NextFitSpec.Malloc(old(St()), size).1
      ensures St() == NextFitSpec.Realloc(old(St()), ptr, size)
      ensures newptr == NULL ==> St() == old(St()) && mem.data[..] == old(mem.data[..])
      ensures ReallocStep(old(Heap()), Heap(), ptr, size, newptr)
      ensures NextFitLaw.ReallocLaw(old(St()), ptr, size, St(), newptr)
    {
      hide NextFitLaw.MallocLaw, NextFitLaw.FreeLaw, Represents, Tiled, NoAdjacentFree, Inv, KeepsLive, NextFitSpec.Malloc, NextFitSpec.Free;
      ghost var s, c := St(), Heap();
      newptr := Malloc(size);
      MallocOutcome(s, size);
      if newptr == NULL {
        return;
      }
      ghost var c1 := Heap();
      assert IsLive(s.t, FLOOR, ptr) && IsLive(t, FLOOR, newptr);
      hide MallocStep, CopyStep, FreeStep, ReallocStep;
      ghost var n := CopyOver(newptr, ptr, size);
      ghost var c2 := Heap();
      Free(ptr);
      MovedData(c, c1, c2, Heap(), ptr, newptr, size);
    }

    method CopyOver(newptr: nat, oldptr: nat, size: nat) returns (ghost n: nat)
      requires Valid() && IsLive(t, FLOOR, oldptr) && IsLive(t, FLOOR, newptr) && newptr != oldptr
      requires size + 8 <= t[newptr].size
      modifies mem.data
      ensures Valid() && CopyStep(old(Heap()), Heap(), oldptr, newptr, size)
      ensures CopyReach(t, mem.brk, newptr, oldptr, size, n) && SameOutside(old(mem.data[..]), mem.data[..], newptr, n)
    {
      hide TaggedBut, Tiled, NoAdjacentFree, ContentsOf, CopyStep;
      ghost var m := mem.data[..];
      n := CopyBlock(mem, newptr, oldptr, size, t, LO, FLOOR, mem.brk);
      ClientWrite(m, mem.data[..], t, LO, FLOOR, mem.brk, newptr, n);
    }
  }

  /** Where the neighbours of the pending block p stand. */
  lemma MergeFacts(s: State, p: nat)
    requires NextFitSpec.Partial(s) && FreeAt(s.t, p)
    ensures FLOOR <= p
    ensures var q, n := Prev(s.t, LO, FLOOR, s.hi, p), Next(s.t, p);
            var r, e := MergeLow(s.t, q, p), MergeHigh(s.t, p);
            r in s.t && FLOOR <= r < e && (e in s.t || e == s.hi)
  {
    PendingAboveFloor(s, p);
    var q, n := Prev(s.t, LO, FLOOR, s.hi, p), Next(s.t, p);
    assert FreeAt(s.t, n) ==> Next(s.t, n) == s.hi || Next(s.t, n) in s.t;
    assert BlockOk(s.t[q], q, LO, FLOOR, s.hi);
  }

  /** What the header at a block boundary says; only the epilogue has size 0. */
  lemma HeaderAt(m: Mem, s: State, p: nat)
    requires NextFitSpec.Partial(s) && Represents(m, s.t, s.hi) && (p in s.t || p == s.hi)
    ensures 4 <= p <= |m| && s.hi <= |m|
    ensures SizeOf(GetWord(m, p - 4)) == if p in s.t then s.t[p].size else 0
    ensures AllocOf(GetWord(m, p - 4)) == !FreeAt(s.t, p)
    ensures p in s.t <==> p != s.hi
    ensures p in s.t ==> 0 < s.t[p].size && LO <= p < s.hi
  {
    hide GetWord;
    if p in s.t {
      ReadNeighbours(m, s.t, LO, FLOOR, s.hi, p);
      StepForward(s.t, s.hi, p);
      assert BlockOk(s.t[p], p, LO, FLOOR, s.hi);
    } else {
      PackParts(0, true);
    }
  }

  lemma StepShort(t: Tiles, hi: nat, p: nat, last: nat)
    requires Tiled(t, LO, FLOOR, hi) && p in t && last in t && p < last
    ensures Next(t, p) <= last && Next(t, p) in t
  {
    assert BlockOk(t[last], last, LO, FLOOR, hi);
  }

  lemma SplitHeader(m: Mem, t: Tiles, p: nat, a: nat, ex: set<nat>)
    requires p in t && 0 < a <= t[p].size && a % 8 == 0
    requires TaggedBut(m, Split(t, p, a), ex) && p !in ex
    ensures 4 <= p <= |m| && p + a - 8 <= |m| && SizeOf(GetWord(m, p - 4)) == a
  {
    hide GetWord;
    ReadTagsOf(m, Split(t, p, a), p, ex);
  }

  lemma GrownTags(s: State, size: nat, m: Mem)
    requires Inv(s) && size % 8 == 0 && 16 <= size && s.hi + size <= MAX_HEAP && TaggedBut(m, s.t, {})
    ensures TaggedBut(m, Grown(s, size).t, {s.hi}) && Grown(s, size).t[s.hi] == Block(size, false)
    ensures LiveWithin(s.t, Grown(s, size).t, FLOOR)
  {
    hide Tagged;
    GrowTiled(s.t, LO, FLOOR, s.hi, size);
  }

  lemma BareTags(m: Mem)
    requires |m| == MAX_HEAP
    requires GetWord(m, 4) == Pack(DSIZE, true) && GetWord(m, 8) == Pack(DSIZE, true)
    requires GetWord(m, 12) == Pack(0, true)
    ensures Represents(m, Bare().t, FLOOR)
  {
    hide GetWord;
  }

  lemma PlaceFacts(s: State, p: nat)
    requires Inv(s) && FreeAt(s.t, p)
    ensures FLOOR <= p && Next(s.t, p) <= s.hi && (Next(s.t, p) in s.t || Next(s.t, p) == s.hi) && 16 <= s.t[p].size
    ensures Retag(s.t, p, true) == Fuse(s.t, p, Next(s.t, p), true)
  {
    PendingAboveFloor(s, p);
    RetagIsFuse(s.t, LO, FLOOR, s.hi, p, true);
  }

  lemma FreeReady(s: State, p: nat)
    requires Inv(s) && IsLive(s.t, FLOOR, p)
    ensures 16 <= s.t[p].size && (Next(s.t, p) in s.t || Next(s.t, p) == s.hi)
    ensures Retag(s.t, p, false) == Fuse(s.t, p, Next(s.t, p), false)
  {
    assert BlockOk(s.t[p], p, LO, FLOOR, s.hi);
    RetagIsFuse(s.t, LO, FLOOR, s.hi, p, false);
  }

  lemma FreedLive(m: Mem, m1: Mem, m2: Mem, s: State, p: nat, t2: Tiles)
    requires Inv(s) && IsLive(s.t, FLOOR, p) && t2 == NextFitSpec.Free(s, p).t
    requires KeepsLive(m, m1, Freed(s, p).t, FLOOR) && KeepsLive(m1, m2, Freed(s, p).t, FLOOR)
    ensures KeepsLive(m, m2, t2, FLOOR)
  {
    FreedPartial(s, p);
    CoalesceInv(Freed(s, p), p);
    LiveRefl(Freed(s, p).t, FLOOR);
    hide Inv, NextFitSpec.Partial, KeepsLive, LiveWithin, NoAdjacentFreeBut, NextFitSpec.Coalesce;
    KeepsLiveTrans(m, m1, m2, Freed(s, p).t, Freed(s, p).t, FLOOR);
    KeepsLiveSub(m, m2, t2, Freed(s, p).t, FLOOR);
  }
}

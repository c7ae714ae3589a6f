/** mm.c: the allocator with an explicit first-fit free list, over raw memory. */
module Explicit {
  import opened Memory
  import opened Tiling
  import opened Tags
  import opened Links
  import opened ExplicitSpec
  import ExplicitLaw
  import opened AbstractHeap
  import opened Contents
  import opened Requests

  // PREC_FREEP(bp) is the word at bp, SUCC_FREEP(bp) the word at bp + WSIZE.
  const LINKS: Shape := Shape(4, 0, 8)

  /** The list as it lies in memory: the free blocks, then the prologue. */
  ghost function Chain(fl: seq<nat>): seq<nat> {
    fl + [LO]
  }

  /** Memory m with list head head holds the abstract state s. */
  ghost predicate Holds(m: Mem, s: State, head: nat) {
    && |m| == MAX_HEAP
    && Represents(m, s.t, s.hi)
    && Linked(m, Chain(s.fl), head, NULL, LINKS)
  }

  class Allocator {
    const mem: MemLib
    var freeListp: nat
    ghost var t: Tiles
    ghost var fl: seq<nat>

    constructor (mem: MemLib)
      ensures this.mem == mem
    {
      this.mem := mem;
      freeListp, t, fl := NULL, map[], [];
    }

    ghost function St(): State
      reads this, mem
    {
      State(t, fl, mem.brk)
    }

    /** A consistent heap in which the blocks of ex are free but not yet listed. */
    ghost predicate Consistent(ex: set<nat>)
      reads this, mem, mem.data
    {
      && mem.Valid()
      && Partial(St(), ex)
      && Holds(mem.data[..], St(), freeListp)
    }

    ghost predicate Valid()
      reads this, mem, mem.data
    {
      Consistent({}) && Inv(St())
    }

    /** The bytes behind each live pointer. */
    ghost function Heap(): AbstractHeap.Heap
      reads this, mem.data
    {
      ContentsOf(mem.data[..], t, FLOOR)
    }

    /** Live payloads are aligned, inside the heap and pairwise disjoint. */
    lemma PayloadsPlaced()
      requires Valid()
      ensures WellPlaced(Heap(), mem.brk)
    {
      PlacedSeen(mem.data[..], t, LO, FLOOR, mem.brk);
    }

    lemma StateOk()
      requires Valid()
      ensures Inv(St())
    {
    }

    lemma InHeapIsLive(p: nat)
      requires p in Heap()
      ensures IsLive(t, FLOOR, p)
    {
    }

    /** removeBlock */
    method RemoveBlock(bp: nat, ghost ex: set<nat>)
      requires Consistent(ex) && bp in fl
      modifies `freeListp, `fl, mem.data
      ensures Consistent(ex + {bp})
      ensures fl == Without(old(fl), bp)
      ensures KeepsLive(old(mem.data[..]), mem.data[..], t, FLOOR)
    {
      hide GetWord, Tiled, Linked, TaggedBut, NoDup, IndexOf, Without;
      ghost var m, s, head := mem.data[..], St(), freeListp;
      ghost var k := IndexOf(fl, bp);
      ChainNodes(s, ex, m, head, k);
      var prec, succ := mem.Get(bp), mem.Get(bp + 4);
      ghost var m1 := m;
      if bp == freeListp {
        mem.Put(succ, NULL);
        freeListp := succ;
        assert UnlinkedForward(m, m1, mem.data[..], Chain(s.fl), NULL, LINKS, k);
      } else {
        mem.Put(prec + 4, succ);
        m1 := mem.data[..];
        mem.Put(succ, prec);
        assert UnlinkedForward(m, m1, mem.data[..], Chain(s.fl), NULL, LINKS, k);
      }
      hide UnlinkedForward, Wrote;
      fl := Without(fl, bp);
      RemoveHolds(m, m1, mem.data[..], s, ex, head, k);
    }

    /** putFreeBlock */
    method PutFreeBlock(bp: nat, ghost ex: set<nat>)
      requires Consistent(ex) && FreeAt(t, bp) && bp in ex
      modifies `freeListp, `fl, mem.data
      ensures Consistent(ex - {bp})
      ensures fl == [bp] + old(fl)
      ensures KeepsLive(old(mem.data[..]), mem.data[..], t, FLOOR)
    {
      hide GetWord, Tiled, Linked, TaggedBut;
      ghost var m, s, head := mem.data[..], St(), freeListp;
      RoomFor(s, ex, m, head, bp);
      mem.Put(bp + 4, freeListp);
      ghost var m1 := mem.data[..];
      mem.Put(bp, NULL);
      ghost var m2 := mem.data[..];
      mem.Put(freeListp, bp);
      freeListp := bp;
      fl := [bp] + fl;
      PutHolds(m, m1, m2, mem.data[..], s, ex, head, bp);
    }

    /** The blocks from r on, size bytes in all, become one block with fresh tags. */
    method Retile(r: nat, size: nat, alloc: bool, ghost ex: set<nat>)
      requires Consistent(ex)
      requires r in t && FLOOR <= r && 0 < size && (r + size in t || r + size == mem.brk)
      requires forall x :: x in fl ==> x < r || r + size <= x
      modifies `t, mem.data
      ensures Consistent(ex + {r})
      ensures t == Fuse(old(t), r, r + size, alloc)
      ensures KeepsLive(old(mem.data[..]), mem.data[..], t, FLOOR)
    {
      hide GetWord, Linked;
      ghost var m, s := mem.data[..], St();
      FuseTiled(t, LO, FLOOR, mem.brk, r, r + size, alloc);
      t := Fuse(t, r, r + size, alloc);
      FusePartial(s, ex, r, r + size, alloc);
      assert TaggedBut(m, t, {r});
      ghost var m1 := PutTags(mem, r, size, alloc, t, LO, FLOOR, mem.brk, {r});
      TagsKeepLinks(m, m1, mem.data[..], t, LO, FLOOR, mem.brk, r, Chain(fl), freeListp, NULL, LINKS);
    }

    /** coalesce */
    method Coalesce(bp: nat) returns (r: nat)
      requires Consistent({bp}) && FreeAt(t, bp) && NoAdjacentFreeBut(t, bp)
      modifies `t, `freeListp, `fl, mem.data
      ensures Valid()
      ensures St() == ExplicitSpec.Coalesce(old(St()), bp)
      ensures r == CoalescedAt(old(St()), bp)
      ensures KeepsLive(old(mem.data[..]), mem.data[..], old(t), FLOOR)
    {
      hide GetWord, Represents, Linked, Without, Tiled, Inv, Listed, Fuse, KeepsLive, LiveWithin;
      ghost var m, s := mem.data[..], St();
      ghost var m1, m2 := m, m;
      KeepsLiveRefl(m, t, FLOOR);
      CoalesceInv(s, bp);
      CoalesceLive(s, bp);
      MergeFacts(s, bp);
      RetagIsFuse(t, LO, FLOOR, mem.brk, bp, false);
      var prev, next, prevAlloc, nextAlloc, size := Neighbours(mem, bp, t, LO, FLOOR, mem.brk);
      r := bp;
      if prevAlloc && nextAlloc {
        PutFreeBlock(bp, {bp});
      } else if prevAlloc && !nextAlloc {
        RemoveBlock(next, {bp});
        m1 := mem.data[..];
        var nextSize := BlockSize(mem, next, t, LO, FLOOR, mem.brk);
        size := size + nextSize;
        Retile(r, size, false, {bp} + {next});
        m2 := mem.data[..];
        PutFreeBlock(r, {bp} + {next} + {r});
      } else if !prevAlloc && nextAlloc {
        RemoveBlock(prev, {bp});
        m1 := mem.data[..];
        var prevSize := BlockSize(mem, prev, t, LO, FLOOR, mem.brk);
        size := size + prevSize;
        r := prev;
        Retile(r, size, false, {bp} + {prev});
        m2 := mem.data[..];
        PutFreeBlock(r, {bp} + {prev} + {r});
      } else {
        RemoveBlock(prev, {bp});
        m2 := mem.data[..];
        RemoveBlock(next, {bp} + {prev});
        KeepsLiveTrans(m, m2, mem.data[..], s.t, s.t, FLOOR);
        m1 := mem.data[..];
        var prevSize := BlockSize(mem, prev, t, LO, FLOOR, mem.brk);
        var nextSize := BlockSize(mem, next, t, LO, FLOOR, mem.brk);
        size := size + prevSize + nextSize;
        r := prev;
        Retile(r, size, false, {bp} + {prev} + {next});
        m2 := mem.data[..];
        PutFreeBlock(r, {bp} + {prev} + {next} + {r});
      }
      KeepsLiveTrans(m, m1, m2, s.t, t, FLOOR);
      KeepsLiveTrans(m, m2, mem.data[..], s.t, t, FLOOR);
    }

    /** find_fit */
    method FindFit(asize: nat) returns (bp: nat)
      requires Valid()
      ensures forall x :: x in fl ==> x in t
      ensures bp == FirstFit(t, fl, 0, asize)
    {
      hide GetWord, Tiled, Represents, Linked, Listed, NoAdjacentFree;
      ListedInTiling(St());
      ChainHead(St(), mem.data[..], freeListp);
      ghost var m, i := mem.data[..], 0;
      bp := freeListp;
      while true
        invariant i <= |fl| && bp == Chain(fl)[i]
        invariant FirstFit(t, fl, 0, asize) == FirstFit(t, fl, i, asize)
        decreases |fl| - i
      {
        ReadNeighbours(m, t, LO, FLOOR, mem.brk, bp);
        if GetAlloc(mem, bp - 4) {
          break;
        }
        if asize <= GetSize(mem, bp - 4) {
          return;
        }
        ChainNodes(St(), {}, m, freeListp, i);
        bp := mem.Get(bp + 4);
        i := i + 1;
      }
      bp := NULL;
    }

    /** The first half of a split: both new blocks get their tags. */
    method Carve(bp: nat, asize: nat, csize: nat) returns (rest: nat)
      requires Consistent({bp}) && FreeAt(t, bp) && t[bp].size == csize
      requires asize % 8 == 0 && 16 <= asize && asize + 16 <= csize
      modifies `t, mem.data
      ensures Consistent({bp + asize})
      ensures t == Split(old(t), bp, asize) && rest == bp + asize
      ensures KeepsLive(old(mem.data[..]), mem.data[..], old(t), FLOOR)
    {
      hide GetWord, Linked, TaggedBut, Tiled;
      ghost var m, s := mem.data[..], St();
      SplitPartial(s, bp, asize, m, freeListp);
      t := Split(t, bp, asize);
      ghost var m1 := PutTags(mem, bp, asize, true, t, LO, FLOOR, mem.brk, {bp} + {bp + asize});
      ghost var m2 := mem.data[..];
      TagsKeepLinks(m, m1, m2, t, LO, FLOOR, mem.brk, bp, Chain(fl), freeListp, NULL, LINKS);
      ReadTagsOf(m2, t, bp, {bp} + {bp + asize} - {bp});
      rest := NextBlkp(mem, bp);
      ghost var m3 := PutTags(mem, rest, csize - asize, false, t, LO, FLOOR, mem.brk, {bp} + {bp + asize} - {bp});
      TagsKeepLinks(m2, m3, mem.data[..], t, LO, FLOOR, mem.brk, rest, Chain(fl), freeListp, NULL, LINKS);
      KeepsLiveTrans(m, m2, mem.data[..], t, t, FLOOR);
      KeepsLiveSub(m, mem.data[..], s.t, t, FLOOR);
      NothingLeft(mem.data[..], t, bp, bp + asize);
    }

    /** place */
    method Place(bp: nat, asize: nat)
      requires Valid() && FreeAt(t, bp) && asize % 8 == 0 && 16 <= asize <= t[bp].size
      modifies `t, `freeListp, `fl, mem.data
      ensures Valid()
      ensures St() == ExplicitSpec.Place(old(St()), bp, asize)
      ensures KeepsLive(old(mem.data[..]), mem.data[..], old(t), FLOOR)
    {
      hide GetWord, Represents, Linked, Without, Tiled, Inv, Fuse, KeepsLive, LiveWithin;
      ghost var m, s := mem.data[..], St();
      PlaceInv(s, bp, asize);
      PlaceLive(s, bp, asize);
      PlaceFacts(s, bp);
      RetagIsFuse(t, LO, FLOOR, mem.brk, bp, true);
      var csize := BlockSize(mem, bp, t, LO, FLOOR, mem.brk);
      RemoveBlock(bp, {});
      ghost var m1 := mem.data[..];
      if csize - asize >= MINIMUM {
        var rest := Carve(bp, asize, csize);
        ghost var m2 := mem.data[..];
        PutFreeBlock(rest, {bp + asize});
        KeepsLiveTrans(m, m1, m2, s.t, s.t, FLOOR);
        KeepsLiveTrans(m, m2, mem.data[..], s.t, t, FLOOR);
      } else {
        Retile(bp, csize, true, {} + {bp});
        KeepsLiveTrans(m, m1, mem.data[..], s.t, t, FLOOR);
      }
    }

    /** extend_heap(words); bp is NULL if sbrk fails. */
    method ExtendHeap(words: nat) returns (bp: nat)
      requires Valid() && 4 <= words && EvenBytes(words) < WORD_SPAN
      modifies this, mem, mem.data
      ensures Valid()
      ensures mem.outOfMemory == (old(mem.outOfMemory) || bp == NULL)
      ensures EvenBytes(words) % 8 == 0 && 16 <= EvenBytes(words)
      ensures if old(mem.brk) + EvenBytes(words) > MAX_HEAP
              then bp == NULL && St() == old(St()) && mem.data[..] == old(mem.data[..])
              else bp == ExtendAt(old(St()), EvenBytes(words)) && bp != NULL
                   && St() == Extend(old(St()), EvenBytes(words))
      ensures KeepsLive(old(mem.data[..]), mem.data[..], old(t), FLOOR)
    {
      hide GetWord, Represents, Linked, Without, Tiled, Inv, Fuse, KeepsLive, LiveWithin;
      ghost var m, s := mem.data[..], St();
      EvenBytesOk(words);
      var size := if words % 2 == 1 then (words + 1) * 4 else words * 4;
      hide EvenBytes;
      var p := mem.Sbrk(ToInt(size));
      if p == -1 {
        KeepsLiveRefl(m, t, FLOOR);
        return NULL;
      }
      ExtendInv(s, size);
      GrownPartial(s, size);
      t := t[p := Block(size, false)];
      TagNewBlock(p, size, s);
      ghost var m1 := mem.data[..];
      bp := Coalesce(p);
      KeepsLiveTrans(m, m1, mem.data[..], s.t, Grown(s, size).t, FLOOR);
    }

    /** The three PUTs of extend_heap: the new block's tags and the new epilogue. */
    method TagNewBlock(bp: nat, size: nat, ghost s: State)
      requires mem.Valid() && Inv(s) && size % 8 == 0 && 16 <= size && s.hi + size <= MAX_HEAP
      requires Holds(mem.data[..], s, freeListp) && St() == Grown(s, size) && bp == s.hi
      modifies mem.data
      ensures Consistent({bp})
      ensures KeepsLive(old(mem.data[..]), mem.data[..], s.t, FLOOR)
    {
      hide GetWord, Linked, Inv, Tiled, Listed;
      ghost var m := mem.data[..];
      GrownPartial(s, size);
      GrownRoomy(s, size);
      assert TaggedBut(m, t, {bp});
      ghost var m1 := PutTags(mem, bp, size, false, t, LO, FLOOR, mem.brk, {bp});
      ghost var m2 := mem.data[..];
      TagsKeepLinks(m, m1, m2, t, LO, FLOOR, mem.brk, bp, Chain(fl), freeListp, NULL, LINKS);
      ReadTagsOf(m2, t, bp, {bp} - {bp});
      PackParts(0, true);
      mem.Put(NextBlkp(mem, bp) - 4, Pack(0, true));
      EpilogueWrite(m2, mem.data[..], t, LO, FLOOR, mem.brk);
      EpilogueKeepsLinks(m2, mem.data[..], t, LO, FLOOR, mem.brk, Chain(fl), freeListp, NULL, LINKS);
      KeepsLiveTrans(m, m2, mem.data[..], t, t, FLOOR);
      KeepsLiveSub(m, mem.data[..], s.t, t, FLOOR);
    }

    /** The six PUTs of mm_init: padding, prologue and epilogue. */
    method LayOut(heapListp: nat)
      requires mem.Valid() && heapListp == 0
      modifies mem.data
      ensures GetWord(mem.data[..], 4) == Pack(MINIMUM, true) && GetWord(mem.data[..], 16) == Pack(MINIMUM, true)
      ensures GetWord(mem.data[..], 8) == NULL && GetWord(mem.data[..], 12) == NULL
      ensures GetWord(mem.data[..], 20) == Pack(0, true)
    {
      hide GetWord;
      mem.Put(heapListp, 0);
      mem.Put(heapListp + 4, Pack(MINIMUM, true));
      mem.Put(heapListp + 8, NULL);
      mem.Put(heapListp + 12, NULL);
      mem.Put(heapListp + 16, Pack(MINIMUM, true));
      mem.Put(heapListp + 20, Pack(0, true));
    }

    /** mm_init */
    method Init() returns (r: int)
      requires mem.Valid() && mem.brk == 0
      modifies this, mem, mem.data
      ensures r == 0 && Valid() && St() == Initial()
      ensures mem.outOfMemory == old(mem.outOfMemory)
    {
      hide GetWord, Tiled, Inv;
      var heapListp := mem.Sbrk(24);
      if heapListp == -1 {
        return -1;
      }
      LayOut(heapListp);
      freeListp := heapListp + 8;
      t, fl := map[LO := Block(MINIMUM, true)], [];
      BareInv();
      BareHolds(mem.data[..]);
      hide Holds, Listed;
      EvenBytesOk(CHUNKSIZE / 4);
      InitialOk();
      var bp := ExtendHeap(CHUNKSIZE / 4);
      if bp == NULL {
        return -1;
      }
      r := 0;
    }

    /** mm_malloc */
    method Malloc(size: Word) returns (bp: nat)
      requires Valid() && size + 15 < WORD_SPAN
      modifies this, mem, mem.data
      ensures Valid()
      ensures (St(), bp) == ExplicitSpec.Malloc(old(St()), size)
      ensures mem.outOfMemory == (old(mem.outOfMemory) || (bp == NULL && size != 0))
      ensures bp == NULL ==> mem.data[..] == old(mem.data[..])
      ensures KeepsLive(old(mem.data[..]), mem.data[..], old(t), FLOOR)
      ensures MallocStep(old(Heap()), Heap(), size, bp) && old(mem.brk) <= mem.brk
      ensures size == 0 ==> bp == NULL
      ensures ExplicitLaw.MallocLaw(old(St()), size, St(), bp)
    {
      hide ExplicitLaw.MallocLaw;
      bp := MallocBlock(size);
      MallocOutcome(old(St()), size);
      ExplicitLaw.MallocLawful(old(St()), size);
      if bp != NULL {
        MallocGrants(old(St()), size);
        hide GetWord, Holds, Tiled, KeepsLive, ExplicitSpec.Malloc, LiveAdds;
        GrantSeen(old(mem.data[..]), mem.data[..], old(t), t, LO, FLOOR, mem.brk, bp, size);
      }
    }

    /** The body of mm_malloc */
    method MallocBlock(size: Word) returns (bp: nat)
      requires Valid() && size + 15 < WORD_SPAN
      modifies this, mem, mem.data
      ensures Valid()
      ensures (St(), bp) == ExplicitSpec.Malloc(old(St()), size)
      ensures mem.outOfMemory == (old(mem.outOfMemory) || (bp == NULL && size != 0))
      ensures bp == NULL ==> mem.data[..] == old(mem.data[..])
      ensures KeepsLive(old(mem.data[..]), mem.data[..], old(t), FLOOR)
    {
      hide GetWord, Holds, Tiled, Inv, KeepsLive, LiveWithin, ExplicitSpec.Place, Extend, ExtendAt;
      ghost var m, s := mem.data[..], St();
      if size == 0 {
        KeepsLiveRefl(m, t, FLOOR);
        return NULL;
      }
      AsizeOk(size);
      FindFitOk(s, Asize(size));
      var asize := Asize(size);
      bp := FindFit(asize);
      if bp != NULL {
        Place(bp, asize);
        return;
      }
      var extendsize := Max(asize, CHUNKSIZE);
      Quarter(extendsize);
      bp := ExtendHeap(extendsize / 4);
      if bp == NULL {
        return;
      }
      ExtendInv(s, extendsize);
      ghost var m1, t1 := mem.data[..], t;
      Place(bp, asize);
      KeepsLiveTrans(m, m1, mem.data[..], s.t, t1, FLOOR);
    }

    /** mm_free */
    method Free(bp: nat)
      requires Valid() && IsLive(t, FLOOR, bp)
      modifies `t, `freeListp, `fl, mem.data
      ensures Valid()
      ensures St() == ExplicitSpec.Free(old(St()), bp)
      ensures KeepsLive(old(mem.data[..]), mem.data[..], t, FLOOR)
      ensures FreeStep(old(Heap()), Heap(), bp)
      ensures ExplicitLaw.FreeLaw(old(St()), bp, St())
    {
      hide ExplicitLaw.FreeLaw, GetWord, Linked, Tiled, Inv, KeepsLive, LiveWithin;
      ghost var m, s := mem.data[..], St();
      FreedPartial(s, bp);
      CoalesceLive(Freed(s, bp), bp);
      LiveAligned(s, bp);
      FreeFacts(s, bp);
      RetagIsFuse(t, LO, FLOOR, mem.brk, bp, false);
      var size := BlockSize(mem, bp, t, LO, FLOOR, mem.brk);
      Retile(bp, size, false, {});
      ghost var m1, t1 := mem.data[..], t;
      var r := Coalesce(bp);
      KeepsLiveSub(m, m1, t, t1, FLOOR);
      KeepsLiveTrans(m, m1, mem.data[..], t, t1, FLOOR);
      FreeOk(s, bp);
      ExplicitLaw.FreeLawful(s, bp);
      DropSeen(m, mem.data[..], s.t, t, FLOOR, bp);
    }

    /** mm_realloc */
    method Realloc(ptr: nat, size: Word) returns (newptr: nat)
      requires Valid() && IsLive(t, FLOOR, ptr) && size + 15 < WORD_SPAN
      modifies this, mem, mem.data
      ensures Valid()
      ensures (St(), newptr) == ExplicitSpec.Realloc(old(St()), ptr, size)
      ensures mem.outOfMemory == (old(mem.outOfMemory) || (newptr == NULL && size != 0))
      ensures newptr == NULL ==> mem.data[..] == old(mem.data[..])
      ensures ReallocStep(old(Heap()), Heap(), ptr, size, newptr) && old(mem.brk) <= mem.brk
      ensures size == 0 ==> newptr == NULL
      ensures ExplicitLaw.ReallocLaw(old(St()), ptr, size, St(), newptr)
    {
      hide ExplicitLaw.MallocLaw, ExplicitLaw.FreeLaw, GetWord, Holds, Tiled, Inv, KeepsLive, ExplicitSpec.Malloc, ExplicitSpec.Free;
      ghost var s, c := St(), Heap();
      newptr := Malloc(size);
      MallocOutcome(s, size);
      if newptr == NULL {
        return;
      }
      MallocGrants(s, size);
      ghost var c1 := Heap();
      assert IsLive(s.t, FLOOR, ptr) && IsLive(t, FLOOR, newptr);
      hide MallocStep, CopyStep, FreeStep, ReallocStep;
      ghost var n := CopyOver(newptr, ptr, size);
      ghost var c2 := Heap();
      Free(ptr);
      MovedData(c, c1, c2, Heap(), ptr, newptr, size);
    }

    /** The middle of mm_realloc: how much to copy, and the memcpy. */
    method CopyOver(newptr: nat, oldptr: nat, size: nat) returns (ghost n: nat)
      requires Valid() && IsLive(t, FLOOR, oldptr) && IsLive(t, FLOOR, newptr) && newptr != oldptr
      requires size + 8 <= t[newptr].size
      modifies mem.data
      ensures Valid() && CopyStep(old(Heap()), Heap(), oldptr, newptr, size)
      ensures CopyReach(t, mem.brk, newptr, oldptr, size, n) && SameOutside(old(mem.data[..]), mem.data[..], newptr, n)
    {
      hide GetWord, Represents, Linked, Tiled, Inv, ContentsOf, CopyStep;
      ghost var m := mem.data[..];
      n := CopyBlock(mem, newptr, oldptr, size, t, LO, FLOOR, mem.brk);
      ClientHolds(St(), m, mem.data[..], freeListp, newptr, n);
    }

    /** A client writes n bytes of the payload at p: the allocator does not notice. */
    method Memset(p: nat, v: Byte, n: nat)
      requires Valid() && p in Heap() && n <= |Heap()[p]|
      modifies mem.data
      ensures Valid() && FillStep(old(Heap()), Heap(), p, v, n)
    {
      hide GetWord, Linked, TaggedBut, Inv, Tiled;
      ghost var m := mem.data[..];
      LiveApart(t, LO, FLOOR, mem.brk, p, p, m);
      mem.Fill(p, v, n);
      ClientHolds(St(), m, mem.data[..], freeListp, p, n);
      WriteSeen(m, mem.data[..], t, LO, FLOOR, mem.brk, p, n);
      hide ContentsOf, IsLive;
    }
  }

  lemma ClientHolds(s: State, m: Mem, m': Mem, head: nat, p: nat, n: nat)
    requires Inv(s) && Holds(m, s, head)
    requires IsLive(s.t, FLOOR, p) && n <= s.t[p].size - 8 && SameOutside(m, m', p, n)
    ensures Holds(m', s, head)
  {
    hide GetWord, TaggedBut, Linked;
    ClientWrite(m, m', s.t, LO, FLOOR, s.hi, p, n);
    ChainRoomy(s);
    ClientWriteLinks(m, m', s.t, LO, FLOOR, s.hi, p, n, Chain(s.fl), head, NULL, LINKS);
  }

  lemma ChainRoomy(s: State)
    requires Inv(s)
    ensures Roomy(s.t, Chain(s.fl), 8)
    ensures forall x :: IsLive(s.t, FLOOR, x) ==> x !in Chain(s.fl)
  {
    hide Chained, Apart;
    var l: seq<nat> := Chain(s.fl);
    forall i | 0 <= i < |l|
      ensures l[i] in s.t && 16 <= s.t[l[i]].size
    {
      assert i < |s.fl| ==> l[i] == s.fl[i] && s.fl[i] in s.fl;
    }
  }

  lemma BareHolds(m: Mem)
    requires |m| == MAX_HEAP
    requires GetWord(m, 4) == Pack(MINIMUM, true) && GetWord(m, 16) == Pack(MINIMUM, true)
    requires GetWord(m, 8) == NULL && GetWord(m, 12) == NULL
    requires GetWord(m, 20) == Pack(0, true)
    ensures Holds(m, Bare(), LO)
  {
    hide GetWord;
    assert NodeAt(m, Chain([]), 0, NULL, LINKS);
  }

  /** What mm_free finds around the block it is given. */
  lemma FreeFacts(s: State, p: nat)
    requires Inv(s) && IsLive(s.t, FLOOR, p)
    ensures Next(s.t, p) in s.t || Next(s.t, p) == s.hi
    ensures forall x :: x in s.fl ==> x < p || Next(s.t, p) <= x
  {
  }

  lemma GrownRoomy(s: State, size: nat)
    requires Inv(s) && size % 8 == 0 && 16 <= size && s.hi + size <= MAX_HEAP
    ensures Roomy(Grown(s, size).t, Chain(s.fl), 8)
  {
    GrownPartial(s, size);
    hide Chained, Apart;
    var t', l: seq<nat> := Grown(s, size).t, Chain(s.fl);
    forall i | 0 <= i < |l|
      ensures l[i] in t' && 16 <= t'[l[i]].size
    {
      assert i < |s.fl| ==> l[i] == s.fl[i] && s.fl[i] in s.fl;
    }
  }

  lemma PlaceFacts(s: State, p: nat)
    requires Inv(s) && FreeAt(s.t, p)
    ensures p in s.fl && FLOOR <= p && Next(s.t, p) <= s.hi
    ensures Next(s.t, p) in s.t || Next(s.t, p) == s.hi
    ensures forall x :: x in Without(s.fl, p) ==> x < p || Next(s.t, p) <= x
  {
    WithoutMembers(s.fl, p);
  }

  lemma SplitPartial(s: State, p: nat, a: nat, m: Mem, head: nat)
    requires Partial(s, {p}) && Holds(m, s, head) && FreeAt(s.t, p)
    requires a % 8 == 0 && 16 <= a && a + 16 <= s.t[p].size
    ensures Partial(s.(t := Split(s.t, p, a)), {p + a})
    ensures Roomy(Split(s.t, p, a), Chain(s.fl), 8)
    ensures TaggedBut(m, Split(s.t, p, a), {p} + {p + a})
    ensures LiveWithin(s.t, Split(s.t, p, a), FLOOR)
  {
    hide GetWord, Linked;
    SplitTiled(s.t, LO, FLOOR, s.hi, p, a);
    SplitLive(s.t, LO, FLOOR, s.hi, p, a);
    hide Chained, Apart;
    var t', l: seq<nat> := Split(s.t, p, a), Chain(s.fl);
    forall i | 0 <= i < |l|
      ensures l[i] in t' && 16 <= t'[l[i]].size
    {
      assert i < |s.fl| ==> l[i] == s.fl[i] && s.fl[i] in s.fl;
    }
  }

  lemma ChainHead(s: State, m: Mem, head: nat)
    requires Holds(m, s, head)
    ensures head == Chain(s.fl)[0]
  {
    hide GetWord, LinkWords;
  }

  lemma ListedInTiling(s: State)
    requires Inv(s)
    ensures forall x :: x in s.fl ==> FreeAt(s.t, x)
    ensures forall i :: 0 <= i <= |s.fl| ==> Chain(s.fl)[i] in s.t
    ensures forall i :: 0 <= i < |s.fl| ==> FreeAt(s.t, Chain(s.fl)[i])
  {
    forall i | 0 <= i < |s.fl|
      ensures FreeAt(s.t, Chain(s.fl)[i])
    {
      assert Chain(s.fl)[i] == s.fl[i] && s.fl[i] in s.fl;
    }
  }

  /** Where the neighbours of the pending block p stand, and what is left listed. */
  lemma MergeFacts(s: State, p: nat)
    requires Partial(s, {p}) && FreeAt(s.t, p)
    ensures FLOOR <= p
    ensures var q, n := Prev(s.t, LO, FLOOR, s.hi, p), Next(s.t, p);
            var r, e := MergeLow(s.t, q, p), MergeHigh(s.t, p);
            && (if s.t[q].alloc then Without(s.fl, q) == s.fl else q in s.fl)
            && (if FreeAt(s.t, n) then n in s.fl && n in Without(s.fl, q)
                else Without(Without(s.fl, q), n) == Without(s.fl, q))
            && r in s.t && FLOOR <= r < e && (e in s.t || e == s.hi)
            && forall x :: x in Without(Without(s.fl, q), n) ==> x < r || e <= x
  {
    var q, n := Prev(s.t, LO, FLOOR, s.hi, p), Next(s.t, p);
    WithoutMembers(s.fl, q);
    WithoutMembers(Without(s.fl, q), n);
    MergedTiled(s.t, LO, FLOOR, s.hi, q, p);
    assert FreeAt(s.t, n) ==> Next(s.t, n) == s.hi || Next(s.t, n) in s.t;
  }

  lemma FusePartial(s: State, ex: set<nat>, r: nat, e: nat, alloc: bool)
    requires Partial(s, ex)
    requires r in s.t && FLOOR <= r < e && (e in s.t || e == s.hi)
    requires forall x :: x in s.fl ==> x < r || e <= x
    ensures Partial(s.(t := Fuse(s.t, r, e, alloc)), ex + {r})
    ensures Roomy(Fuse(s.t, r, e, alloc), Chain(s.fl), 8)
  {
    FuseTiled(s.t, LO, FLOOR, s.hi, r, e, alloc);
    hide Chained, Apart;
    var t' := Fuse(s.t, r, e, alloc);
    var l: seq<nat> := Chain(s.fl);
    forall i | 0 <= i < |l|
      ensures l[i] in t' && 16 <= t'[l[i]].size
    {
      assert i < |s.fl| ==> l[i] == s.fl[i] && s.fl[i] in s.fl;
    }
  }

  /** The pending block bp keeps clear of every node of the chain. */
  lemma RoomFor(s: State, ex: set<nat>, m: Mem, head: nat, bp: nat)
    requires Partial(s, ex) && Holds(m, s, head) && FreeAt(s.t, bp) && bp in ex
    ensures 0 < bp && bp + 16 <= |m| && head + 8 <= |m| && head == Chain(s.fl)[0]
    ensures forall i {:trigger Chain(s.fl)[i]} :: 0 <= i < |Chain(s.fl)| ==>
              bp + 8 <= Chain(s.fl)[i] || Chain(s.fl)[i] + 8 <= bp
  {
    hide GetWord, LinkWords, TaggedBut;
    var l: seq<nat> := Chain(s.fl);
    assert l[0] + 8 <= |m|;
    forall i | 0 <= i < |l|
      ensures bp + 8 <= l[i] || l[i] + 8 <= bp
    {
      assert i < |s.fl| ==> l[i] == s.fl[i] && s.fl[i] in s.fl;
      assert l[i] < bp ==> l[i] + s.t[l[i]].size <= bp;
      assert bp < l[i] ==> bp + s.t[bp].size <= l[i];
    }
  }

  lemma PutHolds(m: Mem, m1: Mem, m2: Mem, m3: Mem, s: State, ex: set<nat>, head: nat, bp: nat)
    requires Partial(s, ex) && Holds(m, s, head) && FreeAt(s.t, bp) && bp in ex
    requires |m1| == |m2| == |m3| == |m|
    requires LinkedIn(m, m1, m2, m3, m3, Chain(s.fl), NULL, LINKS, 0, bp)
    ensures Partial(s.(fl := [bp] + s.fl), ex - {bp})
    ensures Holds(m3, s.(fl := [bp] + s.fl), bp)
    ensures KeepsLive(m, m3, s.t, FLOOR)
  {
    hide GetWord, Tiled, Linked, TaggedBut;
    RoomFor(s, ex, m, head, bp);
    LinkIn(m, m1, m2, m3, m3, Chain(s.fl), head, NULL, LINKS, 0, bp);
    assert InsertAt(Chain(s.fl), 0, bp) == Chain([bp] + s.fl);
    ConsMembers(bp, s.fl);
    PutKeeps(m, m1, m2, m3, s, ex, bp);
  }

  lemma PutKeeps(m: Mem, m1: Mem, m2: Mem, m3: Mem, s: State, ex: set<nat>, bp: nat)
    requires Partial(s, ex) && Represents(m, s.t, s.hi) && FreeAt(s.t, bp)
    requires |m1| == |m2| == |m3| == |m|
    requires LinkedIn(m, m1, m2, m3, m3, Chain(s.fl), NULL, LINKS, 0, bp)
    ensures Represents(m3, s.t, s.hi)
    ensures KeepsLive(m, m3, s.t, FLOOR)
  {
    hide GetWord, Wrote;
    LinkWrite(m, m1, s.t, LO, FLOOR, s.hi, bp, bp + 4, Chain(s.fl)[0]);
    LinkWrite(m1, m2, s.t, LO, FLOOR, s.hi, bp, bp, NULL);
    ChainWrite(m2, m3, s, ex, 0, 0, bp);
    KeepsLiveTrans(m, m1, m2, s.t, s.t, FLOOR);
    KeepsLiveTrans(m, m2, m3, s.t, s.t, FLOOR);
  }

  /** What the links around position k of the free list say. */
  lemma ChainNodes(s: State, ex: set<nat>, m: Mem, head: nat, k: nat)
    requires Partial(s, ex) && Holds(m, s, head) && k < |s.fl|
    ensures s.fl[k] + 8 <= |m|
    ensures GetWord(m, s.fl[k]) == Before(Chain(s.fl), k, NULL)
    ensures GetWord(m, s.fl[k] + 4) == Chain(s.fl)[k + 1] == After(Chain(s.fl), k)
    ensures Chain(s.fl)[k + 1] + 8 <= |m|
    ensures k > 0 ==> Chain(s.fl)[k - 1] + 8 <= |m|
    ensures head == s.fl[k] <==> k == 0
  {
    hide GetWord;
    var l: seq<nat> := Chain(s.fl);
    assert NodeAt(m, l, k, NULL, LINKS);
    assert l[k] == s.fl[k] && After(l, k) == l[k + 1];
    if k > 0 {
      SpacedAt(l, 8, 0, k);
    }
  }

  lemma RemoveHolds(m: Mem, m1: Mem, m2: Mem, s: State, ex: set<nat>, head: nat, k: nat)
    requires Partial(s, ex) && Holds(m, s, head) && k < |s.fl| && |m1| == |m| && |m2| == |m|
    requires UnlinkedForward(m, m1, m2, Chain(s.fl), NULL, LINKS, k)
    ensures Partial(s.(fl := Without(s.fl, s.fl[k])), ex + {s.fl[k]})
    ensures Holds(m2, s.(fl := Without(s.fl, s.fl[k])), if k == 0 then Chain(s.fl)[1] else head)
    ensures KeepsLive(m, m2, s.t, FLOOR)
  {
    hide GetWord, Wrote, Tiled, Linked, TaggedBut;
    var l, fl' := Chain(s.fl), Without(s.fl, s.fl[k]);
    WithoutMembers(s.fl, s.fl[k]);
    Unlink(m, m1, m2, l, head, NULL, LINKS, k);
    assert IndexOf(s.fl, s.fl[k]) == k;
    assert RemoveAt(l, k) == Chain(fl');
    UnlinkKeeps(m, m1, m2, s, ex, k);
  }

  /** A link word of a listed block or of the prologue holds no tag and no data. */
  lemma ChainWrite(m: Mem, m': Mem, s: State, ex: set<nat>, i: nat, o: nat, v: int)
    requires Partial(s, ex) && Represents(m, s.t, s.hi) && i <= |s.fl| && (o == 0 || o == 4)
    requires Wrote(m, m', Chain(s.fl)[i] + o, v)
    ensures Represents(m', s.t, s.hi)
    ensures KeepsLive(m, m', s.t, FLOOR)
  {
    hide GetWord;
    var x := Chain(s.fl)[i];
    assert i < |s.fl| ==> x == s.fl[i] && x in s.fl;
    LinkWrite(m, m', s.t, LO, FLOOR, s.hi, x, x + o, v);
  }

  lemma UnlinkKeeps(m: Mem, m1: Mem, m2: Mem, s: State, ex: set<nat>, k: nat)
    requires Partial(s, ex) && Represents(m, s.t, s.hi) && k < |s.fl| && |m1| == |m| && |m2| == |m|
    requires UnlinkedForward(m, m1, m2, Chain(s.fl), NULL, LINKS, k)
    ensures Represents(m2, s.t, s.hi)
    ensures KeepsLive(m, m2, s.t, FLOOR)
  {
    hide GetWord, Wrote;
    if k > 0 {
      ChainWrite(m, m1, s, ex, k - 1, 4, After(Chain(s.fl), k));
    }
    ChainWrite(m1, m2, s, ex, k + 1, 0, Before(Chain(s.fl), k, NULL));
    KeepsLiveTrans(m, m1, m2, s.t, s.t, FLOOR);
  }
}

/** Runs from mm_init that end where the code falls short of what its comments promise. */
module OrderWitness {
  import opened Memory
  import opened Tiling
  import opened Links
  import opened SizeClasses
  import opened Requests
  import opened SegSpec
  import opened SegPlace
  import opened Runs
  import SegRuns

  lemma ClassTen(size: nat)
    requires 1024 <= size < 2048
    ensures ClassOf(size) == 10
  {
    hide ClassFrom;
    var x5 := size / 2 / 2 / 2 / 2 / 2;
    ClassStep(size, 0);
    ClassStep(size / 2, 1);
    ClassStep(size / 2 / 2, 2);
    ClassStep(size / 2 / 2 / 2, 3);
    ClassStep(size / 2 / 2 / 2 / 2, 4);
    ClassStep(x5, 5);
    ClassStep(x5 / 2, 6);
    ClassStep(x5 / 2 / 2, 7);
    ClassStep(x5 / 2 / 2 / 2, 8);
    ClassStep(x5 / 2 / 2 / 2 / 2, 9);
    ClassStep(x5 / 2 / 2 / 2 / 2 / 2, 10);
  }

  lemma Front(s: State, p: nat, a: nat)
    requires Inv(s) && FreeAt(s.t, p) && a % 8 == 0 && 16 <= a && a + 16 <= s.t[p].size
    ensures PlaceFront(s, p, a).t == Cut(s.t, p, a, true) && PlaceFront(s, p, a).hi == s.hi
  {
    hide ClassOf;
    FrontIsCut(s, p, a);
  }

  lemma Rounded()
    ensures Asize(2032) == 2040 && Asize(16) == 24
  {
  }

  lemma AfterFirst(s: State)
    requires Inv(s) && s.t == map[LO := Block(DSIZE, true), 16 := Block(4096, false)] && s.hi == 4112
    ensures var s1 := Malloc(SegPlace.Front, s, 2032).0;
            && Inv(s1) && s1.hi == 4112
            && s1.t == map[LO := Block(DSIZE, true), 16 := Block(2040, true), 2056 := Block(2056, false)]
  {
    hide Inv, Asize, ClassOf, PlaceFront, Malloc;
    Rounded();
    MallocHere(SegPlace.Front, s, 2032, 16);
    Front(s, 16, 2040);
  }

  lemma AfterSecond(s: State)
    requires Inv(s) && s.hi == 4112
    requires s.t == map[LO := Block(DSIZE, true), 16 := Block(2040, true), 2056 := Block(2056, false)]
    ensures var s1 := Malloc(SegPlace.Front, s, 16).0;
            && Inv(s1) && s1.hi == 4112 && IsLive(s1.t, FLOOR, 16)
            && s1.t == map[LO := Block(DSIZE, true), 16 := Block(2040, true), 2056 := Block(24, true), 2080 := Block(2032, false)]
  {
    hide Inv, Asize, ClassOf, PlaceFront, Malloc;
    Rounded();
    MallocHere(SegPlace.Front, s, 16, 2056);
    Front(s, 2056, 24);
  }

  lemma AfterThird(s: State)
    requires Inv(s) && s.hi == 4112
    requires s.t == map[LO := Block(DSIZE, true), 16 := Block(2040, true), 2056 := Block(24, true), 2080 := Block(2032, false)]
    ensures var s1 := Free(s, 16);
            && |s1.lists| == LISTLIMIT && s1.lists[10] == [16, 2080]
            && FreeAt(s1.t, 16) && s1.t[16].size == 2040 && FreeAt(s1.t, 2080) && s1.t[2080].size == 2032
  {
    ClassTen(2040);
    ClassTen(2032);
    hide ClassOf;
    assert s.lists[10] == [2080] by {
      OnlyMember(s.lists[10], 2080);
    }
    FreeAlone(s, 16);
  }

  lemma OnlyMember(l: seq<nat>, p: nat)
    requires NoDup(l) && forall x: nat :: x in l <==> x == p
    ensures l == [p]
  {
    assert p in l;
    forall i | 0 <= i < |l|
      ensures l[i] == p
    {
      assert l[i] in l;
    }
    var k := if |l| >= 2 then 1 else 0;
    assert l[0] == l[k];
  }

  lemma MallocMakes(s: State, size: Word)
    requires Inv(s) && size + 15 < WORD_SPAN
    ensures SegRuns.Makes(s, MallocCall(size), Malloc(SegPlace.Front, s, size).0)
  {
    hide Inv, Malloc;
  }

  lemma FreeMakes(s: State, p: nat)
    requires Inv(s) && IsLive(s.t, FLOOR, p)
    ensures SegRuns.Makes(s, FreeCall(p), Free(s, p))
  {
    hide Inv, Free;
  }

  /** Three calls after mm_init of segreted(84).c leave a list on which a larger block
      comes before a smaller one. */
  lemma OutOfOrder() returns (s: State)
    ensures Reaches(SegRuns.Makes, Initial(CHUNKSIZE), [MallocCall(2032), MallocCall(16), FreeCall(16)], s)
    ensures |s.lists| == LISTLIMIT && (forall x :: x in s.lists[10] ==> x in s.t) && !Ascending(s.t, s.lists[10])
  {
    hide Initial, Inv, Malloc, Free, ClassOf, IsLive;
    InitialTiles(CHUNKSIZE);
    var s0 := Initial(CHUNKSIZE);
    AfterFirst(s0);
    MallocMakes(s0, 2032);
    var s1 := Malloc(SegPlace.Front, s0, 2032).0;
    AfterSecond(s1);
    MallocMakes(s1, 16);
    var s2 := Malloc(SegPlace.Front, s1, 16).0;
    AfterThird(s2);
    FreeMakes(s2, 16);
    s := Free(s2, 16);
    hide SegRuns.Makes;
    RunOf(SegRuns.Makes, [s0, s1, s2, s], [MallocCall(2032), MallocCall(16), FreeCall(16)]);
    assert s.lists[10][0] == 16 && s.lists[10][1] == 2080;
  }
}

/** (98)정리.c, where mm_realloc grows a block in place although it cannot. */
module InPlaceWitness {
  import opened Memory
  import opened Tiling
  import opened SizeClasses
  import opened Requests
  import opened SegSpec
  import opened SegPlace
  import opened Seg98Spec
  import opened Runs
  import Seg98Runs

  lemma Rounded()
    ensures Asize(8) == 16 && Asize(40) == 48 && Asize(100) == 112
  {
  }

  lemma MallocMakes(s: State, size: Word)
    requires Inv(s) && size + 15 < WORD_SPAN
    ensures Seg98Runs.Makes(s, MallocCall(size), Malloc(ThreeWay, s, size).0)
  {
    hide Inv, Malloc;
  }

  lemma FreeMakes(s: State, p: nat)
    requires Inv(s) && IsLive(s.t, FLOOR, p)
    ensures Seg98Runs.Makes(s, FreeCall(p), Free(s, p))
  {
    hide Inv, Free;
  }

  /** mm_malloc from the one free block, which is used up */
  lemma TakeWhole(s: State, size: Word, p: nat)
    requires Inv(s) && 0 < size && size + 15 < WORD_SPAN && FreeAt(s.t, p) && Asize(size) <= s.t[p].size <= Asize(size) + 16
    requires forall x: nat :: FreeAt(s.t, x) ==> x == p
    ensures var s1 := Malloc(ThreeWay, s, size).0; Inv(s1) && s1.hi == s.hi && s1.t == Retag(s.t, p, true)
  {
    hide Inv, Asize, ClassOf, Malloc;
    MallocHere(ThreeWay, s, size, p);
    hide Partial, Take;
  }

  /** mm_malloc of fewer than 100 bytes from the front of the one free block */
  lemma TakeFront(s: State, size: Word, p: nat)
    requires Inv(s) && 0 < size && size + 15 < WORD_SPAN && FreeAt(s.t, p) && Asize(size) + 16 < s.t[p].size && Asize(size) < 100
    requires forall x: nat :: FreeAt(s.t, x) ==> x == p
    ensures var s1 := Malloc(ThreeWay, s, size).0; Inv(s1) && s1.hi == s.hi && s1.t == Cut(s.t, p, Asize(size), true)
  {
    hide Inv, Asize, ClassOf, Malloc;
    MallocHere(ThreeWay, s, size, p);
    hide Partial, Take, Put;
  }

  /** After one call the block is the last one, and shrinking it would unlink the epilogue. */
  lemma LastNeedNotGrow() returns (s: State)
    ensures Reaches(Seg98Runs.Makes, Initial(INITCHUNKSIZE), [MallocCall(40)], s)
    ensures Inv(s) && IsLive(s.t, FLOOR, 16) && Next(s.t, 16) == s.hi && NextIsOpen(s, 16)
    ensures Asize(8) == 16 && CanExtend(s, 16, 16) && !InPlaceSound(s, 16, 16)
  {
    hide Initial, Inv, Asize, Malloc, Remainder, InPlaceSound, GrowsInPlace;
    Rounded();
    InitialTiles(INITCHUNKSIZE);
    var s0 := Initial(INITCHUNKSIZE);
    TakeWhole(s0, 40, 16);
    MallocMakes(s0, 40);
    s := Malloc(ThreeWay, s0, 40).0;
    RunOf(Seg98Runs.Makes, [s0, s], [MallocCall(40)]);
    RemainderExact(64, 16);
    EpilogueUnlinked(s, 16, 16);
    SoundIff(s, 16, 16);
  }

  lemma ThreeBlocks(s: State) returns (s1: State, s2: State, s3: State)
    requires Inv(s) && s.hi == 80 && s.t == map[LO := Block(DSIZE, true), 16 := Block(64, false)]
    ensures Seg98Runs.Makes(s, MallocCall(8), s1) && Seg98Runs.Makes(s1, MallocCall(8), s2)
    ensures Seg98Runs.Makes(s2, MallocCall(8), s3) && Inv(s3) && s3.hi == 80
    ensures s3.t == map[LO := Block(DSIZE, true), 16 := Block(16, true), 32 := Block(16, true), 48 := Block(32, true)]
  {
    hide Inv, Asize, Malloc, Seg98Runs.Makes;
    Rounded();
    TakeFront(s, 8, 16);
    MallocMakes(s, 8);
    s1 := Malloc(ThreeWay, s, 8).0;
    assert s1.t == map[LO := Block(DSIZE, true), 16 := Block(16, true), 32 := Block(48, false)];
    TakeFront(s1, 8, 32);
    MallocMakes(s1, 8);
    s2 := Malloc(ThreeWay, s1, 8).0;
    assert s2.t == map[LO := Block(DSIZE, true), 16 := Block(16, true), 32 := Block(16, true), 48 := Block(32, false)];
    TakeWhole(s2, 8, 48);
    MallocMakes(s2, 8);
    s3 := Malloc(ThreeWay, s2, 8).0;
  }

  lemma MiddleFreed(s: State)
    requires Inv(s) && s.hi == 80
    requires s.t == map[LO := Block(DSIZE, true), 16 := Block(16, true), 32 := Block(16, true), 48 := Block(32, true)]
    ensures IsLive(s.t, FLOOR, 32) && Inv(Free(s, 32)) && Free(s, 32).hi == 80
    ensures Free(s, 32).t == map[LO := Block(DSIZE, true), 16 := Block(16, true), 32 := Block(16, false), 48 := Block(32, true)]
  {
    hide Inv, ClassOf;
    FreeAlone(s, 32);
  }

  /** After four calls a free block of 16 bytes lies between two live ones; a realloc of the
      first to 100 bytes extends the heap elsewhere and tags it across the second. */
  lemma NextTooSmall() returns (s: State)
    ensures Reaches(Seg98Runs.Makes, Initial(INITCHUNKSIZE), [MallocCall(8), MallocCall(8), MallocCall(8), FreeCall(32)], s)
    ensures Inv(s) && IsLive(s.t, FLOOR, 16) && IsLive(s.t, FLOOR, 48) && NextIsOpen(s, 16)
    ensures Asize(100) == 112 && CanExtend(s, 16, 112) && !InPlaceSound(s, 16, 112)
    ensures 48 < 16 + ClaimedSize(Have(s.t, 16), 112)
  {
    hide Initial, Inv, Asize, Malloc, Free, InPlaceSound, Seg98Runs.Makes;
    Rounded();
    InitialTiles(INITCHUNKSIZE);
    var s0 := Initial(INITCHUNKSIZE);
    var s1, s2, s3 := ThreeBlocks(s0);
    MiddleFreed(s3);
    s := Free(s3, 32);
    FreeMakes(s3, 32);
    RunOf(Seg98Runs.Makes, [s0, s1, s2, s3, s], [MallocCall(8), MallocCall(8), MallocCall(8), FreeCall(32)]);
    Unwrapped(32, 112);
    hide Remainder;
    SoundIff(s, 16, 112);
  }
}

/** 참고(98).c, where mm_realloc extends the heap behind a reserved block. */
module TagWitness {
  import opened Memory
  import opened Tiling
  import opened SizeClasses
  import opened Requests
  import opened SegSpec
  import opened SegPlace
  import opened Seg98Spec
  import opened TaggedSpec
  import opened Runs
  import TaggedRuns

  lemma Rounded()
    ensures Asize(136) == 144 && BufferedSize(8) == 144 && BufferedSize(300) == 440
  {
  }

  /** The state after mm_init */
  lemma Start(s: Tagging)
    requires s == TagInitial()
    ensures Ok(s) && s.g.hi == 80 && s.tags == {} && s.g.t == map[LO := Block(DSIZE, true), 16 := Block(64, false)]
  {
    hide ClassOf;
    TagInitialOk();
    TagBareOk();
    TagGrownPending(TagBare(), INITCHUNKSIZE);
    var g := TagGrown(TagBare(), INITCHUNKSIZE);
    assert Prev(g.g.t, LO, FLOOR, g.g.hi, FLOOR) == LO;
    JoinTiling(g, FLOOR);
    hide Sorted;
    NothingToJoin(g, FLOOR);
  }

  lemma Extended(s: Tagging)
    requires Ok(s) && s.g.hi == 80 && s.tags == {} && s.g.t == map[LO := Block(DSIZE, true), 16 := Block(64, false)]
    ensures var s1 := TagExtend(s, CHUNKSIZE);
            TagExtendAt(s, CHUNKSIZE) == 16 && s1.g.hi == 4176 && s1.tags == {} &&
            s1.g.t == map[LO := Block(DSIZE, true), 16 := Block(4160, false)]
  {
    hide ClassOf, Sorted;
    TagGrownPending(s, CHUNKSIZE);
    var g := TagGrown(s, CHUNKSIZE);
    assert g.g.t == map[LO := Block(DSIZE, true), 16 := Block(64, false), 80 := Block(CHUNKSIZE, false)];
    JoinTiling(g, 80);
    hide JoinedOut, Put, Ok, Tiled;
    assert Prev(g.g.t, LO, FLOOR, g.g.hi, 80) == 16;
  }

  lemma AfterFirst(s: Tagging)
    requires Ok(s) && s.g.hi == 80 && s.tags == {} && s.g.t == map[LO := Block(DSIZE, true), 16 := Block(64, false)]
    ensures var s1 := TagMalloc(s, 136).0;
            && Ok(s1) && s1.g.hi == 4176 && s1.tags == {}
            && s1.g.t == map[LO := Block(DSIZE, true), 16 := Block(4016, false), 4032 := Block(144, true)]
  {
    hide Ok, Asize, ClassOf, TagMalloc, TagExtend, TagExtendAt, BufferedSize;
    Rounded();
    Extended(s);
    TagMallocGrown(s, 136);
    hide Partial, Take, Put;
  }

  lemma AfterSecond(s: Tagging)
    requires Ok(s) && s.g.hi == 4176 && s.tags == {}
    requires s.g.t == map[LO := Block(DSIZE, true), 16 := Block(4016, false), 4032 := Block(144, true)]
    ensures var s1 := TagMalloc(s, 136).0;
            && Ok(s1) && s1.g.hi == 4176 && s1.tags == {}
            && s1.g.t == map[LO := Block(DSIZE, true), 16 := Block(3872, false), 3888 := Block(144, true), 4032 := Block(144, true)]
  {
    hide Ok, Asize, ClassOf, TagMalloc, BufferedSize;
    Rounded();
    TagMallocHere(s, 136, 16);
    hide Partial, Take, Put;
  }

  lemma AfterThird(s: Tagging)
    requires Ok(s) && s.g.hi == 4176 && s.tags == {}
    requires s.g.t == map[LO := Block(DSIZE, true), 16 := Block(3872, false), 3888 := Block(144, true), 4032 := Block(144, true)]
    ensures TaggedRuns.Legal(s, ReallocCall(3888, 8))
    ensures var s1 := TagRealloc(s, 3888, 8).0;
            Ok(s1) && s1.g == s.g && s1.tags == {4032}
  {
    hide Ok, BufferedSize, TagMalloc;
    Rounded();
    ReserveOk(s, 3888);
  }

  lemma AfterFourth(s: Tagging)
    requires Ok(s) && s.g.hi == 4176 && s.tags == {4032}
    requires s.g.t == map[LO := Block(DSIZE, true), 16 := Block(3872, false), 3888 := Block(144, true), 4032 := Block(144, true)]
    ensures IsLive(s.g.t, FLOOR, 4032)
    ensures var s1 := TagFree(s, 4032);
            && Ok(s1) && s1.g.hi == 4176 && s1.tags == {4032}
            && s1.g.t == map[LO := Block(DSIZE, true), 16 := Block(3872, false), 3888 := Block(144, true), 4032 := Block(144, false)]
  {
    hide Ok, TagFree;
    TagFreeLast(s, 4032);
  }

  lemma MallocMakes(s: Tagging, size: Word)
    requires Ok(s) && size + 15 < WORD_SPAN
    ensures TaggedRuns.Makes(s, MallocCall(size), TagMalloc(s, size).0)
  {
    hide Ok, TagMalloc;
  }

  lemma FreeMakes(s: Tagging, p: nat)
    requires Ok(s) && IsLive(s.g.t, FLOOR, p)
    ensures TaggedRuns.Makes(s, FreeCall(p), TagFree(s, p))
  {
    hide Ok, TagFree;
  }

  lemma ReallocMakes(s: Tagging, p: nat, size: Word)
    requires Ok(s) && TaggedRuns.Legal(s, ReallocCall(p, size))
    ensures TaggedRuns.Makes(s, ReallocCall(p, size), TagRealloc(s, p, size).0)
  {
    hide Ok, TagRealloc, TagSupported;
  }

  /** After four calls the last block is free and reserved for the live block before it; a
      realloc of that block to 300 bytes extends the heap behind the reserved block, which
      does not merge, and gives away the new bytes without the block they lie in. */
  lemma ReservedLast() returns (s: Tagging)
    ensures Reaches(TaggedRuns.Makes, TagInitial(), [MallocCall(136), MallocCall(136), ReallocCall(3888, 8), FreeCall(4032)], s)
    ensures Ok(s) && IsLive(s.g.t, FLOOR, 3888) && NextIsOpen(s.g, 3888) && GrowsInPlace(s.g, 3888, 440)
    ensures BufferedSize(300) == 440 && s.g.t[3888].size < 440 && IsReserved(s, 4032) && Next(s.g.t, 3888) == 4032
    ensures CanExtend(s.g, 3888, 440) && !TagInPlaceSound(s, 3888, 440)
  {
    hide Ok, Asize, TagInitial, TagMalloc, TagFree, TagRealloc, TagSupported, TagInPlaceSound, TaggedRuns.Makes;
    Rounded();
    hide BufferedSize;
    var s0 := TagInitial();
    Start(s0);
    AfterFirst(s0);
    MallocMakes(s0, 136);
    var s1 := TagMalloc(s0, 136).0;
    AfterSecond(s1);
    MallocMakes(s1, 136);
    var s2 := TagMalloc(s1, 136).0;
    AfterThird(s2);
    ReallocMakes(s2, 3888, 8);
    var s3 := TagRealloc(s2, 3888, 8).0;
    AfterFourth(s3);
    FreeMakes(s3, 4032);
    s := TagFree(s3, 4032);
    RunOf(TaggedRuns.Makes, [s0, s1, s2, s3, s], [MallocCall(136), MallocCall(136), ReallocCall(3888, 8), FreeCall(4032)]);
    RemainderExact(288, 440);
    hide Remainder;
    TagSoundIff(s, 3888, 440);
  }
}

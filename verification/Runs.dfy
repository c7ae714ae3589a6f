/** Whole runs: what holds after any sequence of calls that clients may make. */
module Runs {
  import opened Memory

  datatype Call = MallocCall(size: Word) | FreeCall(p: nat) | ReallocCall(p: nat, size: Word)

  /** s' is reached from s by the calls cs; step relates a state to what a legal call makes
      of it. */
  ghost predicate Reaches<S(!new)>(step: (S, Call, S) -> bool, s: S, cs: seq<Call>, s': S)
    decreases |cs|
  {
    if cs == [] then s' == s
    else exists m: S :: step(s, cs[0], m) && Reaches(step, m, cs[1..], s')
  }

  /** What each of the calls keeps holds wherever they lead. */
  lemma {:induction false} RunKeeps<S(!new)>(step: (S, Call, S) -> bool, inv: S -> bool, s: S, cs: seq<Call>, s': S)
    requires inv(s) && Reaches(step, s, cs, s')
    requires forall a: S, c: Call, b: S :: c in cs && inv(a) && step(a, c, b) ==> inv(b)
    ensures inv(s')
    decreases |cs|
  {
    if cs != [] {
      var m: S :| step(s, cs[0], m) && Reaches(step, m, cs[1..], s');
      assert forall c: Call :: c in cs[1..] ==> c in cs;
      RunKeeps(step, inv, m, cs[1..], s');
    }
  }

  /** A run step by step */
  lemma {:induction false} RunOf<S(!new)>(step: (S, Call, S) -> bool, path: seq<S>, cs: seq<Call>)
    requires |path| == |cs| + 1
    requires forall i {:trigger cs[i]} :: 0 <= i < |cs| ==> step(path[i], cs[i], path[i + 1])
    ensures Reaches(step, path[0], cs, path[|cs|])
    decreases |cs|
  {
    if cs != [] {
      forall i | 0 <= i < |cs[1..]|
        ensures step(path[1..][i], cs[1..][i], path[1..][i + 1])
      {
        assert cs[1..][i] == cs[i + 1];
      }
      RunOf(step, path[1..], cs[1..]);
      assert step(path[0], cs[0], path[1]);
    }
  }
}

/** Runs of mm.c. */
module ExplicitRuns {
  import opened Memory
  import opened Tiling
  import opened Links
  import opened ExplicitSpec
  import opened Runs

  ghost predicate Legal(s: State, c: Call) {
    match c
    case MallocCall(size) => size + 15 < WORD_SPAN
    case FreeCall(p) => IsLive(s.t, FLOOR, p)
    case ReallocCall(p, size) => IsLive(s.t, FLOOR, p) && size + 15 < WORD_SPAN
  }

  ghost function Step(s: State, c: Call): State
    requires Inv(s) && Legal(s, c)
  {
    match c
    case MallocCall(size) => Malloc(s, size).0
    case FreeCall(p) => Free(s, p)
    case ReallocCall(p, size) => Realloc(s, p, size).0
  }

  lemma StepInv(s: State, c: Call)
    requires Inv(s) && Legal(s, c)
    ensures Inv(Step(s, c)) && s.hi <= Step(s, c).hi
  {
    hide Inv, Malloc, Free, Realloc;
    match c
    case MallocCall(size) =>
      MallocOutcome(s, size);
      if Malloc(s, size).1 != NULL {
        MallocGrants(s, size);
      }
    case FreeCall(p) => FreeOk(s, p);
    case ReallocCall(p, size) => ReallocOk(s, p, size);
  }

  /** A legal call leads from s to s'. */
  ghost predicate Makes(s: State, c: Call, s': State) {
    Inv(s) && Legal(s, c) && s' == Step(s, c)
  }

  /** Every state reached after mm_init keeps the invariant, and the break never falls. */
  lemma ReachableInv(s: State, cs: seq<Call>, s': State)
    requires Inv(s) && Reaches(Makes, s, cs, s')
    ensures Inv(s') && s.hi <= s'.hi
  {
    var inv := (x: State) => Inv(x) && s.hi <= x.hi;
    forall a: State, c: Call, b: State | inv(a) && Makes(a, c, b)
      ensures inv(b)
    {
      StepInv(a, c);
    }
    RunKeeps(Makes, inv, s, cs, s');
  }

  /** In every state reached from mm_init each free block stands on the free list exactly
      once, the list holds nothing else, no two free blocks are neighbours, and every byte
      of the heap belongs to exactly one block. */
  lemma ReachableHeap(cs: seq<Call>, s: State, a: nat) returns (p: nat)
    requires Reaches(Makes, Initial(), cs, s) && LO - 4 <= a < s.hi - 4
    ensures forall x: nat :: FreeAt(s.t, x) <==> x in s.fl
    ensures NoDup(s.fl) && NoAdjacentFree(s.t)
    ensures p in s.t && p - 4 <= a < Next(s.t, p) - 4
    ensures forall q :: q in s.t && q - 4 <= a < Next(s.t, q) - 4 ==> q == p
  {
    InitialOk();
    hide Initial;
    ReachableInv(Initial(), cs, s);
    p := Covers(s.t, LO, FLOOR, s.hi, LO, a);
  }
}

/** Runs of segreted(84).c. */
module SegRuns {
  import opened Memory
  import opened Tiling
  import opened SizeClasses
  import opened SegSpec
  import opened SegPlace
  import opened Requests
  import opened Runs
  import Links

  ghost predicate Legal(s: State, c: Call) {
    match c
    case MallocCall(size) => size + 15 < WORD_SPAN
    case FreeCall(p) => IsLive(s.t, FLOOR, p)
    case ReallocCall(p, size) => IsLive(s.t, FLOOR, p) && size + 15 < WORD_SPAN
  }

  ghost function Step(s: State, c: Call): State
    requires Inv(s) && Legal(s, c)
  {
    match c
    case MallocCall(size) => Malloc(Front, s, size).0
    case FreeCall(p) => Free(s, p)
    case ReallocCall(p, size) => Replace(s, p, size)
  }

  lemma StepInv(s: State, c: Call)
    requires Inv(s) && Legal(s, c)
    ensures Inv(Step(s, c)) && s.hi <= Step(s, c).hi
  {
    hide Inv, Malloc, Free, Requests.Asize, Requests.Fits;
    match c
    case MallocCall(size) => MallocOutcome(Front, s, size);
    case FreeCall(p) => FreeOk(s, p);
    case ReallocCall(p, size) =>
      GrantedLive(s, p, size);
      FreeOk(Malloc(Front, s, size).0, p);
  }

  /** A legal call leads from s to s'. */
  ghost predicate Makes(s: State, c: Call, s': State) {
    Inv(s) && Legal(s, c) && s' == Step(s, c)
  }

  lemma ReachableInv(s: State, cs: seq<Call>, s': State)
    requires Inv(s) && Reaches(Makes, s, cs, s')
    ensures Inv(s') && s.hi <= s'.hi
  {
    var inv := (x: State) => Inv(x) && s.hi <= x.hi;
    forall a: State, c: Call, b: State | inv(a) && Makes(a, c, b)
      ensures inv(b)
    {
      StepInv(a, c);
    }
    RunKeeps(Makes, inv, s, cs, s');
  }

  /** In every state reached from mm_init each free block is on exactly one list, that of
      the logarithm of its size, and the lists hold nothing else. */
  lemma ReachableSegregated(cs: seq<Call>, s: State, x: nat, c: nat)
    requires Reaches(Makes, Initial(CHUNKSIZE), cs, s) && c < LISTLIMIT
    ensures |s.lists| == LISTLIMIT && Links.NoDup(s.lists[c])
    ensures x in s.lists[c] <==> FreeAt(s.t, x) && c == ClassOf(s.t[x].size)
    ensures x in s.lists[c] ==>
              16 <= s.t[x].size && Pow2(c) <= s.t[x].size && (c < LISTLIMIT - 1 ==> s.t[x].size < 2 * Pow2(c))
  {
    hide Initial, ClassFrom, Makes;
    InitialOk(CHUNKSIZE);
    ReachableInv(Initial(CHUNKSIZE), cs, s);
    if FreeAt(s.t, x) {
      PendingAboveFloor(s, x);
      ClassIsLog(s.t[x].size, 0);
    }
    hide Tiled;
  }
}

/** Runs of (98)정리.c, with mm_realloc called where it can be relied on. */
module Seg98Runs {
  import opened Memory
  import opened Tiling
  import opened SizeClasses
  import opened SegSpec
  import opened SegPlace
  import opened Seg98Spec
  import opened Requests
  import opened Runs

  ghost predicate Legal(s: State, c: Call) {
    match c
    case MallocCall(size) => size + 15 < WORD_SPAN
    case FreeCall(p) => IsLive(s.t, FLOOR, p)
    case ReallocCall(p, size) =>
      IsLive(s.t, FLOOR, p) && size + 15 < WORD_SPAN && (size != 0 ==> Supported(s, p, size))
  }

  ghost function Step(s: State, c: Call): State
    requires Inv(s) && Legal(s, c)
  {
    match c
    case MallocCall(size) => Malloc(ThreeWay, s, size).0
    case FreeCall(p) => Free(s, p)
    case ReallocCall(p, size) => Realloc(s, p, size).0
  }

  lemma StepInv(s: State, c: Call)
    requires Inv(s) && Legal(s, c)
    ensures Inv(Step(s, c))
  {
    hide Inv, Malloc, Free, Asize, Fits, Supported;
    match c
    case MallocCall(size) => MallocOutcome(ThreeWay, s, size);
    case FreeCall(p) => FreeOk(s, p);
    case ReallocCall(p, size) =>
      if size != 0 {
        ReallocOk(s, p, size);
        hide Realloc;
      }
  }

  /** A legal call leads from s to s'. */
  ghost predicate Makes(s: State, c: Call, s': State) {
    Inv(s) && Legal(s, c) && s' == Step(s, c)
  }

  /** Whatever is called where it can be relied on, in-place growth included, the heap stays
      tiled, every free block stays on the list of its class and no two are neighbours. */
  lemma ReachableInv(s: State, cs: seq<Call>, s': State)
    requires Inv(s) && Reaches(Makes, s, cs, s')
    ensures Tiled(s'.t, LO, FLOOR, s'.hi) && Sorted(s'.t, s'.lists, {}) && NoAdjacentFree(s'.t)
  {
    var inv := (x: State) => Inv(x);
    forall a: State, c: Call, b: State | inv(a) && Makes(a, c, b)
      ensures inv(b)
    {
      StepInv(a, c);
    }
    RunKeeps(Makes, inv, s, cs, s');
  }
}

/** Runs of implicit.c. */
module NextFitRuns {
  import opened Memory
  import opened Tiling
  import opened NextFitSpec
  import opened Requests
  import opened Runs

  ghost predicate Legal(s: State, c: Call) {
    match c
    case MallocCall(size) => size + 15 < WORD_SPAN
    case FreeCall(p) => IsLive(s.t, FLOOR, p)
    case ReallocCall(p, size) => IsLive(s.t, FLOOR, p) && size + 15 < WORD_SPAN
  }

  ghost function Step(s: State, c: Call): State
    requires Inv(s) && Legal(s, c)
  {
    match c
    case MallocCall(size) => Malloc(s, size).0
    case FreeCall(p) => Free(s, p)
    case ReallocCall(p, size) => Realloc(s, p, size)
  }

  lemma StepInv(s: State, c: Call)
    requires Inv(s) && Legal(s, c)
    ensures Inv(Step(s, c))
  {
    hide Inv, Malloc, Free, Requests.Asize, Requests.Fits;
    match c
    case MallocCall(size) => MallocOutcome(s, size);
    case FreeCall(p) => FreeOk(s, p);
    case ReallocCall(p, size) =>
      GrantedLive(s, p, size);
      FreeOk(Malloc(s, size).0, p);
  }

  /** A legal call leads from s to s'. */
  ghost predicate Makes(s: State, c: Call, s': State) {
    Inv(s) && Legal(s, c) && s' == Step(s, c)
  }

  lemma ReachableInv(s: State, cs: seq<Call>, s': State)
    requires Inv(s) && Reaches(Makes, s, cs, s')
    ensures Inv(s')
  {
    var inv := (x: State) => Inv(x);
    forall a: State, c: Call, b: State | inv(a) && Makes(a, c, b)
      ensures inv(b)
    {
      StepInv(a, c);
    }
    RunKeeps(Makes, inv, s, cs, s');
  }

  /** In every state reached from mm_init the roving pointer stands on a block boundary,
      and so the two scans miss no block that fits. */
  lemma ReachableRover(cs: seq<Call>, s: State, a: nat)
    requires Reaches(Makes, Initial(), cs, s)
    ensures s.last in s.t && Inv(s)
    ensures FindFit(s, a) == NULL <==> forall x: nat :: FreeAt(s.t, x) ==> s.t[x].size < a
  {
    InitialOk();
    hide Initial;
    ReachableInv(Initial(), cs, s);
    FindFitOk(s, a);
    hide FindFit, Tiled, NoAdjacentFree;
  }
}

/** Runs of prologue.c without its realloc. */
module PrologueRuns {
  import opened Memory
  import opened Tiling
  import opened RootLists
  import opened PrologueSpec
  import opened Requests
  import opened Runs
  import Links

  ghost predicate Legal(s: State, c: Call) {
    match c
    case MallocCall(size) => size + 15 < WORD_SPAN
    case FreeCall(p) => p == NULL || IsLive(s.t, FLOOR, p)
    case ReallocCall(_, _) => false
  }

  ghost function Step(s: State, c: Call): State
    requires Inv(s) && Legal(s, c)
  {
    match c
    case MallocCall(size) => Malloc(s, size).0
    case FreeCall(p) => if p == NULL then s else Free(s, p)
  }

  lemma StepInv(s: State, c: Call)
    requires Inv(s) && Legal(s, c)
    ensures Inv(Step(s, c)) && s.hi <= Step(s, c).hi
  {
    hide Inv, Malloc, Free, BlockFor, Requests.Fits;
    match c
    case MallocCall(size) => MallocOutcome(s, size);
    case FreeCall(p) =>
      if p != NULL {
        FreeOk(s, p);
      }
  }

  /** A legal call leads from s to s'. */
  ghost predicate Makes(s: State, c: Call, s': State) {
    Inv(s) && Legal(s, c) && s' == Step(s, c)
  }

  lemma ReachableInv(s: State, cs: seq<Call>, s': State)
    requires Inv(s) && Reaches(Makes, s, cs, s')
    ensures Inv(s') && s.hi <= s'.hi
  {
    var inv := (x: State) => Inv(x) && s.hi <= x.hi;
    forall a: State, c: Call, b: State | inv(a) && Makes(a, c, b)
      ensures inv(b)
    {
      StepInv(a, c);
    }
    RunKeeps(Makes, inv, s, cs, s');
  }

  /** In every state reached from mm_init the ten roots stand in the heap, the list of each
      holds exactly the free blocks of its class, no two free blocks are neighbours, and
      every byte behind the first header belongs to exactly one block, root or other. */
  lemma ReachableRoots(cs: seq<Call>, s: State, x: nat, c: nat, a: nat) returns (p: nat)
    requires Reaches(Makes, Initial(), cs, s) && c < NUM && LO - 4 <= a < s.hi - 4
    ensures Root(c) in s.t && s.t[Root(c)] == Block(OVERHEAD, true)
    ensures |s.lists| == NUM && Links.NoDup(s.lists[c]) && NoAdjacentFree(s.t)
    ensures x in s.lists[c] <==> FreeAt(s.t, x) && c == ClassOf(s.t[x].size)
    ensures p in s.t && p - 4 <= a < Next(s.t, p) - 4
    ensures forall q :: q in s.t && q - 4 <= a < Next(s.t, q) - 4 ==> q == p
  {
    InitialOk();
    hide Initial, ClassOf;
    ReachableInv(Initial(), cs, s);
    p := Covers(s.t, LO, FLOOR, s.hi, LO, a);
  }
}

/** Runs of 참고(98).c, with mm_realloc called where it can be relied on. */
module TaggedRuns {
  import opened Memory
  import opened Tiling
  import opened SizeClasses
  import opened SegSpec
  import opened TaggedSpec
  import opened Requests
  import opened Runs
  import Seg98Spec

  ghost predicate Legal(s: Tagging, c: Call) {
    match c
    case MallocCall(size) => size + 15 < WORD_SPAN
    case FreeCall(p) => IsLive(s.g.t, FLOOR, p)
    case ReallocCall(p, size) =>
      IsLive(s.g.t, FLOOR, p) && size + 15 + REALLOC_BUFFER < WORD_SPAN && (size != 0 ==> TagSupported(s, p, size))
  }

  ghost function Step(s: Tagging, c: Call): Tagging
    requires Ok(s) && Legal(s, c)
  {
    match c
    case MallocCall(size) => TagMalloc(s, size).0
    case FreeCall(p) => TagFree(s, p)
    case ReallocCall(p, size) => TagRealloc(s, p, size).0
  }

  /** The call gives q up or resizes it. */
  predicate Releases(c: Call, q: nat) {
    match c
    case MallocCall(_) => false
    case FreeCall(p) => p == q
    case ReallocCall(p, _) => p == q
  }

  lemma StepOk(s: Tagging, c: Call)
    requires Ok(s) && Legal(s, c)
    ensures Ok(Step(s, c))
  {
    hide Ok, TagMalloc, TagFree, TagRealloc, TagSupported, Asize, AnyTakable;
    match c
    case MallocCall(size) => TagMallocOutcome(s, size);
    case FreeCall(p) => TagFreeOk(s, p);
    case ReallocCall(p, size) => ReallocStepOk(s, p, size);
  }

  lemma ReallocStepOk(s: Tagging, p: nat, size: Word)
    requires Ok(s) && Legal(s, ReallocCall(p, size))
    ensures Ok(TagRealloc(s, p, size).0) && KeepsReserved(s, TagRealloc(s, p, size).0, Next(s.g.t, p))
    ensures LiveBut(s, TagRealloc(s, p, size).0, p)
  {
    hide Ok, TagSupported, TagResize, Mark;
    if size != 0 {
      TagReallocOk(s, p, size);
      hide TagRealloc;
    }
  }

  /** Every live block but p is still live, with the same extent. */
  ghost predicate LiveBut(s: Tagging, s': Tagging, p: nat) {
    forall x: nat {:trigger IsLive(s.g.t, FLOOR, x)} :: IsLive(s.g.t, FLOOR, x) && x != p ==>
      IsLive(s'.g.t, FLOOR, x) && s'.g.t[x] == s.g.t[x]
  }

  /** A call that does not release q leaves q and the block reserved for it alone. */
  lemma StepKeeps(s: Tagging, c: Call, q: nat)
    requires Ok(s) && Legal(s, c) && !Releases(c, q)
    requires IsLive(s.g.t, FLOOR, q) && IsReserved(s, Next(s.g.t, q))
    ensures var s' := Step(s, c);
            && IsLive(s'.g.t, FLOOR, q) && s'.g.t[q] == s.g.t[q]
            && IsReserved(s', Next(s.g.t, q)) && s'.g.t[Next(s.g.t, q)] == s.g.t[Next(s.g.t, q)]
  {
    EpilogueNotReserved(s);
    match c {
      case MallocCall(size) =>
        hide Ok, TagMalloc, Asize, AnyTakable;
        TagMallocOutcome(s, size);
      case FreeCall(p) =>
        OtherNext(s, p, q);
        hide Ok, TagFree;
        TagFreeOk(s, p);
      case ReallocCall(p, size) =>
        OtherNext(s, p, q);
        hide Ok, TagRealloc, TagSupported;
        ReallocStepOk(s, p, size);
    }
  }

  lemma OtherNext(s: Tagging, p: nat, q: nat)
    requires Ok(s) && p in s.g.t && q in s.g.t && p != q
    ensures Next(s.g.t, p) != Next(s.g.t, q)
  {
    hide Reserved;
    PartialTiled(s.g);
    hide Partial;
    if Next(s.g.t, p) == Next(s.g.t, q) {
      Seg98Spec.SamePrev(s.g.t, LO, FLOOR, s.g.hi, p, q);
    }
  }

  /** A legal call leads from s to s'. */
  ghost predicate Makes(s: Tagging, c: Call, s': Tagging) {
    Ok(s) && Legal(s, c) && s' == Step(s, c)
  }

  lemma ReachableOk(s: Tagging, cs: seq<Call>, s': Tagging)
    requires Ok(s) && Reaches(Makes, s, cs, s')
    ensures Ok(s')
  {
    var inv := (x: Tagging) => Ok(x);
    forall a: Tagging, c: Call, b: Tagging | inv(a) && Makes(a, c, b)
      ensures inv(b)
    {
      StepOk(a, c);
    }
    RunKeeps(Makes, inv, s, cs, s');
  }

  /** In every state reached from mm_init whatever carries a tag, block or epilogue, stands
      behind a live block, and each free block is on exactly the list of its class. */
  lemma ReachableTags(cs: seq<Call>, s: Tagging, p: nat)
    requires Reaches(Makes, TagInitial(), cs, s)
    ensures Ok(s) && Sorted(s.g.t, s.g.lists, {})
    ensures p in s.tags ==>
              LO < p && (p in s.g.t || p == s.g.hi) && IsLive(s.g.t, FLOOR, Prev(s.g.t, LO, FLOOR, s.g.hi, p))
  {
    TagInitialOk();
    hide TagInitial;
    ReachableOk(TagInitial(), cs, s);
    if p in s.tags {
      PredecessorLive(s, p);
    }
  }

  /** q is live as in s, and the block behind it still reserved as in s. */
  ghost predicate StillReserved(s: Tagging, q: nat, s': Tagging)
    requires q in s.g.t
  {
    && Ok(s') && IsLive(s'.g.t, FLOOR, q) && s'.g.t[q] == s.g.t[q]
    && IsReserved(s', Next(s.g.t, q)) && Next(s.g.t, q) in s.g.t && s'.g.t[Next(s.g.t, q)] == s.g.t[Next(s.g.t, q)]
  }

  /** A reserved block is never handed out and never swallowed, whatever is called, until
      the block it is reserved for is freed or resized. */
  lemma ReservedUntilReleased(s: Tagging, cs: seq<Call>, s': Tagging, q: nat)
    requires Ok(s) && Reaches(Makes, s, cs, s')
    requires forall i :: 0 <= i < |cs| ==> !Releases(cs[i], q)
    requires IsLive(s.g.t, FLOOR, q) && IsReserved(s, Next(s.g.t, q))
    ensures Ok(s') && IsLive(s'.g.t, FLOOR, q) && s'.g.t[q] == s.g.t[q]
    ensures IsReserved(s', Next(s.g.t, q)) && s'.g.t[Next(s.g.t, q)] == s.g.t[Next(s.g.t, q)]
  {
    var inv := (x: Tagging) => StillReserved(s, q, x);
    EpilogueNotReserved(s);
    hide Ok, Makes, Releases, StillReserved;
    forall a: Tagging, c: Call, b: Tagging | c in cs && inv(a) && Makes(a, c, b)
      ensures inv(b)
    {
      StillReservedStep(s, q, a, c, b);
    }
    StartsReserved(s, q);
    RunKeeps(Makes, inv, s, cs, s');
    EndsReserved(s, q, s');
  }

  lemma StartsReserved(s: Tagging, q: nat)
    requires Ok(s) && IsLive(s.g.t, FLOOR, q) && IsReserved(s, Next(s.g.t, q))
    ensures StillReserved(s, q, s)
  {
    hide Ok;
  }

  lemma EndsReserved(s: Tagging, q: nat, s': Tagging)
    requires q in s.g.t && StillReserved(s, q, s')
    ensures Ok(s') && IsLive(s'.g.t, FLOOR, q) && s'.g.t[q] == s.g.t[q] && Next(s.g.t, q) in s.g.t
    ensures IsReserved(s', Next(s.g.t, q)) && s'.g.t[Next(s.g.t, q)] == s.g.t[Next(s.g.t, q)]
  {
    hide Ok;
  }

  lemma StillReservedStep(s: Tagging, q: nat, a: Tagging, c: Call, b: Tagging)
    requires q in s.g.t && StillReserved(s, q, a) && Makes(a, c, b) && !Releases(c, q)
    ensures StillReserved(s, q, b)
  {
    StepOk(a, c);
    StepKeeps(a, c, q);
    hide Ok, Step, Legal, Releases;
  }
}

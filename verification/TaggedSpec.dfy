/** 참고(98).c: what the reallocation tag does.  A tag in a block's header reserves the
    block, once free, for the block before it: mm_malloc passes it over and it does not
    merge into what is freed behind it. */
module TaggedSpec {
  import opened Memory
  import opened Tiling
  import opened SizeClasses
  import opened Requests
  import opened SegSpec
  import opened SegPlace
  import opened Seg98Spec

  const REALLOC_BUFFER: nat := 128

  /** The heap and the blocks (or the epilogue) whose header carries the tag. */
  datatype Tagging = Tagging(g: State, tags: set<nat>)

  /** Tags stand on block boundaries, and only behind live blocks. */
  ghost predicate Reserved(t: Tiles, hi: nat, tags: set<nat>) {
    && (forall x: nat {:trigger x in tags} :: x in tags ==> x in t || x == hi)
    && (forall q {:trigger Next(t, q)} :: q in t && Next(t, q) in tags ==> IsLive(t, FLOOR, q))
    && LO !in tags
  }

  ghost predicate Pending(s: Tagging, ex: set<nat>) {
    Partial(s.g, ex) && Reserved(s.g.t, s.g.hi, s.tags)
  }

  ghost predicate Ok(s: Tagging) {
    Pending(s, {})
  }

  /** A tagged block's physical predecessor is always allocated. */
  lemma PredecessorLive(s: Tagging, p: nat)
    requires Ok(s) && p in s.tags
    ensures p > LO && (p in s.g.t || p == s.g.hi) && IsLive(s.g.t, FLOOR, Prev(s.g.t, LO, FLOOR, s.g.hi, p))
  {
    assert p in s.g.t ==> BlockOk(s.g.t[p], p, LO, FLOOR, s.g.hi);
  }

  /** A block reserved for its predecessor: free and tagged. */
  ghost predicate IsReserved(s: Tagging, p: nat) {
    FreeAt(s.g.t, p) && p in s.tags
  }

  /** Every reserved block of s but the one at except is still reserved, as large as before. */
  ghost predicate KeepsReserved(s: Tagging, s': Tagging, except: nat) {
    forall p: nat {:trigger IsReserved(s, p)} :: IsReserved(s, p) && p != except ==>
      IsReserved(s', p) && s'.g.t[p] == s.g.t[p]
  }

  lemma KeepsReservedTrans(s: Tagging, s1: Tagging, s2: Tagging, except: nat)
    requires KeepsReserved(s, s1, except) && KeepsReserved(s1, s2, except)
    ensures KeepsReserved(s, s2, except)
  {
  }

  // ----- merging -----

  /** Where the merged block begins: a tagged block before p is not swallowed. */
  ghost function JoinLow(s: Tagging, p: nat): nat
    requires Tiled(s.g.t, LO, FLOOR, s.g.hi) && p in s.g.t && FLOOR <= p
  {
    var q := Prev(s.g.t, LO, FLOOR, s.g.hi, p);
    if s.g.t[q].alloc || q in s.tags then p else q
  }

  /** The lists without the blocks that p will swallow. */
  ghost function JoinedOut(s: Tagging, p: nat): (lists: Lists)
    requires Tiled(s.g.t, LO, FLOOR, s.g.hi) && p in s.g.t && FLOOR <= p && |s.g.lists| == LISTLIMIT
    ensures |lists| == LISTLIMIT
  {
    var q := Prev(s.g.t, LO, FLOOR, s.g.hi, p);
    var lists := if s.g.t[q].alloc || q in s.tags then s.g.lists else Unlisted(s.g, q);
    Unlisted(s.g.(lists := lists), Next(s.g.t, p))
  }

  /** coalesce, for the free block p on no list: the merged block and its list. */
  ghost function Join(s: Tagging, p: nat): Tagging
    requires Tiled(s.g.t, LO, FLOOR, s.g.hi) && p in s.g.t && FLOOR <= p && |s.g.lists| == LISTLIMIT && 0 < s.g.t[p].size
  {
    var r, e := JoinLow(s, p), MergeHigh(s.g.t, p);
    Tagging(State(Fuse(s.g.t, r, e, false), Put(JoinedOut(s, p), r, e - r), s.g.hi), s.tags)
  }

  /** The tiling after a merge. */
  lemma JoinTiling(s: Tagging, p: nat)
    requires Pending(s, {p}) && FreeAt(s.g.t, p)
    ensures FLOOR <= p && 0 < s.g.t[p].size && |s.g.lists| == LISTLIMIT
    ensures var q, n := Prev(s.g.t, LO, FLOOR, s.g.hi, p), Next(s.g.t, p);
            var r, e := JoinLow(s, p), MergeHigh(s.g.t, p);
            && r in s.g.t && FLOOR <= r && r <= p < e && (e in s.g.t || e == s.g.hi) && q != n && p != n && q != p
            && (r == p || (r == q && FreeAt(s.g.t, q) && q !in s.tags)) && (FreeAt(s.g.t, n) ==> r <= n < e)
            && (forall x: nat :: x in s.g.t && r <= x < e ==> x == p || x == r || (x == n && FreeAt(s.g.t, n)))
            && Tiled(Fuse(s.g.t, r, e, false), LO, FLOOR, s.g.hi)
  {
    hide Sorted;
    TwentyLists(s.g, {p});
    PendingAboveFloor(s.g, p);
    var q, n := Prev(s.g.t, LO, FLOOR, s.g.hi, p), Next(s.g.t, p);
    assert FreeAt(s.g.t, n) ==> Next(s.g.t, n) == s.g.hi || Next(s.g.t, n) in s.g.t;
    assert BlockOk(s.g.t[q], q, LO, FLOOR, s.g.hi);
    FuseTiled(s.g.t, LO, FLOOR, s.g.hi, JoinLow(s, p), MergeHigh(s.g.t, p), false);
  }

  lemma JoinedOutSorted(s: Tagging, p: nat)
    requires Pending(s, {p}) && FreeAt(s.g.t, p)
    ensures FLOOR <= p && |s.g.lists| == LISTLIMIT
    ensures Sorted(s.g.t, JoinedOut(s, p), {p} + {JoinLow(s, p)} + {Next(s.g.t, p)})
  {
    hide ClassOf, BlocksOk, Chained, Apart, Unlisted, Reserved;
    TwentyLists(s.g, {p});
    PendingAboveFloor(s.g, p);
    var q := Prev(s.g.t, LO, FLOOR, s.g.hi, p);
    if s.g.t[q].alloc || q in s.tags {
      assert {p} + {p} == {p};
      UnlistedSorted(s.g.t, s.g, {p}, Next(s.g.t, p));
    } else {
      UnlistedSorted(s.g.t, s.g, {p}, q);
      UnlistedSorted(s.g.t, s.g.(lists := Unlisted(s.g, q)), {p} + {q}, Next(s.g.t, p));
    }
  }

  lemma JoinSorted(s: Tagging, p: nat)
    requires Pending(s, {p}) && FreeAt(s.g.t, p)
    ensures FLOOR <= p && 0 < s.g.t[p].size && |s.g.lists| == LISTLIMIT
    ensures Sorted(Join(s, p).g.t, Join(s, p).g.lists, {}) && FreeAt(Join(s, p).g.t, JoinLow(s, p))
  {
    hide ClassOf, Sorted, JoinedOut, Reserved, Unlisted, Take, Put, BlocksOk, Chained, Apart;
    JoinTiling(s, p);
    JoinedOutSorted(s, p);
    hide Tiled, JoinLow, MergeHigh, Fuse;
    FusePut(s.g.t, s.g.hi, JoinLow(s, p), MergeHigh(s.g.t, p), JoinedOut(s, p), p, Next(s.g.t, p));
  }

  lemma FusePut(t: Tiles, hi: nat, r: nat, e: nat, lists: Lists, p: nat, n: nat)
    requires Tiled(t, LO, FLOOR, hi) && Sorted(t, lists, {p} + {r} + {n})
    requires r in t && FLOOR <= r <= p < e && (e in t || e == hi) && (FreeAt(t, n) ==> r <= n < e)
    requires forall x: nat :: x in t && r <= x < e ==> x == p || x == r || x == n
    ensures Sorted(Fuse(t, r, e, false), Put(lists, r, e - r), {}) && FreeAt(Fuse(t, r, e, false), r)
  {
    hide ClassOf, Tiled;
    var t', ex := Fuse(t, r, e, false), {p} + {r} + {n};
    FuseFree(t, r, e, p, n);
    hide Sorted, Fuse;
    RetiledPut(t, t', lists, ex, r, e - r);
  }

  lemma FuseFree(t: Tiles, r: nat, e: nat, p: nat, n: nat)
    requires r in t && r <= p < e && (FreeAt(t, n) ==> r <= n < e)
    requires forall x: nat :: x in t && r <= x < e ==> x == p || x == r || x == n
    ensures var t', ex := Fuse(t, r, e, false), {p} + {r} + {n};
            && FreeAt(t', r) && t'[r].size == e - r
            && (forall x: nat :: FreeAt(t, x) && x !in ex ==> FreeAt(t', x) && t'[x] == t[x])
            && (forall x: nat :: FreeAt(t', x) && x != r ==> FreeAt(t, x) && x !in ex)
  {
  }

  lemma ReservedFuse(t: Tiles, hi: nat, tags: set<nat>, r: nat, e: nat, alloc: bool)
    requires Tiled(t, LO, FLOOR, hi) && Reserved(t, hi, tags)
    requires r in t && r < e && (e in t || e == hi)
    requires forall x: nat :: x in tags && r < x ==> e < x
    ensures Reserved(Fuse(t, r, e, alloc), hi, tags)
  {
    var t' := Fuse(t, r, e, alloc);
    forall x: nat | x in tags
      ensures x in t' || x == hi
    {
      assert x in t || x == hi;
    }
    forall x | x in t' && Next(t', x) in tags
      ensures IsLive(t', FLOOR, x)
    {
      if x != r {
        assert Next(t', x) == Next(t, x);
      }
    }
  }

  lemma FuseLive(t: Tiles, r: nat, e: nat)
    requires r < e && forall x: nat :: x in t && r <= x < e ==> !IsLive(t, FLOOR, x)
    ensures LiveSame(t, Fuse(t, r, e, false), FLOOR)
  {
    forall x: nat | IsLive(t, FLOOR, x)
      ensures x < r || e <= x
    {
    }
  }

  lemma JoinReserved(s: Tagging, p: nat)
    requires Pending(s, {p}) && FreeAt(s.g.t, p)
    ensures FLOOR <= p && 0 < s.g.t[p].size && |s.g.lists| == LISTLIMIT
    ensures Reserved(Join(s, p).g.t, s.g.hi, s.tags)
    ensures LiveSame(s.g.t, Join(s, p).g.t, FLOOR)
    ensures Join(s, p).g.t[LO] == s.g.t[LO] && JoinLow(s, p) in Join(s, p).g.t
    ensures Join(s, p).g.t[JoinLow(s, p)].size >= s.g.t[p].size
  {
    hide ClassOf, Sorted;
    JoinTiling(s, p);
    NothingTaggedInside(s, p);
    JoinSpan(s, p);
    hide JoinedOut, JoinLow, MergeHigh, Tiled, Reserved;
    ReservedFuse(s.g.t, s.g.hi, s.tags, JoinLow(s, p), MergeHigh(s.g.t, p), false);
    FuseLive(s.g.t, JoinLow(s, p), MergeHigh(s.g.t, p));
  }

  lemma JoinSpan(s: Tagging, p: nat)
    requires Pending(s, {p}) && FreeAt(s.g.t, p)
    ensures FLOOR <= p && LO in s.g.t && LO < JoinLow(s, p)
    ensures MergeHigh(s.g.t, p) - JoinLow(s, p) >= s.g.t[p].size
    ensures forall x: nat :: x in s.g.t && JoinLow(s, p) <= x < MergeHigh(s.g.t, p) ==> !IsLive(s.g.t, FLOOR, x)
  {
    hide Sorted;
    JoinTiling(s, p);
    var n := Next(s.g.t, p);
    assert FreeAt(s.g.t, n) ==> BlockOk(s.g.t[n], n, LO, FLOOR, s.g.hi);
  }

  /** No tag stands on what a merge swallows, nor right behind it. */
  lemma NothingTaggedInside(s: Tagging, p: nat)
    requires Pending(s, {p}) && FreeAt(s.g.t, p)
    ensures FLOOR <= p
    ensures forall x: nat :: x in s.tags && JoinLow(s, p) < x ==> MergeHigh(s.g.t, p) < x
  {
    JoinTiling(s, p);
    hide Sorted;
    var t, n, q := s.g.t, Next(s.g.t, p), Prev(s.g.t, LO, FLOOR, s.g.hi, p);
    assert n !in s.tags;
    if FreeAt(t, n) {
      assert Next(t, n) !in s.tags;
    }
    if JoinLow(s, p) == q {
      assert Next(t, q) == p && p !in s.tags;
    }
  }

  /** Merging keeps the invariant, all live blocks, and every reserved block other than the
      one being listed. */
  lemma JoinOk(s: Tagging, p: nat)
    requires Pending(s, {p}) && FreeAt(s.g.t, p)
    ensures FLOOR <= p && 0 < s.g.t[p].size && |s.g.lists| == LISTLIMIT
    ensures Ok(Join(s, p)) && FreeAt(Join(s, p).g.t, JoinLow(s, p))
    ensures Join(s, p).g.t[JoinLow(s, p)].size >= s.g.t[p].size
    ensures LiveSame(s.g.t, Join(s, p).g.t, FLOOR) && KeepsReserved(s, Join(s, p), p)
    ensures p !in s.tags ==> JoinLow(s, p) !in s.tags
  {
    JoinTiling(s, p);
    JoinSorted(s, p);
    JoinReserved(s, p);
    NothingTaggedInside(s, p);
    hide Sorted, Reserved, Tiled, LiveSame, JoinedOut;
  }

  /** Between neighbours that are allocated or reserved a free block stays as it is. */
  lemma NothingToJoin(s: Tagging, p: nat)
    requires Pending(s, {p}) && FreeAt(s.g.t, p) && FLOOR <= p && |s.g.lists| == LISTLIMIT && 0 < s.g.t[p].size
    requires var q := Prev(s.g.t, LO, FLOOR, s.g.hi, p); s.g.t[q].alloc || q in s.tags
    requires !FreeAt(s.g.t, Next(s.g.t, p))
    ensures Join(s, p) == s.(g := s.g.(lists := Put(s.g.lists, p, s.g.t[p].size))) && JoinLow(s, p) == p
  {
    hide ClassOf, Sorted, BlocksOk, Chained, Apart;
    RetagIsFuse(s.g.t, LO, FLOOR, s.g.hi, p, false);
  }

  // ----- growing -----

  /** The heap after a successful sbrk: the new header overwrites the epilogue and its tag. */
  ghost function TagGrown(s: Tagging, size: nat): Tagging {
    Tagging(Grown(s.g, size), s.tags - {s.g.hi})
  }

  lemma TagGrownPending(s: Tagging, size: nat)
    requires Ok(s) && size % 8 == 0 && 16 <= size && s.g.hi + size <= MAX_HEAP
    ensures Pending(TagGrown(s, size), {s.g.hi}) && FreeAt(TagGrown(s, size).g.t, s.g.hi)
    ensures LiveSame(s.g.t, TagGrown(s, size).g.t, FLOOR) && KeepsReserved(s, TagGrown(s, size), s.g.hi)
    ensures s.g.hi !in s.g.t && s.g.hi !in TagGrown(s, size).tags && NULL < s.g.hi
  {
    GrownPartial(s.g, size);
    GrowTiled(s.g.t, LO, FLOOR, s.g.hi, size);
    GrownReserved(s.g.t, s.g.hi, s.tags, size);
    hide Sorted, Tiled, Reserved, LiveSame;
  }

  lemma GrownReserved(t: Tiles, hi: nat, tags: set<nat>, size: nat)
    requires Tiled(t, LO, FLOOR, hi) && Reserved(t, hi, tags) && hi !in t && 0 < size
    ensures Reserved(t[hi := Block(size, false)], hi + size, tags - {hi})
  {
    var t' := t[hi := Block(size, false)];
    assert hi + size !in tags;
    forall q | q in t' && Next(t', q) in tags - {hi}
      ensures IsLive(t', FLOOR, q)
    {
      if q != hi {
        assert Next(t', q) == Next(t, q);
      }
    }
  }

  /** extend_heap of size bytes: the new state and the block it returns. */
  ghost function TagExtend(s: Tagging, size: nat): Tagging
    requires Ok(s) && size % 8 == 0 && 16 <= size && s.g.hi + size <= MAX_HEAP
  {
    TagGrownPending(s, size);
    JoinTiling(TagGrown(s, size), s.g.hi);
    Join(TagGrown(s, size), s.g.hi)
  }

  ghost function TagExtendAt(s: Tagging, size: nat): nat
    requires Ok(s) && size % 8 == 0 && 16 <= size && s.g.hi + size <= MAX_HEAP
  {
    TagGrownPending(s, size);
    JoinTiling(TagGrown(s, size), s.g.hi);
    JoinLow(TagGrown(s, size), s.g.hi)
  }

  /** The block extend_heap returns is free, untagged and large enough; live and reserved
      blocks stay as they are, and no tag appears. */
  lemma TagExtendOk(s: Tagging, size: nat)
    requires Ok(s) && size % 8 == 0 && 16 <= size && s.g.hi + size <= MAX_HEAP
    ensures var s', p := TagExtend(s, size), TagExtendAt(s, size);
            && Ok(s') && FreeAt(s'.g.t, p) && p !in s'.tags && size <= s'.g.t[p].size
            && s'.g.hi == s.g.hi + size && s'.tags == s.tags - {s.g.hi}
            && LiveSame(s.g.t, s'.g.t, FLOOR) && KeepsReserved(s, s', s.g.hi)
  {
    TagGrownPending(s, size);
    JoinOk(TagGrown(s, size), s.g.hi);
    hide Ok, Pending, IsReserved, Join, JoinLow, LiveWithin;
    KeepsReservedTrans(s, TagGrown(s, size), TagExtend(s, size), s.g.hi);
  }

  // ----- mm_init -----

  /** The heap mm_init lays out before it extends it. */
  ghost function TagBare(): Tagging {
    Tagging(Bare(), {})
  }

  lemma TagBareOk()
    ensures Ok(TagBare()) && TagBare().g.hi == FLOOR
  {
    BareInv();
  }

  /** The state mm_init leaves behind. */
  ghost function TagInitial(): Tagging {
    TagBareOk();
    TagExtend(TagBare(), INITCHUNKSIZE)
  }

  lemma TagInitialOk()
    ensures Ok(TagInitial()) && TagInitial().g.hi == FLOOR + INITCHUNKSIZE && TagInitial().tags == {}
    ensures forall p: nat :: !IsLive(TagInitial().g.t, FLOOR, p)
  {
    TagBareOk();
    TagExtendOk(TagBare(), INITCHUNKSIZE);
  }

  // ----- freeing -----

  /** The first writes of mm_free: the next block loses its tag, p its allocation bit. */
  ghost function TagFreed(s: Tagging, p: nat): Tagging
    requires p in s.g.t
  {
    Tagging(Freed(s.g, p), s.tags - {Next(s.g.t, p)})
  }

  lemma TagFreedPending(s: Tagging, p: nat)
    requires Ok(s) && IsLive(s.g.t, FLOOR, p)
    ensures Pending(TagFreed(s, p), {p}) && FreeAt(TagFreed(s, p).g.t, p)
    ensures LiveAdds(TagFreed(s, p).g.t, s.g.t, FLOOR, p)
    ensures KeepsReserved(s, TagFreed(s, p), Next(s.g.t, p))
  {
    FreedPartial(s.g, p);
    FreedReserved(s.g.t, s.g.hi, s.tags, p);
    hide Sorted, Tiled, Reserved;
  }

  lemma FreedReserved(t: Tiles, hi: nat, tags: set<nat>, p: nat)
    requires Reserved(t, hi, tags) && p in t
    ensures Reserved(Retag(t, p, false), hi, tags - {Next(t, p)})
  {
    var t' := Retag(t, p, false);
    forall q | q in t' && Next(t', q) in tags - {Next(t, p)}
      ensures IsLive(t', FLOOR, q)
    {
      assert Next(t', q) == Next(t, q);
    }
  }

  /** mm_free(p) */
  ghost function TagFree(s: Tagging, p: nat): Tagging
    requires Ok(s) && IsLive(s.g.t, FLOOR, p)
  {
    TagFreedPending(s, p);
    JoinTiling(TagFreed(s, p), p);
    Join(TagFreed(s, p), p)
  }

  /** Freeing p ends the life of p alone and releases at most the block reserved for p:
      every other reserved block is neither swallowed nor changed, and no tag appears. */
  lemma TagFreeOk(s: Tagging, p: nat)
    requires Ok(s) && IsLive(s.g.t, FLOOR, p)
    ensures var s' := TagFree(s, p);
            && Ok(s') && s'.g.hi == s.g.hi && LiveAdds(s'.g.t, s.g.t, FLOOR, p)
            && s'.tags == s.tags - {Next(s.g.t, p)} && KeepsReserved(s, s', Next(s.g.t, p))
  {
    TagFreedPending(s, p);
    JoinOk(TagFreed(s, p), p);
    hide Ok, Pending, Join, JoinLow;
    FreedThenJoined(s, TagFreed(s, p), TagFree(s, p), p);
  }

  lemma FreedThenJoined(s: Tagging, s1: Tagging, s2: Tagging, p: nat)
    requires IsLive(s.g.t, FLOOR, p) && s1 == TagFreed(s, p)
    requires LiveAdds(s1.g.t, s.g.t, FLOOR, p) && LiveSame(s1.g.t, s2.g.t, FLOOR)
    requires KeepsReserved(s, s1, Next(s.g.t, p)) && KeepsReserved(s1, s2, p)
    ensures LiveAdds(s2.g.t, s.g.t, FLOOR, p) && KeepsReserved(s, s2, Next(s.g.t, p))
  {
    forall x: nat | IsReserved(s, x) && x != Next(s.g.t, p)
      ensures IsReserved(s2, x) && s2.g.t[x] == s.g.t[x]
    {
      assert x != p;
      assert IsReserved(s1, x);
    }
  }

  // ----- the search passes tagged blocks over -----

  ghost predicate Takable(t: Tiles, tags: set<nat>, x: nat, a: nat) {
    FreeAt(t, x) && x !in tags && a <= t[x].size
  }

  /** The first takable block on l, from position i on. */
  ghost function FirstTakable(t: Tiles, tags: set<nat>, l: seq<nat>, i: nat, a: nat): nat
    requires i <= |l|
    decreases |l| - i
  {
    if i == |l| then NULL
    else if Takable(t, tags, l[i], a) then l[i]
    else FirstTakable(t, tags, l, i + 1, a)
  }

  lemma {:induction false} FirstTakableFinds(t: Tiles, tags: set<nat>, l: seq<nat>, i: nat, a: nat)
    requires i <= |l| && NULL !in t
    ensures var r := FirstTakable(t, tags, l, i, a);
            && (r != NULL ==> r in l && Takable(t, tags, r, a))
            && (r == NULL ==> forall j :: i <= j < |l| ==> !Takable(t, tags, l[j], a))
    decreases |l| - i
  {
    if i < |l| && !Takable(t, tags, l[i], a) {
      FirstTakableFinds(t, tags, l, i + 1, a);
    }
  }

  /** The first takable block on the first list, from class c on, that has one. */
  ghost function FindTakable(t: Tiles, tags: set<nat>, lists: Lists, c: nat, a: nat): nat
    requires |lists| == LISTLIMIT && c <= LISTLIMIT
    decreases LISTLIMIT - c
  {
    if c == LISTLIMIT then NULL
    else if FirstTakable(t, tags, lists[c], 0, a) != NULL then FirstTakable(t, tags, lists[c], 0, a)
    else FindTakable(t, tags, lists, c + 1, a)
  }

  lemma TakableOnList(t: Tiles, tags: set<nat>, lists: Lists, c: nat, a: nat)
    requires Sorted(t, lists, {}) && NULL !in t && c < LISTLIMIT
    ensures var r := FirstTakable(t, tags, lists[c], 0, a);
            && (r != NULL ==> Takable(t, tags, r, a))
            && (r == NULL ==> forall x: nat :: Takable(t, tags, x, a) ==> ClassOf(t[x].size) != c)
  {
    hide ClassOf;
    FirstTakableFinds(t, tags, lists[c], 0, a);
    if FirstTakable(t, tags, lists[c], 0, a) == NULL {
      forall x: nat | FreeAt(t, x) && ClassOf(t[x].size) == c
        ensures !Takable(t, tags, x, a)
      {
        assert x in lists[c];
      }
    }
  }

  lemma {:induction false} FindTakableFrom(t: Tiles, tags: set<nat>, lists: Lists, c: nat, a: nat)
    requires Sorted(t, lists, {}) && NULL !in t && c <= LISTLIMIT
    ensures var r := FindTakable(t, tags, lists, c, a);
            && (r != NULL ==> Takable(t, tags, r, a))
            && (r == NULL ==> forall x: nat :: Takable(t, tags, x, a) ==> ClassOf(t[x].size) < c)
    decreases LISTLIMIT - c
  {
    hide Sorted, ClassFrom, FirstTakable, Takable;
    if c < LISTLIMIT {
      TakableOnList(t, tags, lists, c, a);
      FindTakableFrom(t, tags, lists, c + 1, a);
    }
  }

  ghost predicate AnyTakable(t: Tiles, tags: set<nat>, a: nat) {
    exists x: nat :: Takable(t, tags, x, a)
  }

  /** The search fails exactly when no untagged free block is large enough. */
  lemma FindTakableOk(s: Tagging, a: nat)
    requires Ok(s)
    ensures |s.g.lists| == LISTLIMIT
    ensures var r := FindTakable(s.g.t, s.tags, s.g.lists, ClassOf(a), a);
            (r != NULL <==> AnyTakable(s.g.t, s.tags, a)) && (r != NULL ==> Takable(s.g.t, s.tags, r, a))
  {
    hide Sorted, Tiled, Reserved, FindTakable, ClassFrom;
    NullOutside(s.g, {});
    FindTakableFrom(s.g.t, s.tags, s.g.lists, ClassOf(a), a);
    forall x: nat | Takable(s.g.t, s.tags, x, a)
      ensures ClassOf(a) <= ClassOf(s.g.t[x].size)
    {
      ClassMonotone(a, s.g.t[x].size, 0);
    }
  }

  // ----- placing -----

  /** place, for an untagged free block */
  ghost function TagPlace(s: Tagging, p: nat, a: nat): (Tagging, nat)
    requires Ok(s) && FreeAt(s.g.t, p) && a % 8 == 0 && 16 <= a <= s.g.t[p].size
  {
    var (g, r) := PlaceThreeWay(s.g, p, a);
    (Tagging(g, s.tags), r)
  }

  /** Placing into an untagged block touches no other block, so every tag still stands. */
  lemma TagPlaceOk(s: Tagging, p: nat, a: nat)
    requires Ok(s) && FreeAt(s.g.t, p) && p !in s.tags && a % 8 == 0 && 16 <= a <= s.g.t[p].size
    ensures var (s', r) := TagPlace(s, p, a);
            && Ok(s') && LiveAdds(s.g.t, s'.g.t, FLOOR, r) && a <= s'.g.t[r].size <= a + 16 && s'.g.hi == s.g.hi
            && s'.tags == s.tags && r !in s.tags && KeepsReserved(s, s', NULL)
  {
    PlaceThreeWayOk(s.g, p, a);
    PlaceShape(s.g, p, a);
    var t', r := PlaceThreeWay(s.g, p, a).0.t, PlaceThreeWay(s.g, p, a).1;
    hide PlaceThreeWay, LiveAdds;
    PlacedReserved(s.g.t, t', s.g.hi, s.tags, p, r);
    hide Sorted, Tiled, Reserved;
  }

  /** What place does to the tiling: only the extent of p changes. */
  lemma PlaceShape(g: State, p: nat, a: nat)
    requires Partial(g, {}) && FreeAt(g.t, p) && a % 8 == 0 && 16 <= a <= g.t[p].size
    ensures var (g', r) := PlaceThreeWay(g, p, a);
            && SameBut(g.t, g'.t, p) && p <= r < Next(g.t, p) && (r == p || r !in g.t) && g.lists != []
  {
    hide ClassOf, Sorted, Tiled, Cut, Retag, Take, Put, SameBut;
    RemovedPartial(g, {}, p);
    SizeOfFree(g, p, a);
    WholeShape(g.t, p);
    var rest := g.t[p].size - a;
    if rest > 2 * DSIZE {
      CutShape(g, p, a, true);
      CutShape(g, p, rest, false);
    }
  }

  lemma WholeShape(t: Tiles, p: nat)
    requires p in t
    ensures SameBut(t, Retag(t, p, true), p)
  {
  }

  lemma CutShape(g: State, p: nat, a: nat, alloc: bool)
    requires Partial(g, {}) && FreeAt(g.t, p) && a % 8 == 0 && 16 <= a && a + 16 <= g.t[p].size
    ensures SameBut(g.t, Cut(g.t, p, a, alloc), p) && p + a !in g.t
  {
    CutTiled(g.t, LO, FLOOR, g.hi, p, a, alloc);
  }

  /** Outside the extent of p the tilings agree, and what p became ends where p ended. */
  ghost predicate SameBut(t: Tiles, t': Tiles, p: nat)
    requires p in t
  {
    && p in t' && (Next(t', p) == Next(t, p) || (Next(t', p) in t' && Next(t', Next(t', p)) == Next(t, p) && Next(t', p) !in t))
    && (forall x: nat {:trigger x in t} {:trigger x in t'} :: x != p && x != Next(t', p) ==> (x in t <==> x in t'))
    && (forall x: nat {:trigger t'[x]} :: x in t && x != p ==> x in t' && t'[x] == t[x])
  }

  lemma PlacedReserved(t: Tiles, t': Tiles, hi: nat, tags: set<nat>, p: nat, r: nat)
    requires Tiled(t, LO, FLOOR, hi) && Reserved(t, hi, tags) && FreeAt(t, p) && p !in tags && SameBut(t, t', p)
    requires p <= r < Next(t, p) && (r == p || r !in t)
    ensures Reserved(t', hi, tags) && r !in tags
    ensures forall x: nat :: FreeAt(t, x) && x in tags ==> FreeAt(t', x) && t'[x] == t[x]
  {
    assert Next(t, p) !in tags;
    assert BlockOk(t[p], p, LO, FLOOR, hi);
    forall x: nat | x in tags
      ensures x in t' || x == hi
    {
      assert x in t || x == hi;
    }
    PlacedBehind(t, t', hi, tags, p);
  }

  lemma PlacedBehind(t: Tiles, t': Tiles, hi: nat, tags: set<nat>, p: nat)
    requires Tiled(t, LO, FLOOR, hi) && Reserved(t, hi, tags) && FreeAt(t, p) && p !in tags && SameBut(t, t', p)
    requires Next(t, p) !in tags
    ensures forall q :: q in t' && Next(t', q) in tags ==> IsLive(t', FLOOR, q)
  {
    forall q | q in t' && Next(t', q) in tags
      ensures IsLive(t', FLOOR, q)
    {
      if q in t && q != p {
        assert Next(t', q) == Next(t, q);
      }
    }
  }

  // ----- mm_malloc -----

  lemma TagFoundOk(s: Tagging, size: Word)
    requires Ok(s) && 0 < size && size + 15 < WORD_SPAN
    ensures |s.g.lists| == LISTLIMIT && Asize(size) % 8 == 0 && 16 <= Asize(size) && size + 8 <= Asize(size) <= size + 15
    ensures var p := FindTakable(s.g.t, s.tags, s.g.lists, ClassOf(Asize(size)), Asize(size));
            && (p != NULL <==> AnyTakable(s.g.t, s.tags, Asize(size)))
            && (p != NULL ==> FreeAt(s.g.t, p) && p !in s.tags && Asize(size) <= s.g.t[p].size)
  {
    AsizeOk(size);
    hide Ok, Asize;
    FindTakableOk(s, Asize(size));
  }

  /** mm_malloc(size): the new state and the pointer returned. */
  ghost function TagMalloc(s: Tagging, size: Word): (Tagging, nat)
    requires Ok(s) && size + 15 < WORD_SPAN
  {
    if size == 0 then (s, NULL) else
      TagFoundOk(s, size);
      var a, p := Asize(size), FindTakable(s.g.t, s.tags, s.g.lists, ClassOf(Asize(size)), Asize(size));
      if p != NULL then TagPlace(s, p, a)
      else if s.g.hi + GrowthFor(a) > MAX_HEAP then (s, NULL)
      else
        TagExtendOk(s, GrowthFor(a));
        TagPlace(TagExtend(s, GrowthFor(a)), TagExtendAt(s, GrowthFor(a)), a)
  }

  /** A new block, none of the reserved ones, and the reserved ones untouched. */
  ghost predicate TagGranted(s: Tagging, s': Tagging, size: Word, r: nat) {
    && r != NULL && Ok(s') && LiveAdds(s.g.t, s'.g.t, FLOOR, r) && size + 8 <= s'.g.t[r].size <= size + 31
    && Asize(size) <= s'.g.t[r].size
    && s'.g.hi == s.g.hi + (if AnyTakable(s.g.t, s.tags, Asize(size)) then 0 else GrowthFor(Asize(size)))
    && s'.tags <= s.tags && !IsReserved(s, r) && KeepsReserved(s, s', NULL)
  }

  lemma LiveAtFloor(t: Tiles, t': Tiles, r: nat)
    requires LiveAdds(t, t', FLOOR, r)
    ensures FLOOR <= r && r in t'
  {
  }

  lemma FittingMalloc(s: Tagging, size: Word)
    requires Ok(s) && 0 < size && size + 15 < WORD_SPAN && AnyTakable(s.g.t, s.tags, Asize(size))
    ensures TagGranted(s, TagMalloc(s, size).0, size, TagMalloc(s, size).1) && TagMalloc(s, size).1 != NULL
  {
    TagFoundOk(s, size);
    hide Ok, FindTakable, TagPlace, LiveAdds, AnyTakable, Asize, KeepsReserved;
    TagPlaceOk(s, FindTakable(s.g.t, s.tags, s.g.lists, ClassOf(Asize(size)), Asize(size)), Asize(size));
    LiveAtFloor(s.g.t, TagMalloc(s, size).0.g.t, TagMalloc(s, size).1);
  }

  lemma GrowingMalloc(s: Tagging, size: Word)
    requires Ok(s) && 0 < size && size + 15 < WORD_SPAN
    requires !AnyTakable(s.g.t, s.tags, Asize(size)) && s.g.hi + GrowthFor(Asize(size)) <= MAX_HEAP
    ensures TagGranted(s, TagMalloc(s, size).0, size, TagMalloc(s, size).1) && TagMalloc(s, size).1 != NULL
  {
    TagFoundOk(s, size);
    GrownThenPlaced(s, Asize(size));
    hide Ok, FindTakable, TagPlace, LiveAdds, AnyTakable, Asize, KeepsReserved, TagExtend, TagExtendAt;
    LiveAtFloor(s.g.t, TagMalloc(s, size).0.g.t, TagMalloc(s, size).1);
  }

  lemma GrownThenPlaced(s: Tagging, a: nat)
    requires Ok(s) && a % 8 == 0 && 16 <= a && s.g.hi + GrowthFor(a) <= MAX_HEAP
    ensures Ok(TagExtend(s, GrowthFor(a))) && FreeAt(TagExtend(s, GrowthFor(a)).g.t, TagExtendAt(s, GrowthFor(a)))
    ensures a <= TagExtend(s, GrowthFor(a)).g.t[TagExtendAt(s, GrowthFor(a))].size
    ensures var (s', r) := TagPlace(TagExtend(s, GrowthFor(a)), TagExtendAt(s, GrowthFor(a)), a);
            && Ok(s') && LiveAdds(s.g.t, s'.g.t, FLOOR, r) && a <= s'.g.t[r].size <= a + 16
            && s'.g.hi == s.g.hi + GrowthFor(a) && s'.tags <= s.tags && !IsReserved(s, r) && KeepsReserved(s, s', NULL)
  {
    TagExtendOk(s, GrowthFor(a));
    var s1, p := TagExtend(s, GrowthFor(a)), TagExtendAt(s, GrowthFor(a));
    TagPlaceOk(s1, p, a);
    var s', r := TagPlace(s1, p, a).0, TagPlace(s1, p, a).1;
    EpilogueNotReserved(s);
    hide Ok, TagPlace, TagExtend, TagExtendAt, LiveAdds, LiveSame;
    LiveAddsAfterSame(s.g.t, s1.g.t, s'.g.t, FLOOR, r);
    ReservedThrough(s, s1, s', r);
  }

  lemma EpilogueNotReserved(s: Tagging)
    requires Ok(s)
    ensures !IsReserved(s, s.g.hi) && !IsReserved(s, NULL)
  {
    hide Sorted;
    assert FreeAt(s.g.t, s.g.hi) ==> BlockOk(s.g.t[s.g.hi], s.g.hi, LO, FLOOR, s.g.hi);
  }

  lemma ReservedThrough(s: Tagging, s1: Tagging, s': Tagging, r: nat)
    requires !IsReserved(s, s.g.hi) && KeepsReserved(s, s1, s.g.hi) && KeepsReserved(s1, s', NULL) && !IsReserved(s, NULL)
    requires r !in s1.tags && s1.tags == s.tags - {s.g.hi} && s'.tags == s1.tags
    ensures s'.tags <= s.tags && !IsReserved(s, r) && KeepsReserved(s, s', NULL)
  {
    assert IsReserved(s, r) ==> IsReserved(s1, r);
  }

  /** A request fails exactly when it is empty or no untagged block fits and sbrk cannot
      deliver, and then changes nothing. */
  lemma TagMallocOutcome(s: Tagging, size: Word)
    requires Ok(s) && size + 15 < WORD_SPAN
    ensures var (s', r) := TagMalloc(s, size);
            && (r == NULL <==> size == 0 || (!AnyTakable(s.g.t, s.tags, Asize(size)) && s.g.hi + GrowthFor(Asize(size)) > MAX_HEAP))
            && (if r == NULL then s' == s else TagGranted(s, s', size, r))
  {
    hide Ok, TagGranted, FindTakable, TagPlace, TagExtend, TagExtendAt, Asize, AnyTakable;
    if size != 0 {
      TagFoundOk(s, size);
      if AnyTakable(s.g.t, s.tags, Asize(size)) {
        FittingMalloc(s, size);
      } else if s.g.hi + GrowthFor(Asize(size)) <= MAX_HEAP {
        GrowingMalloc(s, size);
      }
    }
  }

  // ----- steps that can be followed by hand -----

  /** If one untagged free block alone is large enough, that is the block mm_malloc takes. */
  lemma TagMallocHere(s: Tagging, size: Word, p: nat)
    requires Ok(s) && 0 < size && size + 15 < WORD_SPAN && Takable(s.g.t, s.tags, p, Asize(size))
    requires forall x: nat :: Takable(s.g.t, s.tags, x, Asize(size)) ==> x == p
    ensures Asize(size) % 8 == 0 && 16 <= Asize(size)
    ensures TagMalloc(s, size) == TagPlace(s, p, Asize(size)) && Ok(TagMalloc(s, size).0)
  {
    hide Asize, FindTakable, TagPlace;
    TagFoundOk(s, size);
    assert AnyTakable(s.g.t, s.tags, Asize(size));
    assert Takable(s.g.t, s.tags, FindTakable(s.g.t, s.tags, s.g.lists, ClassOf(Asize(size)), Asize(size)), Asize(size));
    TagPlaceOk(s, p, Asize(size));
    hide Ok;
  }

  /** If none is, the heap is extended first. */
  lemma TagMallocGrown(s: Tagging, size: Word)
    requires Ok(s) && 0 < size && size + 15 < WORD_SPAN && !AnyTakable(s.g.t, s.tags, Asize(size))
    requires s.g.hi + GrowthFor(Asize(size)) <= MAX_HEAP
    ensures Asize(size) % 8 == 0 && 16 <= Asize(size)
    ensures var s1, p := TagExtend(s, GrowthFor(Asize(size))), TagExtendAt(s, GrowthFor(Asize(size)));
            && Ok(s1) && FreeAt(s1.g.t, p) && Asize(size) <= s1.g.t[p].size
            && TagMalloc(s, size) == TagPlace(s1, p, Asize(size)) && Ok(TagMalloc(s, size).0)
  {
    hide Asize, FindTakable, TagPlace, TagExtend, TagExtendAt;
    TagFoundOk(s, size);
    GrownThenPlaced(s, Asize(size));
    hide Ok;
  }

  /** Freeing a last block between a live block and the epilogue only flips its bit. */
  lemma TagFreeLast(s: Tagging, p: nat)
    requires Ok(s) && IsLive(s.g.t, FLOOR, p) && Next(s.g.t, p) == s.g.hi
    requires forall q {:trigger Next(s.g.t, q)} :: q in s.g.t && Next(s.g.t, q) == p ==> s.g.t[q].alloc
    ensures Ok(TagFree(s, p)) && TagFree(s, p).g.hi == s.g.hi
    ensures TagFree(s, p).g.t == Retag(s.g.t, p, false) && TagFree(s, p).tags == s.tags - {s.g.hi}
  {
    hide ClassOf, Sorted;
    TagFreeOk(s, p);
    TagFreedPending(s, p);
    var f := TagFreed(s, p);
    JoinTiling(f, p);
    var q := Prev(f.g.t, LO, FLOOR, f.g.hi, p);
    assert Next(s.g.t, q) == p;
    assert s.g.hi !in s.g.t by {
      OkTiled(s);
      HaveAligned(s.g.t, s.g.hi, p);
    }
    NothingToJoin(f, p);
  }

  // ----- mm_realloc -----

  /** SET_RATAG on the header behind p, the only step that creates a tag. */
  ghost function Reserve(s: Tagging, p: nat): Tagging
    requires p in s.g.t
  {
    s.(tags := s.tags + {Next(s.g.t, p)})
  }

  lemma ReserveOk(s: Tagging, p: nat)
    requires Ok(s) && IsLive(s.g.t, FLOOR, p)
    ensures Ok(Reserve(s, p)) && KeepsReserved(s, Reserve(s, p), NULL)
  {
    PartialTiled(s.g);
    hide Partial;
    ReserveBehind(s.g.t, s.g.hi, s.tags, p);
    hide Tiled, Reserved;
  }

  lemma ReserveBehind(t: Tiles, hi: nat, tags: set<nat>, p: nat)
    requires Tiled(t, LO, FLOOR, hi) && Reserved(t, hi, tags) && IsLive(t, FLOOR, p)
    ensures Reserved(t, hi, tags + {Next(t, p)})
  {
    assert BlockOk(t[p], p, LO, FLOOR, hi);
    assert Next(t, p) in t || Next(t, p) == hi;
    forall q | q in t && Next(t, q) in tags + {Next(t, p)}
      ensures IsLive(t, FLOOR, q)
    {
      if Next(t, q) == Next(t, p) {
        SamePrev(t, LO, FLOOR, hi, q, p);
      }
    }
  }

  lemma PartialTiled(g: State)
    requires Partial(g, {})
    ensures Tiled(g.t, LO, FLOOR, g.hi) && g.hi <= MAX_HEAP
  {
  }

  /** The tag is set when the result has less than twice the buffer to spare. */
  ghost function Mark(s: Tagging, p: nat, newSize: nat): Tagging
    requires p in s.g.t
  {
    if s.g.t[p].size - newSize < 2 * REALLOC_BUFFER then Reserve(s, p) else s
  }

  /** Block p swallows the free block behind it; its header is written without a tag. */
  ghost function Swallowed(s: Tagging, p: nat): Tagging
    requires p in s.g.t && FreeAt(s.g.t, Next(s.g.t, p)) && 0 < s.g.t[p].size && |s.g.lists| == LISTLIMIT
  {
    Tagging(Absorb(s.g, p), s.tags - {p} - {Next(s.g.t, p)})
  }

  lemma SwallowedOk(s: Tagging, p: nat)
    requires Ok(s) && IsLive(s.g.t, FLOOR, p) && FreeAt(s.g.t, Next(s.g.t, p))
    ensures |s.g.lists| == LISTLIMIT && 0 < s.g.t[p].size
    ensures var s' := Swallowed(s, p);
            && Ok(s') && Grew(s.g.t, s'.g.t, p) && s'.g.hi == s.g.hi
            && s'.g.t[p].size == s.g.t[p].size + NextSize(s.g.t, p)
            && s'.tags <= s.tags && KeepsReserved(s, s', Next(s.g.t, p))
  {
    AbsorbInv(s.g, p);
    PartialTiled(s.g);
    AbsorbTiling(s.g.t, s.g.hi, p);
    hide Partial;
    SwallowedReserved(s.g.t, s.g.hi, s.tags, p);
    hide Reserved, Tiled, Fuse;
  }

  lemma SwallowedReserved(t: Tiles, hi: nat, tags: set<nat>, p: nat)
    requires Tiled(t, LO, FLOOR, hi) && Reserved(t, hi, tags) && IsLive(t, FLOOR, p) && FreeAt(t, Next(t, p))
    ensures Next(t, p) > p && Next(t, Next(t, p)) > p
    ensures Reserved(Fuse(t, p, Next(t, Next(t, p)), true), hi, tags - {p} - {Next(t, p)})
  {
    var n := Next(t, p);
    assert BlockOk(t[p], p, LO, FLOOR, hi) && BlockOk(t[n], n, LO, FLOOR, hi);
    assert Next(t, n) !in tags;
    var e := Next(t, n);
    assert e in t || e == hi;
    forall x: nat | x in tags - {p} - {n} && p < x
      ensures e < x
    {
      assert x in t || x == hi;
    }
    FewerTags(t, hi, tags, p, n);
    ReservedFuse(t, hi, tags - {p} - {n}, p, e, true);
  }

  lemma FewerTags(t: Tiles, hi: nat, tags: set<nat>, x: nat, y: nat)
    requires Reserved(t, hi, tags)
    ensures Reserved(t, hi, tags - {x} - {y})
  {
  }

  /** The in-place branch is sound under the conditions for growing in place and if a free
      last block that must be extended is untagged. */
  ghost predicate TagGrowsInPlace(s: Tagging, p: nat, newSize: nat)
    requires p in s.g.t
  {
    && GrowsInPlace(s.g, p, newSize)
    && (s.g.t[p].size + NextSize(s.g.t, p) < newSize ==> !IsReserved(s, Next(s.g.t, p)))
  }

  /** Behind a block that all but ends the heap, the extension is contiguous. */
  lemma TagExtendBehind(s: Tagging, p: nat, e: nat)
    requires Ok(s) && IsLive(s.g.t, FLOOR, p) && EndsBehind(s.g, p) && !IsReserved(s, Next(s.g.t, p))
    requires e % 8 == 0 && 16 <= e && s.g.hi + e <= MAX_HEAP
    ensures var s1, n := TagExtend(s, e), Next(s.g.t, p);
            && p in s1.g.t && s1.g.t[p] == s.g.t[p] && FreeAt(s1.g.t, n) && s1.g.t[n].size == NextSize(s.g.t, p) + e
  {
    TagGrownPending(s, e);
    JoinTiling(TagGrown(s, e), s.g.hi);
    hide ClassOf, Sorted, Reserved;
    var g := TagGrown(s, e);
    var n, q := Next(s.g.t, p), Prev(g.g.t, LO, FLOOR, g.g.hi, s.g.hi);
    assert Next(g.g.t, s.g.hi) == g.g.hi && g.g.hi !in g.g.t;
    if n == s.g.hi {
      SamePrev(g.g.t, LO, FLOOR, g.g.hi, q, p);
    } else {
      assert Next(g.g.t, n) == s.g.hi;
      SamePrev(g.g.t, LO, FLOOR, g.g.hi, q, n);
    }
  }

  /** The condition is exact: the extension joins the free block that ends the heap if and
      only if that block carries no tag; otherwise it stays a block of its own. */
  lemma ExtensionJoinsIff(s: Tagging, n: nat, e: nat)
    requires Ok(s) && FreeAt(s.g.t, n) && Next(s.g.t, n) == s.g.hi
    requires e % 8 == 0 && 16 <= e && s.g.hi + e <= MAX_HEAP
    ensures TagExtendAt(s, e) == n <==> !IsReserved(s, n)
    ensures IsReserved(s, n) ==> TagExtendAt(s, e) == s.g.hi
  {
    TagGrownPending(s, e);
    JoinTiling(TagGrown(s, e), s.g.hi);
    hide ClassOf, Sorted, Reserved;
    var g := TagGrown(s, e);
    assert Next(g.g.t, n) == s.g.hi;
    SamePrev(g.g.t, LO, FLOOR, g.g.hi, Prev(g.g.t, LO, FLOOR, g.g.hi, s.g.hi), n);
  }

  /** The heap when the in-place branch unlinks what stands behind p. */
  ghost function TagAtClaim(s: Tagging, p: nat, newSize: Word): Tagging
    requires Ok(s) && p in s.g.t && newSize % 8 == 0 && CanExtend(s.g, p, newSize)
  {
    HaveAligned(s.g.t, s.g.hi, p);
    RemainderAligned(Have(s.g.t, p), newSize);
    if Remainder(Have(s.g.t, p), newSize) >= 0 then s
    else TagExtend(s, Extension(Remainder(Have(s.g.t, p), newSize)))
  }

  /** What the in-place branch does to block p leaves a heap in order. */
  ghost predicate TagInPlaceSound(s: Tagging, p: nat, newSize: Word)
    requires Ok(s) && p in s.g.t && newSize % 8 == 0 && CanExtend(s.g, p, newSize)
  {
    var s1 := TagAtClaim(s, p, newSize);
    p in s1.g.t && Sound(s1.g.t, s1.g.hi, p, ClaimedSize(Have(s.g.t, p), newSize), newSize)
  }

  /** That is so exactly when the block can grow in place, a free last block that must be
      extended is untagged, and the request is less than 2^31 bytes larger than the block. */
  lemma TagSoundIff(s: Tagging, p: nat, newSize: Word)
    requires Ok(s) && IsLive(s.g.t, FLOOR, p) && newSize % 8 == 0 && NextIsOpen(s.g, p) && CanExtend(s.g, p, newSize)
    ensures TagInPlaceSound(s, p, newSize) <==> TagGrowsInPlace(s, p, newSize) && newSize - s.g.t[p].size < INT_SPAN
  {
    var have := Have(s.g.t, p);
    HaveAligned(s.g.t, s.g.hi, p);
    hide Ok, GrowsInPlace, NextIsOpen, IsLive, TagInPlaceSound;
    if newSize - have > INT_SPAN {
      TagSoundWrapped(s, p, newSize);
    } else if newSize <= have {
      TagSoundFitting(s, p, newSize);
    } else {
      TagSoundGrowing(s, p, newSize);
    }
  }

  lemma TagSoundWrapped(s: Tagging, p: nat, newSize: Word)
    requires Ok(s) && p in s.g.t && newSize % 8 == 0 && CanExtend(s.g, p, newSize) && newSize - Have(s.g.t, p) > INT_SPAN
    ensures !TagInPlaceSound(s, p, newSize)
  {
    hide Remainder, ClaimedSize, Tiled;
    HaveAligned(s.g.t, s.g.hi, p);
    hide Ok, TagExtend, Have, Sound;
    Wrapped(Have(s.g.t, p), newSize);
    NeverSound(s.g.t, s.g.hi, p, Have(s.g.t, p), newSize);
  }

  lemma TagSoundFitting(s: Tagging, p: nat, newSize: Word)
    requires Ok(s) && IsLive(s.g.t, FLOOR, p) && newSize % 8 == 0 && NextIsOpen(s.g, p) && CanExtend(s.g, p, newSize)
    requires newSize <= Have(s.g.t, p)
    ensures TagInPlaceSound(s, p, newSize) <==> GrowsInPlace(s.g, p, newSize)
  {
    hide Remainder, ClaimedSize, Tiled;
    HaveAligned(s.g.t, s.g.hi, p);
    hide Partial, TagExtend, Have, Sound, GrowsInPlace, NextIsOpen, IsLive;
    Unwrapped(Have(s.g.t, p), newSize);
    SoundWithout(s.g, p, newSize);
  }

  lemma TagSoundGrowing(s: Tagging, p: nat, newSize: Word)
    requires Ok(s) && IsLive(s.g.t, FLOOR, p) && newSize % 8 == 0 && NextIsOpen(s.g, p) && CanExtend(s.g, p, newSize)
    requires 0 < newSize - Have(s.g.t, p) <= INT_SPAN
    ensures TagInPlaceSound(s, p, newSize) <==> GrowsInPlace(s.g, p, newSize) && !IsReserved(s, Next(s.g.t, p))
    ensures newSize - Have(s.g.t, p) <= MAX_HEAP
  {
    hide Remainder, ClaimedSize, Tiled, Partial, TagExtend, Have, Sound, GrowsInPlace, NextIsOpen, IsReserved;
    MustExtend(s.g, p, newSize);
    TagSoundExtended(s, p, newSize, Extension(Remainder(Have(s.g.t, p), newSize)));
  }

  lemma TagSoundExtended(s: Tagging, p: nat, newSize: nat, e: nat)
    requires Ok(s) && IsLive(s.g.t, FLOOR, p) && NextIsOpen(s.g, p) && e % 8 == 0 && 16 <= e && s.g.hi + e <= MAX_HEAP
    requires Have(s.g.t, p) < newSize <= Have(s.g.t, p) + e
    ensures p in TagExtend(s, e).g.t && TagExtend(s, e).g.hi == s.g.hi + e
    ensures Sound(TagExtend(s, e).g.t, s.g.hi + e, p, Have(s.g.t, p) + e, newSize)
            <==> GrowsInPlace(s.g, p, newSize) && !IsReserved(s, Next(s.g.t, p))
  {
    hide ClassOf, Partial, Tiled, GrowsInPlace, EndsBehind, NextIsOpen, IsReserved;
    OpenMustGrow(s.g, p, newSize);
    hide Ok;
    TagBehindExtended(s, p, e);
    var s1 := TagExtend(s, e);
    hide TagExtend;
    OkTiled(s1);
    ClaimTiledIff(s1.g.t, s1.g.hi, p, Have(s.g.t, p) + e);
  }

  lemma OkTiled(s: Tagging)
    requires Ok(s)
    ensures Tiled(s.g.t, LO, FLOOR, s.g.hi) && s.g.hi <= MAX_HEAP
  {
  }

  /** After an extension by e bytes a free block lies behind p; it has grown by e exactly if
      nothing but an untagged block lay between p and the break. */
  lemma TagBehindExtended(s: Tagging, p: nat, e: nat)
    requires Ok(s) && IsLive(s.g.t, FLOOR, p) && NextIsOpen(s.g, p)
    requires e % 8 == 0 && 16 <= e && s.g.hi + e <= MAX_HEAP
    ensures var s1, n := TagExtend(s, e), Next(s.g.t, p);
            && Ok(s1) && s1.g.hi == s.g.hi + e && p in s1.g.t && s1.g.t[p] == s.g.t[p]
            && IsLive(s1.g.t, FLOOR, p) && FreeAt(s1.g.t, n)
            && NextSize(s1.g.t, p) == NextSize(s.g.t, p) + if EndsBehind(s.g, p) && !IsReserved(s, n) then e else 0
  {
    hide ClassOf, Sorted, Reserved;
    TagExtendOk(s, e);
    OkTiled(s);
    HaveAligned(s.g.t, s.g.hi, p);
    var n := Next(s.g.t, p);
    hide Ok, TagExtend, TagExtendAt, KeepsReserved;
    if !EndsBehind(s.g, p) {
      ExtensionAbove(s, e, p);
      ExtensionAbove(s, e, n);
    } else if IsReserved(s, n) {
      ExtensionJoinsIff(s, n, e);
      hide Tiled;
      TagExtendElsewhere(s, e, p);
      TagExtendElsewhere(s, e, n);
    } else {
      TagExtendBehind(s, p, e);
    }
  }

  /** Blocks before the one that extend_heap returns are as they were. */
  lemma TagExtendElsewhere(s: Tagging, e: nat, x: nat)
    requires Ok(s) && e % 8 == 0 && 16 <= e && s.g.hi + e <= MAX_HEAP
    requires x in s.g.t && x < TagExtendAt(s, e) && x != s.g.hi
    ensures x in TagExtend(s, e).g.t && TagExtend(s, e).g.t[x] == s.g.t[x]
  {
    hide ClassOf, Sorted, Reserved, Tiled, JoinLow, JoinedOut;
    TagGrownPending(s, e);
    JoinTiling(TagGrown(s, e), s.g.hi);
  }

  /** A block that does not touch the break lies before what the extension becomes. */
  lemma ExtensionAbove(s: Tagging, e: nat, x: nat)
    requires Ok(s) && e % 8 == 0 && 16 <= e && s.g.hi + e <= MAX_HEAP
    requires x in s.g.t && Next(s.g.t, x) != s.g.hi
    ensures x in TagExtend(s, e).g.t && TagExtend(s, e).g.t[x] == s.g.t[x]
  {
    OkTiled(s);
    assert x < TagExtendAt(s, e) && x != s.g.hi by {
      hide ClassOf, Sorted, Reserved;
      TagGrownPending(s, e);
      JoinTiling(TagGrown(s, e), s.g.hi);
      var g := TagGrown(s, e).g;
      assert Next(g.t, s.g.hi) == g.hi && g.hi !in g.t;
      assert BlockOk(s.g.t[x], x, LO, FLOOR, s.g.hi);
      assert x < Prev(g.t, LO, FLOOR, g.hi, s.g.hi);
    }
    hide Ok, TagExtend, TagExtendAt, Tiled;
    TagExtendElsewhere(s, e, x);
  }

  ghost function TagInPlace(s: Tagging, p: nat, newSize: Word): (Tagging, nat)
    requires Ok(s) && IsLive(s.g.t, FLOOR, p) && newSize % 8 == 0
    requires TagGrowsInPlace(s, p, newSize) && newSize - s.g.t[p].size < INT_SPAN
  {
    var rem := Remainder(s.g.t[p].size + NextSize(s.g.t, p), newSize);
    HaveOk(s.g, p, newSize);
    if rem >= 0 then (Swallowed(s, p), p)
    else if s.g.hi + Extension(rem) > MAX_HEAP then (s, NULL)
    else
      TagExtendBehind(s, p, Extension(rem));
      TagExtendOk(s, Extension(rem));
      (Swallowed(TagExtend(s, Extension(rem)), p), p)
  }

  /** The block grew where it stood, no tag appeared, and only the block reserved for it
      may have lost its reservation. */
  ghost predicate GrewTagged(s: Tagging, s': Tagging, p: nat) {
    && p in s.g.t && Ok(s') && Grew(s.g.t, s'.g.t, p)
    && s'.tags <= s.tags && KeepsReserved(s, s', Next(s.g.t, p))
  }

  lemma TagInPlaceOk(s: Tagging, p: nat, newSize: Word)
    requires Ok(s) && IsLive(s.g.t, FLOOR, p) && newSize % 8 == 0
    requires TagGrowsInPlace(s, p, newSize) && newSize - s.g.t[p].size < INT_SPAN
    ensures var (s', r) := TagInPlace(s, p, newSize);
            var rem := Remainder(s.g.t[p].size + NextSize(s.g.t, p), newSize);
            && (r == NULL <==> s.g.hi + Extension(rem) > MAX_HEAP)
            && (r == NULL ==> s' == s)
            && (r != NULL ==>
                  && r == p && GrewTagged(s, s', p) && s'.g.hi == s.g.hi + Extension(rem)
                  && s'.g.t[p].size == newSize + rem + Extension(rem) && newSize <= s'.g.t[p].size)
  {
    hide Remainder;
    HaveOk(s.g, p, newSize);
    PartialTiled(s.g);
    LiveNotNull(s.g.t, p);
    var rem := Remainder(s.g.t[p].size + NextSize(s.g.t, p), newSize);
    hide Ok, GrewTagged, Remainder, TagInPlace, TagGrowsInPlace, EndsBehind;
    if rem >= 0 {
      InPlaceFits(s, p, newSize);
    } else if s.g.hi + Extension(rem) > MAX_HEAP {
      InPlaceFails(s, p, newSize);
    } else {
      InPlaceExtends(s, p, newSize, rem, Extension(rem));
    }
  }

  lemma InPlaceFails(s: Tagging, p: nat, newSize: Word)
    requires Ok(s) && IsLive(s.g.t, FLOOR, p) && newSize % 8 == 0
    requires TagGrowsInPlace(s, p, newSize) && newSize - s.g.t[p].size < INT_SPAN
    requires Remainder(s.g.t[p].size + NextSize(s.g.t, p), newSize) < 0
    requires s.g.hi + Extension(Remainder(s.g.t[p].size + NextSize(s.g.t, p), newSize)) > MAX_HEAP
    ensures TagInPlace(s, p, newSize) == (s, NULL)
  {
    hide Ok, Remainder, TagGrowsInPlace, Swallowed, TagExtend;
  }

  lemma InPlaceFits(s: Tagging, p: nat, newSize: Word)
    requires Ok(s) && IsLive(s.g.t, FLOOR, p) && newSize % 8 == 0
    requires TagGrowsInPlace(s, p, newSize) && newSize - s.g.t[p].size < INT_SPAN
    requires Remainder(s.g.t[p].size + NextSize(s.g.t, p), newSize) >= 0
    ensures var (s', r) := TagInPlace(s, p, newSize);
            && r == p && GrewTagged(s, s', p) && s'.g.hi == s.g.hi
            && p in s'.g.t && s'.g.t[p].size == s.g.t[p].size + NextSize(s.g.t, p)
  {
    hide Remainder;
    HaveOk(s.g, p, newSize);
    hide Ok, GrewTagged, Swallowed, TagExtend, TagGrowsInPlace, EndsBehind;
    SwallowedGrew(s, p);
  }

  lemma InPlaceExtends(s: Tagging, p: nat, newSize: Word, rem: int, e: nat)
    requires Ok(s) && IsLive(s.g.t, FLOOR, p) && newSize % 8 == 0
    requires TagGrowsInPlace(s, p, newSize) && newSize - s.g.t[p].size < INT_SPAN
    requires rem == Remainder(s.g.t[p].size + NextSize(s.g.t, p), newSize) && rem < 0
    requires e == Extension(rem) && s.g.hi + e <= MAX_HEAP
    ensures var (s', r) := TagInPlace(s, p, newSize);
            && r == p && GrewTagged(s, s', p) && s'.g.hi == s.g.hi + e
            && p in s'.g.t && s'.g.t[p].size == s.g.t[p].size + NextSize(s.g.t, p) + e
  {
    hide Ok, GrewTagged, Remainder, Swallowed, TagExtend, TagGrowsInPlace, EndsBehind, NextSize;
    ExtensionReady(s, p, newSize, rem, e);
    TagInPlaceGrown(s, p, e);
  }

  lemma ExtensionReady(s: Tagging, p: nat, newSize: Word, rem: int, e: nat)
    requires Ok(s) && IsLive(s.g.t, FLOOR, p) && newSize % 8 == 0
    requires TagGrowsInPlace(s, p, newSize) && newSize - s.g.t[p].size < INT_SPAN
    requires rem == Remainder(s.g.t[p].size + NextSize(s.g.t, p), newSize) && rem < 0
    requires e == Extension(rem)
    ensures EndsBehind(s.g, p) && !IsReserved(s, Next(s.g.t, p)) && e % 8 == 0 && 16 <= e
    ensures rem == s.g.t[p].size + NextSize(s.g.t, p) - newSize
  {
    hide Remainder;
    HaveOk(s.g, p, newSize);
    hide Ok, GrowsInPlace, Extension;
  }

  lemma LiveNotNull(t: Tiles, p: nat)
    requires IsLive(t, FLOOR, p)
    ensures p != NULL && p in t
  {
  }

  lemma SwallowedGrew(s: Tagging, p: nat)
    requires Ok(s) && IsLive(s.g.t, FLOOR, p) && FreeAt(s.g.t, Next(s.g.t, p))
    ensures |s.g.lists| == LISTLIMIT && 0 < s.g.t[p].size
    ensures GrewTagged(s, Swallowed(s, p), p) && Swallowed(s, p).g.hi == s.g.hi
    ensures p in Swallowed(s, p).g.t && Swallowed(s, p).g.t[p].size == s.g.t[p].size + NextSize(s.g.t, p)
  {
    hide Ok, Swallowed;
    SwallowedOk(s, p);
  }

  lemma TagInPlaceGrown(s: Tagging, p: nat, e: nat)
    requires Ok(s) && IsLive(s.g.t, FLOOR, p) && EndsBehind(s.g, p) && !IsReserved(s, Next(s.g.t, p))
    requires e % 8 == 0 && 16 <= e && s.g.hi + e <= MAX_HEAP
    ensures var s1 := TagExtend(s, e);
            && Ok(s1) && IsLive(s1.g.t, FLOOR, p) && FreeAt(s1.g.t, Next(s1.g.t, p)) && 0 < s1.g.t[p].size
            && |s1.g.lists| == LISTLIMIT
            && GrewTagged(s, Swallowed(s1, p), p) && Swallowed(s1, p).g.hi == s.g.hi + e
            && p in Swallowed(s1, p).g.t && Swallowed(s1, p).g.t[p].size == s.g.t[p].size + NextSize(s.g.t, p) + e
  {
    TagExtendOk(s, e);
    TagExtendBehind(s, p, e);
    EpilogueNotReserved(s);
    hide Ok, TagExtend, TagExtendAt, Absorb;
    var s1 := TagExtend(s, e);
    SwallowedOk(s1, p);
    GrewAfter(s.g.t, s1.g.t, Swallowed(s1, p).g.t, p);
    hide Grew, Swallowed;
    ReservedAlong(s, s1, Swallowed(s1, p), Next(s.g.t, p));
  }

  lemma ReservedAlong(s: Tagging, s1: Tagging, s2: Tagging, n: nat)
    requires !IsReserved(s, s.g.hi) && KeepsReserved(s, s1, s.g.hi) && KeepsReserved(s1, s2, n)
    ensures KeepsReserved(s, s2, n)
  {
  }

  // ----- mm_realloc as a whole -----

  /** The block size mm_realloc aims at: the rounded request and a buffer. */
  function BufferedSize(size: Word): nat {
    Asize(size) + REALLOC_BUFFER
  }

  lemma BufferedSizeOk(size: Word)
    requires 0 < size && size + 15 + REALLOC_BUFFER < WORD_SPAN
    ensures BufferedSize(size) % 8 == 0 && 16 <= BufferedSize(size) && BufferedSize(size) + 7 < WORD_SPAN
    ensures size + 8 + REALLOC_BUFFER <= BufferedSize(size) && Asize(BufferedSize(size) - 8) == BufferedSize(size)
  {
    AsizeOk(size);
    Mod8(Asize(size), REALLOC_BUFFER);
    AsizeBack(BufferedSize(size));
  }

  /** When mm_realloc can be relied on: the block is large enough, or it can grow in place,
      or it moves, and then the bytes copied must exist and mm_malloc must succeed. */
  ghost predicate TagSupported(s: Tagging, p: nat, size: Word)
    requires p in s.g.t
  {
    var a := BufferedSize(size);
    a <= s.g.t[p].size ||
    if NextIsOpen(s.g, p) then TagGrowsInPlace(s, p, a) && a - s.g.t[p].size < INT_SPAN
    else
      && p + size <= MAX_HEAP && a - s.g.t[p].size < INT_SPAN
      && (AnyTakable(s.g.t, s.tags, a) || s.g.hi + GrowthFor(a) <= MAX_HEAP)
  }

  /** mm_realloc's move: a new block, then the old one is freed. */
  ghost function TagMove(s: Tagging, p: nat, newSize: Word): (Tagging, nat)
    requires Ok(s) && IsLive(s.g.t, FLOOR, p) && newSize % 8 == 0 && 16 <= newSize && newSize + 7 < WORD_SPAN
    requires AnyTakable(s.g.t, s.tags, newSize) || s.g.hi + GrowthFor(newSize) <= MAX_HEAP
  {
    TagMoveOk(s, p, newSize);
    (TagFree(TagMalloc(s, newSize - 8).0, p), TagMalloc(s, newSize - 8).1)
  }

  lemma TagMoveOk(s: Tagging, p: nat, newSize: Word)
    requires Ok(s) && IsLive(s.g.t, FLOOR, p) && newSize % 8 == 0 && 16 <= newSize && newSize + 7 < WORD_SPAN
    requires AnyTakable(s.g.t, s.tags, newSize) || s.g.hi + GrowthFor(newSize) <= MAX_HEAP
    ensures var s1, q := TagMalloc(s, newSize - 8).0, TagMalloc(s, newSize - 8).1;
            && Ok(s1) && q != p && q != NULL && IsLive(s1.g.t, FLOOR, p) && IsLive(s1.g.t, FLOOR, q) && newSize <= s1.g.t[q].size
            && LiveAdds(s.g.t, s1.g.t, FLOOR, q) && s1.g.t[p] == s.g.t[p]
            && Moved(s, TagFree(s1, p), p, q, newSize)
  {
    AsizeBack(newSize);
    TagMoveGrants(s, p, newSize - 8);
    hide Ok, TagMalloc, TagFree, LiveAdds, Moved, Asize;
  }

  lemma TagMoveGrants(s: Tagging, p: nat, size: Word)
    requires Ok(s) && IsLive(s.g.t, FLOOR, p) && 0 < size && size + 15 < WORD_SPAN
    requires AnyTakable(s.g.t, s.tags, Asize(size)) || s.g.hi + GrowthFor(Asize(size)) <= MAX_HEAP
    ensures var s1, q := TagMalloc(s, size).0, TagMalloc(s, size).1;
            && Ok(s1) && q != p && q != NULL && IsLive(s1.g.t, FLOOR, p) && IsLive(s1.g.t, FLOOR, q) && size + 8 <= s1.g.t[q].size
            && LiveAdds(s.g.t, s1.g.t, FLOOR, q) && s1.g.t[p] == s.g.t[p]
            && Moved(s, TagFree(s1, p), p, q, size + 8)
  {
    hide Ok, TagMalloc, Asize, AnyTakable, TagGranted, Moved;
    TagMallocOutcome(s, size);
    GrantedThenFreed(s, TagMalloc(s, size).0, p, TagMalloc(s, size).1, size);
  }

  lemma GrantedThenFreed(s: Tagging, s1: Tagging, p: nat, q: nat, size: Word)
    requires Ok(s) && IsLive(s.g.t, FLOOR, p) && TagGranted(s, s1, size, q)
    ensures Ok(s1) && q != p && IsLive(s1.g.t, FLOOR, p) && IsLive(s1.g.t, FLOOR, q) && size + 8 <= s1.g.t[q].size
    ensures LiveAdds(s.g.t, s1.g.t, FLOOR, q) && s1.g.t[p] == s.g.t[p]
    ensures Moved(s, TagFree(s1, p), p, q, size + 8)
  {
    EpilogueNotReserved(s);
    assert IsLive(s.g.t, FLOOR, p);
    hide Ok, Asize, AnyTakable, KeepsReserved;
    TagFreeOk(s1, p);
    hide TagFree;
    MovedFrom(s, s1, TagFree(s1, p), p, q, size + 8);
  }

  /** p was given up for the new block q; nothing else changed for clients or for blocks
      reserved by others. */
  ghost predicate Moved(s: Tagging, s': Tagging, p: nat, q: nat, newSize: nat) {
    && p in s.g.t && Ok(s') && Resized(s.g, s'.g, p, newSize - 8, q)
    && s'.tags <= s.tags && KeepsReserved(s, s', Next(s.g.t, p))
  }

  /** As Resized, without the claim that no two free blocks are neighbours. */
  ghost predicate Resized(g: State, g': State, p: nat, size: int, r: nat) {
    && IsLive(g'.t, FLOOR, r) && size + 8 <= g'.t[r].size
    && (IsLive(g'.t, FLOOR, p) <==> r == p) && (r != p ==> !IsLive(g.t, FLOOR, r))
    && (forall x: nat {:trigger IsLive(g.t, FLOOR, x)} {:trigger IsLive(g'.t, FLOOR, x)} :: x != p && x != r ==>
          (IsLive(g.t, FLOOR, x) <==> IsLive(g'.t, FLOOR, x)) &&
          (IsLive(g.t, FLOOR, x) ==> g'.t[x] == g.t[x]))
  }

  lemma MovedFrom(s: Tagging, s1: Tagging, s2: Tagging, p: nat, q: nat, newSize: nat)
    requires IsLive(s.g.t, FLOOR, p) && IsLive(s1.g.t, FLOOR, p) && Ok(s2) && p != q && 8 <= newSize
    requires LiveAdds(s.g.t, s1.g.t, FLOOR, q) && LiveAdds(s2.g.t, s1.g.t, FLOOR, p) && newSize <= s1.g.t[q].size
    requires s1.g.t[p] == s.g.t[p] && s1.tags <= s.tags && s2.tags <= s1.tags
    requires KeepsReserved(s, s1, NULL) && KeepsReserved(s1, s2, Next(s1.g.t, p)) && !IsReserved(s, NULL)
    ensures Moved(s, s2, p, q, newSize)
  {
    hide Ok;
    assert IsLive(s1.g.t, FLOOR, q);
    forall x: nat | IsReserved(s, x) && x != Next(s.g.t, p)
      ensures IsReserved(s2, x) && s2.g.t[x] == s.g.t[x]
    {
      assert IsReserved(s1, x);
    }
  }

  /** mm_realloc(p, size) before the mark */
  ghost function TagResize(s: Tagging, p: nat, size: Word): (Tagging, nat)
    requires Ok(s) && IsLive(s.g.t, FLOOR, p) && 0 < size && size + 15 + REALLOC_BUFFER < WORD_SPAN
    requires TagSupported(s, p, size)
  {
    BufferedSizeOk(size);
    if BufferedSize(size) <= s.g.t[p].size then (s, p)
    else if NextIsOpen(s.g, p) then TagInPlace(s, p, BufferedSize(size))
    else TagMove(s, p, BufferedSize(size))
  }

  /** mm_realloc(p, size) */
  ghost function TagRealloc(s: Tagging, p: nat, size: Word): (Tagging, nat)
    requires Ok(s) && IsLive(s.g.t, FLOOR, p) && size + 15 + REALLOC_BUFFER < WORD_SPAN
    requires size != 0 ==> TagSupported(s, p, size)
  {
    if size == 0 then (s, NULL) else
      TagResizeOk(s, p, size);
      var (s', r) := TagResize(s, p, size);
      if r == NULL then (s, NULL) else (Mark(s', r, BufferedSize(size)), r)
  }

  lemma TagResizeOk(s: Tagging, p: nat, size: Word)
    requires Ok(s) && IsLive(s.g.t, FLOOR, p) && 0 < size && size + 15 + REALLOC_BUFFER < WORD_SPAN
    requires TagSupported(s, p, size)
    ensures var (s', r) := TagResize(s, p, size);
            if r == NULL then s' == s && NextIsOpen(s.g, p) else Moved(s, s', p, r, BufferedSize(size))
  {
    BufferedSizeOk(size);
    hide Ok, Asize, TagGrowsInPlace, TagInPlace, TagMove, Moved, AnyTakable, NextIsOpen;
    var a := BufferedSize(size);
    if a <= s.g.t[p].size {
      StaysMoved(s, p, a);
    } else if NextIsOpen(s.g, p) {
      InPlaceMoved(s, p, a);
    } else {
      MoveMoved(s, p, a);
    }
  }

  lemma InPlaceMoved(s: Tagging, p: nat, newSize: Word)
    requires Ok(s) && IsLive(s.g.t, FLOOR, p) && newSize % 8 == 0 && 8 <= newSize
    requires TagGrowsInPlace(s, p, newSize) && newSize - s.g.t[p].size < INT_SPAN
    ensures var (s', r) := TagInPlace(s, p, newSize);
            if r == NULL then s' == s else Moved(s, s', p, r, newSize)
  {
    TagInPlaceOk(s, p, newSize);
    hide Ok, TagInPlace, GrewTagged;
    if TagInPlace(s, p, newSize).1 != NULL {
      GrewMoved(s, TagInPlace(s, p, newSize).0, p, newSize);
    }
  }

  lemma MoveMoved(s: Tagging, p: nat, newSize: Word)
    requires Ok(s) && IsLive(s.g.t, FLOOR, p) && newSize % 8 == 0 && 16 <= newSize && newSize + 7 < WORD_SPAN
    requires AnyTakable(s.g.t, s.tags, newSize) || s.g.hi + GrowthFor(newSize) <= MAX_HEAP
    ensures var (s', r) := TagMove(s, p, newSize);
            r != NULL && Moved(s, s', p, r, newSize)
  {
    TagMoveOk(s, p, newSize);
    hide Ok, TagMalloc, TagFree, Moved, AnyTakable;
  }

  lemma StaysMoved(s: Tagging, p: nat, newSize: nat)
    requires Ok(s) && IsLive(s.g.t, FLOOR, p) && 8 <= newSize <= s.g.t[p].size
    ensures Moved(s, s, p, p, newSize) && p != NULL
  {
    hide Ok;
  }

  lemma GrewMoved(s: Tagging, s': Tagging, p: nat, newSize: nat)
    requires GrewTagged(s, s', p) && 8 <= newSize <= s'.g.t[p].size
    ensures Moved(s, s', p, p, newSize)
  {
    hide Ok, KeepsReserved;
  }

  /** After a successful mm_realloc the only tag that can be new is the one behind the
      result: it stands there if the result has less than twice the buffer to spare, and
      otherwise no tag is new; apart from the block reserved for p, no reserved block was
      taken or swallowed. */
  lemma TagReallocOk(s: Tagging, p: nat, size: Word)
    requires Ok(s) && IsLive(s.g.t, FLOOR, p) && 0 < size && size + 15 + REALLOC_BUFFER < WORD_SPAN
    requires TagSupported(s, p, size)
    ensures var (s', r) := TagRealloc(s, p, size);
            if r == NULL then s' == s && NextIsOpen(s.g, p)
            else
              && Ok(s') && Resized(s.g, s'.g, p, size + REALLOC_BUFFER, r)
              && s'.tags <= s.tags + {Next(s'.g.t, r)}
              && (if s'.g.t[r].size < BufferedSize(size) + 2 * REALLOC_BUFFER then Next(s'.g.t, r) in s'.tags else s'.tags <= s.tags)
              && KeepsReserved(s, s', Next(s.g.t, p))
  {
    TagResizeOk(s, p, size);
    BufferedSizeOk(size);
    hide TagResize, TagSupported, BufferedSize;
    var (s1, r) := TagResize(s, p, size);
    if r != NULL {
      hide Ok;
      MarkOk(s, s1, p, r, BufferedSize(size), size + REALLOC_BUFFER);
    }
  }

  lemma MarkOk(s: Tagging, s1: Tagging, p: nat, r: nat, newSize: nat, size: nat)
    requires Ok(s) && r != NULL && Moved(s, s1, p, r, newSize) && size + 8 <= newSize
    ensures r in s1.g.t
    ensures var s' := Mark(s1, r, newSize);
            && Ok(s') && Resized(s.g, s'.g, p, size, r)
            && s'.tags <= s.tags + {Next(s'.g.t, r)}
            && (if s'.g.t[r].size < newSize + 2 * REALLOC_BUFFER then Next(s'.g.t, r) in s'.tags else s'.tags <= s.tags)
            && KeepsReserved(s, s', Next(s.g.t, p))
  {
    hide Ok;
    assert IsLive(s1.g.t, FLOOR, r);
    ReserveOk(s1, r);
    EpilogueNotReserved(s1);
    forall x: nat | IsReserved(s, x) && x != Next(s.g.t, p)
      ensures IsReserved(Mark(s1, r, newSize), x) && s1.g.t[x] == s.g.t[x]
    {
      assert IsReserved(s1, x);
    }
  }
}

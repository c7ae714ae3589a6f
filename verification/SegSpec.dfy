/** What the segregated-list allocators do, as functions on their abstract state: the
    tiling of the heap, the 20 lists, and the break. */
module SegSpec {
  import opened Memory
  import opened Tiling
  import opened Links
  import opened SizeClasses
  import opened Requests

  const LO: nat := 8       // the prologue's (empty) payload
  const FLOOR: nat := 16   // the first block behind the prologue
  const DSIZE: nat := 8

  datatype State = State(t: Tiles, lists: Lists, hi: nat)

  ghost predicate Partial(s: State, ex: set<nat>) {
    && Tiled(s.t, LO, FLOOR, s.hi) && s.hi <= MAX_HEAP
    && s.t[LO] == Block(DSIZE, true)
    && Sorted(s.t, s.lists, ex)
  }

  ghost predicate Inv(s: State) {
    Partial(s, {}) && NoAdjacentFree(s.t)
  }

  // ----- merging -----

  /** The list of free block p loses p; an allocated p is on no list. */
  ghost function Unlisted(s: State, p: nat): (lists: Lists)
    requires |s.lists| == LISTLIMIT
    ensures |lists| == LISTLIMIT
  {
    if FreeAt(s.t, p) then Take(s.lists, p, s.t[p].size) else s.lists
  }

  ghost function CoalescedAt(s: State, p: nat): nat
    requires Tiled(s.t, LO, FLOOR, s.hi) && p in s.t && FLOOR <= p
  {
    MergeLow(s.t, Prev(s.t, LO, FLOOR, s.hi, p), p)
  }

  /** The lists without the neighbours that p will swallow. */
  ghost function NeighboursOut(s: State, p: nat): (lists: Lists)
    requires Tiled(s.t, LO, FLOOR, s.hi) && p in s.t && FLOOR <= p && |s.lists| == LISTLIMIT
    ensures |lists| == LISTLIMIT
  {
    var q := Prev(s.t, LO, FLOOR, s.hi, p);
    Unlisted(s.(lists := Unlisted(s, q)), Next(s.t, p))
  }

  /** The free block p, not on a list, is merged with its free neighbours and listed. */
  ghost function Coalesce(s: State, p: nat): State
    requires Tiled(s.t, LO, FLOOR, s.hi) && p in s.t && FLOOR <= p && |s.lists| == LISTLIMIT
  {
    var q := Prev(s.t, LO, FLOOR, s.hi, p);
    var r := MergeLow(s.t, q, p);
    State(Merged(s.t, q, p), Put(NeighboursOut(s, p), r, MergeHigh(s.t, p) - r), s.hi)
  }

  lemma UnlistedSorted(t: Tiles, s: State, ex: set<nat>, p: nat)
    requires s.t == t && Sorted(t, s.lists, ex)
    ensures Sorted(t, Unlisted(s, p), ex + {p})
  {
    if FreeAt(t, p) {
      TakeSorted(t, s.lists, ex, p);
    }
  }

  lemma TwentyLists(s: State, ex: set<nat>)
    requires Partial(s, ex)
    ensures |s.lists| == LISTLIMIT
  {
  }

  lemma PendingAboveFloor(s: State, p: nat)
    requires Tiled(s.t, LO, FLOOR, s.hi) && FreeAt(s.t, p)
    ensures FLOOR <= p && p + s.t[p].size <= s.hi && p != NULL && 16 <= s.t[p].size
  {
    assert BlockOk(s.t[p], p, LO, FLOOR, s.hi);
  }

  lemma NeighboursOutSorted(s: State, p: nat)
    requires Partial(s, {p}) && FreeAt(s.t, p)
    ensures FLOOR <= p
    ensures Sorted(s.t, NeighboursOut(s, p), {p} + {Prev(s.t, LO, FLOOR, s.hi, p)} + {Next(s.t, p)})
  {
    hide BlocksOk, Chained, Apart, Unlisted;
    PendingAboveFloor(s, p);
    var q := Prev(s.t, LO, FLOOR, s.hi, p);
    UnlistedSorted(s.t, s, {p}, q);
    UnlistedSorted(s.t, s.(lists := Unlisted(s, q)), {p} + {q}, Next(s.t, p));
  }

  /** Swapping the tiling under sorted lists: what is listed stays, r is new. */
  lemma RetiledSorted(t: Tiles, t': Tiles, lists: Lists, ex: set<nat>, r: nat)
    requires Sorted(t, lists, ex)
    requires forall x: nat :: FreeAt(t, x) && x !in ex ==> FreeAt(t', x) && t'[x] == t[x]
    requires forall x: nat :: FreeAt(t', x) && x != r ==> FreeAt(t, x) && x !in ex
    requires FreeAt(t, r) ==> r in ex
    ensures Sorted(t', lists, {r})
  {
    forall c, x: nat | 0 <= c < LISTLIMIT
      ensures x in lists[c] <==> FreeAt(t', x) && x !in {r} && ClassOf(t'[x].size) == c
    {
    }
  }

  /** The merged block is on the list of its class, its parts on none. */
  lemma CoalesceSorted(s: State, p: nat)
    requires Partial(s, {p}) && FreeAt(s.t, p)
    ensures FLOOR <= p
    ensures Sorted(Coalesce(s, p).t, Coalesce(s, p).lists, {})
    ensures FreeAt(Coalesce(s, p).t, CoalescedAt(s, p))
  {
    hide ClassOf;
    PendingAboveFloor(s, p);
    TwentyLists(s, {p});
    NeighboursOutSorted(s, p);
    MergedFree(s, p);
    var q, n := Prev(s.t, LO, FLOOR, s.hi, p), Next(s.t, p);
    RetiledPut(s.t, Merged(s.t, q, p), NeighboursOut(s, p), {p} + {q} + {n}, MergeLow(s.t, q, p),
               MergeHigh(s.t, p) - MergeLow(s.t, q, p));
  }

  lemma RetiledPut(t: Tiles, t': Tiles, lists: Lists, ex: set<nat>, r: nat, size: nat)
    requires Sorted(t, lists, ex)
    requires forall x: nat :: FreeAt(t, x) && x !in ex ==> FreeAt(t', x) && t'[x] == t[x]
    requires forall x: nat :: FreeAt(t', x) && x != r ==> FreeAt(t, x) && x !in ex
    requires r in ex && FreeAt(t', r) && t'[r].size == size
    ensures Sorted(t', Put(lists, r, size), {})
  {
    RetiledSorted(t, t', lists, ex, r);
    PutSorted(t', lists, {r}, r);
    hide Sorted, Put;
    assert {r} - {r} == {};
  }

  lemma CoalesceInv(s: State, p: nat)
    requires Partial(s, {p}) && FreeAt(s.t, p) && NoAdjacentFreeBut(s.t, p)
    ensures FLOOR <= p
    ensures Inv(Coalesce(s, p))
    ensures FreeAt(Coalesce(s, p).t, CoalescedAt(s, p))
    ensures Coalesce(s, p).t[CoalescedAt(s, p)].size >= s.t[p].size
    ensures LiveSame(s.t, Coalesce(s, p).t, FLOOR)
  {
    PendingAboveFloor(s, p);
    CoalesceSorted(s, p);
    CoalesceTiling(s, p);
    hide Sorted, BlocksOk, Chained, Apart, NeighboursOut, NoAdjacentFree, LiveSame, LiveWithin;
  }

  lemma CoalesceTiling(s: State, p: nat)
    requires Tiled(s.t, LO, FLOOR, s.hi) && FreeAt(s.t, p) && NoAdjacentFreeBut(s.t, p)
    ensures FLOOR <= p
    ensures var q := Prev(s.t, LO, FLOOR, s.hi, p);
            var t', r := Merged(s.t, q, p), MergeLow(s.t, q, p);
            && Tiled(t', LO, FLOOR, s.hi) && NoAdjacentFree(t') && LiveSame(s.t, t', FLOOR)
            && t'[LO] == s.t[LO] && r in t' && t'[r].size >= s.t[p].size
  {
    var q := Prev(s.t, LO, FLOOR, s.hi, p);
    MergedTiled(s.t, LO, FLOOR, s.hi, q, p);
    MergedNoAdjacent(s.t, LO, FLOOR, s.hi, q, p);
    MergedLive(s.t, LO, FLOOR, s.hi, q, p);
    hide NoAdjacentFree, NoAdjacentFreeBut, LiveWithin;
  }

  /** The free blocks other than the merged one are those that were not swallowed. */
  lemma MergedFree(s: State, p: nat)
    requires Partial(s, {p}) && FreeAt(s.t, p)
    ensures FLOOR <= p
    ensures var q, n := Prev(s.t, LO, FLOOR, s.hi, p), Next(s.t, p);
            var t', r := Merged(s.t, q, p), MergeLow(s.t, q, p);
            && FreeAt(t', r) && t'[r].size == MergeHigh(s.t, p) - r && r in {p} + {q} + {n}
            && (forall x: nat :: FreeAt(s.t, x) && x !in {p} + {q} + {n} ==> FreeAt(t', x) && t'[x] == s.t[x])
            && (forall x: nat :: FreeAt(t', x) && x != r ==> FreeAt(s.t, x) && x !in {p} + {q} + {n})
  {
    var q, n := Prev(s.t, LO, FLOOR, s.hi, p), Next(s.t, p);
    MergedTiled(s.t, LO, FLOOR, s.hi, q, p);
  }

  // ----- growing and freeing -----

  /** The heap after a successful sbrk of size bytes, the new block not yet listed. */
  ghost function Grown(s: State, size: nat): State {
    State(s.t[s.hi := Block(size, false)], s.lists, s.hi + size)
  }

  lemma GrownPartial(s: State, size: nat)
    requires Inv(s) || Partial(s, {})
    requires size % 8 == 0 && 16 <= size && s.hi + size <= MAX_HEAP
    ensures Partial(Grown(s, size), {s.hi}) && FreeAt(Grown(s, size).t, s.hi)
    ensures Inv(s) ==> NoAdjacentFreeBut(Grown(s, size).t, s.hi)
    ensures LiveSame(s.t, Grown(s, size).t, FLOOR)
  {
    hide ClassOf;
    GrowTiled(s.t, LO, FLOOR, s.hi, size);
    hide BlocksOk, Chained, Apart;
    if Inv(s) {
      GrownNoAdjacent(s, size);
    }
  }

  lemma GrownNoAdjacent(s: State, size: nat)
    requires Inv(s) && s.hi !in s.t
    ensures NoAdjacentFreeBut(Grown(s, size).t, s.hi)
  {
    hide Partial;
    var t' := Grown(s, size).t;
    forall x | FreeAt(t', x) && x != s.hi && Next(t', x) != s.hi
      ensures !FreeAt(t', Next(t', x))
    {
      assert Next(t', x) == Next(s.t, x);
    }
  }

  /** extend_heap of size bytes: the new state and the block it returns. */
  ghost function Extend(s: State, size: nat): State
    requires Inv(s) && size % 8 == 0 && 16 <= size && s.hi + size <= MAX_HEAP
  {
    GrownPartial(s, size);
    Coalesce(Grown(s, size), s.hi)
  }

  ghost function ExtendAt(s: State, size: nat): nat
    requires Inv(s) && size % 8 == 0 && 16 <= size && s.hi + size <= MAX_HEAP
  {
    GrownPartial(s, size);
    CoalescedAt(Grown(s, size), s.hi)
  }

  lemma ExtendInv(s: State, size: nat)
    requires Inv(s) && size % 8 == 0 && 16 <= size && s.hi + size <= MAX_HEAP
    ensures var s', p := Extend(s, size), ExtendAt(s, size);
            Inv(s') && FreeAt(s'.t, p) && FLOOR <= p && size <= s'.t[p].size && s'.hi == s.hi + size
            && LiveSame(s.t, s'.t, FLOOR)
  {
    GrownPartial(s, size);
    CoalesceInv(Grown(s, size), s.hi);
    hide Partial, Coalesce, NoAdjacentFree;
  }

  ghost function Freed(s: State, p: nat): State
    requires p in s.t
  {
    State(Retag(s.t, p, false), s.lists, s.hi)
  }

  lemma FreedPartial(s: State, p: nat)
    requires Inv(s) || Partial(s, {})
    requires IsLive(s.t, FLOOR, p)
    ensures Partial(Freed(s, p), {p}) && FreeAt(Freed(s, p).t, p)
    ensures Inv(s) ==> NoAdjacentFreeBut(Freed(s, p).t, p)
    ensures LiveAdds(Freed(s, p).t, s.t, FLOOR, p)
  {
    hide ClassOf;
    RetagTiled(s.t, LO, FLOOR, s.hi, p, false);
    hide BlocksOk, Chained, Apart;
    if Inv(s) {
      FreedNoAdjacent(s, p);
    }
  }

  lemma FreedNoAdjacent(s: State, p: nat)
    requires Inv(s) && p in s.t
    ensures NoAdjacentFreeBut(Freed(s, p).t, p)
  {
    hide Partial;
    var t' := Freed(s, p).t;
    forall x | FreeAt(t', x) && x != p && Next(t', x) != p
      ensures !FreeAt(t', Next(t', x))
    {
      assert Next(t', x) == Next(s.t, x);
    }
  }

  /** mm_free(p) */
  ghost function Free(s: State, p: nat): State
    requires Inv(s) && IsLive(s.t, FLOOR, p)
  {
    FreedPartial(s, p);
    Coalesce(Freed(s, p), p)
  }

  /** Freeing p ends the life of p and of no other block. */
  lemma FreeOk(s: State, p: nat)
    requires Inv(s) && IsLive(s.t, FLOOR, p)
    ensures Inv(Free(s, p)) && Free(s, p).hi == s.hi
    ensures LiveAdds(Free(s, p).t, s.t, FLOOR, p)
  {
    FreedPartial(s, p);
    CoalesceInv(Freed(s, p), p);
    hide Partial, Coalesce, NoAdjacentFree, Inv;
  }

  // ----- the search for a block -----

  /** The first block of a bytes on the first list, from class c on, that has one. */
  ghost function FindFit(t: Tiles, lists: Lists, c: nat, a: nat): nat
    requires |lists| == LISTLIMIT && c <= LISTLIMIT
    decreases LISTLIMIT - c
  {
    if c == LISTLIMIT then NULL
    else if FirstFit(t, lists[c], 0, a) != NULL then FirstFit(t, lists[c], 0, a)
    else FindFit(t, lists, c + 1, a)
  }

  lemma FitOnList(t: Tiles, lists: Lists, ex: set<nat>, c: nat, a: nat)
    requires Sorted(t, lists, ex) && NULL !in t && c < LISTLIMIT
    ensures var r := FirstFit(t, lists[c], 0, a);
            && (r != NULL ==> FreeAt(t, r) && r !in ex && a <= t[r].size && ClassOf(t[r].size) == c)
            && (r == NULL ==> forall x: nat :: FreeAt(t, x) && x !in ex && ClassOf(t[x].size) == c ==> t[x].size < a)
  {
    hide ClassOf;
    var l := lists[c];
    forall x | x in l
      ensures x in t && x != NULL
    {
    }
    var k := FirstFitFinds(t, l, 0, a);
    if k < |l| {
      assert l[k] in l;
    } else {
      forall x: nat | FreeAt(t, x) && x !in ex && ClassOf(t[x].size) == c
        ensures t[x].size < a
      {
        assert x in l;
      }
    }
  }

  /** What is found is in the lowest class, from c on, that has a fit. */
  lemma {:induction false} FindFitFrom(t: Tiles, lists: Lists, ex: set<nat>, c: nat, a: nat)
    requires Sorted(t, lists, ex) && NULL !in t && c <= LISTLIMIT
    ensures var r := FindFit(t, lists, c, a);
            && (r != NULL ==> FreeAt(t, r) && r !in ex && a <= t[r].size && c <= ClassOf(t[r].size))
            && forall x: nat :: FreeAt(t, x) && x !in ex && a <= t[x].size && c <= ClassOf(t[x].size) ==>
                 r != NULL && ClassOf(t[r].size) <= ClassOf(t[x].size)
    decreases LISTLIMIT - c
  {
    hide Sorted, ClassFrom;
    if c < LISTLIMIT {
      FitOnList(t, lists, ex, c, a);
      FindFitFrom(t, lists, ex, c + 1, a);
    }
  }

  /** find_fit fails exactly when no free block is large enough; what it finds lies in
      the lowest class that holds a fit. */
  lemma FindFitOk(s: State, a: nat)
    requires Inv(s)
    ensures |s.lists| == LISTLIMIT
    ensures var r := FindFit(s.t, s.lists, ClassOf(a), a);
            && (r != NULL <==> Fits(s.t, a))
            && (r != NULL ==> FreeAt(s.t, r) && a <= s.t[r].size)
            && forall x: nat :: FreeAt(s.t, x) && a <= s.t[x].size ==> ClassOf(s.t[r].size) <= ClassOf(s.t[x].size)
  {
    hide Sorted, Tiled, NoAdjacentFree, FindFit, ClassFrom;
    NullOutside(s, {});
    FindFitFrom(s.t, s.lists, {}, ClassOf(a), a);
    forall x: nat | FreeAt(s.t, x) && a <= s.t[x].size
      ensures ClassOf(a) <= ClassOf(s.t[x].size)
    {
      ClassMonotone(a, s.t[x].size, 0);
    }
  }

  lemma NullOutside(s: State, ex: set<nat>)
    requires Partial(s, ex)
    ensures NULL !in s.t && |s.lists| == LISTLIMIT
  {
  }

  /** Good fit: unless only blocks of 2^19 bytes or more fit, what is found is less than
      twice as large as the best fit. */
  lemma GoodFit(s: State, a: nat, best: nat)
    requires Inv(s) && 1 <= a
    requires FreeAt(s.t, best) && a <= s.t[best].size < 0x8_0000
    ensures |s.lists| == LISTLIMIT && FindFit(s.t, s.lists, ClassOf(a), a) in s.t
    ensures s.t[FindFit(s.t, s.lists, ClassOf(a), a)].size < 2 * s.t[best].size
  {
    hide Inv, ClassFrom, FindFit;
    FindFitOk(s, a);
    var r, c := FindFit(s.t, s.lists, ClassOf(a), a), ClassOf(s.t[best].size);
    ClassIsLog(s.t[best].size, 0);
    ClassIsLog(s.t[r].size, 0);
    Pow19();
    Pow2Monotone(ClassOf(s.t[r].size), c);
  }

  lemma {:induction false} Pow2Monotone(x: nat, y: nat)
    requires x <= y
    ensures Pow2(x) <= Pow2(y)
    decreases y - x
  {
    if x < y {
      Pow2Monotone(x + 1, y);
      assert Pow2(x + 1) == 2 * Pow2(x);
    }
  }

  // ----- taking a block -----

  /** Block p is cut after a bytes; the front has the given allocation bit, the back the
      opposite one. */
  ghost function Cut(t: Tiles, p: nat, a: nat, alloc: bool): Tiles
    requires p in t && a <= t[p].size
  {
    t[p := Block(a, alloc)][p + a := Block(t[p].size - a, !alloc)]
  }

  lemma CutTiled(t: Tiles, lo: nat, floor: nat, hi: nat, p: nat, a: nat, alloc: bool)
    requires Tiled(t, lo, floor, hi) && FreeAt(t, p) && a % 8 == 0 && 16 <= a && a + 16 <= t[p].size
    ensures Tiled(Cut(t, p, a, alloc), lo, floor, hi) && p + a !in t && floor <= p
  {
    assert floor <= p by {
      assert BlockOk(t[p], p, lo, floor, hi);
    }
    SplitTiled(t, lo, floor, hi, p, a);
    CutIsSplit(t, p, a, alloc);
    hide Tiled, Cut;
    if !alloc {
      RetagTiled(Split(t, p, a), lo, floor, hi, p, false);
      RetagTiled(Retag(Split(t, p, a), p, false), lo, floor, hi, p + a, true);
    }
  }

  lemma CutIsSplit(t: Tiles, p: nat, a: nat, alloc: bool)
    requires p in t && a <= t[p].size && 0 < a
    ensures Cut(t, p, a, alloc) ==
            if alloc then Split(t, p, a) else Retag(Retag(Split(t, p, a), p, false), p + a, true)
  {
  }

  // ----- mm_init -----

  /** The heap mm_init lays out before it extends it. */
  ghost function Bare(): State {
    State(map[LO := Block(DSIZE, true)], seq(LISTLIMIT, _ => []), FLOOR)
  }

  lemma BareInv()
    ensures Inv(Bare()) && Bare().hi == FLOOR
  {
  }

  /** The state after mm_init has extended the heap by chunk bytes. */
  ghost function Initial(chunk: nat): State
    requires chunk % 8 == 0 && 16 <= chunk && FLOOR + chunk <= MAX_HEAP
  {
    BareInv();
    Extend(Bare(), chunk)
  }

  lemma InitialOk(chunk: nat)
    requires chunk % 8 == 0 && 16 <= chunk && FLOOR + chunk <= MAX_HEAP
    ensures Inv(Initial(chunk)) && Initial(chunk).hi == FLOOR + chunk
    ensures forall p: nat :: !IsLive(Initial(chunk).t, FLOOR, p)
  {
    BareInv();
    ExtendInv(Bare(), chunk);
  }
}

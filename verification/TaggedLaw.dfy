/** What 참고(98).c promises where it can be relied on, stated without the functions that
    compute it: which block is taken, which bytes become which block, the order of every
    list, and exactly which headers carry a tag.  These laws leave exactly one outcome. */
module TaggedLaw {
  import opened Memory
  import opened Tiling
  import opened Order
  import opened SizeClasses
  import opened Requests
  import opened SegSpec
  import opened SegPlace
  import opened SegLaw
  import opened Seg98Spec
  import opened Seg98Law
  import opened TaggedSpec

  // ----- tilings that differ between b and e -----

  ghost predicate Around(t: Tiles, t': Tiles, b: nat, e: nat) {
    forall x: nat {:trigger x in t} {:trigger x in t'} :: x < b || e <= x ==> (x in t <==> x in t') && (x in t ==> t'[x] == t[x])
  }

  /** [b, e) is one block of t. */
  ghost predicate OneBlock(t: Tiles, b: nat, e: nat, alloc: bool) {
    b in t && t[b].alloc == alloc && Next(t, b) == e && forall x: nat :: b < x < e ==> x !in t
  }

  /** [b, e) is two blocks of t, one of them allocated. */
  ghost predicate TwoBlocks(t: Tiles, b: nat, m: nat, e: nat, alloc: bool) {
    OneBlock(t, b, m, alloc) && OneBlock(t, m, e, !alloc)
  }

  lemma OneBlockSame(t: Tiles, t1: Tiles, t2: Tiles, b: nat, e: nat, alloc: bool)
    requires Around(t, t1, b, e) && Around(t, t2, b, e) && OneBlock(t1, b, e, alloc) && OneBlock(t2, b, e, alloc)
    ensures t1 == t2
  {
    assert t1[b] == t2[b];
  }

  lemma TwoBlocksSame(t: Tiles, t1: Tiles, t2: Tiles, b: nat, m: nat, e: nat, alloc: bool)
    requires Around(t, t1, b, e) && Around(t, t2, b, e) && TwoBlocks(t1, b, m, e, alloc) && TwoBlocks(t2, b, m, e, alloc)
    ensures t1 == t2
  {
    assert t1[b] == t2[b] && t1[m] == t2[m];
  }

  /** Where a free block that starts at x begins once it is merged: with the free block
      that ends there, unless that is tagged. */
  ghost predicate BeginsAt(t: Tiles, tags: set<nat>, x: nat, b: nat) {
    || (FreeAt(t, b) && b !in tags && Next(t, b) == x)
    || (b == x && forall q {:trigger Next(t, q)} :: q in t && Next(t, q) == x ==> t[q].alloc || q in tags)
  }

  lemma BeginsAtUnique(t: Tiles, lo: nat, floor: nat, hi: nat, tags: set<nat>, x: nat, b: nat, b': nat)
    requires Tiled(t, lo, floor, hi) && BeginsAt(t, tags, x, b) && BeginsAt(t, tags, x, b')
    ensures b == b'
  {
    if b in t {
      OnlyPrev(t, lo, floor, hi, b);
    }
  }

  // ----- which block is taken -----

  ghost predicate FirstTakableOn(t: Tiles, tags: set<nat>, l: seq<nat>, a: nat, b: nat) {
    exists k {:trigger l[k]} :: 0 <= k < |l| && l[k] == b && Takable(t, tags, b, a)
                                && forall j {:trigger l[j]} :: 0 <= j < k ==> !Takable(t, tags, l[j], a)
  }

  ghost predicate NoneTakableBelow(t: Tiles, tags: set<nat>, lists: Lists, c: nat, a: nat)
    requires c <= |lists|
  {
    forall d, x {:trigger x in lists[d]} :: 0 <= d < c && x in lists[d] ==> !Takable(t, tags, x, a)
  }

  /** b is the first untagged block of a bytes on the lowest list that holds one. */
  ghost predicate LowestTakable(t: Tiles, tags: set<nat>, lists: Lists, a: nat, b: nat) {
    exists c {:trigger lists[c]} :: 0 <= c < |lists| && FirstTakableOn(t, tags, lists[c], a, b) && NoneTakableBelow(t, tags, lists, c, a)
  }

  // ----- the laws -----

  /** Of the bytes from b to e the request gets a: the tail from 100 bytes on and the front
      below that; a rest of at most 16 bytes goes with it. */
  ghost predicate Carved(s: Tagging, s': Tagging, a: nat, b: nat, e: nat, r: nat) {
    var rest := e - b - a;
    && Ok(s') && Around(s.g.t, s'.g.t, b, e) && rest >= 0
    && (if rest <= 16 then r == b && OneBlock(s'.g.t, b, e, true) && ListsFollow(s.g, s'.g, NULL)
        else if a >= 100 then r == b + rest && TwoBlocks(s'.g.t, b, r, e, false) && ListsFollow(s.g, s'.g, b)
        else r == b && TwoBlocks(s'.g.t, b, b + a, e, true) && ListsFollow(s.g, s'.g, b + a))
  }

  /** mm_malloc(size) may lead from s to s' and return r, taken from the block at b.  A
      search leaves the tags alone; growing the heap clears that of the epilogue. */
  ghost predicate MallocFrom(s: Tagging, size: Word, s': Tagging, r: nat, b: nat) {
    var a := Asize(size);
    var any := AnyTakable(s.g.t, s.tags, a);
    if size == 0 || (!any && s.g.hi + Growth(a) > MAX_HEAP) then r == NULL && s' == s
    else if any then
      && LowestTakable(s.g.t, s.tags, s.g.lists, a, b) && b in s.g.t && s'.g.hi == s.g.hi && s'.tags == s.tags
      && Carved(s, s', a, b, Next(s.g.t, b), r)
    else
      && BeginsAt(s.g.t, s.tags, s.g.hi, b) && s'.g.hi == s.g.hi + Growth(a) && s'.tags == s.tags - {s.g.hi}
      && Carved(s, s', a, b, s'.g.hi, r)
  }

  ghost predicate MallocLaw(s: Tagging, size: Word, s': Tagging, r: nat) {
    exists b: nat :: MallocFrom(s, size, s', r, b)
  }

  /** Where a free block that ends at x ends once it is merged. */
  ghost function EndsTo(t: Tiles, x: nat): nat {
    if FreeAt(t, x) then Next(t, x) else x
  }

  /** mm_free(p): from the untagged free block before p, if there is one, to the free block
      behind it, if there is one, all becomes one free block; the header behind p loses its
      tag and no other header does. */
  ghost predicate FreeLaw(s: Tagging, p: nat, s': Tagging)
    requires p in s.g.t
  {
    && Ok(s') && s'.g.hi == s.g.hi && s'.tags == s.tags - {Next(s.g.t, p)}
    && exists b: nat :: BeginsAt(s.g.t, s.tags, p, b) && Freed(s, s', b, EndsTo(s.g.t, Next(s.g.t, p)))
  }

  ghost predicate Freed(s: Tagging, s': Tagging, b: nat, e: nat) {
    Around(s.g.t, s'.g.t, b, e) && OneBlock(s'.g.t, b, e, false) && ListsFollow(s.g, s'.g, b)
  }

  /** p grows where it stands, by all that lies behind it, or fails for lack of memory; its
      own header and the one behind it lose their tags. */
  ghost predicate InPlaceLaw(s: Tagging, p: nat, newSize: nat, s': Tagging, r: nat)
    requires p in s.g.t
  {
    var have := Reach(s.g.t, p);
    var more := Shortage(have, newSize);
    if s.g.hi + more > MAX_HEAP then r == NULL && s' == s
    else
      && r == p && Ok(s') && s'.g.hi == s.g.hi + more && s'.tags == s.tags - {p} - {Next(s.g.t, p)}
      && Around(s.g.t, s'.g.t, p, p + have + more) && OneBlock(s'.g.t, p, p + have + more, true)
      && ListsFollow(s.g, s'.g, NULL)
  }

  /** r is a new block for newSize - 8 bytes, and p is freed. */
  ghost predicate Moves(s: Tagging, p: nat, newSize: nat, s': Tagging, r: nat) {
    exists s1: Tagging :: 8 <= newSize < WORD_SPAN && MallocLaw(s, newSize - 8, s1, r) && p in s1.g.t && FreeLaw(s1, p, s')
  }

  /** mm_realloc(p, size) before the tag is set: nothing for 0 bytes; p itself if it has
      room for the request and 128 bytes more; in place if the block behind p is free or
      the epilogue; else a new block, and p is freed. */
  ghost predicate ResizeLaw(s: Tagging, p: nat, size: Word, s': Tagging, r: nat)
    requires p in s.g.t
  {
    var a := Asize(size) + 128;
    if size == 0 then r == NULL && s' == s
    else if a <= s.g.t[p].size then r == p && s' == s
    else if FreeAt(s.g.t, Next(s.g.t, p)) || Next(s.g.t, p) == s.g.hi then InPlaceLaw(s, p, a, s', r)
    else Moves(s, p, a, s', r)
  }

  /** In the end the header behind the result is tagged, if the result has less than 256
      bytes to spare; no other header changes. */
  ghost predicate ReallocLaw(s: Tagging, p: nat, size: Word, s': Tagging, r: nat)
    requires p in s.g.t
  {
    exists s1: Tagging :: ResizeLaw(s, p, size, s1, r) &&
                          if r == NULL then s' == s1
                          else r in s1.g.t && s'.g == s1.g
                               && s'.tags == s1.tags + if s1.g.t[r].size < Asize(size) + 128 + 256 then {Next(s1.g.t, r)} else {}
  }

  // ----- the search -----

  lemma {:induction false} FirstTakableFirst(t: Tiles, tags: set<nat>, l: seq<nat>, i: nat, a: nat)
    requires i <= |l| && NULL !in t && FirstTakable(t, tags, l, i, a) != NULL
    requires forall j {:trigger l[j]} :: 0 <= j < i ==> !Takable(t, tags, l[j], a)
    ensures FirstTakableOn(t, tags, l, a, FirstTakable(t, tags, l, i, a))
    decreases |l| - i
  {
    hide Takable;
    if i < |l| && !Takable(t, tags, l[i], a) {
      FirstTakableFirst(t, tags, l, i + 1, a);
    } else {
      assert l[i] == FirstTakable(t, tags, l, i, a);
    }
  }

  lemma {:induction false} FindTakableFirst(s: Tagging, c: nat, a: nat) returns (k: nat)
    requires |s.g.lists| == LISTLIMIT && c <= LISTLIMIT && NULL !in s.g.t
    ensures var r := FindTakable(s.g.t, s.tags, s.g.lists, c, a);
            r != NULL ==> c <= k < LISTLIMIT && FirstTakableOn(s.g.t, s.tags, s.g.lists[k], a, r)
                          && forall d, x {:trigger x in s.g.lists[d]} :: c <= d < k && x in s.g.lists[d] ==> !Takable(s.g.t, s.tags, x, a)
    decreases LISTLIMIT - c
  {
    hide FirstTakableOn, FirstTakable, Takable;
    k := c;
    if c < LISTLIMIT {
      var l := s.g.lists[c];
      if FirstTakable(s.g.t, s.tags, l, 0, a) != NULL {
        FirstTakableFirst(s.g.t, s.tags, l, 0, a);
      } else {
        FirstTakableFinds(s.g.t, s.tags, l, 0, a);
        forall x | x in l
          ensures !Takable(s.g.t, s.tags, x, a)
        {
          var j :| 0 <= j < |l| && l[j] == x;
        }
        k := FindTakableFirst(s, c + 1, a);
      }
    }
  }

  lemma FoundLowest(s: Tagging, a: nat)
    requires Ok(s) && AnyTakable(s.g.t, s.tags, a)
    ensures |s.g.lists| == LISTLIMIT
    ensures LowestTakable(s.g.t, s.tags, s.g.lists, a, FindTakable(s.g.t, s.tags, s.g.lists, ClassOf(a), a))
  {
    hide ClassFrom, FindTakable, FirstTakableOn, Reserved, AnyTakable, Takable;
    FindTakableOk(s, a);
    NullOutside(s.g, {});
    var k := FindTakableFirst(s, ClassOf(a), a);
    TakableAbove(s, k, a);
    hide Ok;
    assert s.g.lists[k] == s.g.lists[k];
  }

  lemma TakableAbove(s: Tagging, k: nat, a: nat)
    requires Ok(s) && k <= |s.g.lists|
    requires forall d, x {:trigger x in s.g.lists[d]} :: ClassOf(a) <= d < k && x in s.g.lists[d] ==> !Takable(s.g.t, s.tags, x, a)
    ensures NoneTakableBelow(s.g.t, s.tags, s.g.lists, k, a)
  {
    hide ClassFrom, Reserved;
    forall d, x | 0 <= d < k && x in s.g.lists[d]
      ensures !Takable(s.g.t, s.tags, x, a)
    {
      assert FreeAt(s.g.t, x) && ClassOf(s.g.t[x].size) == d;
      if a <= s.g.t[x].size {
        ClassMonotone(a, s.g.t[x].size, 0);
      }
    }
  }

  lemma LowestTakableUnique(t: Tiles, tags: set<nat>, lists: Lists, a: nat, b1: nat, b2: nat)
    requires LowestTakable(t, tags, lists, a, b1) && LowestTakable(t, tags, lists, a, b2)
    ensures b1 == b2
  {
    hide Takable;
    var c1 :| 0 <= c1 < |lists| && FirstTakableOn(t, tags, lists[c1], a, b1) && NoneTakableBelow(t, tags, lists, c1, a);
    var c2 :| 0 <= c2 < |lists| && FirstTakableOn(t, tags, lists[c2], a, b2) && NoneTakableBelow(t, tags, lists, c2, a);
    FirstTakableIsOn(t, tags, lists[c1], a, b1);
    FirstTakableIsOn(t, tags, lists[c2], a, b2);
    assert c1 == c2 by {
      hide FirstTakableOn;
    }
    FirstTakableUnique(t, tags, lists[c1], a, b1, b2);
  }

  lemma FirstTakableIsOn(t: Tiles, tags: set<nat>, l: seq<nat>, a: nat, b: nat)
    requires FirstTakableOn(t, tags, l, a, b)
    ensures b in l && Takable(t, tags, b, a)
  {
  }

  lemma FirstTakableUnique(t: Tiles, tags: set<nat>, l: seq<nat>, a: nat, b: nat, b': nat)
    requires FirstTakableOn(t, tags, l, a, b) && FirstTakableOn(t, tags, l, a, b')
    ensures b == b'
  {
    hide Takable;
    var k :| 0 <= k < |l| && l[k] == b && Takable(t, tags, b, a) && forall j :: 0 <= j < k ==> !Takable(t, tags, l[j], a);
    var k' :| 0 <= k' < |l| && l[k'] == b' && Takable(t, tags, b', a) && forall j :: 0 <= j < k' ==> !Takable(t, tags, l[j], a);
    assert !(k < k') && !(k' < k);
  }

  // ----- merging -----

  /** The extent and the bounds of what a merge makes. */
  lemma JoinShape(s: Tagging, p: nat)
    requires Pending(s, {p}) && FreeAt(s.g.t, p)
    ensures FLOOR <= p && 0 < s.g.t[p].size && |s.g.lists| == LISTLIMIT && Tiled(s.g.t, LO, FLOOR, s.g.hi)
    ensures var s', b, e := Join(s, p), JoinLow(s, p), MergeHigh(s.g.t, p);
            && BeginsAt(s.g.t, s.tags, p, b) && e == EndsTo(s.g.t, Next(s.g.t, p)) && b <= p < e
            && Around(s.g.t, s'.g.t, b, e) && OneBlock(s'.g.t, b, e, false)
  {
    hide ClassOf, Sorted, Reserved, JoinedOut, Put, Tiled, BeginsAt;
    JoinTiling(s, p);
    JoinBegins(s, p);
    hide JoinLow;
    FuseShape(s.g.t, JoinLow(s, p), MergeHigh(s.g.t, p));
    hide Around, OneBlock, Fuse;
  }

  lemma JoinBegins(s: Tagging, p: nat)
    requires Tiled(s.g.t, LO, FLOOR, s.g.hi) && p in s.g.t && FLOOR <= p
    ensures BeginsAt(s.g.t, s.tags, p, JoinLow(s, p))
  {
    OnlyPrev(s.g.t, LO, FLOOR, s.g.hi, Prev(s.g.t, LO, FLOOR, s.g.hi, p));
    hide Tiled;
  }

  lemma FuseShape(t: Tiles, b: nat, e: nat)
    requires b in t && b < e
    ensures Around(t, Fuse(t, b, e, false), b, e) && OneBlock(Fuse(t, b, e, false), b, e, false)
  {
  }

  /** Whatever a merge takes off its list does not survive. */
  lemma JoinAgrees(s: Tagging, p: nat, t: Tiles, f: nat)
    requires Pending(s, {p}) && FreeAt(s.g.t, p)
    requires f == JoinLow(s, p) || !FreeAt(t, JoinLow(s, p))
    requires FreeAt(s.g.t, Next(s.g.t, p)) ==> !FreeAt(t, Next(s.g.t, p))
    ensures |s.g.lists| == LISTLIMIT && Tiled(s.g.t, LO, FLOOR, s.g.hi) && FLOOR <= p
    ensures Agree(s.g.lists, JoinedOut(s, p), t, f)
  {
    hide ClassOf, Sorted, Reserved, Fuse;
    JoinTiling(s, p);
    var q, n := Prev(s.g.t, LO, FLOOR, s.g.hi, p), Next(s.g.t, p);
    hide Agree;
    AgreeSelf(s.g.lists, t, f);
    var lists := if s.g.t[q].alloc || q in s.tags then s.g.lists else Unlisted(s.g, q);
    if !(s.g.t[q].alloc || q in s.tags) {
      AgreeTake(s.g.lists, s.g.lists, t, f, ClassOf(s.g.t[q].size), q);
    }
    if FreeAt(s.g.t, n) {
      AgreeTake(s.g.lists, lists, t, f, ClassOf(s.g.t[n].size), n);
    }
  }

  lemma JoinFollows(s: Tagging, p: nat)
    requires Pending(s, {p}) && FreeAt(s.g.t, p)
    ensures FLOOR <= p && 0 < s.g.t[p].size && |s.g.lists| == LISTLIMIT && Tiled(s.g.t, LO, FLOOR, s.g.hi)
    ensures ListsFollow(s.g, Join(s, p).g, JoinLow(s, p))
  {
    hide ClassOf, Pending, Tiled, Reserved, JoinedOut, Agree, ListsFollow, Put, LiveSame, KeepsReserved, Around, JoinLow, MergeHigh;
    JoinShape(s, p);
    JoinOk(s, p);
    var s', f := Join(s, p), JoinLow(s, p);
    OkPartial(s');
    FreeAboveNull(s', f);
    JoinTiling(s, p);
    assert FreeAt(s.g.t, Next(s.g.t, p)) ==> Next(s.g.t, p) !in s'.g.t;
    hide Fuse;
    JoinAgrees(s, p, s'.g.t, f);
    FollowsPut(s.g, s'.g, JoinedOut(s, p), f);
  }

  lemma OkPartial(s: Tagging)
    requires Ok(s)
    ensures Partial(s.g, {}) && Tiled(s.g.t, LO, FLOOR, s.g.hi) && |s.g.lists| == LISTLIMIT
  {
    hide ClassOf, Tiled, Reserved;
  }

  lemma FreeAboveNull(s: Tagging, f: nat)
    requires Ok(s) && FreeAt(s.g.t, f)
    ensures f != NULL && 1 <= s.g.t[f].size
  {
    hide ClassOf, Sorted;
    PendingAboveFloor(s.g, f);
  }

  // ----- growing -----

  /** What extend_heap returns ends the heap, and the lists keep their order behind it. */
  lemma ExtendEnds(s: Tagging, e: nat)
    requires Ok(s) && e % 8 == 0 && 16 <= e && s.g.hi + e <= MAX_HEAP
    ensures var s1, b := TagExtend(s, e), TagExtendAt(s, e);
            && Ok(s1) && s1.g.hi == s.g.hi + e && s1.tags == s.tags - {s.g.hi} && b !in s1.tags && b <= s.g.hi
            && BeginsAt(s.g.t, s.tags, s.g.hi, b) && Around(s.g.t, s1.g.t, b, s1.g.hi) && OneBlock(s1.g.t, b, s1.g.hi, false)
            && FreeAt(s1.g.t, b) && e <= s1.g.t[b].size
            && forall t, f {:trigger Agree(s.g.lists, s1.g.lists, t, f)} :: !FreeAt(t, b) || b == f ==> Agree(s.g.lists, s1.g.lists, t, f)
  {
    hide ClassOf, Ok, Pending, Agree, LiveSame, KeepsReserved, Around, OneBlock, BeginsAt, Join, JoinLow;
    TagExtendOk(s, e);
    ExtendShape(s, e);
    var s1, b := TagExtend(s, e), TagExtendAt(s, e);
    forall t, f | !FreeAt(t, b) || b == f
      ensures Agree(s.g.lists, s1.g.lists, t, f)
    {
      ExtendAgrees(s, e, t, f);
    }
  }

  lemma ExtendAgrees(s: Tagging, e: nat, t: Tiles, f: nat)
    requires Ok(s) && e % 8 == 0 && 16 <= e && s.g.hi + e <= MAX_HEAP
    requires !FreeAt(t, TagExtendAt(s, e)) || TagExtendAt(s, e) == f
    ensures Agree(s.g.lists, TagExtend(s, e).g.lists, t, f)
  {
    hide ClassOf, Ok, Pending, Agree, LiveSame, KeepsReserved, JoinedOut, JoinLow, Fuse, Tiled;
    TagGrownPending(s, e);
    var g, p := TagGrown(s, e), s.g.hi;
    NothingBehind(s, e);
    JoinTiling(g, p);
    JoinAgrees(g, p, t, f);
    AgreePut(s.g.lists, JoinedOut(g, p), t, f, ClassOf(MergeHigh(g.g.t, p) - JoinLow(g, p)), JoinLow(g, p));
  }

  lemma NothingBehind(s: Tagging, e: nat)
    requires Ok(s) && 0 < e
    ensures Next(TagGrown(s, e).g.t, s.g.hi) == s.g.hi + e && s.g.hi + e !in TagGrown(s, e).g.t
  {
    hide ClassOf, Sorted, Reserved;
    assert s.g.hi + e in s.g.t ==> BlockOk(s.g.t[s.g.hi + e], s.g.hi + e, LO, FLOOR, s.g.hi);
  }

  lemma ExtendShape(s: Tagging, e: nat)
    requires Ok(s) && e % 8 == 0 && 16 <= e && s.g.hi + e <= MAX_HEAP
    ensures var s1, b := TagExtend(s, e), TagExtendAt(s, e);
            && b <= s.g.hi && BeginsAt(s.g.t, s.tags, s.g.hi, b)
            && Around(s.g.t, s1.g.t, b, s.g.hi + e) && OneBlock(s1.g.t, b, s.g.hi + e, false)
  {
    hide ClassOf, Ok, Pending, Agree, LiveSame, KeepsReserved, Around, BeginsAt, Join, JoinLow;
    TagGrownPending(s, e);
    NothingBehind(s, e);
    JoinShape(TagGrown(s, e), s.g.hi);
    hide Tiled, OneBlock;
    var b := TagExtendAt(s, e);
    AroundBefore(s.g.t, TagGrown(s, e).g.t, TagExtend(s, e).g.t, b, s.g.hi, s.g.hi + e);
    BeginsBefore(s.g.t, TagGrown(s, e).g.t, s.tags, s.g.hi, b, Block(e, false));
  }

  lemma AroundBefore(t: Tiles, g: Tiles, t': Tiles, b: nat, x: nat, e: nat)
    requires x in g && g == t[x := g[x]] && b <= x < e && Around(g, t', b, e)
    ensures Around(t, t', b, e)
  {
  }

  lemma BeginsBefore(t: Tiles, g: Tiles, tags: set<nat>, x: nat, b: nat, added: Block)
    requires x !in t && g == t[x := added] && 0 < added.size && BeginsAt(g, tags - {x}, x, b)
    ensures BeginsAt(t, tags, x, b)
  {
    assert forall q :: q in t ==> q != x && Next(g, q) == Next(t, q);
  }

  // ----- what the allocator does is lawful -----

  lemma PlaceCarves(s: Tagging, p: nat, a: nat)
    requires Ok(s) && FreeAt(s.g.t, p) && p !in s.tags && a % 8 == 0 && 16 <= a <= s.g.t[p].size
    ensures Carved(s, TagPlace(s, p, a).0, a, p, Next(s.g.t, p), TagPlace(s, p, a).1)
    ensures TagPlace(s, p, a).0.g.hi == s.g.hi && TagPlace(s, p, a).0.tags == s.tags
  {
    hide ClassOf, Tiled, Sorted, Reserved, LiveAdds, KeepsReserved, Put, Take, ListsFollow, Around, OneBlock;
    TagPlaceOk(s, p, a);
    SizeOfFree(s.g, p, a);
    OkPartial(s);
    NothingWithin(s.g.t, s.g.hi, p);
    var rest := s.g.t[p].size - a;
    if rest <= 16 {
      WholeFollows(s.g, p);
      RetagShape(s.g.t, p);
    } else {
      var tail := a >= 100;
      CutFollows(s.g, p, if tail then rest else a, !tail);
      CutIsTwo(s.g.t, p, if tail then rest else a, !tail);
    }
    hide Ok, Cut, Retag;
  }

  lemma NothingWithin(t: Tiles, hi: nat, p: nat)
    requires Tiled(t, LO, FLOOR, hi) && p in t
    ensures forall x: nat :: p < x < Next(t, p) ==> x !in t
  {
  }

  lemma RetagShape(t: Tiles, p: nat)
    requires p in t && 0 < t[p].size && forall x: nat :: p < x < Next(t, p) ==> x !in t
    ensures Around(t, Retag(t, p, true), p, Next(t, p)) && OneBlock(Retag(t, p, true), p, Next(t, p), true)
  {
  }

  lemma CutIsTwo(t: Tiles, p: nat, a: nat, alloc: bool)
    requires p in t && 0 < a < t[p].size && forall x: nat :: p < x < Next(t, p) ==> x !in t
    ensures Around(t, Cut(t, p, a, alloc), p, Next(t, p)) && TwoBlocks(Cut(t, p, a, alloc), p, p + a, Next(t, p), alloc)
  {
  }

  lemma GrownCarves(s: Tagging, a: nat)
    requires Ok(s) && a % 8 == 0 && 16 <= a && s.g.hi + GrowthFor(a) <= MAX_HEAP
    ensures var e := GrowthFor(a);
            var s1, b := TagExtend(s, e), TagExtendAt(s, e);
            && e == Growth(a) && Ok(s1) && FreeAt(s1.g.t, b) && a <= s1.g.t[b].size && BeginsAt(s.g.t, s.tags, s.g.hi, b)
            && var (s', r) := TagPlace(s1, b, a);
               s'.g.hi == s.g.hi + e && s'.tags == s.tags - {s.g.hi} && Carved(s, s', a, b, s'.g.hi, r)
  {
    var e := GrowthFor(a);
    ExtendEnds(s, e);
    var s1, b := TagExtend(s, e), TagExtendAt(s, e);
    assert Next(s1.g.t, b) == s1.g.hi;
    hide Ok, TagExtend, TagExtendAt, BeginsAt, Agree, Around, OneBlock;
    PlaceCarves(s1, b, a);
    var s', r := TagPlace(s1, b, a).0, TagPlace(s1, b, a).1;
    hide TagPlace, Carved;
    CarvedThrough(s, s1, s', a, b, s1.g.hi, r);
  }

  lemma CarvedThrough(s: Tagging, s1: Tagging, s': Tagging, a: nat, b: nat, e: nat, r: nat)
    requires Carved(s1, s', a, b, e, r) && Around(s.g.t, s1.g.t, b, e) && 0 < a
    requires forall t, f {:trigger Agree(s.g.lists, s1.g.lists, t, f)} :: !FreeAt(t, b) || b == f ==> Agree(s.g.lists, s1.g.lists, t, f)
    ensures Carved(s, s', a, b, e, r)
  {
    hide Ok, Agree, ListsFollow;
    var rest := e - b - a;
    var f := if rest <= 16 then NULL else if a >= 100 then b else b + a;
    assert Agree(s.g.lists, s1.g.lists, s'.g.t, f);
    FollowsThrough(s.g, s1.g, s'.g, f);
  }

  /** mm_malloc takes the first untagged fit of the lowest class that holds one, or the end
      of the grown heap, and the end of it that the placement says. */
  lemma MallocLawful(s: Tagging, size: Word)
    requires Ok(s) && size + 15 < WORD_SPAN
    ensures MallocLaw(s, size, TagMalloc(s, size).0, TagMalloc(s, size).1)
  {
    hide Ok, TagPlace, TagExtend, TagExtendAt, FindTakable, Carved, Asize, AnyTakable, LowestTakable, BeginsAt, ClassOf;
    var a := Asize(size);
    if size == 0 {
      assert MallocFrom(s, size, s, NULL, NULL);
    } else {
      TagFoundOk(s, size);
      if AnyTakable(s.g.t, s.tags, a) {
        var b := FindTakable(s.g.t, s.tags, s.g.lists, ClassOf(a), a);
        FoundLowest(s, a);
        PlaceCarves(s, b, a);
        assert MallocFrom(s, size, TagMalloc(s, size).0, TagMalloc(s, size).1, b);
      } else if s.g.hi + GrowthFor(a) <= MAX_HEAP {
        GrownCarves(s, a);
        assert MallocFrom(s, size, TagMalloc(s, size).0, TagMalloc(s, size).1, TagExtendAt(s, GrowthFor(a)));
      } else {
        assert MallocFrom(s, size, s, NULL, NULL);
      }
    }
  }

  lemma FreeLawful(s: Tagging, p: nat)
    requires Ok(s) && IsLive(s.g.t, FLOOR, p)
    ensures FreeLaw(s, p, TagFree(s, p))
  {
    hide ClassOf, Ok, Pending, Tiled, LiveAdds, KeepsReserved, Join, JoinLow, ListsFollow, Around, OneBlock, BeginsAt;
    TagFreeOk(s, p);
    TagFreedPending(s, p);
    JoinShape(TagFreed(s, p), p);
    JoinFollows(TagFreed(s, p), p);
    var b := JoinLow(TagFreed(s, p), p);
    AtFreed(s, TagFree(s, p), p, b);
    hide TagFree;
    assert BeginsAt(s.g.t, s.tags, p, b);
  }

  lemma AtFreed(s: Tagging, s': Tagging, p: nat, b: nat)
    requires Ok(s) && IsLive(s.g.t, FLOOR, p)
    requires var f := TagFreed(s, p);
             BeginsAt(f.g.t, f.tags, p, b) && b <= p < EndsTo(f.g.t, Next(f.g.t, p)) && Freed(f, s', b, EndsTo(f.g.t, Next(f.g.t, p)))
    ensures BeginsAt(s.g.t, s.tags, p, b) && Freed(s, s', b, EndsTo(s.g.t, Next(s.g.t, p)))
  {
    hide ClassOf, Ok, Around, OneBlock, BeginsAt;
    LiveSpan(s, p);
    var n, f := Next(s.g.t, p), TagFreed(s, p).g.t;
    BeginsFreed(s.g.t, f, s.tags, p, b, n);
    FollowsFreed(s.g, TagFreed(s, p).g, s'.g, b);
    hide ListsFollow;
    assert EndsTo(f, n) == EndsTo(s.g.t, n);
    AroundBefore(s.g.t, f, s'.g.t, b, p, EndsTo(s.g.t, n));
  }

  lemma LiveSpan(s: Tagging, p: nat)
    requires Ok(s) && p in s.g.t
    ensures p < Next(s.g.t, p) && forall q {:trigger Next(s.g.t, q)} :: q in s.g.t && Next(s.g.t, q) == p ==> q < p
  {
    hide ClassOf, Sorted, Reserved;
    forall q {:trigger Next(s.g.t, q)} | q in s.g.t
      ensures q < Next(s.g.t, q)
    {
      assert BlockOk(s.g.t[q], q, LO, FLOOR, s.g.hi);
    }
  }

  lemma BeginsFreed(t: Tiles, f: Tiles, tags: set<nat>, p: nat, b: nat, n: nat)
    requires p in t && f == Retag(t, p, false) && n == Next(t, p) && p < n && BeginsAt(f, tags - {n}, p, b)
    requires forall q :: q in t && Next(t, q) == p ==> q < p
    ensures BeginsAt(t, tags, p, b)
  {
    assert forall q :: q in t ==> Next(f, q) == Next(t, q);
  }

  // ----- in place -----

  lemma SwallowedShape(s: Tagging, p: nat)
    requires Ok(s) && IsLive(s.g.t, FLOOR, p) && FreeAt(s.g.t, Next(s.g.t, p))
    ensures |s.g.lists| == LISTLIMIT && 0 < s.g.t[p].size && p < Next(s.g.t, p) < Next(s.g.t, Next(s.g.t, p))
    ensures var s', e := Swallowed(s, p), Next(s.g.t, Next(s.g.t, p));
            && Ok(s') && s'.g.hi == s.g.hi && s'.tags == s.tags - {p} - {Next(s.g.t, p)}
            && s'.g.t == Fuse(s.g.t, p, e, true) && e == p + Reach(s.g.t, p)
            && Around(s.g.t, s'.g.t, p, e) && OneBlock(s'.g.t, p, e, true)
  {
    hide ClassOf, Reserved, Grew, KeepsReserved, Sorted;
    SwallowedOk(s, p);
    OkPartial(s);
    SwallowSpan(s, p);
  }

  lemma SwallowSpan(s: Tagging, p: nat)
    requires Tiled(s.g.t, LO, FLOOR, s.g.hi) && p in s.g.t && FreeAt(s.g.t, Next(s.g.t, p))
    ensures p < Next(s.g.t, p) < Next(s.g.t, Next(s.g.t, p))
  {
    assert BlockOk(s.g.t[p], p, LO, FLOOR, s.g.hi) && BlockOk(s.g.t[Next(s.g.t, p)], Next(s.g.t, p), LO, FLOOR, s.g.hi);
  }

  lemma SwallowedFollows(s: Tagging, s1: Tagging, p: nat)
    requires Ok(s1) && IsLive(s1.g.t, FLOOR, p) && FreeAt(s1.g.t, Next(s1.g.t, p))
    requires p < Next(s1.g.t, p) < Next(s1.g.t, Next(s1.g.t, p))
    requires Agree(s.g.lists, s1.g.lists, Fuse(s1.g.t, p, Next(s1.g.t, Next(s1.g.t, p)), true), NULL)
    ensures |s1.g.lists| == LISTLIMIT && 0 < s1.g.t[p].size && ListsFollow(s.g, Swallowed(s1, p).g, NULL)
  {
    hide ClassOf, Ok, Agree, ListsFollow, Fuse;
    OkPartial(s1);
    hide Tiled;
    AbsorbFollows(s.g, s1.g, p);
    hide Absorb;
  }

  lemma InPlaceLawful(s: Tagging, p: nat, newSize: Word)
    requires Ok(s) && IsLive(s.g.t, FLOOR, p) && newSize % 8 == 0
    requires TagGrowsInPlace(s, p, newSize) && newSize - s.g.t[p].size < INT_SPAN && NextIsOpen(s.g, p)
    ensures InPlaceLaw(s, p, newSize, TagInPlace(s, p, newSize).0, TagInPlace(s, p, newSize).1)
  {
    hide Remainder, Ok, TagGrowsInPlace, Swallowed, TagExtend, TagExtendAt, EndsBehind, NextIsOpen, NextSize, Reach, InPlaceLaw;
    var rem := Remainder(s.g.t[p].size + NextSize(s.g.t, p), newSize);
    ReachIs(s, p);
    RemainderIs(s, p, newSize);
    ExtensionIsShortage(Reach(s.g.t, p), newSize);
    if rem >= 0 {
      SwallowsHere(s, p, newSize);
    } else if s.g.hi + Extension(rem) <= MAX_HEAP {
      ExtensionReady(s, p, newSize, rem, Extension(rem));
      SwallowsExtended(s, p, newSize, Extension(rem));
    } else {
      NoRoom(s, p, newSize);
    }
  }

  lemma ReachIs(s: Tagging, p: nat)
    requires Ok(s) && IsLive(s.g.t, FLOOR, p) && NextIsOpen(s.g, p)
    ensures Reach(s.g.t, p) == s.g.t[p].size + NextSize(s.g.t, p)
  {
    hide ClassOf, Sorted, Reserved;
    HaveAligned(s.g.t, s.g.hi, p);
  }

  lemma RemainderIs(s: Tagging, p: nat, newSize: Word)
    requires Ok(s) && IsLive(s.g.t, FLOOR, p) && newSize % 8 == 0
    requires TagGrowsInPlace(s, p, newSize) && newSize - s.g.t[p].size < INT_SPAN
    ensures var rem := Remainder(s.g.t[p].size + NextSize(s.g.t, p), newSize);
            && rem == s.g.t[p].size + NextSize(s.g.t, p) - newSize && s.g.hi <= MAX_HEAP && |s.g.lists| == LISTLIMIT && 0 < s.g.t[p].size
            && (rem >= 0 ==> FreeAt(s.g.t, Next(s.g.t, p)) && TagInPlace(s, p, newSize) == (Swallowed(s, p), p))
  {
    hide Remainder, Sorted, Tiled, Reserved, EndsBehind;
    OkPartial(s);
    HaveOk(s.g, p, newSize);
    hide GrowsInPlace, Swallowed, TagExtend;
  }

  lemma NoRoom(s: Tagging, p: nat, newSize: nat)
    requires p in s.g.t && s.g.hi + Shortage(Reach(s.g.t, p), newSize) > MAX_HEAP
    ensures InPlaceLaw(s, p, newSize, s, NULL)
  {
  }

  lemma SwallowsHere(s: Tagging, p: nat, newSize: nat)
    requires Ok(s) && IsLive(s.g.t, FLOOR, p) && FreeAt(s.g.t, Next(s.g.t, p))
    requires newSize <= Reach(s.g.t, p) && s.g.hi <= MAX_HEAP
    ensures |s.g.lists| == LISTLIMIT && 0 < s.g.t[p].size && InPlaceLaw(s, p, newSize, Swallowed(s, p), p)
  {
    hide Ok, Swallowed, Around, OneBlock, Agree, ListsFollow, Reach, Fuse;
    SwallowedShape(s, p);
    AgreeSelf(s.g.lists, Fuse(s.g.t, p, Next(s.g.t, Next(s.g.t, p)), true), NULL);
    SwallowedFollows(s, s, p);
  }

  lemma SwallowsExtended(s: Tagging, p: nat, newSize: nat, e: nat)
    requires Ok(s) && IsLive(s.g.t, FLOOR, p) && EndsBehind(s.g, p) && !IsReserved(s, Next(s.g.t, p))
    requires e % 8 == 0 && 16 <= e && s.g.hi + e <= MAX_HEAP && e == Shortage(Reach(s.g.t, p), newSize)
    ensures var s1 := TagExtend(s, e);
            && p in s1.g.t && FreeAt(s1.g.t, Next(s1.g.t, p)) && 0 < s1.g.t[p].size && |s1.g.lists| == LISTLIMIT
            && InPlaceLaw(s, p, newSize, Swallowed(s1, p), p)
  {
    hide ClassOf, Ok, Swallowed, TagExtend, TagExtendAt, Agree, ListsFollow, EndsBehind, Reach, Fuse, Around, OneBlock, Shortage, BeginsAt;
    TagInPlaceGrown(s, p, e);
    TagExtendBehind(s, p, e);
    ExtendEnds(s, e);
    BeginsBehind(s, p, TagExtendAt(s, e));
    var s1, n := TagExtend(s, e), Next(s.g.t, p);
    SwallowedShape(s1, p);
    OneIsNext(s1.g.t, n, s1.g.hi);
    var s' := Swallowed(s1, p);
    AroundTrans(s.g.t, s1.g.t, s'.g.t, n, p, s1.g.hi);
    FuseDrops(s1.g.t, p, n, s1.g.hi);
    SwallowedFollows(s, s1, p);
  }

  lemma OneIsNext(t: Tiles, b: nat, e: nat)
    requires OneBlock(t, b, e, false)
    ensures b in t && Next(t, b) == e
  {
  }

  lemma FuseDrops(t: Tiles, p: nat, n: nat, e: nat)
    requires p < n < e
    ensures !FreeAt(Fuse(t, p, e, true), n)
  {
  }

  lemma AroundTrans(t: Tiles, t1: Tiles, t2: Tiles, b: nat, p: nat, e: nat)
    requires p <= b && Around(t, t1, b, e) && Around(t1, t2, p, e)
    ensures Around(t, t2, p, e)
  {
  }

  /** If p all but ends the heap, what is added merges with what is behind p. */
  lemma BeginsBehind(s: Tagging, p: nat, b: nat)
    requires Ok(s) && IsLive(s.g.t, FLOOR, p) && EndsBehind(s.g, p) && !IsReserved(s, Next(s.g.t, p))
    requires BeginsAt(s.g.t, s.tags, s.g.hi, b)
    ensures b == Next(s.g.t, p) && s.g.hi == p + Reach(s.g.t, p)
    ensures s.tags - {s.g.hi} - {p} - {b} == s.tags - {p} - {b}
  {
    hide ClassOf, Sorted;
    var n := Next(s.g.t, p);
    HaveAligned(s.g.t, s.g.hi, p);
    OnlyPrev(s.g.t, LO, FLOOR, s.g.hi, p);
    assert BeginsAt(s.g.t, s.tags, s.g.hi, n);
    BeginsAtUnique(s.g.t, LO, FLOOR, s.g.hi, s.tags, s.g.hi, b, n);
    if FreeAt(s.g.t, n) {
      assert Next(s.g.t, n) == s.g.hi && s.g.hi !in s.tags;
    }
  }

  // ----- and nothing else is -----

  lemma SizeAtLeastOne(s: Tagging, f: nat)
    requires Ok(s)
    ensures FreeAt(s.g.t, f) ==> 1 <= s.g.t[f].size
  {
    if FreeAt(s.g.t, f) {
      FreeAboveNull(s, f);
    }
  }

  lemma CarvedSame(s: Tagging, s1: Tagging, s2: Tagging, a: nat, b: nat, e: nat, r1: nat, r2: nat)
    requires Carved(s, s1, a, b, e, r1) && Carved(s, s2, a, b, e, r2) && s1.g.hi == s2.g.hi && s1.tags == s2.tags
    ensures s1 == s2 && r1 == r2
  {
    hide Ok, ListsFollow, Around, OneBlock;
    var rest := e - b - a;
    var f := if rest <= 16 then NULL else if a >= 100 then b else b + a;
    if rest <= 16 {
      OneBlockSame(s.g.t, s1.g.t, s2.g.t, b, e, true);
    } else {
      TwoBlocksSame(s.g.t, s1.g.t, s2.g.t, b, if a >= 100 then r1 else b + a, e, a < 100);
    }
    SizeAtLeastOne(s1, f);
    FollowsSame(s.g, s1.g, s2.g, f);
  }

  lemma MallocSame(s: Tagging, size: Word, s1: Tagging, r1: nat, s2: Tagging, r2: nat)
    requires Ok(s) && MallocLaw(s, size, s1, r1) && MallocLaw(s, size, s2, r2)
    ensures s1 == s2 && r1 == r2
  {
    hide Ok, Asize, AnyTakable, Carved, Tiled, LowestTakable, BeginsAt;
    var a := Asize(size);
    OkPartial(s);
    var b1: nat :| MallocFrom(s, size, s1, r1, b1);
    var b2: nat :| MallocFrom(s, size, s2, r2, b2);
    if size != 0 {
      if AnyTakable(s.g.t, s.tags, a) {
        LowestTakableUnique(s.g.t, s.tags, s.g.lists, a, b1, b2);
        CarvedSame(s, s1, s2, a, b1, Next(s.g.t, b1), r1, r2);
      } else if s.g.hi + Growth(a) <= MAX_HEAP {
        BeginsAtUnique(s.g.t, LO, FLOOR, s.g.hi, s.tags, s.g.hi, b1, b2);
        CarvedSame(s, s1, s2, a, b1, s1.g.hi, r1, r2);
      }
    }
  }

  /** The law leaves one outcome: what is specified. */
  lemma MallocIff(s: Tagging, size: Word, s': Tagging, r: nat)
    requires Ok(s) && size + 15 < WORD_SPAN
    ensures MallocLaw(s, size, s', r) <==> (s', r) == TagMalloc(s, size)
  {
    hide Ok, TagMalloc, MallocLaw;
    MallocLawful(s, size);
    if MallocLaw(s, size, s', r) {
      MallocSame(s, size, s', r, TagMalloc(s, size).0, TagMalloc(s, size).1);
    }
  }

  lemma FreeSame(s: Tagging, p: nat, s1: Tagging, s2: Tagging)
    requires Ok(s) && p in s.g.t && FreeLaw(s, p, s1) && FreeLaw(s, p, s2)
    ensures s1 == s2
  {
    hide Ok, ListsFollow, Around, OneBlock, BeginsAt, Tiled;
    OkPartial(s);
    var e := EndsTo(s.g.t, Next(s.g.t, p));
    var b1: nat :| BeginsAt(s.g.t, s.tags, p, b1) && Freed(s, s1, b1, e);
    var b2: nat :| BeginsAt(s.g.t, s.tags, p, b2) && Freed(s, s2, b2, e);
    BeginsAtUnique(s.g.t, LO, FLOOR, s.g.hi, s.tags, p, b1, b2);
    OneBlockSame(s.g.t, s1.g.t, s2.g.t, b1, e, false);
    SizeAtLeastOne(s1, b1);
    FollowsSame(s.g, s1.g, s2.g, b1);
  }

  lemma FreeIff(s: Tagging, p: nat, s': Tagging)
    requires Ok(s) && IsLive(s.g.t, FLOOR, p)
    ensures FreeLaw(s, p, s') <==> s' == TagFree(s, p)
  {
    hide Ok, TagFree, FreeLaw;
    FreeLawful(s, p);
    if FreeLaw(s, p, s') {
      FreeSame(s, p, s', TagFree(s, p));
    }
  }

  lemma InPlaceSame(s: Tagging, p: nat, newSize: nat, s1: Tagging, r1: nat, s2: Tagging, r2: nat)
    requires p in s.g.t && InPlaceLaw(s, p, newSize, s1, r1) && InPlaceLaw(s, p, newSize, s2, r2)
    ensures s1 == s2 && r1 == r2
  {
    hide Ok, ListsFollow, Around, OneBlock, Reach, Shortage;
    var have := Reach(s.g.t, p);
    var more := Shortage(have, newSize);
    if s.g.hi + more <= MAX_HEAP {
      OneBlockSame(s.g.t, s1.g.t, s2.g.t, p, p + have + more, true);
      FollowsSame(s.g, s1.g, s2.g, NULL);
    }
  }

  lemma MoveIff(s: Tagging, p: nat, newSize: Word, s': Tagging, r: nat)
    requires Ok(s) && IsLive(s.g.t, FLOOR, p) && newSize % 8 == 0 && 16 <= newSize && newSize + 7 < WORD_SPAN
    requires AnyTakable(s.g.t, s.tags, newSize) || s.g.hi + GrowthFor(newSize) <= MAX_HEAP
    ensures Moves(s, p, newSize, s', r) <==> (s', r) == TagMove(s, p, newSize)
  {
    hide Ok, AnyTakable, TagMalloc, TagFree, MallocLaw, FreeLaw, LiveAdds, Moved;
    TagMoveOk(s, p, newSize);
    var s1, q := TagMalloc(s, newSize - 8).0, TagMalloc(s, newSize - 8).1;
    MallocIff(s, newSize - 8, s1, q);
    FreeIff(s1, p, TagFree(s1, p));
    if Moves(s, p, newSize, s', r) {
      var s2: Tagging :| MallocLaw(s, newSize - 8, s2, r) && p in s2.g.t && FreeLaw(s2, p, s');
      MallocIff(s, newSize - 8, s2, r);
      FreeIff(s1, p, s');
    }
  }

  lemma ResizeIff(s: Tagging, p: nat, size: Word, s': Tagging, r: nat)
    requires Ok(s) && IsLive(s.g.t, FLOOR, p) && 0 < size && size + 15 + REALLOC_BUFFER < WORD_SPAN && TagSupported(s, p, size)
    ensures ResizeLaw(s, p, size, s', r) <==> (s', r) == TagResize(s, p, size)
  {
    hide Ok, Asize, AnyTakable, TagGrowsInPlace, TagInPlace, TagMove, Moves, InPlaceLaw;
    BufferedSizeOk(size);
    var a := BufferedSize(size);
    if s.g.t[p].size < a {
      if NextIsOpen(s.g, p) {
        InPlaceLawful(s, p, a);
        if ResizeLaw(s, p, size, s', r) {
          InPlaceSame(s, p, a, s', r, TagInPlace(s, p, a).0, TagInPlace(s, p, a).1);
        }
      } else {
        MoveIff(s, p, a, s', r);
      }
    }
  }

  lemma ReallocIff(s: Tagging, p: nat, size: Word, s': Tagging, r: nat)
    requires Ok(s) && IsLive(s.g.t, FLOOR, p) && size + 15 + REALLOC_BUFFER < WORD_SPAN && (size != 0 ==> TagSupported(s, p, size))
    ensures ReallocLaw(s, p, size, s', r) <==> (s', r) == TagRealloc(s, p, size)
  {
    hide Ok, Asize, TagResize, TagSupported;
    if size != 0 {
      TagResizeOk(s, p, size);
      ResizeIff(s, p, size, TagResize(s, p, size).0, TagResize(s, p, size).1);
      hide ResizeLaw;
      MarkIs(TagResize(s, p, size).0, TagResize(s, p, size).1, size);
      if ReallocLaw(s, p, size, s', r) {
        var s1: Tagging :| ResizeLaw(s, p, size, s1, r) && if r == NULL then s' == s1
                          else r in s1.g.t && s'.g == s1.g
                               && s'.tags == s1.tags + if s1.g.t[r].size < Asize(size) + 128 + 256 then {Next(s1.g.t, r)} else {};
        ResizeIff(s, p, size, s1, r);
      }
    }
  }

  lemma MarkIs(s: Tagging, r: nat, size: Word)
    ensures r in s.g.t ==>
              Mark(s, r, BufferedSize(size)) ==
              Tagging(s.g, s.tags + if s.g.t[r].size < Asize(size) + 128 + 256 then {Next(s.g.t, r)} else {})
  {
    hide Asize;
  }

  lemma ReallocLawful(s: Tagging, p: nat, size: Word)
    requires Ok(s) && IsLive(s.g.t, FLOOR, p) && size + 15 + REALLOC_BUFFER < WORD_SPAN && (size != 0 ==> TagSupported(s, p, size))
    ensures ReallocLaw(s, p, size, TagRealloc(s, p, size).0, TagRealloc(s, p, size).1)
  {
    hide Ok, TagRealloc, ReallocLaw, TagSupported;
    ReallocIff(s, p, size, TagRealloc(s, p, size).0, TagRealloc(s, p, size).1);
  }

  // ----- which headers carry a tag after mm_realloc -----

  /** The tags of s that mm_realloc(p, size) leaves standing: all if p stays as it is; if it
      grows in place, all but its own and the one behind it; if it moves, all but the one
      behind it and, if the heap grows, that of the epilogue. */
  ghost function Kept(s: Tagging, p: nat, size: Word): set<nat>
    requires p in s.g.t
  {
    var a, n := Asize(size) + 128, Next(s.g.t, p);
    if a <= s.g.t[p].size then s.tags
    else if FreeAt(s.g.t, n) || n == s.g.hi then s.tags - {p} - {n}
    else if AnyTakable(s.g.t, s.tags, a) then s.tags - {n}
    else s.tags - {s.g.hi} - {n}
  }

  /** After a successful mm_realloc the header behind the result is tagged if and only if
      the result has less than 256 bytes to spare, or it was tagged before and the block
      stayed as it was; every other tag is one that was kept. */
  lemma ReallocTags(s: Tagging, p: nat, size: Word)
    requires Ok(s) && IsLive(s.g.t, FLOOR, p) && 0 < size && size + 15 + REALLOC_BUFFER < WORD_SPAN && TagSupported(s, p, size)
    ensures var (s', r) := TagRealloc(s, p, size);
            var a := Asize(size) + 128;
            r != NULL ==>
              && r in s'.g.t
              && s'.tags == Kept(s, p, size) + (if s'.g.t[r].size < a + 256 then {Next(s'.g.t, r)} else {})
              && (Next(s'.g.t, r) in s'.tags <==>
                  s'.g.t[r].size < a + 256 || (a <= s.g.t[p].size && Next(s.g.t, p) in s.tags))
              && (a + 256 <= s.g.t[p].size ==> s' == s)
  {
    hide Ok, Asize, TagResize, TagSupported, BufferedSize;
    TagResizeOk(s, p, size);
    var s1, r := TagResize(s, p, size).0, TagResize(s, p, size).1;
    if r != NULL {
      MarkIs(s1, r, size);
      ResizeTags(s, p, size);
    }
  }

  lemma ResizeTags(s: Tagging, p: nat, size: Word)
    requires Ok(s) && IsLive(s.g.t, FLOOR, p) && 0 < size && size + 15 + REALLOC_BUFFER < WORD_SPAN && TagSupported(s, p, size)
    ensures var (s1, r) := TagResize(s, p, size);
            r != NULL ==>
              && r in s1.g.t && s1.tags == Kept(s, p, size)
              && (if Asize(size) + 128 <= s.g.t[p].size then s1 == s && r == p else Next(s1.g.t, r) !in s1.tags)
  {
    hide Ok, Asize, TagGrowsInPlace, TagInPlace, TagMove, AnyTakable;
    BufferedSizeOk(size);
    var a := BufferedSize(size);
    if s.g.t[p].size < a {
      if NextIsOpen(s.g, p) {
        InPlaceTags(s, p, a);
      } else {
        MoveTags(s, p, a);
      }
    }
  }

  lemma InPlaceTags(s: Tagging, p: nat, newSize: Word)
    requires Ok(s) && IsLive(s.g.t, FLOOR, p) && newSize % 8 == 0
    requires TagGrowsInPlace(s, p, newSize) && newSize - s.g.t[p].size < INT_SPAN && NextIsOpen(s.g, p)
    ensures var (s', r) := TagInPlace(s, p, newSize);
            r != NULL ==> r == p && p in s'.g.t && s'.tags == s.tags - {p} - {Next(s.g.t, p)} && Next(s'.g.t, p) !in s'.tags
  {
    hide Remainder, Ok, TagGrowsInPlace, TagInPlace, EndsBehind, NextSize, ListsFollow, Around, Reach;
    InPlaceLawful(s, p, newSize);
    var rem := Remainder(s.g.t[p].size + NextSize(s.g.t, p), newSize);
    ReachIs(s, p);
    RemainderIs(s, p, newSize);
    ExtensionIsShortage(Reach(s.g.t, p), newSize);
    if rem >= 0 {
      BehindReach(s, p);
    } else {
      ExtensionReady(s, p, newSize, rem, Extension(rem));
      AtBreak(s, p);
    }
  }

  lemma BehindReach(s: Tagging, p: nat)
    requires Ok(s) && IsLive(s.g.t, FLOOR, p) && FreeAt(s.g.t, Next(s.g.t, p))
    ensures p + Reach(s.g.t, p) !in s.tags
  {
    hide ClassOf, Sorted;
    assert p + Reach(s.g.t, p) == Next(s.g.t, Next(s.g.t, p));
  }

  /** No tag stands beyond the break. */
  lemma AtBreak(s: Tagging, p: nat)
    requires Ok(s) && IsLive(s.g.t, FLOOR, p) && EndsBehind(s.g, p)
    ensures p + Reach(s.g.t, p) == s.g.hi && forall x: nat {:trigger x in s.tags} :: s.g.hi < x ==> x !in s.tags
  {
    hide ClassOf, Sorted;
    HaveAligned(s.g.t, s.g.hi, p);
    TagsInside(s);
  }

  lemma TagsInside(s: Tagging)
    requires Ok(s)
    ensures forall x: nat {:trigger x in s.tags} :: x in s.tags ==> (x in s.g.t && x < s.g.hi) || x == s.g.hi
  {
    hide ClassOf, Sorted;
    forall x: nat | x in s.tags && x in s.g.t
      ensures x < s.g.hi
    {
      assert BlockOk(s.g.t[x], x, LO, FLOOR, s.g.hi);
    }
  }

  lemma MoveTags(s: Tagging, p: nat, newSize: Word)
    requires Ok(s) && IsLive(s.g.t, FLOOR, p) && newSize % 8 == 0 && 16 <= newSize && newSize + 7 < WORD_SPAN
    requires AnyTakable(s.g.t, s.tags, newSize) || s.g.hi + GrowthFor(newSize) <= MAX_HEAP
    ensures var (s', r) := TagMove(s, p, newSize);
            && r in s'.g.t && Next(s'.g.t, r) !in s'.tags
            && s'.tags == (if AnyTakable(s.g.t, s.tags, newSize) then s.tags else s.tags - {s.g.hi}) - {Next(s.g.t, p)}
  {
    hide Ok, AnyTakable, TagMalloc, TagFree, LiveAdds, Moved, Asize;
    TagMoveOk(s, p, newSize);
    AsizeBack(newSize);
    var s1, r := TagMalloc(s, newSize - 8).0, TagMalloc(s, newSize - 8).1;
    GrantedUntagged(s, newSize - 8);
    TagFreeOk(s1, p);
    SameLive(s1.g.t, TagFree(s1, p).g.t, p, r);
  }

  lemma SameLive(t: Tiles, t': Tiles, p: nat, r: nat)
    requires LiveAdds(t', t, FLOOR, p) && IsLive(t, FLOOR, r) && r != p
    ensures r in t' && t'[r] == t[r]
  {
    assert IsLive(t', FLOOR, r);
  }

  /** The header behind a block that mm_malloc grants carries no tag. */
  lemma GrantedUntagged(s: Tagging, size: Word)
    requires Ok(s) && size + 15 < WORD_SPAN
    ensures var (s1, r) := TagMalloc(s, size);
            r != NULL ==>
              && r in s1.g.t && Next(s1.g.t, r) !in s1.tags
              && s1.tags == if AnyTakable(s.g.t, s.tags, Asize(size)) then s.tags else s.tags - {s.g.hi}
  {
    hide Ok, AnyTakable, TagMalloc, Asize, LowestTakable, BeginsAt, Carved;
    MallocLawful(s, size);
    var s1, r := TagMalloc(s, size).0, TagMalloc(s, size).1;
    if r != NULL {
      var b: nat :| MallocFrom(s, size, s1, r, b);
      var a := Asize(size);
      AsizeOk(size);
      if AnyTakable(s.g.t, s.tags, a) {
        LowestFree(s, a, b);
        CarvedUntagged(s, s1, a, b, Next(s.g.t, b), r);
      } else {
        LastFree(s, b);
        CarvedUntagged(s, s1, a, b, s1.g.hi, r);
      }
    }
  }

  lemma LowestFree(s: Tagging, a: nat, b: nat)
    requires Ok(s) && LowestTakable(s.g.t, s.tags, s.g.lists, a, b)
    ensures b in s.g.t && Next(s.g.t, b) !in s.tags && forall x: nat :: b < x < Next(s.g.t, b) ==> x !in s.tags
  {
    hide ClassOf, Sorted;
    var c :| 0 <= c < |s.g.lists| && FirstTakableOn(s.g.t, s.tags, s.g.lists[c], a, b) && NoneTakableBelow(s.g.t, s.tags, s.g.lists, c, a);
    FirstTakableIsOn(s.g.t, s.tags, s.g.lists[c], a, b);
    TagsInside(s);
    assert BlockOk(s.g.t[b], b, LO, FLOOR, s.g.hi);
  }

  lemma LastFree(s: Tagging, b: nat)
    requires Ok(s) && BeginsAt(s.g.t, s.tags, s.g.hi, b)
    ensures forall x: nat {:trigger x in s.tags} :: b < x && x != s.g.hi ==> x !in s.tags
  {
    hide ClassOf, Sorted;
    TagsInside(s);
    if b != s.g.hi {
      forall x: nat | x in s.g.t
        ensures x <= b || s.g.hi <= x
      {
        InOrder(s.g.t, LO, FLOOR, s.g.hi, b, x);
      }
    }
  }

  lemma CarvedUntagged(s: Tagging, s1: Tagging, a: nat, b: nat, e: nat, r: nat)
    requires Carved(s, s1, a, b, e, r) && 0 < a
    requires forall x: nat {:trigger x in s1.tags} :: b < x <= e ==> x !in s1.tags
    ensures r in s1.g.t && Next(s1.g.t, r) !in s1.tags
  {
    hide Ok, ListsFollow, Around;
  }

  /** mm_init leaves the heap that (98)정리.c starts with, and no tag: one free block of 64
      bytes. */
  lemma InitialIs()
    ensures Inv(Initial(64)) && TagInitial() == Tagging(Initial(64), {})
  {
    InitialOk(64);
    TagInitialOk();
    TagBareOk();
    hide Initial, ClassOf;
    ExtendEnds(TagBare(), INITCHUNKSIZE);
    var t := TagInitial().g.t;
    assert OneBlock(t, 16, 80, false) && Around(TagBare().g.t, t, 16, 80);
    hide TagInitial, Tiled, Sorted, Reserved;
    assert NoAdjacentFree(t);
    InitialIff(TagInitial().g, 64);
  }
}

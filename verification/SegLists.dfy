/** The array of segregated free lists in memory: insertion and removal. */
module SegLists {
  import opened Memory
  import opened Tiling
  import opened Tags
  import opened Links
  import opened SizeClasses

  /** Each list lies in memory behind its root. */
  ghost predicate Threaded(m: Mem, lists: Lists, roots: seq<nat>, s: Shape) {
    && |lists| == LISTLIMIT && |roots| == LISTLIMIT
    && forall c {:trigger lists[c]} {:trigger roots[c]} :: 0 <= c < LISTLIMIT ==> Linked(m, lists[c], roots[c], NULL, s)
  }

  ghost predicate ThreadedBut(m: Mem, lists: Lists, roots: seq<nat>, s: Shape, ex: nat) {
    && |lists| == LISTLIMIT && |roots| == LISTLIMIT
    && forall c {:trigger lists[c]} {:trigger roots[c]} :: 0 <= c < LISTLIMIT && c != ex ==> Linked(m, lists[c], roots[c], NULL, s)
  }

  /** GET_SIZE of every header gives the size of the block. */
  ghost predicate SizesReadable(m: Mem, t: Tiles) {
    forall x {:trigger t[x]} :: x in t ==> InMem(m, x - 4) && SizeOf(GetWord(m, x - 4)) == t[x].size
  }

  /** The link words of a free block can be written without disturbing tags, data or the
      lists the block is not on. */
  lemma NodeWrite(m: Mem, m': Mem, t: Tiles, lo: nat, floor: nat, hi: nat, lists: Lists, roots: seq<nat>,
                  s: Shape, ex: set<nat>, c: nat, x: nat, o: nat, v: int)
    requires Tiled(t, lo, floor, hi) && hi <= |m|
    requires Sorted(t, lists, ex) && ThreadedBut(m, lists, roots, s, c) && s.w == 8
    requires FreeAt(t, x) && (x in ex || ClassOf(t[x].size) == c) && o <= 4
    requires Wrote(m, m', x + o, v)
    ensures KeepsTags(m, m', t, hi) && KeepsLive(m, m', t, floor)
    ensures ThreadedBut(m', lists, roots, s, c)
  {
    hide GetWord, Linked;
    PayloadWriteKeepsTags(m, m', t, lo, floor, hi, x, x + o, v);
    forall d | 0 <= d < LISTLIMIT && d != c
      ensures Linked(m', lists[d], roots[d], NULL, s)
    {
      OtherList(m, m', t, lo, floor, hi, lists, roots, s, ex, d, x, o, v);
    }
  }

  lemma OtherList(m: Mem, m': Mem, t: Tiles, lo: nat, floor: nat, hi: nat, lists: Lists, roots: seq<nat>,
                  s: Shape, ex: set<nat>, d: nat, x: nat, o: nat, v: int)
    requires Tiled(t, lo, floor, hi) && hi <= |m|
    requires Sorted(t, lists, ex) && d < LISTLIMIT && |roots| == LISTLIMIT
    requires Linked(m, lists[d], roots[d], NULL, s) && s.w == 8
    requires FreeAt(t, x) && x !in lists[d] && o <= 4
    requires Wrote(m, m', x + o, v)
    ensures Linked(m', lists[d], roots[d], NULL, s)
  {
    hide GetWord, Linked, Wrote;
    var l: seq<nat> := lists[d];
    forall i | 0 <= i < |l|
      ensures x + o + 4 <= l[i] || l[i] + s.w <= x + o
    {
      assert l[i] in l && l[i] in t && l[i] != x;
      assert l[i] < x ==> l[i] + t[l[i]].size <= x;
      assert x < l[i] ==> x + t[x].size <= l[i];
    }
    OtherWrite(m, m', l, roots[d], NULL, s, x + o, v);
  }

  class SegregatedLists {
    const mem: MemLib
    const roots: array<nat>   // segregation_list
    const f: nat              // where a free block keeps its successor
    const b: nat              // where it keeps its predecessor
    ghost var lists: Lists

    constructor (mem: MemLib, f: nat, b: nat)
      requires (f == 0 && b == 4) || (f == 4 && b == 0)
      ensures this.mem == mem && this.f == f && this.b == b && Shaped()
      ensures fresh(roots)
    {
      this.mem, this.f, this.b := mem, f, b;
      roots := new nat[LISTLIMIT](_ => NULL);
      lists := seq(LISTLIMIT, _ => []);
    }

    ghost predicate Shaped() {
      roots.Length == LISTLIMIT && ((f == 0 && b == 4) || (f == 4 && b == 0))
    }

    ghost function Sh(): Shape {
      Shape(f, b, 8)
    }

    /** The lists are in memory and hold the free blocks of t outside ex by class. */
    ghost predicate Valid(t: Tiles, lo: nat, floor: nat, hi: nat, ex: set<nat>)
      reads this, mem, mem.data, roots
    {
      && Shaped() && mem.Valid() && hi <= MAX_HEAP
      && Tiled(t, lo, floor, hi)
      && Sorted(t, lists, ex)
      && Threaded(mem.data[..], lists, roots[..], Sh())
    }

    /** Lists to the empty state */
    method Reset()
      requires Shaped()
      modifies this, roots
      ensures lists == seq(LISTLIMIT, _ => []) && roots[..] == seq(LISTLIMIT, _ => NULL)
    {
      var list := 0;
      while list < LISTLIMIT
        invariant list <= LISTLIMIT
        invariant forall c :: 0 <= c < list ==> roots[c] == NULL
      {
        roots[list] := NULL;
        list := list + 1;
      }
      lists := seq(LISTLIMIT, _ => []);
    }

    /** The loop that selects the list for a size; left is the shifted size. */
    method SelectList(size: nat) returns (list: nat, left: nat)
      ensures list == ClassOf(size) && left == ShiftFrom(size, 0)
    {
      list, left := 0, size;
      while list < LISTLIMIT - 1 && left > 1
        invariant list < LISTLIMIT
        invariant ClassFrom(left, list) == ClassOf(size) && ShiftFrom(left, list) == ShiftFrom(size, 0)
        decreases LISTLIMIT - list
      {
        left := left / 2;
        list := list + 1;
      }
    }

    /** The search loop: the first block on the list that is not smaller than size, and
        the one before it. */
    method Search(list: nat, size: nat, ghost t: Tiles, ghost lo: nat, ghost floor: nat, ghost hi: nat, ghost ex: set<nat>)
      returns (searchPtr: nat, insertPtr: nat, ghost k: nat)
      requires Valid(t, lo, floor, hi, ex) && list < LISTLIMIT && SizesReadable(mem.data[..], t)
      ensures forall x :: x in lists[list] ==> x in t
      ensures k == InsertPos(t, lists[list], size, 0)
      ensures searchPtr == if InsertPos(t, lists[list], size, 0) < |lists[list]|
                           then lists[list][InsertPos(t, lists[list], size, 0)] else NULL
      ensures insertPtr == if InsertPos(t, lists[list], size, 0) > 0
                           then lists[list][InsertPos(t, lists[list], size, 0) - 1] else NULL
    {
      hide GetWord, Tiled, LinkWords;
      ghost var m, l := mem.data[..], lists[list];
      ListInTiling(t, lists, ex, list);
      searchPtr, insertPtr, k := roots[list], NULL, 0;
      assert Linked(m, l, roots[..][list], NULL, Sh());
      while searchPtr != NULL && size > GetSize(mem, searchPtr - 4)
        invariant k <= |l|
        invariant searchPtr == if k < |l| then l[k] else NULL
        invariant insertPtr == if k > 0 then l[k - 1] else NULL
        invariant InsertPos(t, l, size, k) == InsertPos(t, l, size, 0)
        invariant searchPtr != NULL ==> k < |l| && searchPtr in t && 4 <= searchPtr <= mem.data.Length
        decreases |l| - k
      {
        NodeAtOf(m, l, roots[list], NULL, Sh(), k);
        insertPtr := searchPtr;
        searchPtr := mem.Get(searchPtr + f);
        k := k + 1;
      }
    }

    /** The four ways of the insertion: between two blocks, at the head, at the tail, or
        into an empty list. */
    method Splice(list: nat, bp: nat, searchPtr: nat, insertPtr: nat, ghost k: nat,
                  ghost t: Tiles, ghost lo: nat, ghost floor: nat, ghost hi: nat, ghost ex: set<nat>)
      requires Valid(t, lo, floor, hi, ex) && FreeAt(t, bp) && bp in ex
      requires list < LISTLIMIT && k <= |lists[list]|
      requires searchPtr == if k < |lists[list]| then lists[list][k] else NULL
      requires insertPtr == if k > 0 then lists[list][k - 1] else NULL
      modifies `lists, roots, mem.data
      ensures Shaped() && Threaded(mem.data[..], lists, roots[..], Sh())
      ensures lists == old(lists)[list := InsertAt(old(lists)[list], k, bp)]
      ensures KeepsTags(old(mem.data[..]), mem.data[..], t, hi) && KeepsLive(old(mem.data[..]), mem.data[..], t, floor)
    {
      hide GetWord, Tiled, Linked, Sorted;
      ghost var m, l, r := mem.data[..], lists[list], roots[..];
      SpliceRoom(t, lo, floor, hi, m, lists, r, Sh(), ex, list, k, bp);
      mem.Put(bp + f, searchPtr);
      ghost var m1 := mem.data[..];
      mem.Put(bp + b, insertPtr);
      ghost var m2 := mem.data[..];
      ghost var m3 := m2;
      if searchPtr != NULL {
        mem.Put(searchPtr + b, bp);
        m3 := mem.data[..];
        if insertPtr != NULL {
          mem.Put(insertPtr + f, bp);
        } else {
          roots[list] := bp;
        }
      } else {
        if insertPtr != NULL {
          mem.Put(insertPtr + f, bp);
        } else {
          roots[list] := bp;
        }
      }
      assert LinkedIn(m, m1, m2, m3, mem.data[..], l, NULL, Sh(), k, bp);
      hide LinkedIn, Wrote;
      assert roots[..] == r[list := if k == 0 then bp else r[list]];
      SpliceThreaded(m, m1, m2, m3, mem.data[..], t, lo, floor, hi, lists, r, Sh(), ex, list, k, bp);
      lists := lists[list := InsertAt(l, k, bp)];
    }

    /** insert_block: bp goes to the head of the list of its class. */
    method InsertBlock(bp: nat, size: nat, ghost t: Tiles, ghost lo: nat, ghost floor: nat, ghost hi: nat, ghost ex: set<nat>)
      requires Valid(t, lo, floor, hi, ex) && SizesReadable(mem.data[..], t)
      requires FreeAt(t, bp) && bp in ex && t[bp].size == size
      modifies `lists, roots, mem.data
      ensures Valid(t, lo, floor, hi, ex - {bp})
      ensures lists == Put(old(lists), bp, size)
      ensures KeepsTags(old(mem.data[..]), mem.data[..], t, hi) && KeepsLive(old(mem.data[..]), mem.data[..], t, floor)
    {
      hide GetWord, Linked, SizesReadable, Sorted, BlocksOk, Chained, Apart;
      SizeBounds(t, lo, floor, hi);
      AlwaysAtHead(t, lists, ex, size);
      PutSorted(t, lists, ex, bp);
      var list, left := SelectList(size);
      var searchPtr, insertPtr, k := Search(list, left, t, lo, floor, hi, ex);
      assert InsertAt(lists[list], 0, bp) == [bp] + lists[list];
      Splice(list, bp, searchPtr, insertPtr, k, t, lo, floor, hi, ex);
    }

    /** remove_block */
    method RemoveBlock(bp: nat, ghost t: Tiles, ghost lo: nat, ghost floor: nat, ghost hi: nat, ghost ex: set<nat>)
      requires Valid(t, lo, floor, hi, ex) && SizesReadable(mem.data[..], t)
      requires FreeAt(t, bp) && bp !in ex
      modifies `lists, roots, mem.data
      ensures Valid(t, lo, floor, hi, ex + {bp})
      ensures lists == Take(old(lists), bp, t[bp].size)
      ensures KeepsTags(old(mem.data[..]), mem.data[..], t, hi) && KeepsLive(old(mem.data[..]), mem.data[..], t, floor)
    {
      hide GetWord, Linked, Sorted, BlocksOk, Chained, Apart;
      ghost var m := mem.data[..];
      assert bp in t;
      var size := GetSize(mem, bp - 4);
      var list, left := SelectList(size);
      TakeSorted(t, lists, ex, bp);
      ghost var k := UnlinkAt(bp, list, t, lo, floor, hi, ex);
    }

    /** The pointer updates of remove_block: in the middle, at the head, at the tail, alone. */
    method UnlinkAt(bp: nat, list: nat, ghost t: Tiles, ghost lo: nat, ghost floor: nat, ghost hi: nat, ghost ex: set<nat>)
      returns (ghost k: nat)
      requires Valid(t, lo, floor, hi, ex) && FreeAt(t, bp) && bp !in ex && list == ClassOf(t[bp].size)
      modifies `lists, roots, mem.data
      ensures Shaped() && Threaded(mem.data[..], lists, roots[..], Sh())
      ensures lists == old(lists)[list := Without(old(lists)[list], bp)]
      ensures KeepsTags(old(mem.data[..]), mem.data[..], t, hi) && KeepsLive(old(mem.data[..]), mem.data[..], t, floor)
    {
      hide GetWord, Tiled, Linked, Sorted, Without;
      ghost var m, l, r := mem.data[..], lists[list], roots[..];
      k := WhereListed(t, lo, floor, hi, m, lists, r, Sh(), ex, list, bp);
      var succ, pred := mem.Get(bp + f), mem.Get(bp + b);
      ghost var m1 := m;
      if succ != NULL {
        if pred != NULL {
          mem.Put(succ + b, pred);
          m1 := mem.data[..];
          mem.Put(pred + f, succ);
        } else {
          mem.Put(succ + b, NULL);
          m1 := mem.data[..];
          roots[list] := succ;
        }
      } else {
        if pred != NULL {
          mem.Put(pred + f, NULL);
        } else {
          roots[list] := NULL;
        }
      }
      assert UnlinkedBackward(m, m1, mem.data[..], l, NULL, Sh(), k);
      hide UnlinkedBackward, Wrote;
      assert roots[..] == r[list := if k == 0 then After(l, 0) else r[list]];
      UnlinkThreaded(m, m1, mem.data[..], t, lo, floor, hi, lists, r, Sh(), ex, list, k);
      lists := lists[list := RemoveAt(l, k)];
    }
  }

  lemma SizeBounds(t: Tiles, lo: nat, floor: nat, hi: nat)
    requires Tiled(t, lo, floor, hi)
    ensures forall x :: x in t ==> 1 <= t[x].size <= hi
  {
    forall x | x in t
      ensures 1 <= t[x].size <= hi
    {
      assert BlockOk(t[x], x, lo, floor, hi);
    }
  }

  /** Where block bp stands on its list and what its links say. */
  lemma WhereListed(t: Tiles, lo: nat, floor: nat, hi: nat, m: Mem, lists: Lists, roots: seq<nat>, s: Shape, ex: set<nat>,
                    c: nat, bp: nat) returns (k: nat)
    requires Tiled(t, lo, floor, hi) && Sorted(t, lists, ex) && Threaded(m, lists, roots, s) && s.w == 8
    requires FreeAt(t, bp) && bp !in ex && c == ClassOf(t[bp].size)
    ensures k < |lists[c]| && lists[c][k] == bp && Without(lists[c], bp) == RemoveAt(lists[c], k)
    ensures bp + 8 <= |m| && GetWord(m, bp + s.f) == After(lists[c], k) && GetWord(m, bp + s.b) == Before(lists[c], k, NULL)
    ensures forall i {:trigger lists[c][i]} :: 0 <= i < |lists[c]| ==> lists[c][i] != NULL && lists[c][i] + 8 <= |m|
    ensures roots[c] == First(lists[c])
  {
    hide GetWord, LinkWords;
    var l: seq<nat> := lists[c];
    assert bp in l;
    k := IndexOf(l, bp);
    assert Linked(m, l, roots[c], NULL, s);
    NodeAtOf(m, l, roots[c], NULL, s, k);
  }

  lemma UnlinkThreaded(m: Mem, m1: Mem, m2: Mem, t: Tiles, lo: nat, floor: nat, hi: nat,
                       lists: Lists, roots: seq<nat>, s: Shape, ex: set<nat>, c: nat, k: nat)
    requires Tiled(t, lo, floor, hi) && hi <= |m| && Sorted(t, lists, ex) && Threaded(m, lists, roots, s)
    requires ShapeOk(s) && s.w == 8 && s.f <= 4 && s.b <= 4
    requires c < LISTLIMIT && k < |lists[c]| && |m1| == |m2| == |m|
    requires UnlinkedBackward(m, m1, m2, lists[c], NULL, s, k)
    ensures Threaded(m2, lists[c := RemoveAt(lists[c], k)], roots[c := if k == 0 then After(lists[c], 0) else roots[c]], s)
    ensures KeepsTags(m, m2, t, hi) && KeepsLive(m, m2, t, floor)
  {
    hide GetWord, Linked, Wrote, Sorted, Tiled, KeepsTags, KeepsLive;
    var l := lists[c];
    assert Linked(m, l, roots[c], NULL, s);
    Unlink(m, m1, m2, l, roots[c], NULL, s, k);
    KeepsTagsRefl(m, t, hi);
    KeepsLiveRefl(m, t, floor);
    ListedAt(t, lists, ex, c);
    if k + 1 < |l| {
      NodeWrite(m, m1, t, lo, floor, hi, lists, roots, s, ex, c, l[k + 1], s.b, Before(l, k, NULL));
    }
    if k > 0 {
      NodeWrite(m1, m2, t, lo, floor, hi, lists, roots, s, ex, c, l[k - 1], s.f, After(l, k));
      KeepsBothTrans(m, m1, m2, t, floor, hi);
    }
  }

  lemma ListedAt(t: Tiles, lists: Lists, ex: set<nat>, c: nat)
    requires Sorted(t, lists, ex) && c < LISTLIMIT
    ensures forall i {:trigger lists[c][i]} :: 0 <= i < |lists[c]| ==>
              FreeAt(t, lists[c][i]) && ClassOf(t[lists[c][i]].size) == c
  {
    forall i | 0 <= i < |lists[c]|
      ensures FreeAt(t, lists[c][i]) && ClassOf(t[lists[c][i]].size) == c
    {
      assert lists[c][i] in lists[c];
    }
  }

  /** bp keeps clear of the nodes of every list. */
  lemma SpliceRoom(t: Tiles, lo: nat, floor: nat, hi: nat, m: Mem, lists: Lists, roots: seq<nat>, s: Shape, ex: set<nat>,
                   c: nat, k: nat, bp: nat)
    requires Tiled(t, lo, floor, hi) && hi <= |m| && Sorted(t, lists, ex) && Threaded(m, lists, roots, s) && s.w == 8
    requires FreeAt(t, bp) && bp in ex && c < LISTLIMIT && k <= |lists[c]|
    ensures 0 < bp && bp + 16 <= |m|
    ensures forall i {:trigger lists[c][i]} :: 0 <= i < |lists[c]| ==>
              lists[c][i] != NULL && lists[c][i] + 8 <= |m| && FreeAt(t, lists[c][i]) && ClassOf(t[lists[c][i]].size) == c
              && (bp + 8 <= lists[c][i] || lists[c][i] + 8 <= bp)
    ensures roots[c] == First(lists[c])
  {
    hide GetWord, LinkWords;
    var l: seq<nat> := lists[c];
    assert Linked(m, l, roots[c], NULL, s);
    forall i | 0 <= i < |l|
      ensures l[i] != NULL && l[i] + 8 <= |m| && FreeAt(t, l[i]) && ClassOf(t[l[i]].size) == c
      ensures bp + 8 <= l[i] || l[i] + 8 <= bp
    {
      assert l[i] in l;
      assert l[i] < bp ==> l[i] + t[l[i]].size <= bp;
      assert bp < l[i] ==> bp + t[bp].size <= l[i];
    }
  }

  lemma SpliceThreaded(m: Mem, m1: Mem, m2: Mem, m3: Mem, m4: Mem, t: Tiles, lo: nat, floor: nat, hi: nat,
                       lists: Lists, roots: seq<nat>, s: Shape, ex: set<nat>, c: nat, k: nat, bp: nat)
    requires Tiled(t, lo, floor, hi) && hi <= |m| && Sorted(t, lists, ex) && Threaded(m, lists, roots, s)
    requires ShapeOk(s) && s.w == 8 && s.f <= 4 && s.b <= 4
    requires FreeAt(t, bp) && bp in ex && c < LISTLIMIT && k <= |lists[c]|
    requires |m1| == |m2| == |m3| == |m4| == |m|
    requires LinkedIn(m, m1, m2, m3, m4, lists[c], NULL, s, k, bp)
    ensures Threaded(m4, lists[c := InsertAt(lists[c], k, bp)], roots[c := if k == 0 then bp else roots[c]], s)
    ensures KeepsTags(m, m4, t, hi) && KeepsLive(m, m4, t, floor)
  {
    hide GetWord, Linked, Wrote, Sorted;
    SpliceRoom(t, lo, floor, hi, m, lists, roots, s, ex, c, k, bp);
    assert Linked(m, lists[c], roots[c], NULL, s);
    LinkIn(m, m1, m2, m3, m4, lists[c], roots[c], NULL, s, k, bp);
    SpliceOthers(m, m1, m2, m3, m4, t, lo, floor, hi, lists, roots, s, ex, c, k, bp);
  }

  lemma SpliceOthers(m: Mem, m1: Mem, m2: Mem, m3: Mem, m4: Mem, t: Tiles, lo: nat, floor: nat, hi: nat,
                     lists: Lists, roots: seq<nat>, s: Shape, ex: set<nat>, c: nat, k: nat, bp: nat)
    requires Tiled(t, lo, floor, hi) && hi <= |m| && Sorted(t, lists, ex) && ThreadedBut(m, lists, roots, s, c)
    requires ShapeOk(s) && s.w == 8 && s.f <= 4 && s.b <= 4
    requires FreeAt(t, bp) && bp in ex && c < LISTLIMIT && k <= |lists[c]|
    requires forall i {:trigger lists[c][i]} :: 0 <= i < |lists[c]| ==>
               FreeAt(t, lists[c][i]) && ClassOf(t[lists[c][i]].size) == c
    requires |m1| == |m2| == |m3| == |m4| == |m|
    requires LinkedIn(m, m1, m2, m3, m4, lists[c], NULL, s, k, bp)
    ensures ThreadedBut(m4, lists, roots, s, c)
    ensures KeepsTags(m, m4, t, hi) && KeepsLive(m, m4, t, floor)
  {
    hide GetWord, Linked, Wrote, Sorted, Tiled, KeepsTags, KeepsLive;
    var l := lists[c];
    NodeWrite(m, m1, t, lo, floor, hi, lists, roots, s, ex, c, bp, s.f, if k < |l| then l[k] else NULL);
    NodeWrite(m1, m2, t, lo, floor, hi, lists, roots, s, ex, c, bp, s.b, if k > 0 then l[k - 1] else NULL);
    KeepsBothTrans(m, m1, m2, t, floor, hi);
    if k < |l| {
      NodeWrite(m2, m3, t, lo, floor, hi, lists, roots, s, ex, c, l[k], s.b, bp);
      KeepsBothTrans(m, m2, m3, t, floor, hi);
    }
    if k > 0 {
      NodeWrite(m3, m4, t, lo, floor, hi, lists, roots, s, ex, c, l[k - 1], s.f, bp);
      KeepsBothTrans(m, m3, m4, t, floor, hi);
    }
  }

  lemma ListInTiling(t: Tiles, lists: Lists, ex: set<nat>, c: nat)
    requires Sorted(t, lists, ex) && c < LISTLIMIT
    ensures forall x :: x in lists[c] ==> x in t && FreeAt(t, x)
  {
  }

  lemma NodeAtOf(m: Mem, l: seq<nat>, head: nat, root: nat, s: Shape, k: nat)
    requires Linked(m, l, head, root, s) && k < |l|
    ensures l[k] + s.w <= |m| && 0 < l[k]
    ensures GetWord(m, l[k] + s.f) == After(l, k) && GetWord(m, l[k] + s.b) == Before(l, k, root)
  {
    hide GetWord;
    assert NodeAt(m, l, k, root, s);
  }
}

/** Boundary tags with a reallocation bit: bit 1 of a header says whether the block is
    reserved; the same bit of a footer is whatever was there before. */
module TagBits {
  import opened Memory
  import opened Tiling
  import opened Tags
  import opened Links
  import opened SizeClasses
  import opened SegLists
  import opened SegHeap

  /** GET_TAG of a tag word */
  function TagOf(w: int): bool {
    (w / 2) % 2 == 1
  }

  /** A tag word with the reallocation bit */
  function PackTag(size: nat, alloc: bool, tag: bool): nat {
    Pack(size, alloc) + if tag then 2 else 0
  }

  lemma PackTagParts(size: nat, alloc: bool, tag: bool)
    requires size % 8 == 0
    ensures SizeOf(PackTag(size, alloc, tag)) == size && AllocOf(PackTag(size, alloc, tag)) == alloc
    ensures TagOf(PackTag(size, alloc, tag)) == tag
  {
    var k := size / 8;
    assert size == 8 * k;
    var low := (if alloc then 1 else 0) + if tag then 2 else 0;
    assert PackTag(size, alloc, tag) == 8 * k + low;
    assert (8 * k + low) % 8 == low && (8 * k + low) / 2 == 4 * k + low / 2;
    Odd(4 * k);
    Odd(2 * k);
    assert (8 * k + low) == 2 * (4 * k + low / 2) + low % 2;
  }

  /** The header of p is exact; its footer tells size and allocation. */
  ghost predicate HeadAt(m: Mem, p: nat, b: Block, tag: bool) {
    InMem(m, p - 4) && GetWord(m, p - 4) == PackTag(b.size, b.alloc, tag)
  }

  ghost predicate FootAt(m: Mem, p: nat, b: Block) {
    && InMem(m, p + b.size - 8)
    && SizeOf(GetWord(m, p + b.size - 8)) == b.size && AllocOf(GetWord(m, p + b.size - 8)) == b.alloc
  }

  ghost predicate BitsBut(m: Mem, t: Tiles, tags: set<nat>, ex: set<nat>) {
    forall p {:trigger t[p]} {:trigger p in t} :: p in t && p !in ex ==> HeadAt(m, p, t[p], p in tags) && FootAt(m, p, t[p])
  }

  ghost predicate EndAt(m: Mem, hi: nat, tags: set<nat>) {
    4 <= hi <= |m| && GetWord(m, hi - 4) == PackTag(0, true, hi in tags)
  }

  /** The heap up to hi holds the blocks of t, and the headers of tags carry the bit. */
  ghost predicate Holds(m: Mem, t: Tiles, tags: set<nat>, hi: nat) {
    BitsBut(m, t, tags, {}) && EndAt(m, hi, tags)
  }

  lemma StillHolds(m: Mem, m': Mem, t: Tiles, tags: set<nat>, hi: nat)
    requires Holds(m, t, tags, hi) && KeepsTags(m, m', t, hi)
    ensures Holds(m', t, tags, hi)
  {
    hide GetWord;
    forall p | p in t
      ensures HeadAt(m', p, t[p], p in tags) && FootAt(m', p, t[p])
    {
      assert HeadAt(m, p, t[p], p in tags) && FootAt(m, p, t[p]);
    }
  }

  lemma HoldsReadable(m: Mem, t: Tiles, tags: set<nat>, lo: nat, floor: nat, hi: nat)
    requires Tiled(t, lo, floor, hi) && Holds(m, t, tags, hi)
    ensures SizesReadable(m, t)
  {
    hide GetWord;
    forall x | x in t
      ensures InMem(m, x - 4) && SizeOf(GetWord(m, x - 4)) == t[x].size
    {
      assert BlockOk(t[x], x, lo, floor, hi);
      assert HeadAt(m, x, t[x], x in tags);
      PackTagParts(t[x].size, t[x].alloc, x in tags);
    }
  }

  /** What the header at a block boundary says. */
  lemma ReadHead(m: Mem, t: Tiles, tags: set<nat>, lo: nat, floor: nat, hi: nat, p: nat)
    requires Tiled(t, lo, floor, hi) && Holds(m, t, tags, hi) && (p in t || p == hi)
    ensures 8 <= p <= hi <= |m|
    ensures SizeOf(GetWord(m, p - 4)) == if p in t then t[p].size else 0
    ensures AllocOf(GetWord(m, p - 4)) == !FreeAt(t, p) && TagOf(GetWord(m, p - 4)) == (p in tags)
    ensures p in t ==> p + t[p].size <= hi && 0 < t[p].size
  {
    hide GetWord;
    if p in t {
      assert BlockOk(t[p], p, lo, floor, hi);
      assert HeadAt(m, p, t[p], p in tags);
      PackTagParts(t[p].size, t[p].alloc, p in tags);
    } else {
      PackTagParts(0, true, p in tags);
    }
  }

  /** The footer in front of p leads to the block before it. */
  lemma ReadPrev(m: Mem, t: Tiles, tags: set<nat>, lo: nat, floor: nat, hi: nat, p: nat)
    requires Tiled(t, lo, floor, hi) && Holds(m, t, tags, hi) && (p in t || p == hi) && p > lo
    ensures 8 <= p <= |m| && SizeOf(GetWord(m, p - 8)) == p - Prev(t, lo, floor, hi, p)
  {
    hide GetWord;
    var q := Prev(t, lo, floor, hi, p);
    assert FootAt(m, q, t[q]);
  }

  /** A write over a tag word of p leaves every other block's tags, the other tag of p, the
      epilogue and the clients' data alone. */
  lemma TagWrite(m: Mem, m': Mem, t: Tiles, lo: nat, floor: nat, hi: nat, p: nat, q: nat, v: int)
    requires Tiled(t, lo, floor, hi) && hi <= |m| && p in t && (q == p - 4 || q == p + t[p].size - 8)
    requires Wrote(m, m', q, v)
    ensures forall x: nat :: x in t && x != p ==>
              GetWord(m', x - 4) == GetWord(m, x - 4) && GetWord(m', x + t[x].size - 8) == GetWord(m, x + t[x].size - 8)
    ensures q == p - 4 ==> GetWord(m', p + t[p].size - 8) == GetWord(m, p + t[p].size - 8)
    ensures q == p + t[p].size - 8 ==> GetWord(m', p - 4) == GetWord(m, p - 4)
    ensures GetWord(m', hi - 4) == GetWord(m, hi - 4)
    ensures KeepsLive(m, m', t, floor)
  {
    hide GetWord;
    forall x: nat | x in t && x != p
      ensures GetWord(m', x - 4) == GetWord(m, x - 4) && GetWord(m', x + t[x].size - 8) == GetWord(m, x + t[x].size - 8)
    {
      assert x < p ==> x + t[x].size <= p;
      assert p < x ==> p + t[p].size <= x;
    }
    assert BlockOk(t[p], p, lo, floor, hi);
    TagWriteLive(m, m', t, lo, floor, hi, p, q, v);
  }

  lemma TagWriteLive(m: Mem, m': Mem, t: Tiles, lo: nat, floor: nat, hi: nat, p: nat, q: nat, v: int)
    requires Tiled(t, lo, floor, hi) && hi <= |m| && p in t && (q == p - 4 || q == p + t[p].size - 8)
    requires Wrote(m, m', q, v)
    ensures KeepsLive(m, m', t, floor)
  {
    hide GetWord;
    forall x: nat, a: nat | IsLive(t, floor, x) && x <= a < x + t[x].size - 8 && a < |m|
      ensures m'[a] == m[a]
    {
      assert x < p ==> x + t[x].size <= p;
      assert p < x ==> p + t[p].size <= x;
    }
  }

  /** PUT(p, PACK(size, alloc)): the reallocation bit at p survives. */
  method PutKeeping(mem: MemLib, p: nat, size: nat, alloc: bool)
    requires mem.Valid() && p + 4 <= MAX_HEAP && size % 8 == 0 && size <= MAX_HEAP
    modifies mem.data
    ensures Wrote(old(mem.data[..]), mem.data[..], p, PackTag(size, alloc, TagOf(GetWord(old(mem.data[..]), p))))
  {
    hide GetWord;
    mem.Put(p, PackTag(size, alloc, TagOf(mem.Get(p))));
  }

  /** PUT_NOTAG(p, PACK(size, alloc)) */
  method PutNoTag(mem: MemLib, p: nat, size: nat, alloc: bool)
    requires mem.Valid() && p + 4 <= MAX_HEAP && size % 8 == 0 && size <= MAX_HEAP
    modifies mem.data
    ensures Wrote(old(mem.data[..]), mem.data[..], p, PackTag(size, alloc, false))
  {
    hide GetWord;
    mem.Put(p, Pack(size, alloc));
  }

  /** The header and footer of p were written, whatever the bits. */
  ghost predicate PairWritten(m: Mem, m1: Mem, m2: Mem, p: nat, b: Block) {
    && 4 <= p && InMem(m1, p - 4) && InMem(m2, p + b.size - 8)
    && Wrote(m, m1, p - 4, GetWord(m1, p - 4)) && Wrote(m1, m2, p + b.size - 8, GetWord(m2, p + b.size - 8))
  }

  /** The two writes that give block bp its tags, by PUT or by PUT_NOTAG.  No footer bit
      ever reaches a header: a header keeps its own bit or loses it. */
  method PutPair(mem: MemLib, bp: nat, size: nat, alloc: bool, keep: bool,
                 ghost t: Tiles, ghost tags: set<nat>, ghost lo: nat, ghost floor: nat, ghost hi: nat, ghost ex: set<nat>)
    returns (ghost m1: Mem)
    requires Tiled(t, lo, floor, hi) && mem.Valid() && hi <= MAX_HEAP
    requires bp in t && t[bp] == Block(size, alloc) && BitsBut(mem.data[..], t, tags, ex)
    requires InMem(mem.data[..], bp - 4)
    requires if keep then TagOf(GetWord(mem.data[..], bp - 4)) == (bp in tags) else bp !in tags
    modifies mem.data
    ensures BitsBut(mem.data[..], t, tags, ex - {bp})
    ensures KeepsLive(old(mem.data[..]), mem.data[..], t, floor)
    ensures GetWord(mem.data[..], hi - 4) == GetWord(old(mem.data[..]), hi - 4)
    ensures PairWritten(old(mem.data[..]), m1, mem.data[..], bp, t[bp])
  {
    hide GetWord, BitsBut, PackTag, Tiled;
    ghost var m := mem.data[..];
    PairBounds(t, lo, floor, hi, bp);
    PackTagParts(size, alloc, bp in tags);
    if keep {
      PutKeeping(mem, bp - 4, size, alloc);
      m1 := mem.data[..];
      var ftrp := Ftrp(mem, bp);
      PutKeeping(mem, ftrp, size, alloc);
      PackTagParts(size, alloc, TagOf(GetWord(m1, bp + size - 8)));
    } else {
      PutNoTag(mem, bp - 4, size, alloc);
      m1 := mem.data[..];
      var ftrp := Ftrp(mem, bp);
      PutNoTag(mem, ftrp, size, alloc);
      PackTagParts(size, alloc, false);
    }
    PairTagged(m, m1, mem.data[..], t, tags, lo, floor, hi, bp, ex);
  }

  lemma PairBounds(t: Tiles, lo: nat, floor: nat, hi: nat, p: nat)
    requires Tiled(t, lo, floor, hi) && p in t
    ensures 8 <= p && p + t[p].size <= hi && 8 <= t[p].size && t[p].size % 8 == 0
  {
    assert BlockOk(t[p], p, lo, floor, hi);
  }

  lemma PairTagged(m: Mem, m1: Mem, m2: Mem, t: Tiles, tags: set<nat>, lo: nat, floor: nat, hi: nat, p: nat, ex: set<nat>)
    requires Tiled(t, lo, floor, hi) && hi <= |m| && p in t && BitsBut(m, t, tags, ex)
    requires PairWritten(m, m1, m2, p, t[p]) && |m1| == |m| && |m2| == |m|
    requires GetWord(m1, p - 4) == PackTag(t[p].size, t[p].alloc, p in tags)
    requires SizeOf(GetWord(m2, p + t[p].size - 8)) == t[p].size && AllocOf(GetWord(m2, p + t[p].size - 8)) == t[p].alloc
    ensures BitsBut(m2, t, tags, ex - {p}) && KeepsLive(m, m2, t, floor) && GetWord(m2, hi - 4) == GetWord(m, hi - 4)
  {
    hide GetWord, PackTag, KeepsLive;
    PairBounds(t, lo, floor, hi, p);
    TagWrite(m, m1, t, lo, floor, hi, p, p - 4, GetWord(m1, p - 4));
    TagWrite(m1, m2, t, lo, floor, hi, p, p + t[p].size - 8, GetWord(m2, p + t[p].size - 8));
    KeepsLiveTrans(m, m1, m2, t, t, floor);
    hide Tiled, Wrote;
    forall x | x in t && x !in ex - {p}
      ensures HeadAt(m2, x, t[x], x in tags) && FootAt(m2, x, t[x])
    {
      if x != p {
        assert HeadAt(m, x, t[x], x in tags) && FootAt(m, x, t[x]);
      }
    }
  }

  /** Tags and lists do not overlap. */
  lemma PairKeepsThreaded(m: Mem, m1: Mem, m2: Mem, t: Tiles, lo: nat, floor: nat, hi: nat, p: nat,
                          lists: Lists, roots: seq<nat>, s: Shape, ex: set<nat>)
    requires Tiled(t, lo, floor, hi) && p in t && PairWritten(m, m1, m2, p, t[p])
    requires Sorted(t, lists, ex) && Threaded(m, lists, roots, s) && s.w == 8
    ensures Threaded(m2, lists, roots, s)
  {
    hide PairWritten, Linked, Tiled;
    forall c | 0 <= c < LISTLIMIT
      ensures Linked(m2, lists[c], roots[c], NULL, s)
    {
      ListsRoomy(t, lo, floor, hi, lists, ex, c);
      hide Sorted;
      PairKeepsLinks(m, m1, m2, t, lo, floor, hi, p, lists[c], roots[c], NULL, s);
    }
  }

  lemma PairKeepsLinks(m: Mem, m1: Mem, m2: Mem, t: Tiles, lo: nat, floor: nat, hi: nat, p: nat,
                       l: seq<nat>, head: nat, root: nat, s: Shape)
    requires Tiled(t, lo, floor, hi) && p in t && PairWritten(m, m1, m2, p, t[p])
    requires Linked(m, l, head, root, s) && Roomy(t, l, s.w)
    ensures Linked(m2, l, head, root, s)
  {
    hide GetWord, Linked, Wrote;
    HeaderKeepsLinks(m, m1, t, lo, floor, hi, p, p - 4, GetWord(m1, p - 4), l, head, root, s);
    HeaderKeepsLinks(m1, m2, t, lo, floor, hi, p, p + t[p].size - 8, GetWord(m2, p + t[p].size - 8), l, head, root, s);
  }

  lemma HeaderKeepsLinks(m: Mem, m': Mem, t: Tiles, lo: nat, floor: nat, hi: nat, p: nat, q: nat, v: int,
                         l: seq<nat>, head: nat, root: nat, s: Shape)
    requires Tiled(t, lo, floor, hi) && p in t && (q + 4 == p || q + 8 == p + t[p].size) && Wrote(m, m', q, v)
    requires Linked(m, l, head, root, s) && Roomy(t, l, s.w)
    ensures Linked(m', l, head, root, s)
  {
    hide GetWord, Linked, Wrote;
    forall i | 0 <= i < |l|
      ensures q + 4 <= l[i] || l[i] + s.w <= q
    {
      assert l[i] in t;
      assert l[i] < p ==> l[i] + t[l[i]].size <= p;
      assert p < l[i] ==> p + t[p].size <= l[i];
    }
    OtherWrite(m, m', l, head, root, s, q, v);
  }
}

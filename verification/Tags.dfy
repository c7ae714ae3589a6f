/** How a tiling is written into memory, and what a write can disturb. */
module Tags {
  import opened Memory
  import opened Tiling
  import opened Links

  /** Header and footer of block p both hold its size and allocation bit. */
  ghost predicate Tagged(m: Mem, p: nat, b: Block) {
    && InMem(m, p - 4) && InMem(m, p + b.size - 8)
    && GetWord(m, p - 4) == Pack(b.size, b.alloc)
    && GetWord(m, p + b.size - 8) == Pack(b.size, b.alloc)
  }

  ghost predicate TaggedBut(m: Mem, t: Tiles, ex: set<nat>) {
    forall p {:trigger t[p]} {:trigger p in t} :: p in t && p !in ex ==> Tagged(m, p, t[p])
  }

  ghost predicate Epilogue(m: Mem, hi: nat) {
    4 <= hi <= |m| && GetWord(m, hi - 4) == Pack(0, true)
  }

  /** The heap up to hi holds exactly the blocks of t. */
  ghost predicate Represents(m: Mem, t: Tiles, hi: nat) {
    TaggedBut(m, t, {}) && Epilogue(m, hi)
  }

  /** No byte of a live payload differs between m and m'. */
  ghost predicate KeepsLive(m: Mem, m': Mem, t: Tiles, floor: nat) {
    && |m'| == |m|
    && forall p: nat, a: nat {:trigger IsLive(t, floor, p), m'[a]} ::
         IsLive(t, floor, p) && p <= a < p + t[p].size - 8 && a < |m| ==> m'[a] == m[a]
  }

  lemma KeepsLiveRefl(m: Mem, t: Tiles, floor: nat)
    ensures KeepsLive(m, m, t, floor)
  {
  }

  lemma KeepsLiveSub(m: Mem, m': Mem, t: Tiles, t': Tiles, floor: nat)
    requires KeepsLive(m, m', t', floor) && LiveWithin(t, t', floor)
    ensures KeepsLive(m, m', t, floor)
  {
    forall p: nat, a: nat | IsLive(t, floor, p) && p <= a < p + t[p].size - 8 && a < |m|
      ensures m'[a] == m[a]
    {
      assert IsLive(t', floor, p);
    }
  }

  lemma KeepsLiveTrans(m: Mem, m1: Mem, m2: Mem, t: Tiles, t': Tiles, floor: nat)
    requires KeepsLive(m, m1, t, floor) && KeepsLive(m1, m2, t', floor)
    requires LiveWithin(t, t', floor)
    ensures KeepsLive(m, m2, t, floor)
  {
    forall p: nat, a: nat | IsLive(t, floor, p) && p <= a < p + t[p].size - 8 && a < |m|
      ensures m2[a] == m[a]
    {
      assert IsLive(t', floor, p);
      assert m1[a] == m[a];
    }
  }

  /** A write inside the extent of block p disturbs no other block, and none at all
      if it hits the payload of a free block or a tag of p. */
  lemma BlockWrite(m: Mem, m': Mem, t: Tiles, lo: nat, floor: nat, hi: nat, p: nat, q: nat, v: int)
    requires Tiled(t, lo, floor, hi) && hi <= |m|
    requires p in t && p - 4 <= q <= p + t[p].size - 8
    requires Wrote(m, m', q, v)
    ensures forall x :: x in t && x != p && Tagged(m, x, t[x]) ==> Tagged(m', x, t[x])
    ensures p <= q <= p + t[p].size - 12 && Tagged(m, p, t[p]) ==> Tagged(m', p, t[p])
    ensures !IsLive(t, floor, p) || q == p - 4 || q == p + t[p].size - 8 ==> KeepsLive(m, m', t, floor)
    ensures GetWord(m', hi - 4) == GetWord(m, hi - 4)
  {
    hide GetWord;
    forall x | x in t && x != p && Tagged(m, x, t[x])
      ensures Tagged(m', x, t[x])
    {
      assert x < p ==> x + t[x].size <= p;
      assert p < x ==> p + t[p].size <= x;
    }
    if !IsLive(t, floor, p) || q == p - 4 || q == p + t[p].size - 8 {
      forall x: nat, a: nat | IsLive(t, floor, x) && x <= a < x + t[x].size - 8 && a < |m|
        ensures m'[a] == m[a]
      {
        assert x < p ==> x + t[x].size <= p;
        assert p < x ==> p + t[p].size <= x;
      }
    }
  }

  /** Writing header and footer of p puts p in order. */
  lemma TagPair(m: Mem, m1: Mem, m2: Mem, t: Tiles, lo: nat, floor: nat, hi: nat, p: nat, ex: set<nat>)
    requires Tiled(t, lo, floor, hi) && hi <= |m| <= MAX_HEAP
    requires p in t && TaggedBut(m, t, ex)
    requires Wrote(m, m1, p - 4, Pack(t[p].size, t[p].alloc))
    requires Wrote(m1, m2, p + t[p].size - 8, Pack(t[p].size, t[p].alloc))
    ensures TaggedBut(m2, t, ex - {p})
    ensures KeepsLive(m, m2, t, floor)
    ensures GetWord(m2, hi - 4) == GetWord(m, hi - 4)
  {
    hide GetWord;
    BlockWrite(m, m1, t, lo, floor, hi, p, p - 4, Pack(t[p].size, t[p].alloc));
    BlockWrite(m1, m2, t, lo, floor, hi, p, p + t[p].size - 8, Pack(t[p].size, t[p].alloc));
    assert Tagged(m2, p, t[p]);
    forall x | x in t && x !in ex - {p}
      ensures Tagged(m2, x, t[x])
    {
      if x != p {
        assert Tagged(m, x, t[x]);
        assert Tagged(m1, x, t[x]);
      }
    }
    KeepsLiveTrans(m, m1, m2, t, t, floor);
  }

  /** No tag word of t and no epilogue differs between m and m'. */
  ghost predicate KeepsTags(m: Mem, m': Mem, t: Tiles, hi: nat) {
    && |m'| == |m|
    && (forall p {:trigger t[p]} :: p in t && InMem(m, p - 4) && InMem(m, p + t[p].size - 8) ==>
          && GetWord(m', p - 4) == GetWord(m, p - 4)
          && GetWord(m', p + t[p].size - 8) == GetWord(m, p + t[p].size - 8))
    && (InMem(m, hi - 4) ==> GetWord(m', hi - 4) == GetWord(m, hi - 4))
  }

  lemma KeepsTagsTrans(m: Mem, m1: Mem, m2: Mem, t: Tiles, hi: nat)
    requires KeepsTags(m, m1, t, hi) && KeepsTags(m1, m2, t, hi)
    ensures KeepsTags(m, m2, t, hi)
  {
    hide GetWord;
  }

  lemma KeepsTagsRefl(m: Mem, t: Tiles, hi: nat)
    ensures KeepsTags(m, m, t, hi)
  {
  }

  lemma StillRepresents(m: Mem, m': Mem, t: Tiles, hi: nat)
    requires Represents(m, t, hi) && KeepsTags(m, m', t, hi)
    ensures Represents(m', t, hi)
  {
    hide GetWord;
    forall p | p in t
      ensures Tagged(m', p, t[p])
    {
      assert Tagged(m, p, t[p]);
    }
  }

  /** A write inside a block's payload hits no tag. */
  lemma PayloadWriteKeepsTags(m: Mem, m': Mem, t: Tiles, lo: nat, floor: nat, hi: nat, x: nat, q: nat, v: int)
    requires Tiled(t, lo, floor, hi) && hi <= |m|
    requires x in t && x <= q && q + 12 <= x + t[x].size
    requires Wrote(m, m', q, v)
    ensures KeepsTags(m, m', t, hi)
    ensures !IsLive(t, floor, x) ==> KeepsLive(m, m', t, floor)
  {
    hide GetWord;
    forall p | p in t
      ensures GetWord(m', p - 4) == GetWord(m, p - 4)
      ensures GetWord(m', p + t[p].size - 8) == GetWord(m, p + t[p].size - 8)
    {
      assert p < x ==> p + t[p].size <= x;
      assert x < p ==> x + t[x].size <= p;
    }
    if !IsLive(t, floor, x) {
      PayloadWriteKeepsLive(m, m', t, lo, floor, hi, x, q, v);
    }
  }

  lemma PayloadWriteKeepsLive(m: Mem, m': Mem, t: Tiles, lo: nat, floor: nat, hi: nat, x: nat, q: nat, v: int)
    requires Tiled(t, lo, floor, hi) && hi <= |m|
    requires x in t && x <= q && q + 12 <= x + t[x].size && !IsLive(t, floor, x)
    requires Wrote(m, m', q, v)
    ensures KeepsLive(m, m', t, floor)
  {
    hide GetWord;
    forall p: nat, a: nat | IsLive(t, floor, p) && p <= a < p + t[p].size - 8 && a < |m|
      ensures m'[a] == m[a]
    {
      assert p < x ==> p + t[p].size <= x;
      assert x < p ==> x + t[x].size <= p;
    }
  }

  // ----- the macros that read tags -----

  /** GET_SIZE(a) */
  function GetSize(mem: MemLib, a: nat): (n: nat)
    requires a + 4 <= mem.data.Length
    reads mem.data
    ensures n == SizeOf(GetWord(mem.data[..], a))
  {
    SizeOf(mem.Get(a))
  }

  /** GET_ALLOC(a) */
  function GetAlloc(mem: MemLib, a: nat): (b: bool)
    requires a + 4 <= mem.data.Length
    reads mem.data
    ensures b == AllocOf(GetWord(mem.data[..], a))
  {
    AllocOf(mem.Get(a))
  }

  /** NEXT_BLKP(bp) */
  function NextBlkp(mem: MemLib, bp: nat): (n: nat)
    requires 4 <= bp <= mem.data.Length
    reads mem.data
    ensures n == bp + SizeOf(GetWord(mem.data[..], bp - 4))
  {
    bp + GetSize(mem, bp - 4)
  }

  /** PREV_BLKP(bp) */
  function PrevBlkp(mem: MemLib, bp: nat): (n: int)
    requires 8 <= bp <= mem.data.Length
    reads mem.data
    ensures n == bp - SizeOf(GetWord(mem.data[..], bp - 8))
  {
    bp - GetSize(mem, bp - 8)
  }

  /** FTRP(bp) */
  function Ftrp(mem: MemLib, bp: nat): (n: int)
    requires 4 <= bp <= mem.data.Length
    reads mem.data
    ensures n == bp + SizeOf(GetWord(mem.data[..], bp - 4)) - 8
  {
    bp + GetSize(mem, bp - 4) - 8
  }

  lemma ReadTags(m: Mem, p: nat, b: Block)
    requires Tagged(m, p, b) && b.size % 8 == 0
    ensures SizeOf(GetWord(m, p - 4)) == b.size && AllocOf(GetWord(m, p - 4)) == b.alloc
    ensures SizeOf(GetWord(m, p + b.size - 8)) == b.size && AllocOf(GetWord(m, p + b.size - 8)) == b.alloc
  {
    hide GetWord;
    PackParts(b.size, b.alloc);
  }

  lemma ReadTagsOf(m: Mem, t: Tiles, p: nat, ex: set<nat>)
    requires TaggedBut(m, t, ex) && p in t && p !in ex && t[p].size % 8 == 0
    ensures 4 <= p && p + t[p].size - 8 <= |m|
    ensures SizeOf(GetWord(m, p - 4)) == t[p].size && AllocOf(GetWord(m, p - 4)) == t[p].alloc
  {
    ReadTags(m, p, t[p]);
  }

  lemma NothingLeft(m: Mem, t: Tiles, x: nat, y: nat)
    requires TaggedBut(m, t, {x} + {y} - {x} - {y})
    ensures TaggedBut(m, t, {})
  {
    hide Tagged;
  }

  /** The tags around p tell the size of its neighbours and whether they are free. */
  lemma ReadNeighbours(m: Mem, t: Tiles, lo: nat, floor: nat, hi: nat, p: nat)
    requires Tiled(t, lo, floor, hi) && Represents(m, t, hi) && p in t
    ensures hi <= |m| && 8 <= p <= hi && p + t[p].size <= hi
    ensures SizeOf(GetWord(m, p - 4)) == t[p].size && AllocOf(GetWord(m, p - 4)) == t[p].alloc
    ensures SizeOf(GetWord(m, p + t[p].size - 8)) == t[p].size && AllocOf(GetWord(m, p + t[p].size - 8)) == t[p].alloc
    ensures AllocOf(GetWord(m, Next(t, p) - 4)) == !FreeAt(t, Next(t, p))
    ensures Next(t, p) in t ==> SizeOf(GetWord(m, Next(t, p) - 4)) == t[Next(t, p)].size
    ensures Next(t, p) !in t ==> SizeOf(GetWord(m, Next(t, p) - 4)) == 0
    ensures p > lo ==> SizeOf(GetWord(m, p - 8)) == p - Prev(t, lo, floor, hi, p)
  {
    hide GetWord;
    ReadTags(m, p, t[p]);
    var n := Next(t, p);
    if n in t {
      ReadTags(m, n, t[n]);
    } else {
      PackParts(0, true);
    }
    if p > lo {
      var q := Prev(t, lo, floor, hi, p);
      ReadTags(m, q, t[q]);
    }
  }

  /** The readings coalesce starts from. */
  method Neighbours(mem: MemLib, bp: nat, ghost t: Tiles, ghost lo: nat, ghost floor: nat, ghost hi: nat)
    returns (prev: nat, next: nat, prevAlloc: bool, nextAlloc: bool, size: nat)
    requires mem.Valid() && Tiled(t, lo, floor, hi) && Represents(mem.data[..], t, hi)
    requires bp in t && floor <= bp
    ensures prev == Prev(t, lo, floor, hi, bp) && next == Next(t, bp)
    ensures prevAlloc == t[prev].alloc
    ensures nextAlloc == !FreeAt(t, next)
    ensures size == t[bp].size
  {
    hide GetWord;
    ghost var m, q := mem.data[..], Prev(t, lo, floor, hi, bp);
    ReadNeighbours(m, t, lo, floor, hi, bp);
    ReadNeighbours(m, t, lo, floor, hi, q);
    prev, next := PrevBlkp(mem, bp), NextBlkp(mem, bp);
    prevAlloc := GetAlloc(mem, Ftrp(mem, prev));
    nextAlloc := GetAlloc(mem, next - 4);
    size := GetSize(mem, bp - 4);
  }

  /** GET_SIZE(HDRP(bp)) for a block of the tiling */
  method BlockSize(mem: MemLib, bp: nat, ghost t: Tiles, ghost lo: nat, ghost floor: nat, ghost hi: nat)
    returns (size: nat)
    requires mem.Valid() && bp in t
    requires Tiled(t, lo, floor, hi) && Represents(mem.data[..], t, hi)
    ensures size == t[bp].size
  {
    hide GetWord;
    ReadNeighbours(mem.data[..], t, lo, floor, hi, bp);
    size := GetSize(mem, bp - 4);
  }

  // ----- retagging blocks in memory -----

  /** A write to the link words of a block that is not live. */
  lemma LinkWrite(m: Mem, m': Mem, t: Tiles, lo: nat, floor: nat, hi: nat, x: nat, q: nat, v: int)
    requires Tiled(t, lo, floor, hi) && TaggedBut(m, t, {}) && hi <= |m|
    requires x in t && !IsLive(t, floor, x) && x <= q && q + 12 <= x + t[x].size
    requires Wrote(m, m', q, v)
    ensures TaggedBut(m', t, {})
    ensures GetWord(m', hi - 4) == GetWord(m, hi - 4)
    ensures KeepsLive(m, m', t, floor)
  {
    hide GetWord;
    BlockWrite(m, m', t, lo, floor, hi, x, q, v);
    forall y | y in t
      ensures Tagged(m', y, t[y])
    {
      assert Tagged(m, y, t[y]);
    }
  }

  /** The two PUTs that give block bp its tags.  t is the tiling aimed at; the blocks
      of ex do not carry the tags of t yet. */
  method PutTags(mem: MemLib, bp: nat, size: nat, alloc: bool,
                 ghost t: Tiles, ghost lo: nat, ghost floor: nat, ghost hi: nat, ghost ex: set<nat>)
    returns (ghost m1: Mem)
    requires Tiled(t, lo, floor, hi) && hi <= mem.data.Length == MAX_HEAP
    requires bp in t && t[bp] == Block(size, alloc)
    requires TaggedBut(mem.data[..], t, ex)
    modifies mem.data
    ensures TaggedBut(mem.data[..], t, ex - {bp})
    ensures KeepsLive(old(mem.data[..]), mem.data[..], t, floor)
    ensures GetWord(mem.data[..], hi - 4) == GetWord(old(mem.data[..]), hi - 4)
    ensures TagsWritten(old(mem.data[..]), m1, mem.data[..], bp, t[bp])
  {
    hide GetWord;
    ghost var m := mem.data[..];
    mem.Put(bp - 4, Pack(size, alloc));
    m1 := mem.data[..];
    PackParts(size, alloc);
    var ftrp := Ftrp(mem, bp);
    mem.Put(ftrp, Pack(size, alloc));
    TagPair(m, m1, mem.data[..], t, lo, floor, hi, bp, ex);
  }

  ghost predicate TagsWritten(m: Mem, m1: Mem, m2: Mem, p: nat, b: Block) {
    Wrote(m, m1, p - 4, Pack(b.size, b.alloc)) && Wrote(m1, m2, p + b.size - 8, Pack(b.size, b.alloc))
  }

  /** Every node of l is a block with room for its links besides its tags. */
  ghost predicate Roomy(t: Tiles, l: seq<nat>, w: nat) {
    forall i {:trigger l[i]} :: 0 <= i < |l| ==> l[i] in t && w + 8 <= t[l[i]].size
  }

  /** Tags and links do not overlap. */
  lemma TagsKeepLinks(m: Mem, m1: Mem, m2: Mem, t: Tiles, lo: nat, floor: nat, hi: nat, p: nat,
                      l: seq<nat>, head: nat, root: nat, s: Shape)
    requires Tiled(t, lo, floor, hi) && p in t && TagsWritten(m, m1, m2, p, t[p])
    requires Linked(m, l, head, root, s) && Roomy(t, l, s.w)
    ensures Linked(m2, l, head, root, s)
  {
    hide GetWord, Linked, Wrote;
    forall i | 0 <= i < |l|
      ensures p <= l[i] || l[i] + s.w <= p - 4
      ensures p + t[p].size - 4 <= l[i] || l[i] + s.w <= p + t[p].size - 8
    {
      assert l[i] in t;
      assert l[i] < p ==> l[i] + t[l[i]].size <= p;
      assert p < l[i] ==> p + t[p].size <= l[i];
    }
    OtherWrite(m, m1, l, head, root, s, p - 4, Pack(t[p].size, t[p].alloc));
    OtherWrite(m1, m2, l, head, root, s, p + t[p].size - 8, Pack(t[p].size, t[p].alloc));
  }

  /** Writing the epilogue header completes the heap. */
  lemma EpilogueWrite(m: Mem, m': Mem, t: Tiles, lo: nat, floor: nat, hi: nat)
    requires Tiled(t, lo, floor, hi) && TaggedBut(m, t, {}) && hi <= |m|
    requires Wrote(m, m', hi - 4, Pack(0, true))
    ensures Represents(m', t, hi)
    ensures KeepsLive(m, m', t, floor)
  {
    hide GetWord;
    forall x | x in t
      ensures Tagged(m', x, t[x])
    {
      assert Tagged(m, x, t[x]);
      assert x + t[x].size <= hi;
    }
    forall x: nat, a: nat | IsLive(t, floor, x) && x <= a < x + t[x].size - 8 && a < |m|
      ensures m'[a] == m[a]
    {
      assert x + t[x].size <= hi;
    }
  }

  lemma EpilogueKeepsLinks(m: Mem, m': Mem, t: Tiles, lo: nat, floor: nat, hi: nat,
                           l: seq<nat>, head: nat, root: nat, s: Shape)
    requires Tiled(t, lo, floor, hi) && Wrote(m, m', hi - 4, Pack(0, true))
    requires Linked(m, l, head, root, s) && Roomy(t, l, s.w)
    ensures Linked(m', l, head, root, s)
  {
    hide GetWord, Linked, Wrote;
    forall i | 0 <= i < |l|
      ensures l[i] + s.w <= hi - 4
    {
      assert l[i] in t;
      assert l[i] + t[l[i]].size <= hi;
    }
    OtherWrite(m, m', l, head, root, s, hi - 4, Pack(0, true));
  }

  /** Fusing blocks leaves all tags but those of the fused block in order. */
  lemma FuseTags(t: Tiles, lo: nat, floor: nat, hi: nat, r: nat, e: nat, alloc: bool, m: Mem)
    requires Tiled(t, lo, floor, hi) && TaggedBut(m, t, {})
    requires r in t && floor <= r < e && (e in t || e == hi)
    ensures Tiled(Fuse(t, r, e, alloc), lo, floor, hi) && TaggedBut(m, Fuse(t, r, e, alloc), {r})
    ensures Fuse(t, r, e, alloc)[r] == Block(e - r, alloc)
    ensures lo in t && Fuse(t, r, e, alloc)[lo] == t[lo]
  {
    hide Tagged;
    FuseTiled(t, lo, floor, hi, r, e, alloc);
  }

  /** Splitting a block leaves all tags but those of the two parts in order. */
  lemma SplitTags(t: Tiles, p: nat, a: nat, m: Mem)
    requires p in t && 0 < a <= t[p].size && TaggedBut(m, t, {})
    ensures TaggedBut(m, Split(t, p, a), {p} + {p + a})
    ensures Split(t, p, a)[p] == Block(a, true) && Split(t, p, a)[p + a] == Block(t[p].size - a, false)
  {
    hide Tagged;
  }

  // ----- the clients' data -----

  /** A client may write anything into the payload it was given. */
  lemma ClientWrite(m: Mem, m': Mem, t: Tiles, lo: nat, floor: nat, hi: nat, p: nat, n: nat)
    requires Tiled(t, lo, floor, hi) && Represents(m, t, hi)
    requires IsLive(t, floor, p) && n <= t[p].size - 8
    requires SameOutside(m, m', p, n)
    ensures Represents(m', t, hi)
  {
    assert p + t[p].size <= hi;
    forall x | x in t
      ensures Tagged(m', x, t[x])
    {
      ClientWriteTag(m, m', t, lo, floor, hi, p, n, x);
    }
  }

  lemma ClientWriteTag(m: Mem, m': Mem, t: Tiles, lo: nat, floor: nat, hi: nat, p: nat, n: nat, x: nat)
    requires Tiled(t, lo, floor, hi) && TaggedBut(m, t, {})
    requires IsLive(t, floor, p) && n <= t[p].size - 8 && x in t
    requires SameOutside(m, m', p, n)
    ensures Tagged(m', x, t[x])
  {
    assert Tagged(m, x, t[x]);
    assert x < p ==> x + t[x].size <= p;
    assert p < x ==> p + t[p].size <= x;
    hide TaggedBut, Apart, BlocksOk, Chained;
  }

  lemma ClientWriteLinks(m: Mem, m': Mem, t: Tiles, lo: nat, floor: nat, hi: nat, p: nat, n: nat,
                         l: seq<nat>, head: nat, root: nat, s: Shape)
    requires Tiled(t, lo, floor, hi)
    requires IsLive(t, floor, p) && n <= t[p].size - 8
    requires SameOutside(m, m', p, n)
    requires Linked(m, l, head, root, s) && Roomy(t, l, s.w) && p !in l
    ensures Linked(m', l, head, root, s)
  {
    forall i: nat | i < |l|
      ensures NodeAt(m', l, i, root, s)
    {
      assert NodeAt(m, l, i, root, s);
      assert l[i] in t && l[i] != p;
      assert l[i] < p ==> l[i] + t[l[i]].size <= p;
      assert p < l[i] ==> p + t[p].size <= l[i];
    }
  }

  lemma KeepsBothTrans(m: Mem, m1: Mem, m2: Mem, t: Tiles, floor: nat, hi: nat)
    requires KeepsTags(m, m1, t, hi) && KeepsTags(m1, m2, t, hi)
    requires KeepsLive(m, m1, t, floor) && KeepsLive(m1, m2, t, floor)
    ensures KeepsTags(m, m2, t, hi) && KeepsLive(m, m2, t, floor)
  {
    KeepsTagsTrans(m, m1, m2, t, hi);
    KeepsLiveTrans(m, m1, m2, t, t, floor);
  }
}

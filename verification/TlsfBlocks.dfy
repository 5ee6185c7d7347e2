/** The physical layout of a TLSF pool: blocks with boundary tags tiling the pool from its
    first block to the sentinel. `Block` is one header; a layout maps block addresses to headers. */
module TlsfBlocks {
  import opened BitWord
  import opened TlsfMapping
  import opened TlsfIndex

  const OVERHEAD: int := 8  // BHDR_OVERHEAD

  datatype Block = Block(size: nat, free: bool, prevFree: bool, prevHdr: int)

  type Layout = map<int, Block>

  // ---- the size word: size, FREE_BLOCK in bit 0, PREV_FREE in bit 1 ----

  function Encode(b: Block): int {
    b.size + (if b.free then 1 else 0) + (if b.prevFree then 2 else 0)
  }

  function SizeOf(w: int): int { w / 4 * 4 }
  predicate FreeBit(w: int) { w % 2 == 1 }
  predicate PrevBit(w: int) { w / 2 % 2 == 1 }
  function SetFree(w: int): int { if FreeBit(w) then w else w + 1 }
  function ClearFree(w: int): int { if FreeBit(w) then w - 1 else w }
  function SetPrev(w: int): int { if PrevBit(w) then w else w + 2 }
  function ClearPrev(w: int): int { if PrevBit(w) then w - 2 else w }
  function PrevState(w: int): int { if PrevBit(w) then 2 else 0 }

  lemma LowBits(n: int, f: int)
    requires n % 8 == 0 && 0 <= f < 4
    ensures (n + f) / 4 * 4 == n && (n + f) % 2 == f % 2 && (n + f) / 2 % 2 == f / 2
  {
  }

  /** The flag operations on an encoded header do what their names say. */
  lemma Decode(b: Block)
    requires b.size % 8 == 0
    ensures var w := Encode(b);
      && SizeOf(w) == b.size && FreeBit(w) == b.free && PrevBit(w) == b.prevFree
      && SetFree(w) == Encode(b.(free := true)) && ClearFree(w) == Encode(b.(free := false))
      && SetPrev(w) == Encode(b.(prevFree := true)) && ClearPrev(w) == Encode(b.(prevFree := false))
      && PrevState(w) == (if b.prevFree then 2 else 0)
  {
    var f := (if b.free then 1 else 0) + (if b.prevFree then 2 else 0);
    LowBits(b.size, f);
  }

  // ---- tiling ----

  function End(bs: Layout, a: int): int
    requires a in bs
  {
    a + OVERHEAD + bs[a].size
  }

  /** Blocks do not overlap. */
  ghost predicate Disjoint(bs: Layout) {
    forall a: int, c: int :: a in bs && c in bs && a < c ==> a + OVERHEAD + bs[a].size <= c
  }

  ghost predicate SizesOk(bs: Layout, lo: int, hi: int) {
    forall a: int :: a in bs ==>
      && lo <= a <= hi && (a - lo) % 8 == 0
      && bs[a].size % 8 == 0 && (a != hi ==> bs[a].size >= 8)
  }

  /** Every block ends where another starts, whose header describes it; free blocks have
      no free neighbour. */
  ghost predicate Tagged(bs: Layout, hi: int) {
    forall a: int {:trigger End(bs, a)} :: a in bs && a != hi ==>
      && End(bs, a) in bs
      && bs[End(bs, a)].prevFree == bs[a].free
      && (bs[a].free ==> bs[End(bs, a)].prevHdr == a && !bs[End(bs, a)].free)
  }

  /** Blocks tile the pool from `lo` to the sentinel `hi`, with exact boundary tags. */
  ghost predicate Tiled(bs: Layout, lo: int, hi: int) {
    && lo in bs && hi in bs && lo < hi
    && bs[hi].size == 0 && !bs[hi].free && !bs[lo].prevFree
    && SizesOk(bs, lo, hi)
    && Disjoint(bs)
    && Tagged(bs, hi)
  }

  /** A block whose PREV_FREE bit is set is preceded by the free block `prev_hdr` names. */
  lemma {:induction false} PredecessorFrom(bs: Layout, lo: int, hi: int, c: int, a: int)
    requires Tiled(bs, lo, hi) && c in bs && bs[c].prevFree && a in bs && a < c
    ensures bs[c].prevHdr in bs && bs[bs[c].prevHdr].free && End(bs, bs[c].prevHdr) == c
    decreases c - a
  {
    var e := End(bs, a);
    if e != c {
      PredecessorFrom(bs, lo, hi, c, e);
    }
  }

  lemma Predecessor(bs: Layout, lo: int, hi: int, c: int)
    requires Tiled(bs, lo, hi) && c in bs && bs[c].prevFree
    ensures bs[c].prevHdr in bs && bs[bs[c].prevHdr].free && End(bs, bs[c].prevHdr) == c
    ensures bs[c].prevHdr < c
  {
    PredecessorFrom(bs, lo, hi, c, lo);
  }

  /** Every address of the pool lies in exactly one block. */
  lemma {:induction false} Covered(bs: Layout, lo: int, hi: int, a: int, x: int) returns (c: int)
    requires Tiled(bs, lo, hi) && a in bs && a <= x < hi
    ensures c in bs && c <= x < End(bs, c) && forall d: int :: d in bs && d <= x < End(bs, d) ==> d == c
    decreases hi - a
  {
    if x < End(bs, a) {
      c := a;
    } else {
      c := Covered(bs, lo, hi, End(bs, a), x);
    }
  }

  /** `bs'` is `bs` with the blocks from `p` up to the start of `e` replaced by one block at `p`. */
  ghost predicate Replaced(bs: Layout, bs': Layout, p: int, e: int) {
    && p in bs && e in bs && p < e
    && (forall y: int :: y in bs' <==> y in bs && (y <= p || e <= y))
    && (forall y: int :: y in bs' && y != p && y != e ==> bs'[y] == bs[y])
    && End(bs', p) == e
    && bs'[p].prevFree == bs[p].prevFree && bs'[p].prevHdr == bs[p].prevHdr
    && bs'[e].size == bs[e].size && bs'[e].free == bs[e].free
    && bs'[e].prevFree == bs'[p].free
  }

  /** Replacing a run of blocks by one block keeps the pool tiled. */
  lemma ReplaceTiled(bs: Layout, bs': Layout, p: int, e: int, lo: int, hi: int)
    requires Tiled(bs, lo, hi) && Replaced(bs, bs', p, e)
    requires bs'[p].free ==> bs'[e].prevHdr == p && !bs[e].free && !bs[p].prevFree
    ensures Tiled(bs', lo, hi)
  {
    hide SizesOk, Disjoint, Replaced;
    ReplaceSizes(bs, bs', p, e, lo, hi);
    ReplaceDisjoint(bs, bs', p, e);
    ReplaceEnds(bs, bs', p, e, lo, hi);
    forall a: int | a in bs' && a != hi
      ensures End(bs', a) in bs' && bs'[End(bs', a)].prevFree == bs'[a].free
      ensures bs'[a].free ==> bs'[End(bs', a)].prevHdr == a && !bs'[End(bs', a)].free
    {
      ReplaceTag(bs, bs', p, e, hi, a);
    }
  }

  /** The tags of block `a` after the replacement. */
  lemma ReplaceTag(bs: Layout, bs': Layout, p: int, e: int, hi: int, a: int)
    requires Disjoint(bs) && Tagged(bs, hi) && Replaced(bs, bs', p, e) && a in bs' && a != hi
    requires bs'[p].free ==> bs'[e].prevHdr == p && !bs[e].free && !bs[p].prevFree
    ensures End(bs', a) in bs' && bs'[End(bs', a)].prevFree == bs'[a].free
    ensures bs'[a].free ==> bs'[End(bs', a)].prevHdr == a && !bs'[End(bs', a)].free
  {
    if a != p {
      assert End(bs', a) == End(bs, a);
      assert a < p ==> End(bs, a) <= p;
      assert e <= a ==> e <= End(bs, a);
    }
  }

  lemma ReplaceEnds(bs: Layout, bs': Layout, p: int, e: int, lo: int, hi: int)
    requires Tiled(bs, lo, hi) && Replaced(bs, bs', p, e)
    ensures lo in bs' && hi in bs' && p in bs && e in bs && p in bs' && e in bs' && bs'[hi].size == 0 && !bs'[hi].free && !bs'[lo].prevFree
  {
    assert SizesOk(bs, lo, hi);
    assert lo <= p <= hi && lo <= e <= hi;
    assert p != hi && lo != e;
  }

  lemma ReplaceSizes(bs: Layout, bs': Layout, p: int, e: int, lo: int, hi: int)
    requires Disjoint(bs) && SizesOk(bs, lo, hi) && hi in bs && Replaced(bs, bs', p, e)
    ensures SizesOk(bs', lo, hi)
  {
    assert p + 8 + bs[p].size <= e && lo <= p <= hi && (p - lo) % 8 == 0 && lo <= e <= hi && (e - lo) % 8 == 0;
    ReplacedSize(p - lo, e - lo);
    forall a: int | a in bs'
      ensures lo <= a <= hi && (a - lo) % 8 == 0 && bs'[a].size % 8 == 0 && (a != hi ==> bs'[a].size >= 8)
    {
      assert a in bs;
      assert a != p ==> bs'[a].size == bs[a].size;
    }
  }

  lemma ReplacedSize(x: int, y: int)
    requires x % 8 == 0 && y % 8 == 0
    ensures (y - x - 8) % 8 == 0
  {
  }

  lemma ReplaceDisjoint(bs: Layout, bs': Layout, p: int, e: int)
    requires Disjoint(bs) && Replaced(bs, bs', p, e)
    ensures Disjoint(bs')
  {
  }

  /** `bs'` is `bs` with block `p`, ending at `e`, split into a used block and a free rest at `q`. */
  ghost predicate SplitAt(bs: Layout, bs': Layout, p: int, q: int, e: int) {
    && p in bs && e in bs && p + 16 <= q <= e - 16 && (q - p) % 8 == 0
    && End(bs, p) == e
    && (forall y: int :: y in bs' <==> y in bs || y == q)
    && (forall y: int :: y in bs' && y != p && y != q && y != e ==> bs'[y] == bs[y])
    && End(bs', p) == q && !bs'[p].free
    && bs'[p].prevFree == bs[p].prevFree && bs'[p].prevHdr == bs[p].prevHdr
    && End(bs', q) == e && bs'[q].free && !bs'[q].prevFree
    && bs'[e].size == bs[e].size && bs'[e].free == bs[e].free
    && bs'[e].prevFree && bs'[e].prevHdr == q
  }

  /** Splitting a block into a used part and a free rest keeps the pool tiled. */
  lemma SplitTiled(bs: Layout, bs': Layout, p: int, q: int, e: int, lo: int, hi: int)
    requires Tiled(bs, lo, hi) && SplitAt(bs, bs', p, q, e) && !bs[e].free && p != hi
    ensures Tiled(bs', lo, hi)
  {
    assert Disjoint(bs') by { SplitDisjoint(bs, bs', p, q, e); }
    assert SizesOk(bs', lo, hi) by { SplitSizes(bs, bs', p, q, e, lo, hi); }
    forall a: int | a in bs' && a != hi
      ensures End(bs', a) in bs' && bs'[End(bs', a)].prevFree == bs'[a].free
      ensures bs'[a].free ==> bs'[End(bs', a)].prevHdr == a && !bs'[End(bs', a)].free
    {
      if a != p && a != q {
        assert End(bs', a) == End(bs, a);
      }
    }
  }

  lemma SplitDisjoint(bs: Layout, bs': Layout, p: int, q: int, e: int)
    requires Disjoint(bs) && SplitAt(bs, bs', p, q, e)
    ensures Disjoint(bs')
  {
    forall a: int, c: int | a in bs' && c in bs' && a < c
      ensures a + OVERHEAD + bs'[a].size <= c
    {
      assert a == q || a in bs;
      assert c == q || c in bs;
    }
  }

  lemma SplitSizes(bs: Layout, bs': Layout, p: int, q: int, e: int, lo: int, hi: int)
    requires SizesOk(bs, lo, hi) && SplitAt(bs, bs', p, q, e) && p != hi
    ensures SizesOk(bs', lo, hi)
  {
    assert bs'[p].size == q - p - 8 && bs'[q].size == e - q - 8;
    Mod8(p - lo, q - p);
    Mod8(e - q - 8, q - p);
  }

  lemma Mod8(x: int, y: int)
    requires y % 8 == 0
    ensures (x + y) % 8 == x % 8 && (y - 8) % 8 == 0 && (x + 8) % 8 == x % 8
  {
  }

  // ---- bytes in use ----

  function Charge(b: Block): nat {
    if b.free then 0 else b.size + 8
  }

  /** The sum over the allocated blocks of size plus header. */
  ghost function Used(bs: Layout): nat {
    if !exists k :: k in bs then 0
    else
      var k :| k in bs;
      Charge(bs[k]) + Used(bs - {k})
  }

  lemma {:induction false} UsedRemove(bs: Layout, k: int)
    requires k in bs
    ensures Used(bs) == Charge(bs[k]) + Used(bs - {k})
  {
    var j :| j in bs && Used(bs) == Charge(bs[j]) + Used(bs - {j});
    if j != k {
      UsedRemove(bs - {j}, k);
      UsedRemove(bs - {k}, j);
      assert bs - {j} - {k} == bs - {k} - {j};
    }
  }

  lemma UsedUpdate(bs: Layout, k: int, b: Block)
    ensures Used(bs[k := b]) == Charge(b) + Used(bs - {k})
    ensures k in bs ==> Used(bs[k := b]) == Used(bs) + Charge(b) - Charge(bs[k])
    ensures k !in bs ==> Used(bs[k := b]) == Used(bs) + Charge(b)
  {
    UsedRemove(bs[k := b], k);
    assert bs[k := b] - {k} == bs - {k};
    if k in bs {
      UsedRemove(bs, k);
    } else {
      assert bs - {k} == bs;
    }
  }

  // ---- the layout in memory ----

  /** Each header of the layout is stored at its address. */
  ghost predicate Stored(m: Mem, bs: Layout) {
    forall a: int :: a in bs ==> Rd(m, a) == bs[a].prevHdr && Rd(m, a + SIZE) == Encode(bs[a])
  }

  lemma StoreSizeWord(m: Mem, bs: Layout, a: int, b: Block)
    requires Stored(m, bs) && b.prevHdr == Rd(m, a)
    requires forall y: int :: y in bs ==> y == a || y + 8 <= a || a + 8 <= y
    ensures Stored(m[a + SIZE := Encode(b)], bs[a := b])
  {
    var m', bs' := m[a + SIZE := Encode(b)], bs[a := b];
    forall y: int | y in bs'
      ensures Rd(m', y) == bs'[y].prevHdr && Rd(m', y + SIZE) == Encode(bs'[y])
    {
      if y != a { assert bs'[y] == bs[y] && Rd(m, y) == bs[y].prevHdr && Rd(m, y + SIZE) == Encode(bs[y]); }
    }
  }

  lemma StorePrevWord(m: Mem, bs: Layout, a: int, p: int)
    requires Stored(m, bs) && a in bs
    requires forall y: int :: y in bs ==> y == a || y + 8 <= a || a + 8 <= y
    ensures Stored(m[a := p], bs[a := bs[a].(prevHdr := p)])
  {
    var m', bs' := m[a := p], bs[a := bs[a].(prevHdr := p)];
    forall y: int | y in bs'
      ensures Rd(m', y) == bs'[y].prevHdr && Rd(m', y + SIZE) == Encode(bs'[y])
    {
      assert Rd(m, y) == bs[y].prevHdr && Rd(m, y + SIZE) == Encode(bs[y]);
    }
  }

  /** Writes to link words leave the stored headers as they are. */
  lemma StoredFrame(m: Mem, m': Mem, bs: Layout, cls: map<int, nat>)
    requires Stored(m, bs) && Apart(bs, cls)
    requires forall x: int :: !LinkWord(cls, x) ==> Rd(m', x) == Rd(m, x)
    ensures Stored(m', bs)
  {
    forall y: int | y in bs
      ensures Rd(m', y) == bs[y].prevHdr && Rd(m', y + SIZE) == Encode(bs[y])
    {
      assert !LinkWord(cls, y) && !LinkWord(cls, y + SIZE);
    }
  }

  /** Headers, and the link words of indexed blocks, occupy distinct words. */
  ghost predicate Apart(bs: Layout, cls: map<int, nat>) {
    && (forall a: int :: a in cls ==> a in bs)
    && (forall a: int, c: int :: a in bs && c in bs && a < c ==> a + 8 <= c)
    && (forall a: int, c: int :: a in cls && c in bs && a < c ==> a + 16 <= c)
  }

  /** `x` is a link word of an indexed block. */
  ghost predicate LinkWord(cls: map<int, nat>, x: int) {
    x - PREV in cls || x - NEXT in cls
  }

  /** The free blocks, and only they, are indexed, each under the class of its size. */
  ghost predicate FreeIndexed(bs: Layout, cls: map<int, nat>) {
    && (forall a: int :: a in cls <==> a in bs && bs[a].free)
    && (forall a: int :: a in cls ==> cls[a] == Class(bs[a].size))
  }

  /** Writing a word that is no link word leaves the index as it is. */
  lemma IndexFrame(m: Mem, heads: seq<int>, lists: seq<seq<int>>, cls: map<int, nat>, x: int, v: int)
    requires IndexOk(m, heads, lists, cls) && !LinkWord(cls, x)
    ensures IndexOk(m[x := v], heads, lists, cls)
  {
    forall c: int | 0 <= c < CLASSES
      ensures Linked(m[x := v], heads[c], lists[c])
    {
      assert Linked(m, heads[c], lists[c]);
      forall i | 0 <= i < |lists[c]|
        ensures lists[c][i] + PREV != x && lists[c][i] + NEXT != x
      {
        assert lists[c][i] in cls;
      }
      LinkedFrame(m, m[x := v], heads[c], lists[c]);
    }
  }

  lemma InsertFrame(m: Mem, b: int, h: int, cls: map<int, nat>)
    requires b in cls && (h != 0 ==> h in cls)
    ensures forall x: int :: !LinkWord(cls, x) ==> Rd(InsertMem(m, b, h), x) == Rd(m, x)
  {
  }

  lemma ExtractFrame(m: Mem, b: int, cls: map<int, nat>)
    requires b in cls
    requires Rd(m, b + NEXT) != 0 ==> Rd(m, b + NEXT) in cls
    requires Rd(m, b + PREV) != 0 ==> Rd(m, b + PREV) in cls
    ensures forall x: int :: !LinkWord(cls, x) ==> Rd(ExtractMem(m, b), x) == Rd(m, x)
  {
  }

  lemma ApartInsert(bs: Layout, cls: map<int, nat>, b: int, c: nat)
    requires Apart(bs, cls) && b in bs && forall y: int :: y in bs && b < y ==> b + 16 <= y
    ensures Apart(bs, cls[b := c])
    ensures b !in cls ==> Spaced(cls.Keys + {b})
  {
  }

  /** Headers and index are stored consistently, all inside the pool. */
  ghost predicate Consistent(m: Mem, bs: Layout, heads: seq<int>, fl: nat, sl: seq<nat>,
                             lists: seq<seq<int>>, cls: map<int, nat>, lo: int, hi: int)
  {
    && 0 < lo
    && hi in bs && hi !in cls && (forall a: int :: a in bs ==> lo <= a <= hi)
    && Stored(m, bs)
    && Apart(bs, cls)
    && IndexOk(m, heads, lists, cls)
    && BitsOk(fl, sl, lists)
  }

  lemma InsertConsistent(m: Mem, bs: Layout, heads: seq<int>, fl: nat, sl: seq<nat>, lists: seq<seq<int>>,
                         cls: map<int, nat>, lo: int, hi: int, b: int, f: nat, s: nat)
    requires Consistent(m, bs, heads, fl, sl, lists, cls, lo, hi)
    requires b in bs && b !in cls && b != hi && f < REAL_FLI && s < MAX_SLI
    requires forall y: int :: y in bs && b < y ==> b + 16 <= y
    ensures |heads| == |lists| == CLASSES && |sl| == REAL_FLI && lo <= b <= hi - 16
    ensures var c := f * 32 + s;
      && (heads[c] != 0 ==> lo <= heads[c] <= hi - 16)
      && (forall x: int :: !LinkWord(cls[b := c], x) ==> Rd(InsertMem(m, b, heads[c]), x) == Rd(m, x))
      && Consistent(InsertMem(m, b, heads[c]), bs, heads[c := b], SetBit(fl, f), sl[f := SetBit(sl[f], s)],
                    lists[c := [b] + lists[c]], cls[b := c], lo, hi)
  {
    var c := f * 32 + s;
    HeadIndexed(m, heads, lists, cls, c);
    ApartInsert(bs, cls, b, c);
    InsertFrame(m, b, heads[c], cls[b := c]);
    StoredFrame(m, InsertMem(m, b, heads[c]), bs, cls[b := c]);
    hide Stored, Linked, NoDup, LinkWord;
    IndexInsert(m, heads, lists, cls, b, c);
    BitsInsert(fl, sl, lists, f, s, [b] + lists[c]);
  }

  lemma ExtractConsistent(m: Mem, bs: Layout, heads: seq<int>, fl: nat, sl: seq<nat>, lists: seq<seq<int>>,
                          cls: map<int, nat>, lo: int, hi: int, b: int, f: nat, s: nat) returns (k: nat)
    requires Consistent(m, bs, heads, fl, sl, lists, cls, lo, hi)
    requires b in cls && f < REAL_FLI && s < MAX_SLI && cls[b] == f * 32 + s
    ensures |heads| == |lists| == CLASSES && |sl| == REAL_FLI && lo <= b <= hi - 16
    ensures var c, n, p := f * 32 + s, Rd(m, b + NEXT), Rd(m, b + PREV);
      && k < |lists[c]|
      && (n != 0 ==> lo <= n <= hi - 16) && (p != 0 ==> lo <= p <= hi - 16)
      && (heads[c] == b <==> k == 0) && (Without(lists[c], k) == [] <==> k == 0 && n == 0)
      && (forall x: int :: !LinkWord(cls, x) ==> Rd(ExtractMem(m, b), x) == Rd(m, x))
      && var l := Without(lists[c], k);
         Consistent(ExtractMem(m, b), bs, if k == 0 then heads[c := n] else heads, ClearedFl(fl, sl, f, s, l),
                    ClearedSl(sl, f, s, l), lists[c := l], cls - {b}, lo, hi)
  {
    var c := f * 32 + s;
    k := NeighboursIndexed(m, heads, lists, cls, b);
    ExtractFrame(m, b, cls);
    StoredFrame(m, ExtractMem(m, b), bs, cls);
    assert Apart(bs, cls - {b});
    hide Stored, Linked, NoDup, LinkWord;
    IndexExtract(m, heads, lists, cls, c, k);
    assert heads[c := heads[c]] == heads;
    BitsExtract(fl, sl, lists, f, s, Without(lists[c], k));
  }

  lemma SizeWordConsistent(m: Mem, bs: Layout, heads: seq<int>, fl: nat, sl: seq<nat>, lists: seq<seq<int>>,
                           cls: map<int, nat>, lo: int, hi: int, a: int, b: Block)
    requires Consistent(m, bs, heads, fl, sl, lists, cls, lo, hi)
    requires lo <= a <= hi && b.prevHdr == Rd(m, a)
    requires forall y: int :: y in bs ==> y == a || y + 8 <= a || a + 8 <= y
    requires forall y: int :: y in cls ==> y + 16 <= a || a <= y
    ensures Consistent(m[a + SIZE := Encode(b)], bs[a := b], heads, fl, sl, lists, cls, lo, hi)
  {
    StoreSizeWord(m, bs, a, b);
    IndexFrame(m, heads, lists, cls, a + SIZE, Encode(b));
    hide Stored, IndexOk, BitsOk;
  }

  lemma PrevWordConsistent(m: Mem, bs: Layout, heads: seq<int>, fl: nat, sl: seq<nat>, lists: seq<seq<int>>,
                           cls: map<int, nat>, lo: int, hi: int, a: int, p: int)
    requires Consistent(m, bs, heads, fl, sl, lists, cls, lo, hi) && a in bs
    ensures Consistent(m[a := p], bs[a := bs[a].(prevHdr := p)], heads, fl, sl, lists, cls, lo, hi)
  {
    StorePrevWord(m, bs, a, p);
    IndexFrame(m, heads, lists, cls, a, p);
    hide Stored, IndexOk, BitsOk;
  }

  // ---- buffers ----

  /** The allocated blocks with their sizes. */
  ghost function LiveBlocks(bs: Layout, hi: int): map<int, nat> {
    map a | a in bs && !bs[a].free && a != hi :: bs[a].size
  }

  /** A block of two layouts with the same live blocks is the same block in both. */
  lemma SameBlock(bs: Layout, bs': Layout, lo: int, hi: int, a: int)
    requires Tiled(bs, lo, hi) && Tiled(bs', lo, hi) && LiveBlocks(bs, hi) == LiveBlocks(bs', hi)
    requires a in bs && a in bs' && a != hi
    ensures bs[a].free == bs'[a].free && bs[a].size == bs'[a].size
  {
    var live := LiveBlocks(bs, hi);
    assert bs[a].free <==> a !in live;
    assert bs'[a].free <==> a !in live;
    if bs[a].free {
      var e, e' := End(bs, a), End(bs', a);
      assert e != hi ==> e in live;
      assert e' != hi ==> e' in live;
      assert a < e <= hi && a < e' <= hi;
    } else {
      assert live[a] == bs[a].size == bs'[a].size;
    }
  }

  lemma {:induction false} SameFrom(bs: Layout, bs': Layout, lo: int, hi: int, a: int, x: int)
    requires Tiled(bs, lo, hi) && Tiled(bs', lo, hi) && LiveBlocks(bs, hi) == LiveBlocks(bs', hi)
    requires a in bs && a in bs' && a <= x < hi
    ensures x in bs <==> x in bs'
    decreases hi - a
  {
    hide LiveBlocks;
    SameBlock(bs, bs', lo, hi, a);
    if x >= End(bs, a) {
      assert End(bs', a) == End(bs, a);
      SameFrom(bs, bs', lo, hi, End(bs, a), x);
    }
  }

  /** Where the live buffers are determines all blocks: what lies free between two of them is one block. */
  lemma LiveDetermines(bs: Layout, bs': Layout, lo: int, hi: int, a: int)
    requires Tiled(bs, lo, hi) && Tiled(bs', lo, hi) && LiveBlocks(bs, hi) == LiveBlocks(bs', hi)
    ensures a in bs <==> a in bs'
    ensures a in bs ==> bs[a].size == bs'[a].size && bs[a].free == bs'[a].free
  {
    hide LiveBlocks;
    if lo <= a < hi {
      SameFrom(bs, bs', lo, hi, lo, a);
      if a in bs {
        SameBlock(bs, bs', lo, hi, a);
      }
    }
  }

  /** The words of every buffer of `live` are the same in both memories. */
  ghost predicate Kept(m: Mem, m': Mem, live: map<int, nat>) {
    forall y: int, x: int :: y in live && y + 8 <= x < y + 8 + live[y] ==> Rd(m', x) == Rd(m, x)
  }

  /** Byte `i` of the buffer at `p`. */
  function ByteAt(m: Mem, p: int, i: int): int {
    Rd(m, p + i)
  }

  /** The first `n` bytes at `dst` are those that were at `src`. */
  ghost predicate Copied(m: Mem, src: int, m': Mem, dst: int, n: int) {
    forall i: int :: 0 <= i < n ==> ByteAt(m', dst, i) == ByteAt(m, src, i)
  }

  lemma CopiedKept(m0: Mem, src: int, m: Mem, dst: int, n: nat, m': Mem, live: map<int, nat>)
    requires Copied(m0, src, m, dst, n) && Kept(m, m', live) && dst - 8 in live && n <= live[dst - 8]
    ensures Copied(m0, src, m', dst, n)
  {
    forall i: int | 0 <= i < n
      ensures ByteAt(m', dst, i) == ByteAt(m0, src, i)
    {
      assert ByteAt(m, dst, i) == ByteAt(m0, src, i);
    }
  }

  /** The header at `a` lies inside no buffer of `live`. */
  ghost predicate HeaderClear(a: int, live: map<int, nat>) {
    forall y: int :: y in live ==> a <= y || y + 8 + live[y] <= a
  }

  /** The links of indexed blocks lie inside no buffer of `live`. */
  ghost predicate LinksClear(cls: map<int, nat>, live: map<int, nat>) {
    forall a: int, y: int :: a in cls && y in live ==> a + 8 <= y || y + live[y] <= a
  }

  /** Only the header words at `a` differ. */
  ghost predicate HeaderWrite(m: Mem, m': Mem, a: int) {
    forall x: int :: x != a && x != a + SIZE ==> Rd(m', x) == Rd(m, x)
  }

  /** Only header words of the blocks in `hs` and link words of `cls` differ. */
  ghost predicate Writes(m: Mem, m': Mem, hs: set<int>, cls: map<int, nat>) {
    forall x: int :: x !in hs && x - SIZE !in hs && !LinkWord(cls, x) ==> Rd(m', x) == Rd(m, x)
  }

  lemma NoWrites(m: Mem, hs: set<int>, cls: map<int, nat>)
    ensures Writes(m, m, hs, cls)
  {
  }

  lemma WritesHeader(m0: Mem, m: Mem, m': Mem, hs: set<int>, cls: map<int, nat>, a: int)
    requires Writes(m0, m, hs, cls) && HeaderWrite(m, m', a) && a in hs
    ensures Writes(m0, m', hs, cls)
  {
  }

  lemma WritesLinks(m0: Mem, m: Mem, m': Mem, hs: set<int>, cls: map<int, nat>, cls': map<int, nat>)
    requires Writes(m0, m, hs, cls) && (forall a: int :: a in cls' ==> a in cls)
    requires forall x: int :: !LinkWord(cls', x) ==> Rd(m', x) == Rd(m, x)
    ensures Writes(m0, m', hs, cls)
  {
  }

  lemma WritesTrans(m0: Mem, m: Mem, m': Mem, hs: set<int>, cls: map<int, nat>, hs': set<int>, cls': map<int, nat>)
    requires Writes(m0, m, hs, cls) && Writes(m, m', hs', cls')
    requires (forall a: int :: a in cls' ==> a in cls) && hs' <= hs
    ensures Writes(m0, m', hs, cls)
  {
  }

  lemma WritesKeep(m: Mem, m': Mem, hs: set<int>, cls: map<int, nat>, live: map<int, nat>)
    requires Writes(m, m', hs, cls) && LinksClear(cls, live)
    requires forall a: int :: a in hs ==> HeaderClear(a, live)
    ensures Kept(m, m', live)
  {
    forall y: int, x: int | y in live && y + 8 <= x < y + 8 + live[y]
      ensures Rd(m', x) == Rd(m, x)
    {
      assert !LinkWord(cls, x);
      assert x in hs ==> HeaderClear(x, live);
      assert x - SIZE in hs ==> HeaderClear(x - SIZE, live);
    }
  }

  lemma TiledClear(bs: Layout, lo: int, hi: int, cls: map<int, nat>)
    requires Tiled(bs, lo, hi) && FreeIndexed(bs, cls)
    ensures LinksClear(cls, LiveBlocks(bs, hi))
    ensures forall a: int :: a in bs ==> HeaderClear(a, LiveBlocks(bs, hi))
  {
  }

  // ---- what the calls do to the layout ----

  /** The free blocks other than `b`, and only they, are indexed. */
  ghost predicate FreeIndexedBut(bs: Layout, cls: map<int, nat>, b: int) {
    && (forall a: int :: a in cls <==> a in bs && bs[a].free && a != b)
    && (forall a: int :: a in cls ==> cls[a] == Class(bs[a].size))
  }

  /** The layout after the whole of block `b`, ending at `e`, is taken into use. */
  function Taken(bs: Layout, b: int, e: int): Layout
    requires b in bs && e in bs
  {
    bs[e := bs[e].(prevFree := false)][b := bs[b].(free := false)]
  }

  lemma TakeUsed(bs: Layout, b: int, e: int)
    requires b in bs && e in bs && b != e && bs[b].free
    ensures Used(Taken(bs, b, e)) == Used(bs) + bs[b].size + 8
  {
    hide Used;
    UsedUpdate(bs, e, bs[e].(prevFree := false));
    UsedUpdate(bs[e := bs[e].(prevFree := false)], b, bs[b].(free := false));
  }

  lemma TakeFree(bs: Layout, cls: map<int, nat>, hi: int, b: int, e: int)
    requires FreeIndexedBut(bs, cls, b) && b in bs && e in bs && b != hi && b != e
    ensures FreeIndexed(Taken(bs, b, e), cls)
    ensures LiveBlocks(Taken(bs, b, e), hi) == LiveBlocks(bs, hi)[b := bs[b].size]
  {
  }

  lemma TakeTiled(bs: Layout, lo: int, hi: int, b: int)
    requires Tiled(bs, lo, hi) && b in bs && b != hi
    ensures End(bs, b) in bs && Tiled(Taken(bs, b, End(bs, b)), lo, hi)
  {
    var e := End(bs, b);
    assert Replaced(bs, Taken(bs, b, e), b, e) by { assert Disjoint(bs); }
    hide Disjoint, SizesOk;
    ReplaceTiled(bs, Taken(bs, b, e), b, e, lo, hi);
  }

  /** The layout after block `b` is cut to `size`, the rest up to `e` becoming a free block. */
  function Carved(bs: Layout, b: int, size: nat, e: int, junk: int): Layout
    requires b in bs && e in bs && b + size + 16 <= e
  {
    var q := b + 8 + size;
    bs[q := Block(e - q - 8, true, false, junk)][e := bs[e].(prevFree := true, prevHdr := q)][b := bs[b].(size := size, free := false)]
  }

  lemma CarveSteps(bs: Layout, b: int, size: nat, e: int, junk: int)
    requires b in bs && e in bs && b < b + 8 + size < b + size + 16 <= e
    ensures var q := b + 8 + size;
      var bs1 := bs[q := Block(e - q - 8, true, false, junk)];
      var bs2 := bs1[e := bs1[e].(prevHdr := q)];
      var bs3 := bs2[e := bs2[e].(prevFree := true)];
      bs3[b := bs3[b].(size := size, free := false)] == Carved(bs, b, size, e, junk)
  {
  }

  lemma CarveUsed(bs: Layout, b: int, size: nat, e: int, junk: int)
    requires b in bs && e in bs && b + size + 16 <= e && b + 8 + size !in bs
    ensures Used(Carved(bs, b, size, e, junk)) == Used(bs) - Charge(bs[b]) + size + 8
  {
    hide Used;
    var q := b + 8 + size;
    var r := Block(e - q - 8, true, false, junk);
    var bs1 := bs[q := r];
    var bs2 := bs1[e := bs1[e].(prevFree := true, prevHdr := q)];
    UsedUpdate(bs, q, r);
    UsedUpdate(bs1, e, bs1[e].(prevFree := true, prevHdr := q));
    UsedUpdate(bs2, b, bs2[b].(size := size, free := false));
  }

  lemma CarveFree(bs: Layout, cls: map<int, nat>, hi: int, b: int, size: nat, e: int, junk: int)
    requires FreeIndexedBut(bs, cls, b) && b in bs && e in bs && b != hi && b + size + 16 <= e
    requires b + 8 + size !in bs
    ensures FreeIndexed(Carved(bs, b, size, e, junk), cls[b + 8 + size := Class(e - b - size - 16)])
    ensures LiveBlocks(Carved(bs, b, size, e, junk), hi) == LiveBlocks(bs, hi)[b := size]
  {
    hide Class;
  }

  lemma InsideBlock(bs: Layout, lo: int, hi: int, b: int, q: int)
    requires Tiled(bs, lo, hi) && b in bs && b < q < End(bs, b)
    ensures q !in bs
  {
  }

  lemma CarveTiled(bs: Layout, lo: int, hi: int, b: int, size: nat, junk: int)
    requires Tiled(bs, lo, hi) && b in bs && b != hi
    requires size % 8 == 0 && 8 <= size && size + 16 <= bs[b].size
    requires End(bs, b) in bs && !bs[End(bs, b)].free
    ensures Tiled(Carved(bs, b, size, End(bs, b), junk), lo, hi)
  {
    var e, q := End(bs, b), b + 8 + size;
    InsideBlock(bs, lo, hi, b, q);
    hide Disjoint, SizesOk, Tagged;
    assert SplitAt(bs, Carved(bs, b, size, e, junk), b, q, e);
    hide SplitAt, Carved;
    SplitTiled(bs, Carved(bs, b, size, e, junk), b, q, e, lo, hi);
  }

  lemma DropConsistent(m: Mem, bs: Layout, heads: seq<int>, fl: nat, sl: seq<nat>, lists: seq<seq<int>>,
                       cls: map<int, nat>, lo: int, hi: int, a: int)
    requires Consistent(m, bs, heads, fl, sl, lists, cls, lo, hi) && a !in cls && a != hi
    ensures Consistent(m, bs - {a}, heads, fl, sl, lists, cls, lo, hi)
  {
    hide IndexOk, BitsOk;
  }

  /** Where a block of a tiled pool lies, and what surrounds it. */
  lemma BlockSpan(bs: Layout, cls: map<int, nat>, lo: int, hi: int, b: int)
    requires Tiled(bs, lo, hi) && FreeIndexedBut(bs, cls, b) && b in bs && b != hi
    ensures End(bs, b) in bs && lo <= b && b + 16 <= End(bs, b) <= hi
    ensures bs[b].size % 8 == 0 && bs[End(bs, b)].size % 8 == 0 && (End(bs, b) - b) % 8 == 0
    ensures forall y: int :: y in bs ==> y == b || y + 8 <= b || End(bs, b) <= y
    ensures forall y: int :: y in cls ==> y + 16 <= b || End(bs, b) <= y
    ensures bs[b].free ==> !bs[End(bs, b)].free && bs[End(bs, b)].prevFree
  {
    assert (bs[b].size + 8) % 8 == 0 by { assert bs[b].size % 8 == 0; }
  }

  /** Headers and links are clear of all buffers but that of `b`. */
  lemma SpanClear(bs: Layout, cls: map<int, nat>, lo: int, hi: int, b: int)
    requires Tiled(bs, lo, hi) && FreeIndexedBut(bs, cls, b) && b in bs
    ensures var live := LiveBlocks(bs, hi) - {b};
      && LinksClear(cls, live)
      && (forall a: int :: a in bs ==> HeaderClear(a, live))
  {
  }

  /** The inside of `b` behind its first `q - b - 8` bytes is clear of all buffers. */
  lemma InsideClear(bs: Layout, cls: map<int, nat>, lo: int, hi: int, b: int, q: int, c: nat)
    requires Tiled(bs, lo, hi) && FreeIndexedBut(bs, cls, b) && b in bs && b + 8 <= q <= End(bs, b) - 16 && b != hi
    ensures End(bs, b) in bs
    ensures var live := LiveBlocks(bs, hi)[b := q - b - 8];
      && HeaderClear(b, live) && HeaderClear(q, live) && HeaderClear(End(bs, b), live) && LinksClear(cls[q := c], live)
  {
    var live, e := LiveBlocks(bs, hi)[b := q - b - 8], End(bs, b);
    forall y: int | y in live
      ensures y == b || e <= y || y + 8 + live[y] <= b
    {
      if y != b { assert y in bs; }
    }
    forall a: int, y: int | a in cls && y in live
      ensures a + 8 <= y || y + live[y] <= a
    {
      assert a in bs && a != y;
    }
  }

  lemma KeptSubset(m: Mem, m': Mem, live: map<int, nat>, live': map<int, nat>)
    requires Kept(m, m', live) && forall y: int :: y in live' ==> y in live && live'[y] <= live[y]
    ensures Kept(m, m', live')
  {
  }

  lemma KeptSame(m: Mem, live: map<int, nat>)
    ensures Kept(m, m, live)
  {
  }

  lemma KeptTrans(m0: Mem, m1: Mem, m2: Mem, live: map<int, nat>)
    requires Kept(m0, m1, live) && Kept(m1, m2, live)
    ensures Kept(m0, m2, live)
  {
  }

  lemma FreeBlockFacts(bs: Layout, cls: map<int, nat>, lo: int, hi: int, b: int)
    requires Tiled(bs, lo, hi) && FreeIndexed(bs, cls) && b in cls
    ensures b in bs && bs[b].free && b != hi && FreeIndexedBut(bs, cls - {b}, b)
    ensures LiveBlocks(bs, hi) - {b} == LiveBlocks(bs, hi) && b !in LiveBlocks(bs, hi)
    ensures LinksClear(cls, LiveBlocks(bs, hi))
  {
    TiledClear(bs, lo, hi, cls);
  }

  /** Taking the whole of a free block keeps the pool tiled and every other buffer as it was. */
  lemma TakeOutcome(bs: Layout, cls: map<int, nat>, lo: int, hi: int, b: int, m: Mem, m': Mem)
    requires Tiled(bs, lo, hi) && FreeIndexedBut(bs, cls, b) && b in bs && bs[b].free
    requires End(bs, b) in bs && Writes(m, m', {b, End(bs, b)}, cls)
    ensures var bs' := Taken(bs, b, End(bs, b));
      && Tiled(bs', lo, hi) && FreeIndexed(bs', cls)
      && Used(bs') == Used(bs) + bs[b].size + 8
      && LiveBlocks(bs', hi) == LiveBlocks(bs, hi)[b := bs[b].size]
    ensures Kept(m, m', LiveBlocks(bs, hi) - {b})
  {
    assert b != hi;
    TakeTiled(bs, lo, hi, b);
    SpanClear(bs, cls, lo, hi, b);
    hide Tiled, HeaderClear, LinksClear, Writes, Kept;
    TakeUsed(bs, b, End(bs, b));
    TakeFree(bs, cls, hi, b, End(bs, b));
    WritesKeep(m, m', {b, End(bs, b)}, cls, LiveBlocks(bs, hi) - {b});
  }

  /** Cutting a block keeps the pool tiled and every other buffer as it was. */
  lemma CarveOutcome(bs: Layout, cls: map<int, nat>, lo: int, hi: int, b: int, size: nat, junk: int, m: Mem, m': Mem)
    requires Tiled(bs, lo, hi) && FreeIndexedBut(bs, cls, b) && b in bs && b != hi
    requires size % 8 == 0 && 8 <= size && size + 16 <= bs[b].size
    requires End(bs, b) in bs && !bs[End(bs, b)].free
    requires Writes(m, m', {b, b + 8 + size, End(bs, b)}, cls[b + 8 + size := Class(bs[b].size - size - 8)])
    ensures var bs', q := Carved(bs, b, size, End(bs, b), junk), b + 8 + size;
      && Tiled(bs', lo, hi) && FreeIndexed(bs', cls[q := Class(bs[b].size - size - 8)])
      && Used(bs') == Used(bs) - Charge(bs[b]) + size + 8
      && LiveBlocks(bs', hi) == LiveBlocks(bs, hi)[b := size]
    ensures Kept(m, m', LiveBlocks(bs, hi)[b := size])
  {
    hide Class, Tiled, HeaderClear, LinksClear, Writes, Kept, FreeIndexed, FreeIndexedBut, Used, LiveBlocks, Carved;
    var q, e, c := b + 8 + size, End(bs, b), Class(bs[b].size - size - 8);
    CarveTiled(bs, lo, hi, b, size, junk);
    InsideClear(bs, cls, lo, hi, b, q, c);
    InsideBlock(bs, lo, hi, b, q);
    CarveUsed(bs, b, size, e, junk);
    CarveFree(bs, cls, hi, b, size, e, junk);
    WritesKeep(m, m', {b, q, e}, cls[q := c], LiveBlocks(bs, hi)[b := size]);
  }

  /** The layout after the used block `b` swallows the free block `n` behind it, which ends at `e`. */
  function Absorbed(bs: Layout, b: int, n: int, e: int, junk: int): Layout
    requires b in bs && n in bs && e in bs
  {
    (bs - {n})[e := bs[e].(prevFree := false, prevHdr := junk)][b := bs[b].(size := bs[b].size + bs[n].size + 8)]
  }

  lemma AbsorbUsed(bs: Layout, b: int, n: int, e: int, junk: int)
    requires b in bs && n in bs && e in bs && b != n && n != e && b != e && !bs[b].free && bs[n].free
    ensures Used(Absorbed(bs, b, n, e, junk)) == Used(bs) + bs[n].size + 8
  {
    hide Used;
    var bs1 := bs - {n};
    var bs2 := bs1[e := bs1[e].(prevFree := false, prevHdr := junk)];
    UsedRemove(bs, n);
    UsedUpdate(bs1, e, bs1[e].(prevFree := false, prevHdr := junk));
    UsedUpdate(bs2, b, bs2[b].(size := bs2[b].size + bs[n].size + 8));
  }

  lemma AbsorbFree(bs: Layout, cls: map<int, nat>, hi: int, b: int, n: int, e: int, junk: int)
    requires FreeIndexed(bs, cls) && b in bs && n in bs && e in bs && b != n && n != e && b != e && b != hi
    requires !bs[b].free && bs[n].free
    ensures FreeIndexed(Absorbed(bs, b, n, e, junk), cls - {n})
    ensures LiveBlocks(Absorbed(bs, b, n, e, junk), hi) == LiveBlocks(bs, hi)[b := bs[b].size + bs[n].size + 8]
  {
    hide Class;
  }

  lemma AbsorbTiled(bs: Layout, lo: int, hi: int, b: int, n: int, e: int, junk: int)
    requires Tiled(bs, lo, hi) && b in bs && !bs[b].free && n in bs && e in bs
    requires n == End(bs, b) && e == End(bs, n) && bs[n].free
    ensures Tiled(Absorbed(bs, b, n, e, junk), lo, hi)
  {
    var bs' := Absorbed(bs, b, n, e, junk);
    assert n != hi && b < n < e;
    assert Replaced(bs, bs', b, e);
    hide Absorbed, Disjoint, SizesOk, Tagged;
    ReplaceTiled(bs, bs', b, e, lo, hi);
  }

  /** Swallowing the free successor keeps the pool tiled. */
  lemma AbsorbOutcome(bs: Layout, cls: map<int, nat>, lo: int, hi: int, b: int, n: int, e: int, junk: int)
    requires Tiled(bs, lo, hi) && FreeIndexed(bs, cls) && b in bs && b != hi && !bs[b].free && n in bs && e in bs
    requires n == End(bs, b) && e == End(bs, n) && bs[n].free
    ensures var bs' := Absorbed(bs, b, n, e, junk);
      && Tiled(bs', lo, hi) && FreeIndexed(bs', cls - {n})
      && Used(bs') == Used(bs) + bs[n].size + 8
      && LiveBlocks(bs', hi) == LiveBlocks(bs, hi)[b := bs[b].size + bs[n].size + 8]
  {
    hide Tiled, FreeIndexed, Used, LiveBlocks, Absorbed;
    AbsorbTiled(bs, lo, hi, b, n, e, junk);
    AbsorbUsed(bs, b, n, e, junk);
    AbsorbFree(bs, cls, hi, b, n, e, junk);
  }

  /** The layout after the used block `b`, ending at `e`, is released on its own. */
  function Released(bs: Layout, b: int, e: int): Layout
    requires b in bs && e in bs
  {
    bs[b := bs[b].(free := true)][e := bs[e].(prevFree := true, prevHdr := b)]
  }

  lemma ReleaseOutcome(bs: Layout, cls: map<int, nat>, lo: int, hi: int, b: int, e: int)
    requires Tiled(bs, lo, hi) && FreeIndexed(bs, cls) && b in bs && b != hi && !bs[b].free && !bs[b].prevFree
    requires e in bs && e == End(bs, b) && !bs[e].free
    ensures var bs' := Released(bs, b, e);
      && Tiled(bs', lo, hi) && FreeIndexed(bs', cls[b := Class(bs[b].size)])
      && Used(bs') == Used(bs) - bs[b].size - 8
      && LiveBlocks(bs', hi) == LiveBlocks(bs, hi) - {b}
  {
    hide Class, Tiled, FreeIndexed, Used, LiveBlocks, Released;
    ReleaseTiled(bs, lo, hi, b, e);
    ReleaseUsed(bs, b, e);
    ReleaseFree(bs, cls, hi, b, e);
  }

  lemma ReleaseUsed(bs: Layout, b: int, e: int)
    requires b in bs && e in bs && b != e && !bs[b].free
    ensures Used(Released(bs, b, e)) == Used(bs) - bs[b].size - 8
  {
    hide Used;
    UsedUpdate(bs, b, bs[b].(free := true));
    UsedUpdate(bs[b := bs[b].(free := true)], e, bs[e].(prevFree := true, prevHdr := b));
  }

  lemma ReleaseFree(bs: Layout, cls: map<int, nat>, hi: int, b: int, e: int)
    requires FreeIndexed(bs, cls) && b in bs && e in bs && b != hi && b != e
    ensures FreeIndexed(Released(bs, b, e), cls[b := Class(bs[b].size)])
    ensures LiveBlocks(Released(bs, b, e), hi) == LiveBlocks(bs, hi) - {b}
  {
    hide Class;
  }

  lemma ReleaseTiled(bs: Layout, lo: int, hi: int, b: int, e: int)
    requires Tiled(bs, lo, hi) && b in bs && !bs[b].prevFree && e in bs && e == End(bs, b) && !bs[e].free
    ensures Tiled(Released(bs, b, e), lo, hi)
  {
    assert Replaced(bs, Released(bs, b, e), b, e);
    hide Disjoint, SizesOk, Tagged;
    ReplaceTiled(bs, Released(bs, b, e), b, e, lo, hi);
  }

  /** The layout after the used block `b`, ending at `e`, is released into the free block `t` before it. */
  function ReleasedInto(bs: Layout, t: int, b: int, e: int): Layout
    requires t in bs && b in bs && e in bs
  {
    (bs - {b})[t := bs[t].(size := bs[t].size + bs[b].size + 8)][e := bs[e].(prevFree := true, prevHdr := t)]
  }

  lemma ReleaseIntoTiled(bs: Layout, lo: int, hi: int, t: int, b: int, e: int)
    requires Tiled(bs, lo, hi) && b in bs && b != hi && t in bs && bs[t].free && End(bs, t) == b
    requires e in bs && e == End(bs, b) && !bs[e].free
    ensures Tiled(ReleasedInto(bs, t, b, e), lo, hi) && t < b < e
  {
    var bs' := ReleasedInto(bs, t, b, e);
    if bs[t].prevFree { Predecessor(bs, lo, hi, t); }
    assert t < b < e;
    assert Replaced(bs, bs', t, e);
    hide ReleasedInto, Disjoint, SizesOk, Tagged;
    ReplaceTiled(bs, bs', t, e, lo, hi);
  }

  lemma ReleaseIntoUsed(bs: Layout, t: int, b: int, e: int)
    requires t in bs && b in bs && e in bs && t != b && b != e && t != e && bs[t].free && !bs[b].free
    ensures Used(ReleasedInto(bs, t, b, e)) == Used(bs) - bs[b].size - 8
  {
    hide Used;
    var bs1 := bs - {b};
    var bs2 := bs1[t := bs1[t].(size := bs1[t].size + bs[b].size + 8)];
    UsedRemove(bs, b);
    UsedUpdate(bs1, t, bs1[t].(size := bs1[t].size + bs[b].size + 8));
    UsedUpdate(bs2, e, bs2[e].(prevFree := true, prevHdr := t));
  }

  lemma ReleaseIntoOutcome(bs: Layout, cls: map<int, nat>, lo: int, hi: int, t: int, b: int, e: int)
    requires Tiled(bs, lo, hi) && FreeIndexed(bs, cls) && b in bs && b != hi && !bs[b].free
    requires t in bs && bs[t].free && End(bs, t) == b && e in bs && e == End(bs, b) && !bs[e].free
    ensures var bs' := ReleasedInto(bs, t, b, e);
      && Tiled(bs', lo, hi) && FreeIndexed(bs', (cls - {t})[t := Class(bs[t].size + bs[b].size + 8)])
      && Used(bs') == Used(bs) - bs[b].size - 8
      && LiveBlocks(bs', hi) == LiveBlocks(bs, hi) - {b}
  {
    hide Class, Used, Tiled;
    ReleaseIntoTiled(bs, lo, hi, t, b, e);
    ReleaseIntoUsed(bs, t, b, e);
    ReleaseIntoFree(bs, cls, hi, t, b, e);
  }

  lemma ReleaseIntoFree(bs: Layout, cls: map<int, nat>, hi: int, t: int, b: int, e: int)
    requires FreeIndexed(bs, cls) && b in bs && b != hi && t in bs && bs[t].free && e in bs
    requires t < b < e && !bs[b].free
    ensures FreeIndexed(ReleasedInto(bs, t, b, e), (cls - {t})[t := Class(bs[t].size + bs[b].size + 8)])
    ensures LiveBlocks(ReleasedInto(bs, t, b, e), hi) == LiveBlocks(bs, hi) - {b}
  {
    hide Class;
  }

  lemma RawConsistent(m: Mem, bs: Layout, heads: seq<int>, fl: nat, sl: seq<nat>, lists: seq<seq<int>>,
                      cls: map<int, nat>, lo: int, hi: int, x: int, v: int)
    requires Consistent(m, bs, heads, fl, sl, lists, cls, lo, hi) && !LinkWord(cls, x)
    requires forall y: int :: y in bs ==> x != y && x != y + SIZE
    ensures Consistent(m[x := v], bs, heads, fl, sl, lists, cls, lo, hi)
  {
    IndexFrame(m, heads, lists, cls, x, v);
    hide IndexOk, BitsOk;
    forall a: int | a in bs
      ensures Rd(m[x := v], a) == bs[a].prevHdr && Rd(m[x := v], a + SIZE) == Encode(bs[a])
    {
      assert Rd(m, a) == bs[a].prevHdr && Rd(m, a + SIZE) == Encode(bs[a]);
    }
  }

  /** Headers, links, and the links of `b` itself are clear of all buffers but that of `b`. */
  lemma OwnClear(bs: Layout, cls: map<int, nat>, lo: int, hi: int, b: int)
    requires Tiled(bs, lo, hi) && FreeIndexed(bs, cls) && b in bs && b != hi
    ensures var live := LiveBlocks(bs, hi) - {b};
      && LinksClear(cls[b := 0], live)
      && (forall a: int :: a in bs ==> HeaderClear(a, live))
  {
    TiledClear(bs, lo, hi, cls);
  }

  /** Cutting `b` right after detaching its free successor is cutting the swallowed block. */
  lemma CarvedAbsorbed(bs: Layout, b: int, n: int, e: int, size: nat, j: int, junk: int)
    requires b in bs && n in bs && e in bs && b != n && n != e && b != e && b + size + 16 <= e && !bs[b].free
    ensures b in Absorbed(bs, b, n, e, j) && e in Absorbed(bs, b, n, e, j)
    ensures Absorbed(bs, b, n, e, j)[b] == bs[b].(size := bs[b].size + bs[n].size + 8)
    ensures Absorbed(bs, b, n, e, j)[e] == bs[e].(prevFree := false, prevHdr := j)
    ensures Carved(Absorbed(bs, b, n, e, j), b, size, e, junk) == Carved(bs - {n}, b, size, e, junk)
  {
  }
}

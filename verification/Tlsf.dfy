/** The TLSF allocator over one memory pool: `malloc_ex`, `free_ex` and `realloc_ex` acting on
    headers, free-list links and bitmaps in place. `Valid` is what every call keeps. */
module Tlsf {
  import opened BitWord
  import opened TlsfMapping
  import opened TlsfIndex
  import opened TlsfBlocks

  function Min(a: int, b: int): int { if a <= b then a else b }

  /** The size a request is served with: adjusted to the block grain, then to a class. */
  function Rounded(request: nat): nat {
    MappingSearch(Adjust(request)).0
  }

  /** Block `b` comes first in list `c`, and nothing else changes. */
  ghost predicate Pushes(before: seq<seq<int>>, after: seq<seq<int>>, c: int, b: int) {
    0 <= c < |before| && after == before[c := [b] + before[c]]
  }

  class Pool {
    const lo: int    // the first block
    const hi: int    // the sentinel
    const base: int  // used_size of the freshly initialised pool

    var mem: Mem
    var heads: seq<int>      // matrix[fl][sl], at fl * 32 + sl
    var flBitmap: nat
    var slBitmap: seq<nat>
    var usedSize: int

    ghost var bs: Layout
    ghost var lists: seq<seq<int>>
    ghost var cls: map<int, nat>

    /** What holds between any two statements: headers and index are stored consistently. */
    ghost predicate Indexed()
      reads this
    {
      Consistent(mem, bs, heads, flBitmap, slBitmap, lists, cls, lo, hi)
    }

    /** What holds between calls: the blocks tile the pool with exact boundary tags and no two
        free neighbours, the index holds exactly the free blocks, and usage is accounted. */
    ghost predicate Valid()
      reads this
    {
      && Indexed()
      && Tiled(bs, lo, hi)
      && FreeIndexed(bs, cls)
      && hi - lo - 8 < MAX_SIZE
      && usedSize == base + Used(bs) - 8  // the sentinel is not counted
    }

    ghost function Live(): map<int, nat>
      reads this
    {
      LiveBlocks(bs, hi)
    }

    predicate InPool(x: int) {
      lo <= x <= hi + 4
    }

    function Load(x: int): int
      requires InPool(x)
      reads this
    {
      Rd(mem, x)
    }

    method Store(x: int, v: int)
      requires InPool(x)
      modifies this`mem
      ensures mem == old(mem)[x := v]
    {
      mem := mem[x := v];
    }

    /** The fields `init_memory_pool` leaves in a zeroed pool whose first block is `first`. */
    constructor (first: int, size: nat, initialUsed: int)
      requires first > 0 && size % 8 == 0 && 8 <= size < MAX_SIZE
      ensures Valid() && lo == first && hi == first + 8 + size && usedSize == base == initialUsed
      ensures bs == FreshBlocks(first, size)
    {
      hide Class, MappingInsert, IndexOk, BitsOk, Used, Tiled, Consistent, FreeIndexed, Stored, Pushes;
      lo, hi, base, usedSize := first, first + 8 + size, initialUsed, initialUsed;
      mem := map[first + SIZE := size + 1, first + 8 + size := first, first + 8 + size + SIZE := 2];
      heads := seq(CLASSES, _ => 0);
      slBitmap := seq(REAL_FLI, _ => 0);
      flBitmap := 0;
      bs := FreshBlocks(first, size);
      lists := EmptyLists();
      cls := map[];
      new;
      FreshConsistent(first, size);
      FreshLayout(first, size);
      var c := MappingInsert(size);
      ClassInMatrix(size);
      InsertBlock(first, c.0, c.1);
    }

    // ---- header words ----

    /** Writes the size word of a block, existing or carved out of another. */
    method StoreSize(a: int, w: int, ghost b: Block)
      requires Indexed() && lo <= a <= hi && w == Encode(b) && b.prevHdr == Rd(mem, a)
      requires forall y: int :: y in bs ==> y == a || y + 8 <= a || a + 8 <= y
      requires forall y: int :: y in cls ==> y + 16 <= a || a <= y
      modifies this`mem, this`bs
      ensures Indexed() && bs == old(bs)[a := b] && HeaderWrite(old(mem), mem, a)
    {
      hide Consistent;
      SizeWordConsistent(mem, bs, heads, flBitmap, slBitmap, lists, cls, lo, hi, a, b);
      Store(a + SIZE, w);
      bs := bs[a := b];
    }

    method StorePrevHdr(a: int, p: int)
      requires Indexed() && a in bs && InPool(a)
      modifies this`mem, this`bs
      ensures Indexed() && bs == old(bs)[a := old(bs)[a].(prevHdr := p)] && HeaderWrite(old(mem), mem, a)
    {
      hide Consistent;
      PrevWordConsistent(mem, bs, heads, flBitmap, slBitmap, lists, cls, lo, hi, a, p);
      Store(a, p);
      bs := bs[a := bs[a].(prevHdr := p)];
    }

    lemma HeaderWord(a: int)
      requires Indexed() && a in bs
      ensures lo <= a <= hi
      ensures Rd(mem, a) == bs[a].prevHdr && Rd(mem, a + SIZE) == Encode(bs[a])
    {
    }

    /** `size & TLSF_BLOCK_SIZE`, `size & FREE_BLOCK`, `size & PREV_FREE` */
    method ReadHeader(a: int) returns (size: nat, free: bool, prevFree: bool)
      requires Indexed() && a in bs && bs[a].size % 8 == 0
      ensures size == bs[a].size && free == bs[a].free && prevFree == bs[a].prevFree
    {
      HeaderWord(a);
      Decode(bs[a]);
      var w := Load(a + SIZE);
      size, free, prevFree := SizeOf(w), FreeBit(w), PrevBit(w);
    }

    /** `size |= PREV_FREE` or `size &= ~PREV_FREE` */
    method MarkPrev(a: int, on: bool)
      requires Indexed() && a in bs && bs[a].size % 8 == 0
      modifies this`mem, this`bs
      ensures Indexed() && bs == old(bs)[a := old(bs)[a].(prevFree := on)] && HeaderWrite(old(mem), mem, a)
    {
      HeaderWord(a);
      Decode(bs[a]);
      var w := Load(a + SIZE);
      StoreSize(a, if on then SetPrev(w) else ClearPrev(w), bs[a].(prevFree := on));
    }

    /** `size |= FREE_BLOCK` or `size &= ~FREE_BLOCK` */
    method MarkFree(a: int, on: bool)
      requires Indexed() && a in bs && bs[a].size % 8 == 0
      modifies this`mem, this`bs
      ensures Indexed() && bs == old(bs)[a := old(bs)[a].(free := on)] && HeaderWrite(old(mem), mem, a)
    {
      HeaderWord(a);
      Decode(bs[a]);
      var w := Load(a + SIZE);
      StoreSize(a, if on then SetFree(w) else ClearFree(w), bs[a].(free := on));
    }

    /** `size = newSize | (size & PREV_STATE)` */
    method SetUsed(a: int, newSize: nat)
      requires Indexed() && a in bs && bs[a].size % 8 == 0
      modifies this`mem, this`bs
      ensures Indexed() && HeaderWrite(old(mem), mem, a)
      ensures bs == old(bs)[a := old(bs)[a].(size := newSize, free := false)]
    {
      HeaderWord(a);
      Decode(bs[a]);
      StoreSize(a, newSize + PrevState(Load(a + SIZE)), bs[a].(size := newSize, free := false));
    }

    /** `size += n` */
    method Grow(a: int, n: nat)
      requires Indexed() && a in bs
      modifies this`mem, this`bs
      ensures Indexed() && HeaderWrite(old(mem), mem, a)
      ensures bs == old(bs)[a := old(bs)[a].(size := old(bs)[a].size + n)]
    {
      HeaderWord(a);
      StoreSize(a, Load(a + SIZE) + n, bs[a].(size := bs[a].size + n));
    }

    // ---- free lists ----

    /** `FIND_SUITABLE_BLOCK` */
    method FindSuitable(f0: nat, s0: nat) returns (b: int, f: int, s: int)
      requires Indexed() && f0 < REAL_FLI && s0 < MAX_SLI
      ensures b != 0 ==> b > 0 && 0 <= f < REAL_FLI && 0 <= s < MAX_SLI && f0 * 32 + s0 <= f * 32 + s
      ensures b != 0 ==> lists[f * 32 + s] != [] && lists[f * 32 + s][0] == b && b in cls && cls[b] == f * 32 + s
      ensures b != 0 ==> forall c: int :: f0 * 32 + s0 <= c < f * 32 + s ==> lists[c] == []
      ensures b == 0 ==> forall a: int :: a in cls ==> cls[a] < f0 * 32 + s0
    {
      FindClassExact(flBitmap, slBitmap, lists, f0, s0);
      var r := FindClass(flBitmap, slBitmap, f0, s0);
      f, s, b := r.0, r.1, 0;
      if f >= 0 {
        b := heads[f * 32 + s];
        assert Linked(mem, heads[f * 32 + s], lists[f * 32 + s]);
        assert LinkAt(mem, lists[f * 32 + s], 0);
        assert lists[f * 32 + s][0] in cls;
      }
    }

    /** `INSERT_BLOCK` */
    method InsertBlock(b: int, f: int, s: int)
      requires Indexed() && b in bs && b !in cls && b != hi && 0 <= f < REAL_FLI && 0 <= s < MAX_SLI
      requires forall y: int :: y in bs && b < y ==> b + 16 <= y
      modifies this`mem, this`heads, this`flBitmap, this`slBitmap, this`lists, this`cls
      ensures Indexed() && cls == old(cls)[b := f * 32 + s]
      ensures Pushes(old(lists), lists, f * 32 + s, b)
      ensures forall x: int :: !LinkWord(cls, x) ==> Rd(mem, x) == Rd(old(mem), x)
    {
      hide Consistent, LinkWord, Rd;
      var c := f * 32 + s;
      InsertConsistent(mem, bs, heads, flBitmap, slBitmap, lists, cls, lo, hi, b, f, s);
      ghost var m := mem;
      Store(b + PREV, 0);
      Store(b + NEXT, heads[c]);
      if heads[c] != 0 {
        Store(heads[c] + PREV, b);
      }
      assert mem == InsertMem(m, b, heads[c]);
      heads := heads[c := b];
      slBitmap := slBitmap[f := SetBit(slBitmap[f], s)];
      flBitmap := SetBit(flBitmap, f);
      lists, cls := lists[c := [b] + lists[c]], cls[b := c];
    }

    /** `EXTRACT_BLOCK` */
    method ExtractBlock(b: int, f: int, s: int)
      requires Indexed() && b in cls && 0 <= f < REAL_FLI && 0 <= s < MAX_SLI && cls[b] == f * 32 + s
      modifies this`mem, this`heads, this`flBitmap, this`slBitmap, this`lists, this`cls
      ensures Indexed() && cls == old(cls) - {b}
      ensures forall x: int :: !LinkWord(old(cls), x) ==> Rd(mem, x) == Rd(old(mem), x)
    {
      hide Consistent, LinkWord, Rd;
      var c := f * 32 + s;
      ghost var k := ExtractConsistent(mem, bs, heads, flBitmap, slBitmap, lists, cls, lo, hi, b, f, s);
      ghost var m := mem;
      var n, p := Load(b + NEXT), Load(b + PREV);
      if n != 0 {
        Store(n + PREV, p);
      }
      if p != 0 {
        Store(p + NEXT, n);
      }
      if heads[c] == b {
        heads := heads[c := n];
        if heads[c] == 0 {
          slBitmap := slBitmap[f := ClearBit(slBitmap[f], s)];
          if slBitmap[f] == 0 {
            flBitmap := ClearBit(flBitmap, f);
          }
        }
      }
      Store(b + PREV, 0);
      Store(b + NEXT, 0);
      assert mem == ExtractMem(m, b);
      lists, cls := lists[c := Without(lists[c], k)], cls - {b};
    }

    /** `EXTRACT_BLOCK_HDR`: unlinks the head of its list. */
    method ExtractHead(b: int, f: int, s: int)
      requires Indexed() && b in cls && 0 <= f < REAL_FLI && 0 <= s < MAX_SLI && cls[b] == f * 32 + s
      requires lists[f * 32 + s] != [] && lists[f * 32 + s][0] == b
      modifies this`mem, this`heads, this`flBitmap, this`slBitmap, this`lists, this`cls
      ensures Indexed() && cls == old(cls) - {b}
      ensures |old(lists)| == CLASSES && lists == old(lists)[f * 32 + s := old(lists)[f * 32 + s][1..]]
      ensures forall x: int :: !LinkWord(old(cls), x) ==> Rd(mem, x) == Rd(old(mem), x)
    {
      HeadFirst(mem, heads, lists, cls, b);
      hide Consistent, LinkWord, Rd, Without;
      var c := f * 32 + s;
      WithoutFirst(lists[c]);
      ghost var k := ExtractConsistent(mem, bs, heads, flBitmap, slBitmap, lists, cls, lo, hi, b, f, s);
      ghost var m := mem;
      heads := heads[c := Load(b + NEXT)];
      if heads[c] != 0 {
        Store(heads[c] + PREV, 0);
      } else {
        slBitmap := slBitmap[f := ClearBit(slBitmap[f], s)];
        if slBitmap[f] == 0 {
          flBitmap := ClearBit(flBitmap, f);
        }
      }
      Store(b + PREV, 0);
      Store(b + NEXT, 0);
      assert mem == ExtractMem(m, b);
      lists, cls := lists[c := lists[c][1..]], cls - {b};
    }

    // ---- allocation ----

    /** Cuts block `b` to `size`: the rest, up to the block `next`, becomes an indexed free block. */
    method Carve(b: int, size: nat, next: int) returns (ghost junk: int)
      requires Indexed() && b in bs && next in bs && b !in cls && lo <= b && next <= hi
      requires size % 8 == 0 && bs[b].size % 8 == 0 && bs[next].size % 8 == 0
      requires 8 <= size && b + size + 24 <= next < b + 16 + MAX_SIZE && (next - b) % 8 == 0
      requires forall y: int :: y in bs ==> y == b || y + 8 <= b || next <= y
      requires forall y: int :: y in cls ==> y + 16 <= b || next <= y
      modifies this`mem, this`bs, this`heads, this`flBitmap, this`slBitmap, this`lists, this`cls
      ensures Indexed()
      ensures bs == Carved(old(bs), b, size, next, junk)
      ensures cls == old(cls)[b + 8 + size := Class(next - b - size - 16)]
      ensures Writes(old(mem), mem, {b, b + 8 + size, next}, cls)
    {
      hide Consistent, Class, MappingInsert, LinkWord, Rd, Pushes, Carved;
      var q := b + 8 + size;
      var tmp := next - q - 8;
      RestSize(next - b, size);
      junk := Rd(mem, q);
      CarveSteps(bs, b, size, next, junk);
      StoreSize(q, tmp + 1, Block(tmp, true, false, junk));
      StorePrevHdr(next, q);
      MarkPrev(next, true);
      var c := MappingInsert(tmp);
      ClassInMatrix(tmp);
      InsertBlock(q, c.0, c.1);
      SetUsed(b, size);
    }

    /** `ptr.free_ptr = {NULL, NULL}` on a block outside the index */
    method ClearLinks(b: int)
      requires Indexed() && b in bs && b !in cls && lo <= b < hi
      requires forall y: int :: y in bs && b < y ==> b + 16 <= y
      modifies this`mem
      ensures Indexed() && Writes(old(mem), mem, {}, cls[b := 0])
    {
      OwnLinks(b);
      hide Consistent;
      RawConsistent(mem, bs, heads, flBitmap, slBitmap, lists, cls, lo, hi, b + PREV, 0);
      Store(b + PREV, 0);
      RawConsistent(mem, bs, heads, flBitmap, slBitmap, lists, cls, lo, hi, b + NEXT, 0);
      Store(b + NEXT, 0);
    }

    lemma OwnLinks(b: int)
      requires Indexed() && b in bs && b !in cls && lo <= b < hi
      requires forall y: int :: y in bs && b < y ==> b + 16 <= y
      ensures !LinkWord(cls, b + PREV) && !LinkWord(cls, b + NEXT) && b + 16 <= hi
      ensures forall y: int :: y in bs ==> b + PREV != y && b + PREV != y + SIZE && b + NEXT != y && b + NEXT != y + SIZE
    {
    }

    /** `malloc_ex` once a block is found: unlink it, and use it whole or cut it. */
    method TakeBlock(b: int, f: int, s: int, size: nat) returns (p: int)
      requires Valid() && b in cls && 0 <= f < REAL_FLI && 0 <= s < MAX_SLI && cls[b] == f * 32 + s
      requires lists[f * 32 + s] != [] && lists[f * 32 + s][0] == b
      requires 8 <= size <= bs[b].size && size % 8 == 0
      modifies this
      ensures Valid() && p == b + 8 && b in bs
      ensures Live() == old(Live())[b := bs[b].size] && size <= bs[b].size < size + 16
      ensures bs[b].size == if old(bs)[b].size - size >= 16 then size else old(bs)[b].size
      ensures usedSize == old(usedSize) + bs[b].size + 8
      ensures Kept(old(mem), mem, old(Live()))
    {
      hide Consistent, Tiled, MappingInsert, LinkWord, Used, Class, Rd, LinksClear, HeaderClear, Kept, FreeIndexedBut,
           LiveBlocks, FreeIndexed, Pushes;
      ghost var bs0, cls0, m0, live := bs, cls, mem, Live();
      FreeBlockFacts(bs, cls, lo, hi, b);
      SizeBound(bs, lo, hi, b);
      BlockSpan(bs, cls - {b}, lo, hi, b);
      ExtractHead(b, f, s);
      ghost var m1 := mem;
      assert Writes(m0, m1, {}, cls0);
      WritesKeep(m0, m1, {}, cls0, live);
      var blockSize, _, _ := ReadHeader(b);
      var next := b + 8 + blockSize;
      if blockSize - size >= 16 {
        ghost var junk := Carve(b, size, next);
        CarveOutcome(bs0, cls0 - {b}, lo, hi, b, size, junk, m1, mem);
        KeptSubset(m1, mem, live[b := size], live);
      } else {
        MarkPrev(next, false);
        MarkFree(b, false);
        assert Writes(m1, mem, {b, next}, cls);
        TakeOutcome(bs0, cls0 - {b}, lo, hi, b, m1, mem);
      }
      KeptTrans(m0, m1, mem, live);
      var taken, _, _ := ReadHeader(b);
      usedSize := usedSize + taken + 8;
      p := b + 8;
    }

    /** `malloc_ex` */
    method Malloc(request: nat) returns (p: int)
      requires Valid() && Rounded(request) < MAX_SIZE
      modifies this
      ensures Valid()
      ensures p == 0 <==> forall a: int :: a in old(bs) && old(bs)[a].free ==> old(bs)[a].size < Rounded(request)
      ensures p == 0 ==> unchanged(this)
      ensures p != 0 ==>
        && p - 8 !in old(Live()) && p - 8 in bs
        && Live() == old(Live())[p - 8 := bs[p - 8].size]
        && Rounded(request) <= bs[p - 8].size < Rounded(request) + 16
        && usedSize == old(usedSize) + bs[p - 8].size + 8
      ensures p != 0 ==>
        && p - 8 in old(bs) && old(bs)[p - 8].free && p - 8 in old(cls)
        && bs[p - 8].size == (if old(bs)[p - 8].size - Rounded(request) >= 16 then Rounded(request) else old(bs)[p - 8].size)
        && var c := old(cls)[p - 8];
        && Class(Rounded(request)) <= c < |old(heads)| == |old(lists)|
        && old(heads)[c] == p - 8 && old(lists)[c] != [] && old(lists)[c][0] == p - 8
        && forall d: int :: Class(Rounded(request)) <= d < c ==> old(lists)[d] == []
      ensures Kept(old(mem), mem, old(Live()))
    {
      hide Consistent, Tiled, MappingSearch, Used, Class, Adjust;
      SearchOutcome(request, bs, cls, lo, hi);
      var search := MappingSearch(Adjust(request));
      var b, f, s := FindSuitable(search.1, search.2);
      if b == 0 {
        return 0;
      }
      assert bs[b].free && bs[b].size >= Rounded(request);
      HeadStored(f * 32 + s);
      p := TakeBlock(b, f, s, search.0);
    }

    /** A head in the matrix is the first block of its list. */
    lemma HeadStored(c: nat)
      requires Indexed() && c < CLASSES && lists[c] != []
      ensures |heads| == |lists| == CLASSES && heads[c] == lists[c][0]
    {
      assert Linked(mem, heads[c], lists[c]);
      assert LinkAt(mem, lists[c], 0);
    }

    /** Unlinks the free block `next`, which then is part of no block. */
    method DetachNext(next: int, nSize: nat)
      requires Indexed() && next in cls && next in bs && next != hi
      requires nSize < MAX_SIZE && cls[next] == Class(nSize)
      modifies this`mem, this`bs, this`heads, this`flBitmap, this`slBitmap, this`lists, this`cls
      ensures Indexed() && cls == old(cls) - {next} && bs == old(bs) - {next}
      ensures Writes(old(mem), mem, {}, old(cls))
    {
      hide Consistent, MappingInsert, LinkWord, Class, Rd;
      var c := MappingInsert(nSize);
      ClassInMatrix(nSize);
      ExtractBlock(next, c.0, c.1);
      DropConsistent(mem, bs, heads, flBitmap, slBitmap, lists, cls, lo, hi, next);
      bs := bs - {next};
    }

    /** Unlinks the free block `next` and adds it to the size of `b` before it. */
    method MergeNext(b: int, next: int, nSize: nat)
      requires Indexed() && b in bs && next in cls && next in bs && b != next && next != hi
      requires nSize < MAX_SIZE && cls[next] == Class(nSize)
      modifies this`mem, this`bs, this`heads, this`flBitmap, this`slBitmap, this`lists, this`cls
      ensures Indexed() && cls == old(cls) - {next} && Writes(old(mem), mem, {b}, old(cls))
      ensures bs == (old(bs) - {next})[b := old(bs)[b].(size := old(bs)[b].size + nSize + 8)]
    {
      hide Consistent, LinkWord, Class, Rd;
      DetachNext(next, nSize);
      Grow(b, nSize + 8);
    }

    /** The end of `free_ex`: index the block `b` and tag its successor. */
    method IndexReleased(b: int, size: nat, next: int)
      requires Indexed() && b in bs && b !in cls && b != hi && next in bs && InPool(next) && bs[next].size % 8 == 0
      requires size < MAX_SIZE && forall y: int :: y in bs && b < y ==> b + 16 <= y
      modifies this`mem, this`bs, this`heads, this`flBitmap, this`slBitmap, this`lists, this`cls
      ensures Indexed() && cls == old(cls)[b := Class(size)]
      ensures bs == old(bs)[next := old(bs)[next].(prevFree := true, prevHdr := b)]
      ensures Writes(old(mem), mem, {next}, cls)
    {
      hide Consistent, Class, MappingInsert, LinkWord, Rd, Writes, HeaderWrite, Pushes;
      ghost var m0, hs, links := mem, {next}, cls[b := Class(size)];
      NoWrites(mem, hs, links);
      var c := MappingInsert(size);
      ClassInMatrix(size);
      InsertBlock(b, c.0, c.1);
      WritesLinks(m0, m0, mem, hs, links, cls);
      ghost var m := mem;
      MarkPrev(next, true);
      WritesHeader(m0, m, mem, hs, links, next);
      m := mem;
      StorePrevHdr(next, b);
      WritesHeader(m0, m, mem, hs, links, next);
    }

    /** The second half of `free_ex`: merge with a free predecessor, index the block, tag its successor. */
    method Release(b0: int, ghost e: int, ghost abs: Layout)
      requires Indexed() && Tiled(abs, lo, hi) && FreeIndexed(abs, cls) && hi - lo - 8 < MAX_SIZE
      requires Freeing(bs, abs, b0, e) && b0 != hi && e == End(abs, b0) && !abs[e].free
      modifies this`mem, this`bs, this`heads, this`flBitmap, this`slBitmap, this`lists, this`cls
      ensures Indexed() && Tiled(bs, lo, hi) && FreeIndexed(bs, cls)
      ensures Used(bs) == Used(abs) - abs[b0].size - 8 && LiveBlocks(bs, hi) == LiveBlocks(abs, hi) - {b0}
      ensures Writes(old(mem), mem, old(bs).Keys, old(cls)[b0 := 0])
    {
      hide Consistent, Tiled, MappingInsert, LinkWord, Used, Class, Rd, FreeIndexedBut, LiveBlocks, FreeIndexed,
           Writes, HeaderWrite, Pushes;
      FreeingFacts(abs, cls, lo, hi, b0, e);
      ghost var m0, m, hs, links := mem, mem, bs.Keys, cls[b0 := 0];
      NoWrites(mem, hs, links);
      var b := b0;
      var size, _, prevFree := ReadHeader(b);
      if prevFree {
        HeaderWord(b);
        var t := Load(b);
        PredecessorFacts(abs, cls, lo, hi, b0, t);
        var tSize, _, _ := ReadHeader(t);
        var c := MappingInsert(tSize);
        ClassInMatrix(tSize);
        ExtractBlock(t, c.0, c.1);
        WritesLinks(m0, m0, mem, hs, links, old(cls));
        m := mem;
        Grow(t, size + 8);
        WritesHeader(m0, m, mem, hs, links, t);
        DropConsistent(mem, bs, heads, flBitmap, slBitmap, lists, cls, lo, hi, b);
        bs := bs - {b};
        b := t;
        size := size + tSize + 8;
        ReleaseIntoOutcome(abs, old(cls), lo, hi, t, b0, e);
      } else {
        ReleaseOutcome(abs, cls, lo, hi, b0, e);
      }
      m := mem;
      IndexReleased(b, size, b + 8 + size);
      WritesTrans(m0, m, mem, hs, links, {e}, cls);
      assert bs == if prevFree then ReleasedInto(abs, b, b0, e) else Released(abs, b0, e);
    }

    /** `free_ex` */
    method Free(p: int)
      requires Valid() && (p == 0 || p - 8 in Live())
      modifies this
      ensures Valid()
      ensures p == 0 ==> unchanged(this)
      ensures p != 0 ==> Live() == old(Live()) - {p - 8} && usedSize == old(usedSize) - old(Live())[p - 8] - 8
      ensures Kept(old(mem), mem, Live())
    {
      hide Consistent, Tiled, LinkWord, Used, Class, FreeIndexed, FreeIndexedBut, LiveBlocks, Writes, LinksClear,
           HeaderClear, Kept, Freeing, Absorbed, Rd;
      if p == 0 {
        KeptSame(mem, Live());
        return;
      }
      var b := p - 8;
      ghost var bs0, cls0, m0, hs, links, live := bs, cls, mem, bs.Keys, cls[b := 0], Live() - {b};
      LiveFacts(bs, cls, lo, hi, b);
      NoWrites(mem, hs, links);
      var size := Unuse(b);
      WritesTrans(m0, m0, mem, hs, links, {b}, links);
      ghost var m1, abs, e := mem, bs0, b + 8 + size;
      var next := b + 8 + size;
      var nSize, nFree, _ := ReadHeader(next);
      if nFree {
        SuccessorFacts(bs0, cls0, lo, hi, b, next);
        e := next + 8 + nSize;
        abs := Absorbed(bs0, b, next, e, bs0[e].prevHdr);
        MergeNext(b, next, nSize);
        WritesTrans(m0, m1, mem, hs, links, {b}, cls0);
        m1 := mem;
        AbsorbOutcome(bs0, cls0, lo, hi, b, next, e, bs0[e].prevHdr);
        FreeingAbsorbed(bs0, b, next, e);
      } else {
        FreeingPlain(bs0, b, e);
      }
      ghost var hs1, links1 := bs.Keys, cls[b := 0];
      Release(b, e, abs);
      WritesTrans(m0, m1, mem, hs, links, hs1, links1);
      WritesKeep(m0, mem, hs, links, live);
    }

    // ---- reallocation ----

    /** `realloc_ex` when the block is large enough: cut it, together with a free successor. */
    method ReallocSmaller(b: int, size: nat)
      requires Valid() && b in Live() && 8 <= size <= bs[b].size && size % 8 == 0
      modifies this
      ensures Valid() && b in bs && Live() == old(Live())[b := bs[b].size]
      ensures var n := b + 8 + old(bs)[b].size;
        var total := old(bs)[b].size + if n in old(bs) && old(bs)[n].free then old(bs)[n].size + 8 else 0;
        && bs[b].size == (if total - size >= 16 then size else total)
        && (total - size >= 16 ==> b + 8 + size in bs && bs[b + 8 + size].free && bs[b + 8 + size].size == total - size - 8)
      ensures usedSize == old(usedSize) + bs[b].size - old(bs)[b].size
      ensures Kept(old(mem), mem, old(Live())[b := size])
    {
      hide Consistent, Tiled, LinkWord, Used, Class, FreeIndexed, FreeIndexedBut, LiveBlocks, Writes, LinksClear,
           HeaderClear, Kept, Absorbed, Rd;
      ghost var bs0, cls0, m0, live := bs, cls, mem, Live();
      LiveFacts(bs, cls, lo, hi, b);
      KeptSame(mem, live);
      var bSize, _, _ := ReadHeader(b);
      usedSize := usedSize - (bSize + 8);
      var next := b + 8 + bSize;
      var nSize, nFree, _ := ReadHeader(next);
      var total := bSize;
      ghost var abs, n := bs0, next;
      if nFree {
        SuccessorFacts(bs, cls, lo, hi, b, next);
        DetachNext(next, nSize);
        total := total + nSize + 8;
        next := next + 8 + nSize;
        abs := Absorbed(bs0, b, n, next, 0);
        AbsorbOutcome(bs0, cls0, lo, hi, b, n, next, 0);
        DetachedCut(bs0, b, n, next, size);
        TiledClear(bs0, lo, hi, cls0);
        WritesKeep(m0, mem, {}, cls0, live);
      }
      ghost var m1 := mem;
      KeptSubset(m0, m1, live, live[b := size]);
      CutBack(b, size, total, next, abs);
      assert LiveBlocks(abs, hi)[b := size] == live[b := size];
      KeptTrans(m0, m1, mem, live[b := size]);
    }

    /** The end of both ways to resize in place: block `b`, which extends to `next` in `abs`, is cut to
        `size` if what is left over can be a block, and accounted. */
    method CutBack(b: int, size: nat, total: nat, next: int, ghost abs: Layout)
      requires Indexed() && Tiled(abs, lo, hi) && FreeIndexed(abs, cls) && hi - lo - 8 < MAX_SIZE
      requires b in LiveBlocks(abs, hi) && CutAlike(bs, abs, b, size, next) && !abs[next].free
      requires total == abs[b].size && next == End(abs, b) && usedSize == base + Used(abs) - total - 16
      requires 8 <= size <= total && size % 8 == 0
      modifies this
      ensures Valid() && b in bs && bs[b].size == if total - size >= 16 then size else total
      ensures total - size >= 16 ==> b + 8 + size in bs && bs[b + 8 + size].free && bs[b + 8 + size].size == total - size - 8
      ensures LiveBlocks(bs, hi) == LiveBlocks(abs, hi)[b := bs[b].size] && usedSize == old(usedSize) + bs[b].size + 8
      ensures Kept(old(mem), mem, LiveBlocks(abs, hi)[b := size])
    {
      hide Consistent, Tiled, LinkWord, Used, Class, FreeIndexed, FreeIndexedBut, LiveBlocks, Writes, LinksClear,
           HeaderClear, Kept, Rd;
      ghost var m, cls1 := mem, cls;
      LiveFacts(abs, cls, lo, hi, b);
      KeptSame(mem, LiveBlocks(abs, hi)[b := size]);
      if total - size >= 16 {
        ghost var junk := Carve(b, size, next);
        CarveOutcome(abs, cls1, lo, hi, b, size, junk, m, mem);
      } else {
        assert LiveBlocks(abs, hi)[b := total] == LiveBlocks(abs, hi);
      }
      var newSize, _, _ := ReadHeader(b);
      usedSize := usedSize + newSize + 8;
    }

    /** Makes the free block `n` behind `b`, which ends at `e`, part of `b`. */
    method SwallowNext(b: int, n: int, nSize: nat, e: int)
      requires Indexed() && b in bs && n in bs && e in bs && InPool(e) && n in cls && n != hi
      requires b != n && n != e && b != e && nSize == bs[n].size < MAX_SIZE && cls[n] == Class(nSize) && bs[e].size % 8 == 0
      modifies this`mem, this`bs, this`heads, this`flBitmap, this`slBitmap, this`lists, this`cls
      ensures Indexed() && cls == old(cls) - {n} && bs == Absorbed(old(bs), b, n, e, b)
      ensures Writes(old(mem), mem, {b, e}, old(cls))
    {
      hide Consistent, LinkWord, Class, Writes, HeaderWrite, Rd;
      ghost var m0, cls0, hs := mem, cls, {b, e};
      NoWrites(m0, hs, cls0);
      MergeNext(b, n, nSize);
      WritesTrans(m0, m0, mem, hs, cls0, {b}, cls0);
      ghost var m := mem;
      StorePrevHdr(e, b);
      WritesHeader(m0, m, mem, hs, cls0, e);
      m := mem;
      MarkPrev(e, false);
      WritesHeader(m0, m, mem, hs, cls0, e);
    }

    /** `realloc_ex` when a free successor makes the block large enough: swallow it, then cut. */
    method ReallocLarger(b: int, size: nat)
      requires Valid() && b in Live() && b in bs && bs[b].size < size && size % 8 == 0
      requires End(bs, b) in bs && bs[End(bs, b)].free && size <= bs[b].size + bs[End(bs, b)].size
      modifies this
      ensures Valid() && b in bs && Live() == old(Live())[b := bs[b].size]
      ensures var total := old(bs)[b].size + 8 + old(bs[End(bs, b)].size);
        && bs[b].size == (if total - size >= 16 then size else total)
        && (total - size >= 16 ==> b + 8 + size in bs && bs[b + 8 + size].free && bs[b + 8 + size].size == total - size - 8)
      ensures usedSize == old(usedSize) + bs[b].size - old(bs)[b].size
      ensures Kept(old(mem), mem, old(Live()))
    {
      hide Consistent, Tiled, LinkWord, Used, Class, FreeIndexed, FreeIndexedBut, LiveBlocks, Writes, LinksClear,
           HeaderClear, HeaderWrite, Kept, Rd;
      ghost var bs0, cls0, m0, live := bs, cls, mem, Live();
      LiveFacts(bs, cls, lo, hi, b);
      var bSize, _, _ := ReadHeader(b);
      usedSize := usedSize - (bSize + 8);
      var n := b + 8 + bSize;
      var nSize, _, _ := ReadHeader(n);
      SuccessorFacts(bs, cls, lo, hi, b, n);
      var next := n + 8 + nSize;
      SwallowNext(b, n, nSize, next);
      TiledClear(bs0, lo, hi, cls0);
      WritesKeep(m0, mem, {b, next}, cls0, live);
      ghost var m1 := mem;
      AbsorbOutcome(bs0, cls0, lo, hi, b, n, next, b);
      AbsorbedCut(bs0, b, n, next, b);
      ghost var abs := bs;
      CutBack(b, size, bSize + nSize + 8, next, abs);
      assert LiveBlocks(abs, hi)[b := size] == live[b := size];
      KeptSubset(m1, mem, live[b := size], live);
      KeptTrans(m0, m1, mem, live);
    }

    /** `memcpy` between two buffers. */
    method Copy(dst: int, src: int, n: nat)
      requires Valid() && dst - 8 in Live() && src - 8 in Live() && dst != src
      requires n <= Live()[dst - 8] && n <= Live()[src - 8]
      modifies this`mem
      ensures Valid()
      ensures Copied(old(mem), src, mem, dst, n)
      ensures forall x: int :: !(dst <= x < dst + n) ==> Rd(mem, x) == Rd(old(mem), x)
    {
      hide Consistent, Tiled, LinkWord, Used, FreeIndexed, LiveBlocks;
      BuffersApart(bs, lo, hi, dst - 8, src - 8);
      for k := 0 to n
        invariant Valid()
        invariant Copied(old(mem), src, mem, dst, k)
        invariant forall x: int :: !(dst <= x < dst + k) ==> Rd(mem, x) == Rd(old(mem), x)
      {
        BufferCell(bs, cls, lo, hi, dst - 8, dst + k);
        BufferCell(bs, cls, lo, hi, src - 8, src + k);
        RawConsistent(mem, bs, heads, flBitmap, slBitmap, lists, cls, lo, hi, dst + k, Load(src + k));
        ghost var m := mem;
        Store(dst + k, Load(src + k));
        forall i: int | 0 <= i < k + 1
          ensures ByteAt(mem, dst, i) == ByteAt(old(mem), src, i)
        {
          if i < k { assert ByteAt(m, dst, i) == ByteAt(old(mem), src, i); }
        }
      }
    }

    /** `realloc_ex`. Its unchecked fallback allocation is required to succeed. */
    method Realloc(p: int, request: nat) returns (r: int)
      requires Valid() && (p == 0 || p - 8 in Live()) && Rounded(request) < MAX_SIZE
      requires p != 0 && request != 0 && !FitsInPlace(p - 8, Adjust(request)) ==>
        exists a: int :: a in bs && bs[a].free && bs[a].size >= Rounded(request)
      modifies this
      ensures p == 0 && request == 0 ==> r == 0 && unchanged(this)
      ensures p == 0 && request != 0 ==>
        && (r == 0 <==> forall a: int :: a in old(bs) && old(bs)[a].free ==> old(bs)[a].size < Rounded(request))
        && (r == 0 ==> unchanged(this))
        && (r != 0 ==> r - 8 !in old(Live()) && r - 8 in bs && Live() == old(Live())[r - 8 := bs[r - 8].size]
                       && Rounded(request) <= bs[r - 8].size < Rounded(request) + 16
                       && usedSize == old(usedSize) + bs[r - 8].size + 8)
        && Kept(old(mem), mem, old(Live()))
      ensures p != 0 ==> p - 8 in old(bs)
      ensures p != 0 && request == 0 ==>
        && r == 0 && Live() == old(Live()) - {p - 8} && usedSize == old(usedSize) - old(bs)[p - 8].size - 8
        && Kept(old(mem), mem, Live())
      ensures p != 0 && request != 0 ==>
        && r != 0 && r - 8 in bs && Live() == (old(Live()) - {p - 8})[r - 8 := bs[r - 8].size]
        && usedSize == old(usedSize) + bs[r - 8].size - old(bs)[p - 8].size
        && Copied(old(mem), p, mem, r, Min(old(bs)[p - 8].size, Adjust(request)))
        && Kept(old(mem), mem, old(Live()) - {p - 8})
      ensures p != 0 && request != 0 ==>
        var size, was, n := if request < 8 then 8 else (request + 7) / 8 * 8, old(bs)[p - 8].size, p + old(bs)[p - 8].size;
        var total := was + if n in old(bs) && old(bs)[n].free then old(bs)[n].size + 8 else 0;
        && (r == p <==> size <= was || (n in old(bs) && old(bs)[n].free && size <= was + old(bs)[n].size))
        && (r == p ==> bs[r - 8].size == if total - size >= 16 then size else total)
        && (r == p && total - size >= 16 ==>
              p + size in bs && bs[p + size].free && bs[p + size].size == total - size - 8)
        && (r != p ==> Rounded(request) <= bs[r - 8].size < Rounded(request) + 16)
      ensures Valid()
    {
      hide Consistent, Tiled, LinkWord, Used, FreeIndexed, FreeIndexedBut, Class, Adjust, MappingSearch, MappingInsert,
           Kept, Copied, Rd, LinksClear, HeaderClear;
      AdjustMultiple(request);
      SearchOutcome(request, bs, cls, lo, hi);
      if p == 0 {
        if request != 0 {
          r := Malloc(request);
          return;
        }
        return 0;
      } else if request == 0 {
        Free(p);
        return 0;
      }
      var b := p - 8;
      LiveFacts(bs, cls, lo, hi, b);
      var size := Adjust(request);
      var bSize, _, _ := ReadHeader(b);
      var nSize, nFree, _ := ReadHeader(b + 8 + bSize);
      ghost var m0, live := mem, Live();
      if size <= bSize {
        ReallocSmaller(b, size);
        KeptAsCopied(m0, mem, live[b := size], p);
        KeptSubset(m0, mem, live[b := size], live - {b});
        return p;
      }
      if nFree && size <= bSize + nSize {
        ReallocLarger(b, size);
        KeptAsCopied(m0, mem, live, p);
        KeptSubset(m0, mem, live, live - {b});
        return p;
      }
      r := Move(p, bSize, request);
    }

    /** `realloc_ex` can serve the request without moving the block. */
    ghost predicate FitsInPlace(b: int, size: nat)
      reads this
    {
      b in bs &&
      (size <= bs[b].size || (End(bs, b) in bs && bs[End(bs, b)].free && size <= bs[b].size + bs[End(bs, b)].size))
    }

    /** The last lines of `realloc_ex`: allocate, copy, free. */
    method Move(p: int, bSize: nat, request: nat) returns (r: int)
      requires Valid() && p != 0 && p - 8 in Live() && bSize == Live()[p - 8] < Adjust(request) && Rounded(request) < MAX_SIZE
      requires exists a: int :: a in bs && bs[a].free && bs[a].size >= Rounded(request)
      modifies this
      ensures Valid() && r != 0 && r != p && r - 8 in Live() && Adjust(request) <= Live()[r - 8]
      ensures Rounded(request) <= Live()[r - 8] < Rounded(request) + 16
      ensures usedSize == old(usedSize) + Live()[r - 8] - bSize
      ensures Live() - {r - 8} == old(Live()) - {p - 8}
      ensures Copied(old(mem), p, mem, r, bSize)
      ensures Kept(old(mem), mem, old(Live()) - {p - 8})
    {
      hide Consistent, Tiled, LinkWord, Used, FreeIndexed, Class, Adjust, MappingSearch, LiveBlocks, Kept, Copied, Rd;
      SearchOutcome(request, bs, cls, lo, hi);
      ghost var m0, live0, rest := mem, Live(), Live() - {p - 8};
      r := Malloc(request);
      ghost var m1, live1 := mem, Live();
      LiveSize(bs, hi, r - 8);
      KeptAsCopied(m0, m1, live0, p);
      Copy(r, p, bSize);
      ghost var m2 := mem;
      OneBufferWritten(bs, lo, hi, r - 8, bSize, m1, m2);
      KeptSubset(m1, m2, Live()[r - 8 := 0], rest);
      CopiedTrans(m0, m1, m2, p, r, bSize);
      Free(p);
      KeptSubset(m0, m1, live0, rest);
      KeptSubset(m2, mem, Live(), rest);
      KeptTrans(m0, m1, m2, rest);
      KeptTrans(m0, m2, mem, rest);
      CopiedKept(m0, p, m2, r, bSize, mem, Live());
      assert (live1 - {p - 8}) - {r - 8} == rest;
    }

    /** The start of `free_ex`: mark the block free and clear its links. */
    method Unuse(b: int) returns (size: nat)
      requires Indexed() && b in bs && b !in cls && lo <= b < hi && bs[b].size % 8 == 0
      requires forall y: int :: y in bs && b < y ==> b + 16 <= y
      modifies this`mem, this`bs, this`usedSize
      ensures Indexed() && size == old(bs)[b].size && bs == old(bs)[b := old(bs)[b].(free := true)]
      ensures usedSize == old(usedSize) - (size + 8) && Writes(old(mem), mem, {b}, cls[b := 0])
    {
      hide Consistent, LinkWord, Rd;
      MarkFree(b, true);
      var n, _, _ := ReadHeader(b);
      size := n;
      usedSize := usedSize - (size + 8);
      ClearLinks(b);
    }
  }

  lemma FreeingPlain(bs: Layout, b: int, e: int)
    requires b in bs && e in bs && b != e && !bs[b].free
    ensures Freeing(bs[b := bs[b].(free := true)], bs, b, e)
  {
  }

  lemma FreeingAbsorbed(bs: Layout, b: int, n: int, e: int)
    requires b in bs && n in bs && e in bs && b != e && b != n && n != e && !bs[b].free
    ensures var b' := bs[b].(free := true);
      Freeing((bs[b := b'] - {n})[b := b'.(size := b'.size + bs[n].size + 8)], Absorbed(bs, b, n, e, bs[e].prevHdr), b, e)
    ensures e in Absorbed(bs, b, n, e, bs[e].prevHdr) && b in Absorbed(bs, b, n, e, bs[e].prevHdr)
    ensures Absorbed(bs, b, n, e, bs[e].prevHdr)[b].size == bs[b].size + bs[n].size + 8
    ensures Absorbed(bs, b, n, e, bs[e].prevHdr)[e].free == bs[e].free
  {
  }

  /** `abs` is the stored layout, but for the not yet adjusted tags of a block `b` being freed. */
  ghost predicate Freeing(bs: Layout, abs: Layout, b: int, e: int) {
    && b in abs && e in abs && b != e
    && (forall y: int :: y in bs <==> y in abs)
    && (forall y: int :: y in bs && y != b && y != e ==> bs[y] == abs[y])
    && bs[b] == abs[b].(free := true) && !abs[b].free
    && bs[e].size == abs[e].size && bs[e].free == abs[e].free
  }

  /** Live buffers lie inside the pool, are a positive multiple of 8 long, and do not overlap; their
      addresses differ from the start of the pool by multiples of 8. */
  lemma LiveBuffers(pool: Pool, p: int, q: int)
    requires pool.Valid() && p - 8 in pool.Live() && q - 8 in pool.Live()
    ensures pool.lo + 8 <= p && p + pool.Live()[p - 8] <= pool.hi && (p - pool.lo) % 8 == 0
    ensures pool.Live()[p - 8] % 8 == 0 && pool.Live()[p - 8] >= 8
    ensures p < q ==> p + pool.Live()[p - 8] + 8 <= q
  {
    hide Consistent, FreeIndexed, Used, Tiled, LiveBlocks;
    LiveBlock(pool.bs, pool.lo, pool.hi, p - 8);
    LiveBlock(pool.bs, pool.lo, pool.hi, q - 8);
    Mod8(p - 8 - pool.lo, 8);
    if p < q { BlocksApart(pool.bs, pool.lo, pool.hi, p - 8, q - 8); }
  }

  lemma LiveBlock(bs: Layout, lo: int, hi: int, b: int)
    requires Tiled(bs, lo, hi) && b in LiveBlocks(bs, hi)
    ensures b in bs && LiveBlocks(bs, hi)[b] == bs[b].size && lo <= b && b + 8 + bs[b].size <= hi
    ensures (b - lo) % 8 == 0 && bs[b].size % 8 == 0 && bs[b].size >= 8
  {
    assert End(bs, b) in bs;
  }

  lemma BlocksApart(bs: Layout, lo: int, hi: int, b: int, c: int)
    requires Tiled(bs, lo, hi) && b in bs && c in bs && b < c
    ensures b + 8 + bs[b].size <= c
  {
  }

  // ---- initialisation ----

  const TLSF_T: nat := 3180  // sizeof(tlsf_t)

  /** The size of the first block `init_memory_pool` lays out. */
  function FirstSize(poolSize: nat): nat
    requires poolSize >= TLSF_T + 128
  {
    RoundDown8(poolSize - TLSF_T - 16)
  }

  /** The sentinel `init_memory_pool` writes ends inside the pool exactly for these pool sizes. */
  lemma SentinelFits(poolSize: nat)
    requires poolSize >= TLSF_T + 128
    ensures RoundUp8(TLSF_T) + 8 + FirstSize(poolSize) + 8 <= poolSize <==> poolSize % 8 < 4
  {
  }

  /** A pool size for which the sentinel lies outside the pool. */
  lemma SentinelOutside()
    ensures RoundUp8(TLSF_T) + 8 + FirstSize(3316) + 8 > 3316
  {
  }

  /** `init_memory_pool` on a pool that was not initialised before; null stands for its error return. */
  method InitMemoryPool(pool: int, poolSize: nat) returns (p: Pool?)
    requires pool >= 0
    ensures p == null <==>
      pool == 0 || poolSize < 3180 + 128 || pool % 4 != 0 || (poolSize - 3180 - 16) / 8 * 8 >= 0x4000_0000
    ensures p != null ==>
      && fresh(p) && p.Valid() && p.Live() == map[] && p.lo == pool + 3184
      && (p.hi + 8 <= pool + poolSize <==> poolSize % 8 < 4)
      && var size := (poolSize - 3180 - 16) / 8 * 8;
      && p.bs == map[p.lo := Block(size, true, false, 0), p.hi := Block(0, false, true, p.lo)]
      && p.hi == p.lo + 8 + size && p.usedSize == p.base == poolSize - size
  {
    hide Tiled, Consistent, FreeIndexed, Used;
    if pool == 0 || poolSize == 0 || poolSize < TLSF_T + 128 {
      return null;
    }
    if pool % 4 != 0 {
      return null;
    }
    SentinelFits(poolSize);
    var size := FirstSize(poolSize);
    if size + 1 > MAX_SIZE {
      return null;
    }
    p := new Pool(pool + RoundUp8(TLSF_T), size, poolSize - size);
  }

  lemma AdjustMultiple(request: nat)
    ensures Adjust(request) >= request && Adjust(request) >= 8 && Adjust(request) % 8 == 0
    ensures Adjust(request) == if request < 8 then 8 else (request + 7) / 8 * 8
  {
  }

  /** What a request is rounded to: the next multiple of 8, but at least 8; from 128 on, where classes
      are wider, some more, but less than a 32nd. */
  lemma RoundedExact(request: nat)
    requires Rounded(request) < MAX_SIZE
    ensures Rounded(request) >= request && Rounded(request) >= 8 && Rounded(request) % 8 == 0
    ensures request <= 120 ==> Rounded(request) == if request < 8 then 8 else (request + 7) / 8 * 8
    ensures request > 120 ==> 32 * Rounded(request) < 33 * ((request + 7) / 8 * 8)
  {
    hide MappingSearch, MappingInsert, Class;
    AdjustMultiple(request);
    SearchExact(Adjust(request), 0);
  }

  /** The request's class lies in the matrix, and classes tell which free blocks are large enough. */
  lemma SearchOutcome(request: nat, bs: Layout, cls: map<int, nat>, lo: int, hi: int)
    requires Tiled(bs, lo, hi) && FreeIndexed(bs, cls) && hi - lo - 8 < MAX_SIZE && Rounded(request) < MAX_SIZE
    ensures var (r, f, s) := MappingSearch(Adjust(request));
      && 0 <= f < REAL_FLI && 0 <= s < MAX_SLI && r == Rounded(request) && r >= Adjust(request) && r >= 8 && r % 8 == 0
      && f * 32 + s == Class(r)
      && forall a: int :: a in cls ==> (bs[a].size >= r <==> cls[a] >= f * 32 + s)
  {
    hide MappingSearch, MappingInsert, Class, Tiled, Adjust;
    var (r, f, s) := MappingSearch(Adjust(request));
    AdjustMultiple(request);
    SearchExact(Adjust(request), 0);
    ClassInMatrix(r);
    forall a: int | a in cls
      ensures bs[a].size >= r <==> cls[a] >= f * 32 + s
    {
      SizeBound(bs, lo, hi, a);
      SearchExact(Adjust(request), bs[a].size);
    }
  }

  /** What surrounds an allocated block. */
  lemma LiveFacts(bs: Layout, cls: map<int, nat>, lo: int, hi: int, b: int)
    requires Tiled(bs, lo, hi) && FreeIndexed(bs, cls) && b in LiveBlocks(bs, hi) && hi - lo - 8 < MAX_SIZE
    ensures b in bs && !bs[b].free && b != hi && b !in cls && LiveBlocks(bs, hi)[b] == bs[b].size
    ensures End(bs, b) in bs && lo <= b && b + 16 <= End(bs, b) <= hi && bs[b].size < MAX_SIZE
    ensures bs[b].size % 8 == 0 && bs[End(bs, b)].size % 8 == 0 && (End(bs, b) - b) % 8 == 0
    ensures forall y: int :: y in bs ==> y == b || y + 8 <= b || End(bs, b) <= y
    ensures forall y: int :: y in cls ==> y + 16 <= b || End(bs, b) <= y
    ensures FreeIndexedBut(bs, cls, b)
    ensures LinksClear(cls[b := 0], LiveBlocks(bs, hi) - {b})
    ensures forall a: int :: a in bs ==> HeaderClear(a, LiveBlocks(bs, hi) - {b})
  {
    assert FreeIndexedBut(bs, cls, b);
    SizeBound(bs, lo, hi, b);
    BlockSpan(bs, cls, lo, hi, b);
    OwnClear(bs, cls, lo, hi, b);
  }

  /** What follows a block whose successor is free. */
  lemma SuccessorFacts(bs: Layout, cls: map<int, nat>, lo: int, hi: int, b: int, n: int)
    requires Tiled(bs, lo, hi) && FreeIndexed(bs, cls) && b in bs && b != hi && hi - lo - 8 < MAX_SIZE
    requires n in bs && n == End(bs, b) && bs[n].free
    ensures n != hi && n in cls && cls[n] == Class(bs[n].size) && bs[n].size % 8 == 0
    ensures End(bs, n) in bs && b < n && n + 16 <= End(bs, n) <= hi && !bs[End(bs, n)].free
    ensures bs[End(bs, n)].size % 8 == 0 && (End(bs, n) - b) % 8 == 0 && bs[b].size + bs[n].size + 8 < MAX_SIZE
    ensures forall y: int :: y in bs ==> y <= b || y == n || End(bs, n) <= y
    ensures forall y: int :: y in cls ==> y == n || y == b || y + 16 <= b || End(bs, n) <= y
  {
    assert End(bs, n) in bs;
    assert (End(bs, n) - lo) % 8 == 0 && (b - lo) % 8 == 0;
  }

  lemma FreeingFacts(abs: Layout, cls: map<int, nat>, lo: int, hi: int, b: int, e: int)
    requires Tiled(abs, lo, hi) && FreeIndexed(abs, cls) && b in abs && b != hi && !abs[b].free && hi - lo - 8 < MAX_SIZE
    requires e in abs && e == End(abs, b)
    ensures b !in cls && e != b && abs[b].size % 8 == 0 && abs[e].size % 8 == 0 && abs[b].size < MAX_SIZE
    ensures lo <= b && b + 16 <= e <= hi && forall y: int :: y in abs && b < y ==> b + 16 <= y
  {
    SizeBound(abs, lo, hi, b);
  }

  lemma PredecessorFacts(abs: Layout, cls: map<int, nat>, lo: int, hi: int, b: int, t: int)
    requires Tiled(abs, lo, hi) && FreeIndexed(abs, cls) && b in abs && b != hi && hi - lo - 8 < MAX_SIZE
    requires abs[b].prevFree && t == abs[b].prevHdr
    ensures t in abs && abs[t].free && End(abs, t) == b && t < b && t in cls && cls[t] == Class(abs[t].size)
    ensures abs[t].size % 8 == 0 && lo <= t < hi && abs[t].size + abs[b].size + 8 < MAX_SIZE
    ensures forall y: int :: y in abs && t < y ==> t + 16 <= y
  {
    Predecessor(abs, lo, hi, b);
    assert End(abs, b) in abs;
  }

  lemma SizeBound(bs: Layout, lo: int, hi: int, a: int)
    requires Tiled(bs, lo, hi) && a in bs
    ensures bs[a].size <= hi - lo - 8
  {
    if a != hi {
      assert End(bs, a) in bs;
    }
  }

  lemma BuffersApart(bs: Layout, lo: int, hi: int, y: int, z: int)
    requires Tiled(bs, lo, hi) && y in LiveBlocks(bs, hi) && z in LiveBlocks(bs, hi) && y != z
    ensures y + 8 + LiveBlocks(bs, hi)[y] <= z || z + 8 + LiveBlocks(bs, hi)[z] <= y
  {
  }

  lemma OneBufferWritten(bs: Layout, lo: int, hi: int, y: int, n: nat, m: Mem, m': Mem)
    requires Tiled(bs, lo, hi) && y in LiveBlocks(bs, hi) && n <= LiveBlocks(bs, hi)[y]
    requires forall x: int :: !(y + 8 <= x < y + 8 + n) ==> Rd(m', x) == Rd(m, x)
    ensures Kept(m, m', LiveBlocks(bs, hi)[y := 0])
  {
    var live := LiveBlocks(bs, hi)[y := 0];
    forall z: int, x: int | z in live && z + 8 <= x < z + 8 + live[z]
      ensures Rd(m', x) == Rd(m, x)
    {
      BuffersApart(bs, lo, hi, y, z);
    }
  }

  /** A cell of a buffer is no header word and no link word. */
  lemma BufferCell(bs: Layout, cls: map<int, nat>, lo: int, hi: int, y: int, x: int)
    requires Tiled(bs, lo, hi) && FreeIndexed(bs, cls) && y in LiveBlocks(bs, hi)
    requires y + 8 <= x < y + 8 + LiveBlocks(bs, hi)[y]
    ensures !LinkWord(cls, x) && lo <= x <= hi && forall z: int :: z in bs ==> x != z && x != z + SIZE
  {
    assert End(bs, y) in bs;
    assert x - PREV !in cls && x - NEXT !in cls;
  }

  function EmptyLists(): seq<seq<int>> { seq(CLASSES, _ => []) }

  lemma EmptyIndex(m: Mem)
    ensures IndexOk(m, seq(CLASSES, _ => 0), EmptyLists(), map[])
    ensures BitsOk(0, seq(REAL_FLI, _ => 0), EmptyLists())
  {
    forall k: nat
      ensures !Test(0, k)
    {
      NoBits(k);
    }
  }

  /** One free block and the sentinel behind it. */
  function FreshBlocks(first: int, size: nat): Layout {
    map[first := Block(size, true, false, 0), first + 8 + size := Block(0, false, true, first)]
  }

  lemma FreshConsistent(first: int, size: nat)
    requires first > 0
    ensures Consistent(map[first + SIZE := size + 1, first + 8 + size := first, first + 8 + size + SIZE := 2],
                       FreshBlocks(first, size), seq(CLASSES, _ => 0), 0, seq(REAL_FLI, _ => 0), EmptyLists(), map[],
                       first, first + 8 + size)
  {
    hide IndexOk, BitsOk;
    EmptyIndex(map[first + SIZE := size + 1, first + 8 + size := first, first + 8 + size + SIZE := 2]);
  }

  lemma FreshLayout(first: int, size: nat)
    requires size % 8 == 0 && 8 <= size
    ensures Tiled(FreshBlocks(first, size), first, first + 8 + size) && Used(FreshBlocks(first, size)) == 8
    ensures FreeIndexed(FreshBlocks(first, size), map[first := Class(size)])
  {
    hide Class;
    var last, bs := first + 8 + size, FreshBlocks(first, size);
    TotalSize(size, 0);
    UsedRemove(bs, first);
    UsedRemove(bs - {first}, last);
    assert bs - {first} - {last} == map[];
  }

  lemma LiveSize(bs: Layout, hi: int, b: int)
    ensures b in LiveBlocks(bs, hi) ==> b in bs && LiveBlocks(bs, hi)[b] == bs[b].size
  {
  }

  lemma KeptAsCopied(m: Mem, m': Mem, live: map<int, nat>, p: int)
    requires Kept(m, m', live) && p - 8 in live
    ensures Copied(m, p, m', p, live[p - 8])
  {
  }

  lemma CopiedTrans(m0: Mem, m1: Mem, m2: Mem, p: int, r: int, n: int)
    requires Copied(m0, p, m1, p, n) && Copied(m1, p, m2, r, n)
    ensures Copied(m0, p, m2, r, n)
  {
    forall i: int | 0 <= i < n
      ensures ByteAt(m2, r, i) == ByteAt(m0, p, i)
    {
      assert ByteAt(m2, r, i) == ByteAt(m1, p, i);
    }
  }

  /** Cutting `b` gives the same layout in `bs` and in `abs`; where nothing is cut, they are the same. */
  ghost predicate CutAlike(bs: Layout, abs: Layout, b: int, size: nat, e: int) {
    && b in bs && e in bs && b in abs && e in abs && bs[b].size % 8 == 0 && bs[e].size % 8 == 0
    && (bs == abs || (b + size + 24 <= e && bs.Keys == abs.Keys &&
        forall junk :: Carved(bs, b, size, e, junk) == Carved(abs, b, size, e, junk)))
  }

  lemma DetachedCut(bs: Layout, b: int, n: int, e: int, size: nat)
    requires b in bs && n in bs && e in bs && b != n && n != e && b != e && b + size + 24 <= e && !bs[b].free
    requires bs[b].size % 8 == 0 && bs[e].size % 8 == 0
    ensures CutAlike(bs - {n}, Absorbed(bs, b, n, e, 0), b, size, e)
    ensures Absorbed(bs, b, n, e, 0)[b].size == bs[b].size + bs[n].size + 8 && !Absorbed(bs, b, n, e, 0)[b].free
    ensures Absorbed(bs, b, n, e, 0)[e].free == bs[e].free
  {
    forall junk ensures Carved(bs - {n}, b, size, e, junk) == Carved(Absorbed(bs, b, n, e, 0), b, size, e, junk) {
      CarvedAbsorbed(bs, b, n, e, size, 0, junk);
    }
  }

  lemma AbsorbedCut(bs: Layout, b: int, n: int, e: int, j: int)
    requires b in bs && n in bs && e in bs && b != n && n != e && b != e && !bs[b].free
    requires bs[b].size % 8 == 0 && bs[n].size % 8 == 0 && bs[e].size % 8 == 0
    ensures var abs := Absorbed(bs, b, n, e, j);
      && b in abs && e in abs && !abs[b].free && abs[e].free == bs[e].free
      && abs[b].size == bs[b].size + bs[n].size + 8 && abs[b].size % 8 == 0 && abs[e].size % 8 == 0
  {
    TotalSize(bs[b].size, bs[n].size);
  }

  lemma TotalSize(a: int, b: int)
    requires a % 8 == 0 && b % 8 == 0
    ensures (a + b + 8) % 8 == 0
  {
  }

  lemma RestSize(span: int, size: int)
    requires span % 8 == 0 && size % 8 == 0
    ensures (span - size - 16) % 8 == 0
  {
  }
}

/** XtratuM's real-time FIFO: a byte ring in one page, driven by two counters that only grow until a
    read empties the FIFO. */
module RtFifo {

  import opened Basics

  // ---- ring positions ----

  /** The offset in the page of the byte numbered `n`. */
  function Wrap(n: int, size: int): (r: int)
    requires 0 <= n && 0 < size
    ensures 0 <= r < size
  {
    n % size
  }

  lemma Quotient(n: int, size: int)
    requires 0 <= n && 0 < size
    ensures n == n / size * size + Wrap(n, size)
  {
  }

  lemma Residue(n: int, size: int, q: int, r: int)
    requires 0 <= n && 0 < size && n == q * size + r && 0 <= r < size
    ensures Wrap(n, size) == r
  {
    var d := n / size - q;
    assert d * size == r - n % size;
    OnlyZero(d, size);
  }

  lemma OnlyZero(d: int, size: int)
    requires -size < d * size < size
    ensures d == 0
  {
  }

  /** Counting on from `n` leads through the page once, wrapping at its end. */
  lemma WrapAdd(n: int, j: int, size: int)
    requires 0 <= n && 0 <= j < size
    ensures Wrap(n + j, size) == if Wrap(n, size) + j < size then Wrap(n, size) + j else Wrap(n, size) + j - size
  {
    var q, r := n / size, Wrap(n, size);
    Quotient(n, size);
    if r + j < size {
      Residue(n + j, size, q, r + j);
    } else {
      assert (q + 1) * size == q * size + size;
      Residue(n + j, size, q + 1, r + j - size);
    }
  }

  lemma WrapApart(m: int, n: int, size: int)
    requires 0 <= m < n < m + size
    ensures Wrap(m, size) != Wrap(n, size)
  {
    WrapAdd(m, n - m, size);
  }

  // ---- the bytes held ----

  function Spot(n: int, k: int, size: int): (r: int)
    requires 0 <= n && 0 <= k && 0 < size
    ensures 0 <= r < size
  {
    Wrap(n + k, size)
  }

  /** The page holds `queue` from number `bom` on. */
  ghost predicate Holds(page: seq<Byte>, bom: int, queue: seq<Byte>) {
    && 0 <= bom && 0 < |page|
    && forall k :: 0 <= k < |queue| ==> page[Spot(bom, k, |page|)] == queue[k]
  }

  lemma HoldsNothing(page: seq<Byte>)
    requires page != []
    ensures Holds(page, 0, [])
  {
  }

  lemma HoldsRest(page: seq<Byte>, bom: int, queue: seq<Byte>, n: nat)
    requires Holds(page, bom, queue) && n <= |queue|
    ensures Holds(page, bom + n, queue[n..])
  {
    forall k | 0 <= k < |queue[n..]| ensures page[Spot(bom + n, k, |page|)] == queue[n..][k] {
      assert Spot(bom + n, k, |page|) == Spot(bom, n + k, |page|);
    }
  }

  ghost function Pasted(page: seq<Byte>, at: int, data: seq<Byte>): (r: seq<Byte>)
    requires 0 <= at <= at + |data| <= |page|
    ensures |r| == |page|
    ensures forall x :: 0 <= x < |page| ==> r[x] == if at <= x < at + |data| then data[x - at] else page[x]
  {
    page[..at] + data + page[at + |data|..]
  }

  /** The page after `data` has been stored from number `top` on, in one piece or in two. */
  ghost function Stored(page: seq<Byte>, top: int, data: seq<Byte>): (r: seq<Byte>)
    requires 0 <= top && 0 < |page| && |data| <= |page|
    ensures |r| == |page|
  {
    var t := Wrap(top, |page|);
    if t + |data| <= |page| then Pasted(page, t, data)
    else Pasted(Pasted(page, t, data[..|page| - t]), 0, data[|page| - t..])
  }

  lemma StoredDirect(page: seq<Byte>, top: int, data: seq<Byte>)
    requires 0 <= top && 0 < |page| && Wrap(top, |page|) + |data| <= |page|
    ensures Stored(page, top, data) == Pasted(page, Wrap(top, |page|), data)
  {
  }

  lemma StoredSplit(page: seq<Byte>, top: int, data: seq<Byte>)
    requires 0 <= top && 0 < |page| && |data| <= |page| < Wrap(top, |page|) + |data|
    ensures var n := |page| - Wrap(top, |page|);
      Stored(page, top, data) == Pasted(Pasted(page, Wrap(top, |page|), data[..n]), 0, data[n..])
  {
  }

  lemma PastedFirst(dest: seq<Byte>, data: seq<Byte>)
    requires |data| <= |dest|
    ensures Pasted(dest, 0, data) == data + dest[|data|..]
  {
  }

  lemma PastedTwice(dest: seq<Byte>, a: seq<Byte>, b: seq<Byte>)
    requires |a| + |b| <= |dest|
    ensures Pasted(Pasted(dest, 0, a), |a|, b) == (a + b) + dest[|a + b|..]
  {
  }

  lemma StoredNew(page: seq<Byte>, top: int, data: seq<Byte>, j: int)
    requires 0 <= top && 0 < |page| && |data| <= |page| && 0 <= j < |data|
    ensures Stored(page, top, data)[Spot(top, j, |page|)] == data[j]
  {
    WrapAdd(top, j, |page|);
  }

  /** What lies at `x` changes only if one of the bytes stored goes there. */
  lemma StoredOld(page: seq<Byte>, top: int, data: seq<Byte>, x: int) returns (j: int)
    requires 0 <= top && 0 < |page| && |data| <= |page| && 0 <= x < |page|
    ensures Stored(page, top, data)[x] == page[x] || (0 <= j < |data| && x == Spot(top, j, |page|))
  {
    hide Wrap, Pasted;
    var t := Wrap(top, |page|);
    j := if x >= t then x - t else x + |page| - t;
    WrapAdd(top, j, |page|);
  }

  lemma HoldsMore(page: seq<Byte>, bom: int, queue: seq<Byte>, data: seq<Byte>)
    requires Holds(page, bom, queue) && |queue| + |data| <= |page|
    ensures Holds(Stored(page, bom + |queue|, data), bom, queue + data)
  {
    hide Stored, Wrap;
    var size, top := |page|, bom + |queue|;
    var after := Stored(page, top, data);
    forall k | 0 <= k < |queue + data| ensures after[Spot(bom, k, size)] == (queue + data)[k] {
      if k < |queue| {
        var j := StoredOld(page, top, data, Spot(bom, k, size));
        if 0 <= j < |data| {
          WrapApart(bom + k, top + j, size);
        }
      } else {
        StoredNew(page, top, data, k - |queue|);
        assert Spot(bom, k, size) == Spot(top, k - |queue|, size);
      }
    }
  }

  lemma HeldAtOnce(page: seq<Byte>, bom: int, queue: seq<Byte>, n: nat)
    requires Holds(page, bom, queue) && n <= |queue| <= |page| && Wrap(bom, |page|) + n <= |page|
    ensures page[Wrap(bom, |page|)..Wrap(bom, |page|) + n] == queue[..n]
  {
    hide Wrap;
    var b := Wrap(bom, |page|);
    forall k | 0 <= k < n ensures page[b..b + n][k] == queue[..n][k] {
      WrapAdd(bom, k, |page|);
      assert page[Spot(bom, k, |page|)] == queue[k];
    }
  }

  lemma HeldSplit(page: seq<Byte>, bom: int, queue: seq<Byte>, n: nat)
    requires Holds(page, bom, queue) && n <= |queue| <= |page| < Wrap(bom, |page|) + n
    ensures page[Wrap(bom, |page|)..] + page[..n - (|page| - Wrap(bom, |page|))] == queue[..n]
  {
    hide Wrap;
    var b := Wrap(bom, |page|);
    var got := page[b..] + page[..n - (|page| - b)];
    forall k | 0 <= k < n ensures got[k] == queue[..n][k] {
      WrapAdd(bom, k, |page|);
      assert page[Spot(bom, k, |page|)] == queue[k];
    }
  }

  /** Free places that do not reach the end of the page are in one piece. This is false of an empty
      FIFO whose counters are not zero. */
  lemma FreeInOnePiece(bom: int, top: int, size: int, n: int)
    requires 0 <= bom <= top < bom + size && 0 <= n <= size - 1 - (top - bom) && (top == bom ==> top == 0)
    requires Wrap(top, size) <= Wrap(bom, size)
    ensures Wrap(top, size) + n <= size
  {
    hide Wrap;
    WrapAdd(bom, top - bom, size);
    Residue(0, size, 0, 0);
  }

  lemma UsedInOnePiece(bom: int, top: int, size: int, n: int)
    requires 0 <= bom <= top < bom + size && 0 <= n <= top - bom && Wrap(top, size) >= Wrap(bom, size)
    ensures Wrap(bom, size) + n <= size
  {
    hide Wrap;
    WrapAdd(bom, top - bom, size);
  }

  /** With counters equal but not zero, storing at once would run past the end of the page. */
  lemma EmptyNotAtZero()
    ensures Wrap(5, 8) <= Wrap(5, 8) && Wrap(5, 8) + (8 - 1 - (5 - 5)) > 8
  {
  }

  // ---- the FIFO ----

  const EINVAL := 22
  const ENODEV := 19

  class Fifo {
    const page: array<Byte>
    var top: int
    var bom: int
    var usable: bool
    ghost var queue: seq<Byte>

    /** The bytes from `bom` to `top` are the queue, at least one place is free, and an empty FIFO has
        both counters at zero. */
    ghost predicate Valid()
      reads this, page
    {
      && 0 < page.Length && 0 <= bom && |queue| == top - bom < page.Length && Holds(page[..], bom, queue)
      && (top == bom ==> top == 0)
    }

    constructor (page: array<Byte>)
      requires 0 < page.Length
      ensures Valid() && queue == [] && usable && this.page == page
    {
      this.page := page;
      top, bom, usable, queue := 0, 0, true, [];
    }

    function UsedSize(): int
      requires 0 < page.Length
      reads this
    {
      (top + page.Length - bom) % page.Length
    }

    function FreeSize(): int
      requires 0 < page.Length
      reads this
    {
      (bom + page.Length - top - 1) % page.Length
    }

    lemma Sizes()
      requires Valid()
      ensures UsedSize() == |queue| && FreeSize() == page.Length - 1 - |queue|
    {
      Residue(top + page.Length - bom, page.Length, 1, top - bom);
    }

    /** `memcpy` into the page. */
    method CopyIn(at: int, src: array<Byte>, from: int, n: int)
      requires 0 <= n && 0 <= at && at + n <= page.Length && 0 <= from && from + n <= src.Length && src != page
      modifies page
      ensures page[..] == Pasted(old(page[..]), at, src[from..from + n])
    {
      var i := 0;
      while i < n
        invariant 0 <= i <= n
        invariant forall x :: 0 <= x < page.Length ==>
          page[x] == if at <= x < at + i then src[from + (x - at)] else old(page[x])
      {
        page[at + i] := src[from + i];
        i := i + 1;
      }
    }

    /** `memcpy` out of the page. */
    method CopyOut(dest: array<Byte>, to: int, at: int, n: int)
      requires 0 <= n && 0 <= at && at + n <= page.Length && 0 <= to && to + n <= dest.Length && dest != page
      modifies dest
      ensures dest[..] == Pasted(old(dest[..]), to, page[at..at + n])
    {
      var i := 0;
      while i < n
        invariant 0 <= i <= n
        invariant forall x :: 0 <= x < dest.Length ==>
          dest[x] == if to <= x < to + i then page[at + (x - to)] else old(dest[x])
      {
        dest[to + i] := page[at + i];
        i := i + 1;
      }
    }

    /** As much as fits is appended; the queue never holds more than one byte less than the page. */
    method Write(src: array?<Byte>, size: int) returns (n: int)
      requires Valid() && src != page && (src != null && size >= 0 ==> size <= src.Length)
      modifies this`top, this`queue, page
      ensures Valid()
      ensures n == if src == null || size < 0 then -EINVAL else if !usable then -ENODEV
        else if size > page.Length - 1 - |old(queue)| then page.Length - 1 - |old(queue)| else size
      ensures queue == if n < 0 then old(queue) else old(queue) + src[..n]
    {
      hide Holds, Stored, UsedSize, FreeSize;
      if src == null || size < 0 {
        return -EINVAL;
      }
      if !usable {
        return -ENODEV;
      }
      Sizes();
      n := size;
      if n > FreeSize() {
        n := FreeSize();
      }
      Place(src, n);
      HoldsMore(old(page[..]), bom, queue, src[..n]);
      top, queue := top + n, queue + src[..n];
    }

    /** The copies of `rt_fifo_user_write`. */
    method Place(src: array<Byte>, n: int)
      requires Valid() && src != page && 0 <= n <= src.Length && n <= page.Length - 1 - |queue|
      modifies page
      ensures page[..] == Stored(old(page[..]), top, src[..n])
    {
      hide Wrap, Holds, Pasted, Stored;
      var t := Wrap(top, page.Length);
      if t <= Wrap(bom, page.Length) {
        FreeInOnePiece(bom, top, page.Length, n);
        StoredDirect(page[..], top, src[..n]);
        CopyIn(t, src, 0, n);
      } else if page.Length - t >= n {
        StoredDirect(page[..], top, src[..n]);
        CopyIn(t, src, 0, n);
      } else {
        var k := page.Length - t;
        StoredSplit(page[..], top, src[..n]);
        CopyIn(t, src, 0, k);
        CopyIn(0, src, k, n - k);
        assert src[..n][..k] == src[0..k];
        assert src[..n][k..] == src[k..k + (n - k)];
      }
    }

    /** The oldest bytes are taken, as many as there are and are asked for. */
    method Read(dest: array?<Byte>, size: int) returns (n: int)
      requires Valid() && dest != page && (dest != null && size >= 0 ==> size <= dest.Length)
      modifies this`top, this`bom, this`queue, dest
      ensures Valid()
      ensures n == if dest == null || size < 0 then -EINVAL else if !usable then -ENODEV
        else if size > |old(queue)| then |old(queue)| else size
      ensures n < 0 ==> queue == old(queue) && (dest != null ==> dest[..] == old(dest[..]))
      ensures n >= 0 ==> dest[..] == old(queue)[..n] + old(dest[..])[n..] && queue == old(queue)[n..]
    {
      hide Holds, Stored, UsedSize, FreeSize;
      if dest == null || size < 0 {
        return -EINVAL;
      }
      if !usable {
        return -ENODEV;
      }
      Sizes();
      n := size;
      if n > UsedSize() {
        n := UsedSize();
      }
      Fetch(dest, n);
      HoldsRest(page[..], bom, queue, n);
      bom, queue := bom + n, queue[n..];
      if top == bom {
        HoldsNothing(page[..]);
        top := 0;
        bom := 0;
      }
    }

    /** The copies of `rt_fifo_user_read`. */
    method Fetch(dest: array<Byte>, n: int)
      requires Valid() && dest != page && 0 <= n <= dest.Length && n <= |queue|
      modifies dest
      ensures dest[..] == queue[..n] + old(dest[..])[n..]
    {
      hide Wrap, Holds, Pasted;
      var b := Wrap(bom, page.Length);
      ghost var d := dest[..];
      if Wrap(top, page.Length) >= b {
        UsedInOnePiece(bom, top, page.Length, n);
        HeldAtOnce(page[..], bom, queue, n);
        PastedFirst(d, page[b..b + n]);
        CopyOut(dest, 0, b, n);
      } else if n > page.Length - b {
        FetchSplit(dest, n, b);
      } else {
        HeldAtOnce(page[..], bom, queue, n);
        PastedFirst(d, page[b..b + n]);
        CopyOut(dest, 0, b, n);
      }
    }

    method FetchSplit(dest: array<Byte>, n: int, b: int)
      requires Valid() && dest != page && b == Wrap(bom, page.Length) && page.Length - b < n <= dest.Length && n <= |queue|
      modifies dest
      ensures dest[..] == queue[..n] + old(dest[..])[n..]
    {
      hide Wrap, Holds, Pasted;
      ghost var d := dest[..];
      var k := page.Length - b;
      HeldSplit(page[..], bom, queue, n);
      PastedTwice(d, page[b..b + k], page[0..n - k]);
      CopyOut(dest, 0, b, k);
      CopyOut(dest, k, 0, n - k);
      assert page[..][b..] == page[b..b + k] && page[..][..n - k] == page[0..n - k];
    }

    method Flush()
      requires 0 < page.Length
      modifies this`top, this`bom, this`queue
      ensures Valid() && queue == []
    {
      top, bom, queue := 0, 0, [];
    }
  }
}

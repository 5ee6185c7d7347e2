/** The segregated free lists of the TLSF allocator as they lie in memory: doubly linked
    lists threaded through the first two words of each free buffer, a matrix of list heads
    and two levels of bitmaps. Memory is word-addressed by byte address. */
module TlsfIndex {
  import opened Basics
  import opened BitWord
  import opened TlsfMapping

  type Mem = map<int, int>

  function Rd(m: Mem, x: int): int {
    if x in m then m[x] else 0
  }

  const CLASSES: nat := 768  // REAL_FLI * MAX_SLI

  // field offsets inside a block header
  const SIZE: int := 4
  const PREV: int := 8
  const NEXT: int := 12

  ghost predicate NoDup(s: seq<int>) {
    forall i, j :: 0 <= i < j < |s| ==> s[i] != s[j]
  }

  /** The link words of the `i`-th block of `s` name its neighbours in `s`. */
  ghost predicate LinkAt(m: Mem, s: seq<int>, i: int)
    requires 0 <= i < |s|
  {
    && s[i] > 0
    && Rd(m, s[i] + PREV) == (if i == 0 then 0 else s[i - 1])
    && Rd(m, s[i] + NEXT) == (if i == |s| - 1 then 0 else s[i + 1])
  }

  /** Starting at `h`, the links of `m` run through exactly the blocks of `s`. */
  ghost predicate Linked(m: Mem, h: int, s: seq<int>) {
    && h == (if s == [] then 0 else s[0])
    && forall i :: 0 <= i < |s| ==> LinkAt(m, s, i)
  }

  /** The memory after `INSERT_BLOCK` pushes `b` in front of head `h`. */
  function InsertMem(m: Mem, b: int, h: int): Mem {
    var m1 := m[b + PREV := 0][b + NEXT := h];
    if h != 0 then m1[h + PREV := b] else m1
  }

  /** The memory after `EXTRACT_BLOCK` unlinks `b`. */
  function ExtractMem(m: Mem, b: int): Mem {
    var n, p := Rd(m, b + NEXT), Rd(m, b + PREV);
    var m1 := if n != 0 then m[n + PREV := p] else m;
    var m2 := if p != 0 then m1[p + NEXT := n] else m1;
    m2[b + PREV := 0][b + NEXT := 0]
  }

  /** Block starts at least 16 bytes apart, so that their link words are distinct. */
  ghost predicate Spaced(s: set<int>) {
    forall a: int, c: int :: a in s && c in s && a < c ==> a + 16 <= c
  }

  ghost predicate Clear(a: int, x: int) {
    a == x || a + 16 <= x || x + 16 <= a
  }

  /** What unlinking `b` does to the link words of another block. */
  lemma ReadExtracted(m: Mem, b: int, a: int)
    requires a != b && Clear(a, b)
    requires var n := Rd(m, b + NEXT); n == 0 || (Clear(a, n) && Clear(b, n))
    requires var p := Rd(m, b + PREV); p == 0 || (Clear(a, p) && Clear(b, p))
    ensures var n, p := Rd(m, b + NEXT), Rd(m, b + PREV);
      && Rd(ExtractMem(m, b), a + PREV) == (if a == n && n != 0 then p else Rd(m, a + PREV))
      && Rd(ExtractMem(m, b), a + NEXT) == (if a == p && p != 0 then n else Rd(m, a + NEXT))
  {
  }

  /** What pushing `b` in front of `h` does to the link words of another block. */
  lemma ReadInserted(m: Mem, b: int, h: int, a: int)
    requires a != b && Clear(a, b) && (h == 0 || Clear(a, h))
    ensures Rd(InsertMem(m, b, h), a + PREV) == (if a == h && h != 0 then b else Rd(m, a + PREV))
    ensures Rd(InsertMem(m, b, h), a + NEXT) == Rd(m, a + NEXT)
  {
  }

  lemma LinkedFrame(m: Mem, m': Mem, h: int, s: seq<int>)
    requires Linked(m, h, s)
    requires forall i :: 0 <= i < |s| ==> Rd(m', s[i] + PREV) == Rd(m, s[i] + PREV) && Rd(m', s[i] + NEXT) == Rd(m, s[i] + NEXT)
    ensures Linked(m', h, s)
  {
    forall i | 0 <= i < |s|
      ensures LinkAt(m', s, i)
    {
      assert LinkAt(m, s, i);
    }
  }

  ghost predicate Within(s: seq<int>, members: set<int>) {
    forall i :: 0 <= i < |s| ==> s[i] in members
  }

  lemma LinkedInsert(m: Mem, h: int, s: seq<int>, b: int, members: set<int>)
    requires Linked(m, h, s) && b > 0 && NoDup(s)
    requires Spaced(members + {b}) && b !in members && Within(s, members)
    ensures Linked(InsertMem(m, b, h), b, [b] + s)
  {
    var m', s' := InsertMem(m, b, h), [b] + s;
    forall i | 0 <= i < |s'|
      ensures LinkAt(m', s', i)
    {
      if i == 0 {
        if s != [] { assert LinkAt(m, s, 0) && s[0] in members; }
      } else {
        assert LinkAt(m, s, i - 1) && s'[i] == s[i - 1] && s[i - 1] in members && s[0] in members;
        assert i > 1 ==> s[i - 1] != s[0];
      }
    }
  }

  function Without(s: seq<int>, k: nat): seq<int>
    requires k < |s|
  {
    s[..k] + s[k + 1..]
  }

  lemma WithoutFirst(s: seq<int>)
    requires s != []
    ensures Without(s, 0) == s[1..]
  {
  }

  lemma LinkedExtract(m: Mem, h: int, s: seq<int>, k: nat, members: set<int>)
    requires Linked(m, h, s) && NoDup(s) && k < |s|
    requires Spaced(members) && Within(s, members)
    ensures Linked(ExtractMem(m, s[k]), if k == 0 then Rd(m, h + NEXT) else h, Without(s, k))
  {
    var m', s' := ExtractMem(m, s[k]), Without(s, k);
    assert LinkAt(m, s, k);
    forall i | 0 <= i < |s'|
      ensures LinkAt(m', s', i)
    {
      ExtractAt(m, s, k, if i < k then i else i + 1, members);
    }
  }

  /** Unlinking the `k`-th block leaves every other block linked to its new neighbours. */
  lemma ExtractAt(m: Mem, s: seq<int>, k: nat, j: nat, members: set<int>)
    requires NoDup(s) && k < |s| && j < |s| && j != k
    requires forall i :: 0 <= i < |s| ==> LinkAt(m, s, i)
    requires Spaced(members) && Within(s, members)
    ensures LinkAt(ExtractMem(m, s[k]), Without(s, k), if j < k then j else j - 1)
  {
    hide Rd, ExtractMem;
    assert LinkAt(m, s, k) && LinkAt(m, s, j);
    assert s[j] in members && s[k] in members;
    if k > 0 { assert s[k - 1] in members && s[k - 1] > 0 by { assert LinkAt(m, s, k - 1); } }
    if k + 1 < |s| { assert s[k + 1] in members && s[k + 1] > 0 by { assert LinkAt(m, s, k + 1); } }
    ReadExtracted(m, s[k], s[j]);
    var s', i := Without(s, k), if j < k then j else j - 1;
    assert s'[i] == s[j];
  }

  /** The matrix of lists: every indexed block lies in exactly the list of its class. */
  ghost predicate IndexOk(m: Mem, heads: seq<int>, lists: seq<seq<int>>, cls: map<int, nat>) {
    && |heads| == |lists| == CLASSES
    && Spaced(cls.Keys)
    && (forall a: int :: a in cls ==> a > 0 && cls[a] < CLASSES && a in lists[cls[a]])
    && (forall c: int :: 0 <= c < CLASSES ==> NoDup(lists[c]) && Linked(m, heads[c], lists[c]))
    && (forall c, i :: 0 <= c < CLASSES && 0 <= i < |lists[c]| ==> lists[c][i] in cls && cls[lists[c][i]] == c)
  }

  lemma HeadIndexed(m: Mem, heads: seq<int>, lists: seq<seq<int>>, cls: map<int, nat>, c: nat)
    requires IndexOk(m, heads, lists, cls) && c < CLASSES
    ensures |heads| == |lists| == CLASSES && Spaced(cls.Keys)
    ensures heads[c] != 0 ==> heads[c] in cls
  {
    assert Linked(m, heads[c], lists[c]);
    if lists[c] != [] { assert lists[c][0] in cls; }
  }

  /** Where `b` stands in its list, and what its link words name. */
  lemma NeighboursIndexed(m: Mem, heads: seq<int>, lists: seq<seq<int>>, cls: map<int, nat>, b: int) returns (k: nat)
    requires IndexOk(m, heads, lists, cls) && b in cls
    ensures |heads| == |lists| == CLASSES && cls[b] < CLASSES && k < |lists[cls[b]]| && lists[cls[b]][k] == b
    ensures heads[cls[b]] == b <==> k == 0
    ensures Rd(m, b + NEXT) == 0 <==> k == |lists[cls[b]]| - 1
    ensures Rd(m, b + PREV) == 0 <==> k == 0
    ensures Rd(m, b + NEXT) != 0 ==> Rd(m, b + NEXT) in cls
    ensures Rd(m, b + PREV) != 0 ==> Rd(m, b + PREV) in cls
  {
    var c := cls[b];
    k :| 0 <= k < |lists[c]| && lists[c][k] == b;
    assert Linked(m, heads[c], lists[c]) && LinkAt(m, lists[c], k) && NoDup(lists[c]);
    if k > 0 { assert lists[c][k - 1] in cls; }
    if k + 1 < |lists[c]| { assert lists[c][k + 1] in cls; }
  }

  lemma HeadFirst(m: Mem, heads: seq<int>, lists: seq<seq<int>>, cls: map<int, nat>, b: int)
    requires IndexOk(m, heads, lists, cls) && b in cls && lists[cls[b]] != [] && lists[cls[b]][0] == b
    ensures heads[cls[b]] == b && Rd(m, b + PREV) == 0
  {
    assert Linked(m, heads[cls[b]], lists[cls[b]]) && LinkAt(m, lists[cls[b]], 0);
  }

  lemma OtherListInsert(m: Mem, heads: seq<int>, lists: seq<seq<int>>, cls: map<int, nat>, b: int, c: nat, d: nat)
    requires IndexOk(m, heads, lists, cls)
    requires b > 0 && b !in cls && c < CLASSES && d < CLASSES && c != d && Spaced(cls.Keys + {b})
    ensures Linked(InsertMem(m, b, heads[c]), heads[d], lists[d])
  {
    if lists[c] != [] { assert lists[c][0] in cls && cls[lists[c][0]] == c; }
    assert Linked(m, heads[c], lists[c]) && Linked(m, heads[d], lists[d]);
    forall i | 0 <= i < |lists[d]|
      ensures Rd(InsertMem(m, b, heads[c]), lists[d][i] + PREV) == Rd(m, lists[d][i] + PREV)
      ensures Rd(InsertMem(m, b, heads[c]), lists[d][i] + NEXT) == Rd(m, lists[d][i] + NEXT)
    {
      assert lists[d][i] in cls && cls[lists[d][i]] == d;
      ReadInserted(m, b, heads[c], lists[d][i]);
    }
    LinkedFrame(m, InsertMem(m, b, heads[c]), heads[d], lists[d]);
  }

  /** `INSERT_BLOCK` adds exactly `b`, at the front of list `c`. */
  lemma IndexInsert(m: Mem, heads: seq<int>, lists: seq<seq<int>>, cls: map<int, nat>, b: int, c: nat)
    requires IndexOk(m, heads, lists, cls)
    requires b > 0 && b !in cls && c < CLASSES && Spaced(cls.Keys + {b})
    ensures IndexOk(InsertMem(m, b, heads[c]), heads[c := b], lists[c := [b] + lists[c]], cls[b := c])
  {
    var m', heads', lists', cls' := InsertMem(m, b, heads[c]), heads[c := b], lists[c := [b] + lists[c]], cls[b := c];
    LinkedInsert(m, heads[c], lists[c], b, cls.Keys);
    assert cls'.Keys == cls.Keys + {b};
    forall d | 0 <= d < CLASSES
      ensures NoDup(lists'[d]) && Linked(m', heads'[d], lists'[d])
    {
      if d != c { OtherListInsert(m, heads, lists, cls, b, c, d); }
    }
    forall a: int | a in cls'
      ensures a > 0 && cls'[a] < CLASSES && a in lists'[cls'[a]]
    {
      if a == b { assert lists'[c][0] == b; } else if cls[a] == c {
        var i :| 0 <= i < |lists[c]| && lists[c][i] == a;
        assert lists'[c][i + 1] == a;
      }
    }
  }

  lemma OtherListExtract(m: Mem, heads: seq<int>, lists: seq<seq<int>>, cls: map<int, nat>, c: nat, k: nat, d: nat)
    requires IndexOk(m, heads, lists, cls) && c < CLASSES && k < |lists[c]| && d < CLASSES && c != d
    ensures Linked(ExtractMem(m, lists[c][k]), heads[d], lists[d])
  {
    var b := lists[c][k];
    assert b in cls && cls[b] == c && Linked(m, heads[c], lists[c]) && LinkAt(m, lists[c], k);
    if k > 0 { assert lists[c][k - 1] in cls && cls[lists[c][k - 1]] == c; }
    if k + 1 < |lists[c]| { assert lists[c][k + 1] in cls && cls[lists[c][k + 1]] == c; }
    forall i | 0 <= i < |lists[d]|
      ensures Rd(ExtractMem(m, b), lists[d][i] + PREV) == Rd(m, lists[d][i] + PREV)
      ensures Rd(ExtractMem(m, b), lists[d][i] + NEXT) == Rd(m, lists[d][i] + NEXT)
    {
      assert lists[d][i] in cls && cls[lists[d][i]] == d;
      ReadExtracted(m, b, lists[d][i]);
    }
    LinkedFrame(m, ExtractMem(m, b), heads[d], lists[d]);
  }

  lemma WithoutMembers(s: seq<int>, k: nat)
    requires NoDup(s) && k < |s|
    ensures NoDup(Without(s, k))
    ensures forall a: int :: a in Without(s, k) <==> a in s && a != s[k]
  {
    forall a: int | a in s && a != s[k]
      ensures a in Without(s, k)
    {
      var i :| 0 <= i < |s| && s[i] == a;
      assert Without(s, k)[if i < k then i else i - 1] == a;
    }
  }

  /** `EXTRACT_BLOCK` removes exactly the block it is given. */
  lemma IndexExtract(m: Mem, heads: seq<int>, lists: seq<seq<int>>, cls: map<int, nat>, c: nat, k: nat)
    requires IndexOk(m, heads, lists, cls) && c < CLASSES && k < |lists[c]|
    ensures var b := lists[c][k];
      IndexOk(ExtractMem(m, b), heads[c := if k == 0 then Rd(m, b + NEXT) else heads[c]],
              lists[c := Without(lists[c], k)], cls - {b})
  {
    var b := lists[c][k];
    var m', heads' := ExtractMem(m, b), heads[c := if k == 0 then Rd(m, b + NEXT) else heads[c]];
    var lists', cls' := lists[c := Without(lists[c], k)], cls - {b};
    assert b in cls && cls[b] == c;
    WithoutMembers(lists[c], k);
    forall d | 0 <= d < CLASSES
      ensures NoDup(lists'[d]) && Linked(m', heads'[d], lists'[d])
    {
      if d != c {
        OtherListExtract(m, heads, lists, cls, c, k, d);
      } else {
        LinkedExtract(m, heads[c], lists[c], k, cls.Keys);
      }
    }
    forall d, i | 0 <= d < CLASSES && 0 <= i < |lists'[d]|
      ensures lists'[d][i] in cls' && cls'[lists'[d][i]] == d
    {
      if d == c {
        assert lists'[c][i] in Without(lists[c], k);
      }
    }
  }

  // ---- the two bitmap levels ----

  /** Bit `s` of `sl[f]` says whether list (f, s) is non-empty, bit `f` of `fl` whether `sl[f]` is non-zero. */
  ghost predicate BitsOk(fl: nat, sl: seq<nat>, lists: seq<seq<int>>) {
    && |sl| == REAL_FLI && |lists| == CLASSES && fl < WORD
    && (forall f :: 0 <= f < REAL_FLI ==> sl[f] < WORD)
    && (forall f, s :: 0 <= f < REAL_FLI && 0 <= s < MAX_SLI ==> (Test(sl[f], s) <==> lists[f * 32 + s] != []))
    && (forall f :: 0 <= f < REAL_FLI ==> (Test(fl, f) <==> sl[f] != 0))
    && (forall f :: REAL_FLI <= f < 32 ==> !Test(fl, f))
  }

  lemma BitsInsert(fl: nat, sl: seq<nat>, lists: seq<seq<int>>, f: nat, s: nat, l: seq<int>)
    requires BitsOk(fl, sl, lists) && f < REAL_FLI && s < MAX_SLI && l != []
    ensures BitsOk(SetBit(fl, f), sl[f := SetBit(sl[f], s)], lists[f * 32 + s := l])
  {
    WordBits(fl, f);
    WordBits(sl[f], s);
    var fl', sl', lists' := SetBit(fl, f), sl[f := SetBit(sl[f], s)], lists[f * 32 + s := l];
    forall g, t | 0 <= g < REAL_FLI && 0 <= t < MAX_SLI
      ensures Test(sl'[g], t) <==> lists'[g * 32 + t] != []
    {
      SetBitTest(sl[f], s, t);
      assert Test(sl[g], t) <==> lists[g * 32 + t] != [];
    }
    forall g | 0 <= g < 32
      ensures Test(fl', g) <==> g < REAL_FLI && sl'[g] != 0
    {
      SetBitTest(fl, f, g);
    }
  }

  /** The bitmaps after list (f, s) changed to `l` by an extraction. */
  function ClearedSl(sl: seq<nat>, f: nat, s: nat, l: seq<int>): seq<nat>
    requires f < |sl|
  {
    if l == [] then sl[f := ClearBit(sl[f], s)] else sl
  }

  function ClearedFl(fl: nat, sl: seq<nat>, f: nat, s: nat, l: seq<int>): nat
    requires f < |sl|
  {
    if l == [] && ClearBit(sl[f], s) == 0 then ClearBit(fl, f) else fl
  }

  lemma BitsExtract(fl: nat, sl: seq<nat>, lists: seq<seq<int>>, f: nat, s: nat, l: seq<int>)
    requires BitsOk(fl, sl, lists) && f < REAL_FLI && s < MAX_SLI && lists[f * 32 + s] != []
    ensures BitsOk(ClearedFl(fl, sl, f, s, l), ClearedSl(sl, f, s, l), lists[f * 32 + s := l])
  {
    WordBits(fl, f);
    WordBits(sl[f], s);
    var fl', sl', lists' := ClearedFl(fl, sl, f, s, l), ClearedSl(sl, f, s, l), lists[f * 32 + s := l];
    forall g, t | 0 <= g < REAL_FLI && 0 <= t < MAX_SLI
      ensures Test(sl'[g], t) <==> lists'[g * 32 + t] != []
    {
      ClearBitTest(sl[f], s, t);
      assert Test(sl[g], t) <==> lists[g * 32 + t] != [];
      assert Test(sl[f], s) <==> lists[f * 32 + s] != [];
    }
    NoBits(s);
    forall g | 0 <= g < 32
      ensures Test(fl', g) <==> g < REAL_FLI && sl'[g] != 0
    {
      ClearBitTest(fl, f, g);
      assert Test(sl[f], s) <==> lists[f * 32 + s] != [];
    }
  }

  /** The first non-empty class from (f0, s0) on, as `FIND_SUITABLE_BLOCK` finds it by bit scans. */
  function FindClass(fl: nat, sl: seq<nat>, f0: nat, s0: nat): (r: (int, int))
    requires |sl| == REAL_FLI && f0 < REAL_FLI && s0 < MAX_SLI && fl < WORD
  {
    var tmp := FromBit(sl[f0], s0);
    if tmp != 0 then (f0, LsBit(tmp))
    else
      var f := LsBit(FromBit(fl, f0 + 1));
      if 0 < f < REAL_FLI then (f, LsBit(sl[f])) else (-1, -1)
  }

  /** A row of the matrix is empty exactly where its bitmap, or the level above it, says so. */
  lemma EmptyClass(fl: nat, sl: seq<nat>, lists: seq<seq<int>>, f: nat, s: nat)
    requires BitsOk(fl, sl, lists) && f < REAL_FLI && s < MAX_SLI
    ensures lists[f * 32 + s] == [] <==> !Test(sl[f], s)
    ensures !Test(fl, f) ==> lists[f * 32 + s] == []
  {
    assert Test(sl[f], s) <==> lists[f * 32 + s] != [];
    NoBits(s);
  }

  lemma ScanUp(w: nat, k: nat)
    requires w < WORD && k < 32
    ensures FromBit(w, k) == 0 ==> forall j: nat :: k <= j ==> !Test(w, j)
    ensures FromBit(w, k) != 0 ==> var r := LsBit(FromBit(w, k));
      k <= r < 32 && Test(w, r) && forall j: nat :: k <= j < r ==> !Test(w, j)
    ensures FromBit(w, k) == 0 ==> LsBit(FromBit(w, k)) == -1
  {
    var up := FromBit(w, k);
    WordBits(w, k);
    if up != 0 {
      LsBitByTable(up);
      FromBitTest(w, k, LsBit(up));
    }
    forall j: nat | k <= j && (up == 0 || j < LsBit(up))
      ensures !Test(w, j)
    {
      FromBitTest(w, k, j);
      if up == 0 { NoBits(j); } else { assert !Test(up, j); }
    }
  }

  /** `FIND_SUITABLE_BLOCK` finds the first non-empty list from the requested class on,
      and finds none only if there is none. */
  lemma FindClassExact(fl: nat, sl: seq<nat>, lists: seq<seq<int>>, f0: nat, s0: nat)
    requires BitsOk(fl, sl, lists) && f0 < REAL_FLI && s0 < MAX_SLI
    ensures var (f, s) := FindClass(fl, sl, f0, s0);
      && (f >= 0 ==> f < REAL_FLI && 0 <= s < MAX_SLI && f0 * 32 + s0 <= f * 32 + s && lists[f * 32 + s] != [])
      && forall c: int :: f0 * 32 + s0 <= c < CLASSES && (f >= 0 ==> c < f * 32 + s) ==> lists[c] == []
  {
    var (f, s) := FindClass(fl, sl, f0, s0);
    ScanUp(sl[f0], s0);
    ScanUp(fl, f0 + 1);
    if FromBit(sl[f0], s0) == 0 && FromBit(fl, f0 + 1) != 0 {
      assert f < REAL_FLI && sl[f] != 0;
      LsBitByTable(sl[f]);
    }
    if f >= 0 { EmptyClass(fl, sl, lists, f, s); }
    forall c: int | f0 * 32 + s0 <= c < CLASSES && (f >= 0 ==> c < f * 32 + s)
      ensures lists[c] == []
    {
      EmptyClass(fl, sl, lists, c / 32, c % 32);
    }
  }
}

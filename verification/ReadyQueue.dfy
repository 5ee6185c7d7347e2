/** PaRTiKle's ready queue: 1024 doubly linked lists of threads, one per priority, found through
    two levels of bitmaps. It refines the plain priority queue. */
module ReadyQueue {
  import opened Basics
  import opened BitWord
  import opened PriorityQueue

  class Thread {
    var next: Thread?
    var prev: Thread?
    var ssI: int
    var ssJ: int

    constructor ()
      ensures next == null && prev == null && ssI == 0 && ssJ == 0
    {
      next, prev, ssI, ssJ := null, null, 0, 0;
    }
  }

  type Lists = seq<seq<Thread>>

  // ---- priorities and matrix positions ----

  /** `prio2ij` on the low ten bits of the priority */
  function RowOf(prio: int): (i: nat)
    ensures i < 32
  {
    prio % 1024 / 32
  }

  function ColumnOf(prio: int): (j: nat)
    ensures j < 32
  {
    prio % 32
  }

  /** `ij2prio` */
  function Slot(i: nat, j: nat): nat {
    i % 32 * 32 + j % 32
  }

  /** The two conversions are inverse to each other on the 1024 priorities. */
  lemma SlotOf(prio: int)
    ensures Slot(RowOf(prio), ColumnOf(prio)) == RowOf(prio) * 32 + ColumnOf(prio) == prio % 1024
  {
    var q, r := prio / 1024, prio % 1024;
    assert prio == 32 * (32 * q + r / 32) + r % 32;
    LowFive(32 * q + r / 32, r % 32);
    SlotAt(RowOf(prio), ColumnOf(prio));
  }

  lemma LowFive(x: int, b: int)
    requires 0 <= b < 32
    ensures (32 * x + b) % 32 == b
  {
  }

  lemma SlotAt(i: nat, j: nat)
    requires i < 32 && j < 32
    ensures Slot(i, j) == i * 32 + j
  {
  }

  // ---- the entries of all lists in the order of service ----

  ghost function Tagged(p: int, l: seq<Thread>): seq<Entry<Thread>> {
    seq(|l|, k requires 0 <= k < |l| => Entry(p, l[k]))
  }

  ghost function Flat(lists: Lists, a: nat): seq<Entry<Thread>>
    decreases |lists| - a
  {
    if a >= |lists| then [] else Tagged(a, lists[a]) + Flat(lists, a + 1)
  }

  /** The entries of the lists before `b`. */
  ghost function Upto(lists: Lists, b: nat): (q: seq<Entry<Thread>>)
    requires b <= |lists|
  {
    if b == 0 then [] else Upto(lists, b - 1) + Tagged(b - 1, lists[b - 1])
  }

  lemma {:induction false} FlatSplit(lists: Lists, p: nat)
    requires p <= |lists|
    ensures Flat(lists, 0) == Upto(lists, p) + Flat(lists, p)
  {
    if p > 0 {
      FlatSplit(lists, p - 1);
      assert Upto(lists, p - 1) + (Tagged(p - 1, lists[p - 1]) + Flat(lists, p)) ==
        Upto(lists, p - 1) + Tagged(p - 1, lists[p - 1]) + Flat(lists, p);
    }
  }

  lemma {:induction false} FlatSame(lists: Lists, m: Lists, a: nat)
    requires |lists| == |m| && forall k :: a <= k < |m| ==> lists[k] == m[k]
    ensures Flat(lists, a) == Flat(m, a)
    decreases |m| - a
  {
    if a < |m| {
      FlatSame(lists, m, a + 1);
    }
  }

  lemma {:induction false} UptoSame(lists: Lists, m: Lists, b: nat)
    requires b <= |lists| == |m| && forall k :: 0 <= k < b ==> lists[k] == m[k]
    ensures Upto(lists, b) == Upto(m, b)
  {
    if b > 0 {
      UptoSame(lists, m, b - 1);
    }
  }

  lemma {:induction false} UptoBelow(lists: Lists, b: nat, k: nat)
    requires b <= |lists| && k < |Upto(lists, b)|
    ensures 0 <= Upto(lists, b)[k].prio < b && Upto(lists, b)[k].item in lists[Upto(lists, b)[k].prio]
  {
    if b > 0 && k < |Upto(lists, b - 1)| {
      UptoBelow(lists, b - 1, k);
    }
  }

  lemma {:induction false} FlatAbove(lists: Lists, a: nat, k: nat)
    requires k < |Flat(lists, a)|
    ensures a <= Flat(lists, a)[k].prio < |lists| && Flat(lists, a)[k].item in lists[Flat(lists, a)[k].prio]
    decreases |lists| - a
  {
    if a < |lists| && k >= |lists[a]| {
      FlatAbove(lists, a + 1, k - |lists[a]|);
    }
  }

  /** Replacing list `p` changes only its own stretch of the queue. */
  lemma FlatUpdate(lists: Lists, p: nat, l: seq<Thread>)
    requires p < |lists|
    ensures Flat(lists, 0) == Upto(lists, p) + Tagged(p, lists[p]) + Flat(lists, p + 1)
    ensures Flat(lists[p := l], 0) == Upto(lists, p) + Tagged(p, l) + Flat(lists, p + 1)
  {
    FlatSplit(lists, p + 1);
    FlatSplit(lists[p := l], p + 1);
    UptoSame(lists, lists[p := l], p);
    FlatSame(lists, lists[p := l], p + 1);
  }

  lemma TailRefines(lists: Lists, p: nat, t: Thread)
    requires p < |lists|
    ensures Flat(lists[p := lists[p] + [t]], 0) == InsertTail(Flat(lists, 0), Entry(p, t))
  {
    FlatUpdate(lists, p, lists[p] + [t]);
    var a, b := Upto(lists, p) + Tagged(p, lists[p]), Flat(lists, p + 1);
    forall k | 0 <= k < |a| ensures a[k].prio <= p {
      if k < |Upto(lists, p)| { UptoBelow(lists, p, k); }
    }
    forall k | 0 <= k < |b| ensures b[k].prio > p {
      FlatAbove(lists, p + 1, k);
    }
    InsertTailAt(a, Entry(p, t), b);
    assert Tagged(p, lists[p] + [t]) == Tagged(p, lists[p]) + [Entry(p, t)];
    assert Upto(lists, p) + (Tagged(p, lists[p]) + [Entry(p, t)]) == a + [Entry(p, t)];
  }

  lemma Regroup<T>(a: seq<T>, e: seq<T>, b: seq<T>, c: seq<T>)
    ensures a + b + c == a + (b + c)
    ensures a + (e + b) + c == a + e + (b + c)
  {
  }

  lemma HeadRefines(lists: Lists, p: nat, t: Thread)
    requires p < |lists|
    ensures Flat(lists[p := [t] + lists[p]], 0) == InsertHead(Flat(lists, 0), Entry(p, t))
  {
    hide Flat, Upto;
    FlatUpdate(lists, p, [t] + lists[p]);
    var a, b := Upto(lists, p), Tagged(p, lists[p]) + Flat(lists, p + 1);
    forall k | 0 <= k < |a| ensures a[k].prio < p {
      UptoBelow(lists, p, k);
    }
    forall k | 0 <= k < |b| ensures b[k].prio >= p {
      if k >= |lists[p]| { FlatAbove(lists, p + 1, k - |lists[p]|); }
    }
    InsertHeadAt(a, Entry(p, t), b);
    assert Tagged(p, [t] + lists[p]) == [Entry(p, t)] + Tagged(p, lists[p]);
    Regroup(a, [Entry(p, t)], Tagged(p, lists[p]), Flat(lists, p + 1));
  }

  lemma RemoveRefines(lists: Lists, p: nat, k: nat, t: Thread)
    requires p < |lists| && k < |lists[p]| && lists[p][k] == t
    requires t !in lists[p][..k] && forall q :: 0 <= q < p ==> t !in lists[q]
    ensures Flat(lists[p := lists[p][..k] + lists[p][k + 1..]], 0) == Without(Flat(lists, 0), t)
  {
    var l := lists[p];
    FlatUpdate(lists, p, l[..k] + l[k + 1..]);
    var a, b := Upto(lists, p) + Tagged(p, l[..k]), Tagged(p, l[k + 1..]) + Flat(lists, p + 1);
    forall n | 0 <= n < |a| ensures a[n].item != t {
      if n < |Upto(lists, p)| {
        UptoBelow(lists, p, n);
      } else {
        assert a[n].item == l[..k][n - |Upto(lists, p)|];
      }
    }
    WithoutAt(a, Entry(p, t), b);
    assert Tagged(p, l) == Tagged(p, l[..k]) + [Entry(p, t)] + Tagged(p, l[k + 1..]);
    assert Tagged(p, l[..k] + l[k + 1..]) == Tagged(p, l[..k]) + Tagged(p, l[k + 1..]);
    assert Flat(lists, 0) == a + [Entry(p, t)] + b;
  }

  /** The first entry is the head of the first non-empty list. */
  lemma {:induction false} FlatFirst(lists: Lists, a: nat, p: nat)
    requires a <= p < |lists| && lists[p] != [] && forall q :: a <= q < p ==> lists[q] == []
    ensures Flat(lists, a) != [] && Flat(lists, a)[0] == Entry(p, lists[p][0])
    decreases p - a
  {
    if a < p {
      FlatFirst(lists, a + 1, p);
    }
  }

  lemma {:induction false} FlatEmpty(lists: Lists, a: nat)
    requires forall q :: a <= q < |lists| ==> lists[q] == []
    ensures Flat(lists, a) == []
    decreases |lists| - a
  {
    if a < |lists| {
      FlatEmpty(lists, a + 1);
    }
  }

  // ---- the bitmaps ----

  ghost predicate BitsOk(fl: nat, sl: seq<nat>, lists: Lists) {
    && |sl| == 32 && |lists| == 1024 && fl < WORD
    && (forall i :: 0 <= i < 32 ==> sl[i] < WORD)
    && (forall i, j :: 0 <= i < 32 && 0 <= j < 32 ==> (Test(sl[i], j) <==> lists[i * 32 + j] != []))
    && (forall i :: 0 <= i < 32 ==> (Test(fl, i) <==> sl[i] != 0))
  }

  lemma EmptyBits(sl: seq<nat>, lists: Lists)
    requires |sl| == 32 && |lists| == 1024
    requires (forall i :: 0 <= i < 32 ==> sl[i] == 0) && forall p :: 0 <= p < 1024 ==> lists[p] == []
    ensures BitsOk(0, sl, lists)
  {
    forall k: nat ensures !Test(0, k) {
      NoBits(k);
    }
  }

  lemma BitsSet(fl: nat, sl: seq<nat>, lists: Lists, i: nat, j: nat, l: seq<Thread>)
    requires BitsOk(fl, sl, lists) && i < 32 && j < 32 && l != []
    ensures BitsOk(SetBit(fl, i), sl[i := SetBit(sl[i], j)], lists[i * 32 + j := l])
  {
    WordBits(fl, i);
    WordBits(sl[i], j);
    var fl', sl', lists' := SetBit(fl, i), sl[i := SetBit(sl[i], j)], lists[i * 32 + j := l];
    forall a, b | 0 <= a < 32 && 0 <= b < 32
      ensures Test(sl'[a], b) <==> lists'[a * 32 + b] != []
    {
      SetBitTest(sl[i], j, b);
      assert Test(sl[a], b) <==> lists[a * 32 + b] != [];
    }
    forall a | 0 <= a < 32
      ensures Test(fl', a) <==> sl'[a] != 0
    {
      SetBitTest(fl, i, a);
    }
  }

  /** Clearing the bits of a list that has become, or already was, empty. */
  lemma BitsClear(fl: nat, sl: seq<nat>, lists: Lists, i: nat, j: nat)
    requires BitsOk(fl, sl, lists) && i < 32 && j < 32
    ensures var w := ClearBit(sl[i], j);
      BitsOk(if w == 0 then ClearBit(fl, i) else fl, sl[i := w], lists[i * 32 + j := []])
  {
    WordBits(fl, i);
    WordBits(sl[i], j);
    var w := ClearBit(sl[i], j);
    var fl', sl', lists' := if w == 0 then ClearBit(fl, i) else fl, sl[i := w], lists[i * 32 + j := []];
    forall a, b | 0 <= a < 32 && 0 <= b < 32
      ensures Test(sl'[a], b) <==> lists'[a * 32 + b] != []
    {
      ClearBitTest(sl[i], j, b);
      assert Test(sl[a], b) <==> lists[a * 32 + b] != [];
    }
    forall a | 0 <= a < 32
      ensures Test(fl', a) <==> sl'[a] != 0
    {
      ClearBitTest(fl, i, a);
      if w != 0 && sl[i] == 0 { ClearZero(j); }
    }
  }

  lemma {:induction false} ClearZero(j: nat)
    ensures ClearBit(0, j) == 0
  {
    if j > 0 { ClearZero(j - 1); }
  }

  /** A changed but still non-empty list keeps its bits. */
  lemma BitsKeep(fl: nat, sl: seq<nat>, lists: Lists, p: nat, l: seq<Thread>)
    requires BitsOk(fl, sl, lists) && p < 1024 && (l == [] <==> lists[p] == [])
    ensures BitsOk(fl, sl, lists[p := l])
  {
    forall a, b | 0 <= a < 32 && 0 <= b < 32
      ensures Test(sl[a], b) <==> lists[p := l][a * 32 + b] != []
    {
      assert Test(sl[a], b) <==> lists[a * 32 + b] != [];
    }
  }

  /** The two scans find the first non-empty list. */
  lemma ScanFirst(fl: nat, sl: seq<nat>, lists: Lists, i: nat, j: nat)
    requires BitsOk(fl, sl, lists) && i < 32 && j < 32 && IsLowest(fl, i) && IsLowest(sl[i], j)
    ensures lists[i * 32 + j] != [] && forall q :: 0 <= q < i * 32 + j ==> lists[q] == []
  {
    assert Test(sl[i], j) <==> lists[i * 32 + j] != [];
    forall q | 0 <= q < i * 32 + j ensures lists[q] == [] {
      var a, b := q / 32, q % 32;
      assert Test(sl[a], b) <==> lists[a * 32 + b] != [];
      if a < i {
        assert !Test(fl, a);
        NoBits(b);
      } else {
        assert !Test(sl[i], b);
      }
    }
  }

  lemma ScanNone(fl: nat, sl: seq<nat>, lists: Lists)
    requires BitsOk(fl, sl, lists) && fl == 0
    ensures forall q :: 0 <= q < 1024 ==> lists[q] == []
  {
    forall q | 0 <= q < 1024 ensures lists[q] == [] {
      var a, b := q / 32, q % 32;
      assert Test(sl[a], b) <==> lists[a * 32 + b] != [];
      NoBits(a);
      NoBits(b);
    }
  }

  // ---- the lists ----

  ghost function At(l: seq<Thread>, k: int): Thread? {
    if 0 <= k < |l| then l[k] else null
  }

  /** The threads of list `p` are linked in order, both ways, and know their list. */
  ghost predicate Linked(l: seq<Thread>, p: nat)
    reads set t | t in l
  {
    && (forall k :: 0 <= k < |l| ==> Placed(l, k, p))
    && (forall a, b :: 0 <= a < b < |l| ==> l[a] != l[b])
  }

  ghost predicate Placed(l: seq<Thread>, k: nat, p: nat)
    requires k < |l|
    reads l[k]
  {
    l[k].next == At(l, k + 1) && l[k].prev == At(l, k - 1) && Home(l[k], p)
  }

  ghost predicate Home(t: Thread, p: nat)
    reads t
  {
    0 <= t.ssI < 32 && 0 <= t.ssJ < 32 && t.ssI * 32 + t.ssJ == p
  }

  ghost predicate Holds(lists: Lists, members: set<Thread>) {
    && |lists| == 1024
    && (forall p, t :: 0 <= p < 1024 && t in lists[p] ==> t in members)
    && (forall t :: t in members ==> exists p :: 0 <= p < 1024 && t in lists[p])
  }

  lemma HoldsMore(lists: Lists, members: set<Thread>, t: Thread, p: nat, l: seq<Thread>)
    requires Holds(lists, members) && p < 1024 && forall x :: x in l <==> x in lists[p] || x == t
    ensures Holds(lists[p := l], members + {t})
  {
    var lists' := lists[p := l];
    forall x | x in members + {t} ensures exists q :: 0 <= q < 1024 && x in lists'[q] {
      if x == t {
        assert x in lists'[p];
      } else {
        var q :| 0 <= q < 1024 && x in lists[q];
        assert x in lists'[q];
      }
    }
  }

  ghost function CutAt(l: seq<Thread>, k: nat): seq<Thread> {
    if k < |l| then l[..k] + l[k + 1..] else l
  }

  lemma HoldsFewer(lists: Lists, members: set<Thread>, t: Thread, p: nat, l: seq<Thread>)
    requires Holds(lists, members) && p < 1024 && forall x :: x in l <==> x in lists[p] && x != t
    requires forall q :: 0 <= q < 1024 && q != p ==> t !in lists[q]
    ensures Holds(lists[p := l], members - {t})
  {
    var lists' := lists[p := l];
    forall x | x in members - {t} ensures exists q :: 0 <= q < 1024 && x in lists'[q] {
      var q :| 0 <= q < 1024 && x in lists[q];
      assert x in lists'[q];
    }
    forall q, x | 0 <= q < 1024 && x in lists'[q] ensures x in members - {t} {
      if q == p { assert x in lists[p]; } else { assert x in lists[q]; }
    }
  }

  class Queue {
    const heads: array2<Thread?>
    var fl: nat
    const sl: array<nat>
    ghost var lists: Lists
    ghost var members: set<Thread>

    /** `members` are the threads queued. */
    ghost predicate Complete()
      reads this`lists, this`members
    {
      Holds(lists, members)
    }

    ghost predicate Links()
      reads this`lists, this`members, heads, members
    {
      && |lists| == 1024 && Complete() && heads.Length0 == 32 && heads.Length1 == 32
      && (forall p :: 0 <= p < 1024 ==> Linked(lists[p], p))
      && (forall i, j :: 0 <= i < 32 && 0 <= j < 32 ==> heads[i, j] == At(lists[i * 32 + j], 0))
    }

    ghost predicate Bits()
      reads this`fl, this`lists, sl
    {
      sl.Length == 32 && BitsOk(fl, sl[..], lists)
    }

    ghost predicate Valid()
      reads this, heads, sl, members
    {
      Links() && Bits()
    }

    /** The queue refined: all entries in the order of service. */
    ghost function Entries(): seq<Entry<Thread>>
      reads this
    {
      Flat(lists, 0)
    }

    constructor ()
      ensures Valid() && Entries() == [] && members == {} && fresh(heads) && fresh(sl)
    {
      heads, sl := new Thread?[32, 32], new nat[32];
      fl, lists, members := 0, seq(1024, _ => []), {};
      new;
      InitSs();
    }

    /** Whatever the matrix and the bitmaps held, they describe an empty queue afterwards. */
    method InitSs()
      requires heads.Length0 == 32 && heads.Length1 == 32 && sl.Length == 32
      modifies this, heads, sl
      ensures Valid() && Entries() == [] && members == {}
    {
      var i := 0;
      while i < 32
        invariant 0 <= i <= 32
        invariant forall a :: 0 <= a < i ==> sl[a] == 0
        invariant forall a, b :: 0 <= a < i && 0 <= b < 32 ==> heads[a, b] == null
      {
        sl[i] := 0;
        var j := 0;
        while j < 32
          invariant 0 <= j <= 32
          invariant forall a :: 0 <= a <= i ==> sl[a] == 0
          invariant forall a, b :: 0 <= a < i && 0 <= b < 32 ==> heads[a, b] == null
          invariant forall b :: 0 <= b < j ==> heads[i, b] == null
        {
          heads[i, j] := null;
          j := j + 1;
        }
        i := i + 1;
      }
      fl := 0;
      lists, members := seq(1024, _ => []), {};
      EmptyBits(sl[..], lists);
      FlatEmpty(lists, 0);
    }

    method SetBits(i: nat, j: nat, ghost l: seq<Thread>)
      requires Bits() && i < 32 && j < 32 && l != []
      modifies this`fl, sl
      ensures sl.Length == 32 && BitsOk(fl, sl[..], lists[i * 32 + j := l])
    {
      BitsSet(fl, sl[..], lists, i, j, l);
      fl := SetBit(fl, i);
      sl[i] := SetBit(sl[i], j);
      assert sl[..] == old(sl[..])[i := SetBit(old(sl[i]), j)];
    }

    /** A thread knows its only list. */
    lemma Elsewhere(t: Thread, p: nat)
      requires Links() && p < 1024 && t in lists[p]
      ensures forall q :: 0 <= q < 1024 && q != p ==> t !in lists[q]
    {
      Knows(t, lists[p], p);
      forall q | 0 <= q < 1024 && t in lists[q] ensures q == p {
        Knows(t, lists[q], q);
      }
    }

    lemma Knows(t: Thread, l: seq<Thread>, p: nat)
      requires Linked(l, p) && t in l
      ensures Home(t, p)
    {
      var k :| 0 <= k < |l| && l[k] == t;
      assert Placed(l, k, p);
    }

    method FindTail(i: nat, j: nat, ghost l: seq<Thread>, ghost p: nat) returns (aux: Thread)
      requires i < heads.Length0 && j < heads.Length1 && heads[i, j] == At(l, 0) && heads[i, j] != null
      requires Linked(l, p)
      ensures l != [] && aux == l[|l| - 1]
    {
      ghost var k := 0;
      aux := heads[i, j];
      while aux.next != null
        invariant 0 <= k < |l| && aux == l[k] && Placed(l, k, p)
        decreases |l| - k
      {
        aux := aux.next;
        k := k + 1;
        assert Placed(l, k, p);
      }
    }

    /** The links of list (i, j), which holds the threads `l`, gain `t` at the end. */
    method LinkLast(t: Thread, i: nat, j: nat, ghost l: seq<Thread>)
      requires i < 32 && j < 32 && heads.Length0 == 32 && heads.Length1 == 32
      requires Linked(l, i * 32 + j) && heads[i, j] == At(l, 0) && t !in l
      modifies heads, t, set x | x in l
      ensures Linked(l + [t], i * 32 + j) && heads[i, j] == At(l + [t], 0)
      ensures forall a, b :: 0 <= a < 32 && 0 <= b < 32 && (a != i || b != j) ==> heads[a, b] == old(heads[a, b])
    {
      hide Linked;
      t.next, t.prev := null, null;
      t.ssI, t.ssJ := i, j;
      if heads[i, j] != null {
        var aux := FindTail(i, j, l, i * 32 + j);
        Join(aux, t, l, i * 32 + j);
      } else {
        heads[i, j] := t;
        Single(t, i * 32 + j);
        assert l + [t] == [t];
      }
    }

    method Join(aux: Thread, t: Thread, ghost l: seq<Thread>, ghost p: nat)
      requires Linked(l, p) && l != [] && aux == l[|l| - 1] && t !in l && t.next == null && Home(t, p)
      modifies aux`next, t`prev
      ensures Linked(l + [t], p)
    {
      ghost var m := l + [t];
      aux.next := t;
      t.prev := aux;
      forall k | 0 <= k < |m| ensures Placed(m, k, p) {
        if k < |l| {
          assert m[k] == l[k] && old(Placed(l, k, p));
        }
      }
    }

    lemma Single(t: Thread, p: nat)
      requires t.next == null && t.prev == null && Home(t, p)
      ensures Linked([t], p)
    {
      assert Placed([t], 0, p);
    }

    method InsertSsTail(t: Thread, prio: int)
      requires Valid() && t !in members
      modifies this, heads, sl, t, members
      ensures Valid() && members == old(members) + {t}
      ensures Entries() == InsertTail(old(Entries()), Entry(prio % 1024, t))
    {
      hide BitsOk, Linked, Holds, Flat, RowOf, ColumnOf, Slot, InsertHead, InsertTail;
      var i, j := RowOf(prio), ColumnOf(prio);
      SlotOf(prio);
      ghost var p := i * 32 + j;
      ghost var l := lists[p];
      Apart(p, t);
      LinkLast(t, i, j, l);
      SetBits(i, j, l + [t]);
      HoldsMore(lists, members, t, p, l + [t]);
      TailRefines(lists, p, t);
      lists, members := lists[p := l + [t]], members + {t};
    }

    /** Neither the threads of list `p` nor a thread not queued are in another list. */
    lemma Apart(p: nat, t: Thread)
      requires Links() && p < 1024 && t !in members
      ensures t !in lists[p] && forall x :: x in lists[p] ==> x in members
      ensures forall q, x :: 0 <= q < 1024 && q != p && x in lists[q] ==> x in members && x !in lists[p] && x != t
    {
      forall q, x | 0 <= q < 1024 && q != p && x in lists[q] ensures x !in lists[p] {
        if x in lists[p] { Elsewhere(x, p); }
      }
    }

    method LinkFirst(t: Thread, i: nat, j: nat, ghost l: seq<Thread>)
      requires i < 32 && j < 32 && heads.Length0 == 32 && heads.Length1 == 32
      requires Linked(l, i * 32 + j) && heads[i, j] == At(l, 0) && t !in l
      modifies heads, t, set x | x in l
      ensures Linked([t] + l, i * 32 + j) && heads[i, j] == At([t] + l, 0)
      ensures forall a, b :: 0 <= a < 32 && 0 <= b < 32 && (a != i || b != j) ==> heads[a, b] == old(heads[a, b])
    {
      ghost var p := i * 32 + j;
      ghost var m := [t] + l;
      t.next, t.prev := null, null;
      t.next := heads[i, j];
      if heads[i, j] != null {
        heads[i, j].prev := t;
      }
      heads[i, j] := t;
      t.ssI, t.ssJ := i, j;
      forall k | 0 <= k < |m| ensures Placed(m, k, p) {
        if k > 0 {
          assert m[k] == l[k - 1] && old(Placed(l, k - 1, p));
        }
      }
    }

    method InsertSs(t: Thread, prio: int)
      requires Valid() && t !in members
      modifies this, heads, sl, t, members
      ensures Valid() && members == old(members) + {t}
      ensures Entries() == InsertHead(old(Entries()), Entry(prio % 1024, t))
    {
      hide BitsOk, Linked, Holds, Flat, RowOf, ColumnOf, Slot, InsertHead, InsertTail;
      var i, j := RowOf(prio), ColumnOf(prio);
      SlotOf(prio);
      ghost var p := i * 32 + j;
      ghost var l := lists[p];
      Apart(p, t);
      LinkFirst(t, i, j, l);
      SetBits(i, j, [t] + l);
      HoldsMore(lists, members, t, p, [t] + l);
      HeadRefines(lists, p, t);
      lists, members := lists[p := [t] + l], members + {t};
    }

    /** The head of the first non-empty list, and its priority; the thread stays queued. */
    method GetHeadSs() returns (prio: int, t: Thread?)
      requires Valid()
      ensures Entries() == [] ==> prio == -1 && t == null
      ensures Entries() != [] ==> Entries()[0].prio == prio && Entries()[0].item == t && t in members
    {
      if fl == 0 {
        ScanNone(fl, sl[..], lists);
        FlatEmpty(lists, 0);
        return -1, null;
      }
      var i := Ffs(fl);
      var j := Ffs(sl[i]);
      prio := Slot(i, j);
      t := heads[i, j];
      ScanFirst(fl, sl[..], lists, i, j);
      FlatFirst(lists, 0, i * 32 + j);
    }

    /** `t` is not queued, and removing it has no effect: either it has been removed before, or it
        never was in a list. */
    ghost predicate Idle(t: Thread)
      reads this`members, t
    {
      && t !in members
      && (t.ssI == -1 || t.ssJ == -1 || (0 <= t.ssI < 32 && 0 <= t.ssJ < 32 && t.next == null && t.prev == null))
    }

    /** The part of `remove_ss` that concerns links; `t` is at `k` in the list, or in none. */
    method Unlink(t: Thread, i: nat, j: nat, ghost l: seq<Thread>, ghost k: nat)
      requires i < 32 && j < 32 && heads.Length0 == 32 && heads.Length1 == 32
      requires Linked(l, i * 32 + j) && heads[i, j] == At(l, 0)
      requires if k < |l| then t == l[k] else t !in l && t.next == null && t.prev == null
      modifies heads, t, set x | x in l
      ensures Linked(CutAt(l, k), i * 32 + j) && heads[i, j] == At(CutAt(l, k), 0)
      ensures t.ssI == t.ssJ == -1
      ensures forall a, b :: 0 <= a < 32 && 0 <= b < 32 && (a != i || b != j) ==> heads[a, b] == old(heads[a, b])
    {
      ghost var p := i * 32 + j;
      ghost var m := CutAt(l, k);
      assert k < |l| ==> Placed(l, k, p);
      if t.prev != null {
        t.prev.next := t.next;
      }
      if t.next != null {
        t.next.prev := t.prev;
      }
      if heads[i, j] == t {
        heads[i, j] := t.next;
      }
      t.next, t.prev := null, null;
      t.ssI, t.ssJ := -1, -1;
      forall a | 0 <= a < |m| ensures Placed(m, a, p) {
        ghost var b := if a < k then a else a + 1;
        assert m[a] == l[b] && old(Placed(l, b, p));
      }
    }

    method ClearBits(i: nat, j: nat, ghost l: seq<Thread>)
      requires Bits() && i < 32 && j < 32
      requires heads.Length0 == 32 && heads.Length1 == 32 && heads[i, j] == At(l, 0)
      requires lists[i * 32 + j] == [] ==> l == []
      modifies this`fl, sl
      ensures sl.Length == 32 && BitsOk(fl, sl[..], lists[i * 32 + j := l])
    {
      if heads[i, j] == null {
        BitsClear(fl, sl[..], lists, i, j);
        sl[i] := ClearBit(sl[i], j);
        if sl[i] == 0 {
          fl := ClearBit(fl, i);
        }
        assert sl[..] == old(sl[..])[i := ClearBit(old(sl[i]), j)];
      } else {
        BitsKeep(fl, sl[..], lists, i * 32 + j, l);
      }
    }

    method RemoveSs(t: Thread)
      requires Valid() && (t in members || Idle(t))
      modifies this, heads, sl, t, members
      ensures Valid() && members == old(members) - {t} && Idle(t)
      ensures Entries() == Without(old(Entries()), t)
    {
      hide BitsOk, Linked, Flat, Holds;
      var i, j := t.ssI, t.ssJ;
      if i == -1 || j == -1 {
        NotQueued(t);
        return;
      }
      ghost var k := Position(t, i * 32 + j);
      ghost var p := i * 32 + j;
      ghost var l := lists[p];
      Unlink(t, i, j, l, k);
      ClearBits(i, j, CutAt(l, k));
      Removed(t, p, k);
      lists, members := lists[p := CutAt(l, k)], members - {t};
    }

    lemma NotQueued(t: Thread)
      requires Links() && (t in members || Idle(t)) && (t.ssI == -1 || t.ssJ == -1)
      ensures t !in members && Without(Entries(), t) == Entries()
    {
      if t in members {
        var p :| 0 <= p < 1024 && t in lists[p];
        Knows(t, lists[p], p);
        assert false;
      }
      NotThere(t);
    }

    /** Where the thread is in the list it names; past the end if it is not queued. */
    lemma Position(t: Thread, p: int) returns (k: nat)
      requires Links() && (t in members || Idle(t)) && t.ssI != -1 && t.ssJ != -1 && p == t.ssI * 32 + t.ssJ
      ensures 0 <= t.ssI < 32 && 0 <= t.ssJ < 32 && 0 <= p < 1024 && k <= |lists[p]|
      ensures if k < |lists[p]| then t == lists[p][k] && t in members else t !in lists[p] && Idle(t)
      ensures k < |lists[p]| ==> forall a :: 0 <= a < |lists[p]| && lists[p][a] == t ==> a == k
      ensures forall x :: x in lists[p] ==> x in members
      ensures forall q, x :: 0 <= q < 1024 && q != p && x in lists[q] ==> x in members && x !in lists[p] && x != t
    {
      if t in members {
        var q :| 0 <= q < 1024 && t in lists[q];
        Knows(t, lists[q], q);
        k :| 0 <= k < |lists[p]| && lists[p][k] == t;
      } else {
        k := |lists[p]|;
      }
      forall q, x | 0 <= q < 1024 && q != p && x in lists[q] ensures x in members && x !in lists[p] && x != t {
        Elsewhere(x, q);
      }
    }

    lemma Removed(t: Thread, p: nat, k: nat)
      requires Complete() && p < 1024 && k <= |lists[p]|
      requires if k < |lists[p]| then t == lists[p][k] else t !in members
      requires k < |lists[p]| ==> forall a :: 0 <= a < |lists[p]| && lists[p][a] == t ==> a == k
      requires forall q, x :: 0 <= q < 1024 && q != p && x in lists[q] ==> x != t
      ensures Holds(lists[p := CutAt(lists[p], k)], members - {t})
      ensures Flat(lists[p := CutAt(lists[p], k)], 0) == Without(Entries(), t)
    {
      if k < |lists[p]| {
        HoldsFewer(lists, members, t, p, CutAt(lists[p], k));
        RemoveRefines(lists, p, k, t);
      } else {
        assert lists[p := CutAt(lists[p], k)] == lists;
        assert members - {t} == members;
        NotThere(t);
      }
    }

    lemma NotThere(t: Thread)
      requires Complete() && t !in members
      ensures Without(Entries(), t) == Entries()
    {
      forall k | 0 <= k < |Entries()| ensures Entries()[k].item != t {
        FlatAbove(lists, 0, k);
      }
      WithoutAbsent(Entries(), t);
    }
  }
}

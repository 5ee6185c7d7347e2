/** XtratuM's heap of armed virtual timers: a binary heap of domains ordered by expiry time, kept in
    slots 1 to `nelem` of a fixed array. */
module TimerHeap {

  class Domain {
    var hwtime: int
    var period: int
    var pending: set<nat>

    constructor (hwtime: int, period: int)
      ensures this.hwtime == hwtime && this.period == period && pending == {}
    {
      this.hwtime, this.period, pending := hwtime, period, {};
    }
  }

  const HEAP_MAX_NELEM := 100

  type Slots = seq<Domain?>

  /** Expiry times, as read while no domain changes. */
  type Keys = Domain? -> int

  // ---- heap order on the slots ----

  ghost predicate Edge(s: Slots, key: Keys, j: int)
    requires 2 <= j < |s|
  {
    key(s[j / 2]) <= key(s[j])
  }

  ghost predicate Ordered(s: Slots, n: nat, key: Keys) {
    n < |s| && forall j :: 2 <= j <= n ==> Edge(s, key, j)
  }

  /** Slot `j`, a child of `i`, is not earlier than the parent of `i`. */
  ghost predicate Skips(s: Slots, key: Keys, i: nat, j: nat)
    requires 1 <= i < |s| && j < |s|
  {
    key(s[i / 2]) <= key(s[j])
  }

  /** The slots are in order but for the one at `i`. */
  ghost predicate OrderedBut(s: Slots, n: nat, key: Keys, i: nat) {
    && n < |s| && 1 <= i < |s|
    && (forall j :: 2 <= j <= n && j != i && j / 2 != i ==> Edge(s, key, j))
    && (i > 1 ==> forall j :: 2 <= j <= n && j / 2 == i ==> Skips(s, key, i, j))
  }

  lemma OrderedAnywhere(s: Slots, n: nat, key: Keys, i: nat)
    requires Ordered(s, n, key) && 1 <= i <= n
    ensures OrderedBut(s, n, key, i)
  {
    forall j | 2 <= j <= n && j / 2 == i && i > 1 ensures Skips(s, key, i, j) {
      assert Edge(s, key, j) && Edge(s, key, i);
    }
  }

  /** A new expiry time for the domain in slot `i` alone leaves the rest in order. */
  lemma Retimed(s: Slots, n: nat, key: Keys, other: Keys, i: nat)
    requires Ordered(s, n, key) && 1 <= i <= n && forall j :: 1 <= j <= n && j != i ==> other(s[j]) == key(s[j])
    ensures OrderedBut(s, n, other, i)
  {
    OrderedAnywhere(s, n, key, i);
    forall j | 2 <= j <= n && j != i && j / 2 != i ensures Edge(s, other, j) {
      assert Edge(s, key, j);
    }
    forall j | 2 <= j <= n && j / 2 == i && i > 1 ensures Skips(s, other, i, j) {
      assert Skips(s, key, i, j);
    }
  }

  lemma {:induction false} RootIsLeast(s: Slots, n: nat, key: Keys, j: nat)
    requires Ordered(s, n, key) && 1 <= j <= n
    ensures key(s[1]) <= key(s[j])
  {
    if j > 1 {
      RootIsLeast(s, n, key, j / 2);
      assert Edge(s, key, j);
    }
  }

  /** The expiry times of the domains in `ds`, as a value. */
  ghost function Times(ds: set<Domain>): (key: Keys)
    reads ds`hwtime
    ensures forall d :: d in ds ==> key(d) == d.hwtime
  {
    var m := map d | d in ds :: d.hwtime;
    (d: Domain?) => if d in m then m[d] else 0
  }

  lemma SameKeys(s: Slots, n: nat, key: Keys, other: Keys)
    requires n < |s| && forall j :: 1 <= j <= n ==> key(s[j]) == other(s[j])
    ensures Ordered(s, n, key) <==> Ordered(s, n, other)
  {
    forall j | 2 <= j <= n ensures Edge(s, key, j) <==> Edge(s, other, j) {
    }
  }

  // ---- the elements ----

  ghost function Elems(s: Slots, n: nat): multiset<Domain?>
    requires n < |s|
  {
    multiset(s[1..n + 1])
  }

  ghost function Swapped(s: Slots, i: nat, j: nat): Slots
    requires i < |s| && j < |s|
  {
    s[i := s[j]][j := s[i]]
  }

  lemma SwapElems(s: Slots, n: nat, i: nat, j: nat)
    requires 1 <= i < j <= n < |s|
    ensures Elems(Swapped(s, i, j), n) == Elems(s, n)
  {
    var t := Swapped(s, i, j);
    var a, b, c := s[1..i], s[i + 1..j], s[j + 1..n + 1];
    assert s[1..n + 1] == a + [s[i]] + b + [s[j]] + c;
    assert t[1..n + 1] == a + [s[j]] + b + [s[i]] + c;
  }

  lemma LastElem(s: Slots, n: nat)
    requires n + 1 < |s|
    ensures Elems(s, n + 1) == Elems(s, n) + multiset{s[n + 1]}
  {
    assert s[1..n + 2] == s[1..n + 1] + [s[n + 1]];
  }

  lemma PutElem(s: Slots, n: nat, i: nat, d: Domain?)
    requires 1 <= i <= n < |s|
    ensures Elems(s[i := d], n) == Elems(s, n) - multiset{s[i]} + multiset{d}
  {
    assert s[1..n + 1] == s[1..i] + [s[i]] + s[i + 1..n + 1];
    assert s[i := d][1..n + 1] == s[1..i] + [d] + s[i + 1..n + 1];
  }

  lemma ElemAt(s: Slots, n: nat, d: Domain?)
    requires n < |s|
    ensures d in Elems(s, n) <==> exists j :: 1 <= j <= n && s[j] == d
  {
    if d in Elems(s, n) {
      var k :| 0 <= k < |s[1..n + 1]| && s[1..n + 1][k] == d;
      assert s[k + 1] == d;
    }
    if j :| 1 <= j <= n && s[j] == d {
      assert s[1..n + 1][j - 1] == d;
    }
  }

  // ---- sifting down ----

  /** What holds while the moved element `d` sinks from `top0`, now at `top`. */
  ghost predicate Sinking(s0: Slots, s: Slots, n: nat, key: Keys, top0: nat, top: nat, d: Domain?, ordered: bool) {
    && |s| == |s0| && n + 1 < |s| && 1 <= top0 <= top <= n + 1 && s[top] == d && s[n + 1] == d
    && (ordered ==> forall j :: 2 <= j <= n && j != top0 && j / 2 != top ==> Edge(s, key, j))
    && (ordered && top > 1 ==> forall j :: 2 <= j <= n && j / 2 == top ==> Skips(s, key, top, j))
    && (ordered && 1 < top0 ==> (key(s[top0 / 2]) <= key(s[top0]) <==> key(s0[top0 / 2]) <= key(d)))
    && (ordered && Sunken(s0, n, key, top0, d) ==> s == s0 && (top == top0 || top == n + 1))
    && Elems(s, n) == Elems(s0, n)
  }

  /** The moved element is earlier than the parent of its slot, so it sinks no further. */
  ghost predicate Sunken(s0: Slots, n: nat, key: Keys, top0: nat, d: Domain?)
    requires 1 <= top0 < |s0|
  {
    1 < top0 <= n && key(s0[top0 / 2]) > key(d)
  }

  /** The child to compare with: the earlier one of two, or the slot behind the last. */
  ghost function Child(s: Slots, key: Keys, top: nat): nat
    requires 2 * top + 1 < |s|
  {
    if key(s[2 * top + 1]) < key(s[2 * top]) then 2 * top + 1 else 2 * top
  }

  lemma SinkStart(s: Slots, n: nat, key: Keys, top: nat, ordered: bool)
    requires 1 <= top <= n + 1 < |s| && s[n + 1] == s[top] && (ordered ==> OrderedBut(s, n, key, top))
    ensures Sinking(s, s, n, key, top, top, s[top], ordered)
  {
  }

  lemma NotSunken(s0: Slots, s: Slots, n: nat, key: Keys, top0: nat, top: nat, d: Domain?)
    requires Sinking(s0, s, n, key, top0, top, d, true) && 2 * top <= n
    requires Child(s, key, top) <= n && key(d) >= key(s[Child(s, key, top)])
    ensures !Sunken(s0, n, key, top0, d)
  {
    assert top > 1 ==> Skips(s, key, top, Child(s, key, top));
  }

  lemma SinkStep(s0: Slots, s: Slots, n: nat, key: Keys, top0: nat, top: nat, d: Domain?, ordered: bool)
    requires Sinking(s0, s, n, key, top0, top, d, ordered) && 2 * top <= n && key(d) >= key(s[Child(s, key, top)])
    ensures Sinking(s0, Swapped(s, top, Child(s, key, top)), n, key, top0, Child(s, key, top), d, ordered)
  {
    var c := Child(s, key, top);
    var t := Swapped(s, top, c);
    if c == n + 1 {
      assert t == s;
      assert ordered ==> Edge(s, key, 2 * top);
    } else {
      SwapElems(s, n, top, c);
      if ordered {
        forall j | 2 <= j <= n && j != top0 && j / 2 != c ensures Edge(t, key, j) {
          if j == top {
            assert Skips(s, key, top, c);
          } else if j / 2 != top {
            assert Edge(s, key, j);
          }
        }
        forall j | 2 <= j <= n && j / 2 == c ensures Skips(t, key, c, j) {
          assert Edge(s, key, j);
        }
        if 1 < top0 {
          assert top == top0 ==> Skips(s, key, top, c);
        }
        NotSunken(s0, s, n, key, top0, top, d);
      }
    }
  }

  lemma SinkEnd(s0: Slots, s: Slots, n: nat, key: Keys, top0: nat, top: nat, d: Domain?, ordered: bool)
    requires Sinking(s0, s, n, key, top0, top, d, ordered)
    requires 2 * top <= n ==> key(d) < key(s[Child(s, key, top)])
    ensures ordered ==> (Ordered(s, n, key) <==> top0 == 1 || top0 > n || key(s0[top0 / 2]) <= key(d))
    ensures ordered && 1 <= top0 < |s0| && Sunken(s0, n, key, top0, d) ==> s == s0
    ensures Elems(s, n) == Elems(s0, n)
  {
    if ordered {
      forall j | 2 <= j <= n && j != top0 ensures Edge(s, key, j) {
        if j / 2 == top {
          assert j == 2 * top || j == 2 * top + 1;
        }
      }
      if 1 < top0 <= n {
        assert Edge(s, key, top0) <==> key(s0[top0 / 2]) <= key(d);
      }
    }
  }

  /** The last element moved into slot `i`: order is as before but for that slot. */
  lemma LastMoved(s: Slots, n: nat, key: Keys, i: nat)
    requires 1 <= i <= n < |s| && OrderedBut(s, n, key, i)
    ensures OrderedBut(s[i := s[n]], n - 1, key, i)
  {
    var t := s[i := s[n]];
    forall j | 2 <= j <= n - 1 && j != i && j / 2 != i ensures Edge(t, key, j) {
      assert Edge(s, key, j);
    }
    forall j | 2 <= j <= n - 1 && j / 2 == i && i > 1 ensures Skips(t, key, i, j) {
      assert Skips(s, key, i, j);
    }
  }

  lemma LastMovedElems(s: Slots, n: nat, i: nat)
    requires 1 <= i <= n < |s|
    ensures Elems(s[i := s[n]], n - 1) == Elems(s, n) - multiset{s[i]}
  {
    hide Elems;
    var t := s[i := s[n]];
    PutElem(s, n, i, s[n]);
    LastElem(t, n - 1);
    assert t[n] == s[n];
    assert Elems(t, n) == Elems(t, n - 1) + multiset{s[n]};
    assert Elems(t, n - 1) == Elems(t, n) - multiset{s[n]};
  }

  // ---- sifting up ----

  /** What holds while `d` rises, now at `i`, having started behind the last slot. */
  ghost predicate Rising(s0: Slots, s: Slots, n: nat, key: Keys, i: nat, d: Domain, ordered: bool) {
    && |s| == |s0| && 1 <= i <= n < |s| && s[i] == d
    && Elems(s, n) == Elems(s0, n - 1) + multiset{d}
    && (ordered ==> forall j :: 2 <= j <= n && j != i ==> Edge(s, key, j))
    && (ordered && i > 1 ==> forall j :: 2 <= j <= n && j / 2 == i ==> Skips(s, key, i, j))
  }

  lemma RiseStart(s: Slots, n: nat, key: Keys, d: Domain, ordered: bool)
    requires 1 <= n < |s| && (ordered ==> Ordered(s, n - 1, key))
    ensures Rising(s, s[n := d], n, key, n, d, ordered)
  {
    var t := s[n := d];
    LastElem(t, n - 1);
    assert t[1..n] == s[1..n];
    if ordered {
      forall j | 2 <= j <= n && j != n ensures Edge(t, key, j) {
        assert Edge(s, key, j);
      }
    }
  }

  lemma RiseStep(s0: Slots, s: Slots, n: nat, key: Keys, i: nat, d: Domain, ordered: bool)
    requires Rising(s0, s, n, key, i, d, ordered) && i > 1 && key(d) < key(s[i / 2])
    ensures Rising(s0, Swapped(s, i / 2, i), n, key, i / 2, d, ordered)
  {
    hide Elems;
    var p := i / 2;
    var t := Swapped(s, p, i);
    SwapElems(s, n, p, i);
    if ordered {
      forall j | 2 <= j <= n && j != p ensures Edge(t, key, j) {
        if j / 2 == i {
          assert Skips(s, key, i, j);
        } else if j != i {
          assert Edge(s, key, j);
        }
      }
      if p > 1 {
        assert Edge(s, key, p);
        forall j | 2 <= j <= n && j / 2 == p ensures Skips(t, key, p, j) {
          if j != i {
            assert Edge(s, key, j);
          }
        }
      }
    }
  }

  lemma RiseEnd(s0: Slots, s: Slots, n: nat, key: Keys, i: nat, d: Domain, ordered: bool)
    requires Rising(s0, s, n, key, i, d, ordered) && (i > 1 ==> key(d) >= key(s[i / 2]))
    ensures ordered ==> Ordered(s, n, key)
    ensures Elems(s, n) == Elems(s0, n - 1) + multiset{d}
  {
    if ordered && i > 1 {
      assert Edge(s, key, i);
    }
  }

  // ---- where an element rises to ----

  /** Slot `x` is on the way from slot `n` to the root. */
  predicate Above(x: nat, n: nat) {
    x == n || (n > 1 && Above(x, n / 2))
  }

  lemma {:induction false} AboveParent(x: nat, n: nat)
    requires Above(x, n) && 1 < x
    ensures Above(x / 2, n) && x <= n
  {
    if x != n {
      AboveParent(x, n / 2);
    } else {
      assert Above(x / 2, n / 2);
    }
  }

  lemma {:induction false} AboveBelow(x: nat, n: nat)
    requires Above(x, n)
    ensures x <= n
  {
    if x != n { AboveBelow(x, n / 2); }
  }

  /** Of two slots on the way, the lower one leads to the upper one. */
  lemma {:induction false} AboveChain(x: nat, y: nat, n: nat)
    requires Above(x, n) && Above(y, n) && x <= y
    ensures Above(x, y)
  {
    if y != n {
      AboveBelow(y, n / 2);
      AboveChain(x, y, n / 2);
    }
  }

  /** The next slot on the way above `y` is its parent. */
  lemma AboveNext(x: nat, y: nat, n: nat)
    requires Above(x, n) && Above(y, n) && x < y
    ensures x <= y / 2
  {
    AboveChain(x, y, n);
    AboveBelow(x, y / 2);
  }

  /** Every slot on the way but `n` has a child on the way. */
  lemma {:induction false} AboveChild(x: nat, n: nat) returns (c: nat)
    requires Above(x, n) && 1 <= x < n
    ensures Above(c, n) && c / 2 == x && 2 <= c
  {
    c := n;
    if n / 2 != x {
      AboveBelow(x, n / 2);
      c := AboveChild(x, n / 2);
    }
  }

  /** Room has been made for `d` at `f`: the elements on the way have come down by one slot each. */
  ghost predicate Lifted(r: Slots, s: Slots, n: nat, key: Keys, f: nat, d: Domain) {
    && |r| == |s| && 1 <= f <= n < |s| && Above(f, n) && s[f] == d
    && (forall x :: 1 <= x <= n && x != f ==> s[x] == if Above(x, n) && x > f then r[x / 2] else r[x])
    && (forall x :: f < x <= n && Above(x, n) ==> key(r[x / 2]) > key(d))
  }

  lemma LiftedStart(r: Slots, n: nat, key: Keys, d: Domain)
    requires 1 <= n < |r|
    ensures Lifted(r, r[n := d], n, key, n, d)
  {
  }

  lemma LiftedStep(r: Slots, s: Slots, n: nat, key: Keys, i: nat, d: Domain)
    requires Lifted(r, s, n, key, i, d) && i > 1 && key(d) < key(s[i / 2])
    ensures Lifted(r, Swapped(s, i / 2, i), n, key, i / 2, d)
  {
    var p, t := i / 2, Swapped(s, i / 2, i);
    AboveParent(i, n);
    forall x | p < x <= n && Above(x, n) ensures x >= i {
      if x < i { AboveNext(x, i, n); }
    }
  }

  /** All slots are in order but for slot `i`, which is earlier than its parent. */
  ghost predicate Broken(s: Slots, m: nat, key: Keys, i: nat) {
    && m < |s| && 2 <= i <= m && !Edge(s, key, i)
    && forall j :: 2 <= j <= m && j != i ==> Edge(s, key, j)
  }

  /** An element rising from slot `n` mends the order: it comes through the parent of `i`, but not through
      `i`, and it and the element above are not later than the one in `i`. */
  ghost predicate Mended(r: Slots, n: nat, key: Keys, i: nat, d: Domain)
    requires 2 <= i < |r|
  {
    !Above(i, n) && Above(i / 2, n) && key(d) <= key(r[i]) && (i / 2 == 1 || key(r[i / 4]) <= key(r[i]))
  }

  lemma {:induction false} AboveTrans(x: nat, y: nat, n: nat)
    requires Above(x, y) && Above(y, n)
    ensures Above(x, n)
  {
    if y != n { AboveTrans(x, y, n / 2); }
  }

  /** Along a way past the broken edge times do not fall. */
  lemma {:induction false} WayOrdered(r: Slots, m: nat, key: Keys, i: nat, x: nat, y: nat)
    requires Broken(r, m, key, i) && 1 <= x <= y <= m && Above(x, y) && !Above(i, y)
    ensures key(r[x]) <= key(r[y])
  {
    if x != y {
      AboveBelow(x, y / 2);
      WayOrdered(r, m, key, i, x, y / 2);
      assert Edge(r, key, y);
    }
  }

  /** `d` comes to rest at `f`. */
  ghost predicate Rests(r: Slots, s: Slots, n: nat, key: Keys, f: nat, d: Domain) {
    Lifted(r, s, n, key, f, d) && (f > 1 ==> key(r[f / 2]) <= key(d))
  }

  /** It has passed the parent of `i` or rests there. */
  lemma PassesParent(r: Slots, s: Slots, n: nat, key: Keys, f: nat, d: Domain, i: nat)
    requires Rests(r, s, n, key, f, d) && Broken(r, n - 1, key, i) && Mended(r, n, key, i, d)
    ensures f <= i / 2
  {
    var q := i / 2;
    assert !Edge(r, key, i);
    if q < f {
      AboveChain(q, f, n);
      if Above(i, f / 2) { AboveTrans(i, f, n); }
      AboveBelow(q, f / 2);
      WayOrdered(r, n - 1, key, i, q, f / 2);
    }
  }

  lemma PassedLater(r: Slots, s: Slots, n: nat, key: Keys, f: nat, d: Domain)
    requires Lifted(r, s, n, key, f, d) && f < n
    ensures key(r[f]) > key(d)
  {
    var c := AboveChild(f, n);
    AboveBelow(c, n);
  }

  lemma MendedEdge(r: Slots, s: Slots, n: nat, key: Keys, f: nat, d: Domain, i: nat, j: nat)
    requires Rests(r, s, n, key, f, d) && Broken(r, n - 1, key, i) && Mended(r, n, key, i, d) && 2 <= j <= n
    ensures Edge(s, key, j)
  {
    hide Above;
    var p := j / 2;
    PassesParent(r, s, n, key, f, d, i);
    if Above(j, n) {
      AboveParent(j, n);
      if j > f {
        AboveNext(f, j, n);
        assert p > f ==> Edge(r, key, p);
      } else if j < f {
        AboveBelow(f, n);
        assert Edge(r, key, j);
      }
    } else {
      assert j != n by { AboveSelf(n); }
      assert j != i ==> Edge(r, key, j);
      if p == f {
        PassedLater(r, s, n, key, f, d);
      } else if Above(p, n) && p > f {
        assert Edge(r, key, p);
      }
    }
  }

  lemma AboveSelf(n: nat)
    ensures Above(n, n)
  {
  }

  lemma OrderedMended(r: Slots, s: Slots, n: nat, key: Keys, f: nat, d: Domain, i: nat)
    requires Rests(r, s, n, key, f, d) && Broken(r, n - 1, key, i) && Ordered(s, n, key)
    ensures Mended(r, n, key, i, d)
  {
    hide Above;
    assert !Edge(r, key, i) && Edge(s, key, i);
    if f < n { PassedLater(r, s, n, key, f, d); }
    AboveBelow(f, n);
    if Above(i, n) {
      AboveParent(i, n);
      var c := AboveChild(i, n);
      AboveBelow(c, n);
      EdgeAt(s, n, key, c);
    }
  }

  lemma EdgeAt(s: Slots, n: nat, key: Keys, j: nat)
    requires Ordered(s, n, key) && 2 <= j <= n
    ensures Edge(s, key, j)
  {
  }

  lemma LiftedEnd(r: Slots, s: Slots, n: nat, key: Keys, f: nat, d: Domain, hole: nat)
    requires Lifted(r, s, n, key, f, d) && (f > 1 ==> key(d) >= key(s[f / 2]))
    requires hole != 0 ==> Broken(r, n - 1, key, hole)
    ensures hole != 0 ==> 2 <= hole < |r| && (Ordered(s, n, key) <==> Mended(r, n, key, hole, d))
  {
    hide Ordered, Mended;
    if hole != 0 { MendedExactly(r, s, n, key, f, d, hole); }
  }

  /** The last element in slot `i` is the only one earlier than its parent. */
  lemma BrokenAfter(s: Slots, n: nat, key: Keys, i: nat)
    requires OrderedBut(s, n, key, i) && 2 <= i < n && key(s[i / 2]) > key(s[n])
    ensures Broken(s[i := s[n]], n - 1, key, i)
  {
    var t := s[i := s[n]];
    forall j | 2 <= j <= n - 1 && j != i ensures Edge(t, key, j) {
      if j / 2 == i {
        assert Skips(s, key, i, j);
      } else {
        assert Edge(s, key, j);
      }
    }
  }

  /** Order afterwards, exactly. */
  lemma MendedExactly(r: Slots, s: Slots, n: nat, key: Keys, f: nat, d: Domain, i: nat)
    requires Rests(r, s, n, key, f, d) && Broken(r, n - 1, key, i) && 2 <= i < |r|
    ensures Ordered(s, n, key) <==> Mended(r, n, key, i, d)
  {
    hide Rests, Broken, Mended, Edge;
    if Mended(r, n, key, i, d) {
      assert 1 <= n < |s| by { RestsBounds(r, s, n, key, f, d); }
      forall j | 2 <= j <= n ensures Edge(s, key, j) {
        MendedEdge(r, s, n, key, f, d, i, j);
      }
    }
    if Ordered(s, n, key) {
      OrderedMended(r, s, n, key, f, d, i);
    }
  }

  lemma RestsBounds(r: Slots, s: Slots, n: nat, key: Keys, f: nat, d: Domain)
    requires Rests(r, s, n, key, f, d)
    ensures 1 <= n < |s| == |r|
  {
  }

  lemma OneLess(ds: set<Domain>, d: Domain)
    requires d in ds
    ensures multiset(ds - {d}) == multiset(ds) - multiset{d}
  {
  }

  lemma OneMore(ds: set<Domain>, d: Domain)
    requires d !in ds
    ensures multiset(ds + {d}) == multiset(ds) + multiset{d}
  {
  }

  // ---- the heap ----

  class Heap {
    const slots: array<Domain?>
    var nelem: nat
    ghost var members: set<Domain>

    /** Every armed domain is in exactly one slot. */
    ghost predicate Valid()
      reads this, slots
    {
      && slots.Length == HEAP_MAX_NELEM && nelem < HEAP_MAX_NELEM
      && (forall j :: 1 <= j <= nelem ==> slots[j] != null)
      && Elems(slots[..], nelem) == multiset(members)
    }

    ghost predicate InOrder()
      requires Valid()
      reads this, slots, members`hwtime
    {
      Ordered(slots[..], nelem, Times(members))
    }

    /** In order but for the domain in slot `i`. */
    ghost predicate InOrderBut(i: nat)
      requires Valid()
      reads this, slots, members`hwtime
    {
      OrderedBut(slots[..], nelem, Times(members), i)
    }

    lemma SlotMember(j: nat)
      requires Valid() && 1 <= j <= nelem
      ensures slots[j] in members
    {
      ElemAt(slots[..], nelem, slots[j]);
      assert slots[..][j] == slots[j];
    }

    constructor ()
      ensures Valid() && members == {} && nelem == 0 && fresh(slots)
    {
      slots := new Domain?[HEAP_MAX_NELEM];
      nelem, members := 0, {};
    }

    /** `heapify`, which also reads the slot behind the last: that slot holds the sinking element
        itself, so it never wins against a real child. */
    method Heapify(top0: nat, ghost key: Keys, ghost ordered: bool)
      requires slots.Length == HEAP_MAX_NELEM && nelem + 1 < HEAP_MAX_NELEM && 1 <= top0 <= nelem + 1
      requires forall j :: 1 <= j <= nelem ==> slots[j] != null && key(slots[j]) == slots[j].hwtime
      requires slots[nelem + 1] == slots[top0] && slots[top0] != null && key(slots[top0]) == slots[top0].hwtime
      requires ordered ==> OrderedBut(slots[..], nelem, key, top0)
      modifies slots
      ensures forall j :: 1 <= j <= nelem ==> slots[j] != null
      ensures Elems(slots[..], nelem) == Elems(old(slots[..]), nelem)
      ensures ordered ==> (Ordered(slots[..], nelem, key) <==>
        top0 == 1 || top0 > nelem || key(old(slots[top0 / 2])) <= key(old(slots[top0])))
      ensures ordered && Sunken(old(slots[..]), nelem, key, top0, old(slots[top0])) ==> slots[..] == old(slots[..])
    {
      hide Sinking, Sunken, Ordered, OrderedBut, Elems;
      var tempvalue := slots[top0];
      var top, child := top0, 2 * top0;
      ghost var s0 := slots[..];
      SinkStart(s0, nelem, key, top0, ordered);
      while child <= nelem
        invariant 1 <= top0 <= top <= nelem + 1 && child == 2 * top
        invariant forall j :: 1 <= j <= nelem + 1 ==> slots[j] != null && key(slots[j]) == slots[j].hwtime
        invariant Sinking(s0, slots[..], nelem, key, top0, top, tempvalue, ordered) && slots[top] == tempvalue
        decreases nelem + 1 - top
      {
        ghost var s := slots[..];
        if slots[child + 1].hwtime < slots[child].hwtime {
          child := child + 1;
        }
        assert child == Child(s, key, top);
        if tempvalue.hwtime < slots[child].hwtime {
          SinkEnd(s0, s, nelem, key, top0, top, tempvalue, ordered);
          return;
        }
        SinkStep(s0, s, nelem, key, top0, top, tempvalue, ordered);
        slots[top] := slots[child];
        slots[child] := tempvalue;
        assert slots[..] == Swapped(s, top, child);
        top, child := child, 2 * child;
      }
      SinkEnd(s0, slots[..], nelem, key, top0, top, tempvalue, ordered);
    }

    method Min() returns (d: Domain?)
      requires Valid()
      ensures d == null <==> members == {}
      ensures d != null ==> d in members && (InOrder() ==> forall x :: x in members ==> d.hwtime <= x.hwtime)
    {
      if nelem == 0 {
        NoneArmed();
        return null;
      }
      d := slots[1];
      SlotMember(1);
      if InOrder() { Least(); }
    }

    lemma Least()
      requires Valid() && InOrder() && nelem > 0
      ensures slots[1] in members && forall x :: x in members ==> slots[1].hwtime <= x.hwtime
    {
      SlotMember(1);
      forall x | x in members ensures slots[1].hwtime <= x.hwtime {
        assert x in multiset(members);
        ElemAt(slots[..], nelem, x);
        var j :| 1 <= j <= nelem && slots[..][j] == x;
        RootIsLeast(slots[..], nelem, Times(members), j);
      }
    }

    method RemoveMin() returns (d: Domain?)
      requires Valid()
      modifies this, slots
      ensures Valid() && (old(InOrder()) ==> InOrder())
      ensures d == null <==> old(members) == {}
      ensures d == null ==> members == old(members) && nelem == old(nelem)
      ensures d != null ==> members == old(members) - {d} && d in old(members) && nelem + 1 == old(nelem) < HEAP_MAX_NELEM
      ensures d != null && old(InOrder()) ==> forall x :: x in old(members) ==> d.hwtime <= x.hwtime
    {
      hide Ordered, OrderedBut, Elems;
      if nelem > 0 {
        ghost var ordered := InOrder();
        SlotMember(1);
        if ordered {
          Least();
          OrderedAnywhere(slots[..], nelem, Times(members), 1);
        }
        d := slots[1];
        TakeAway(1, ordered);
      } else {
        NoneArmed();
        d := null;
      }
    }

    lemma NoneArmed()
      requires Valid() && nelem == 0
      ensures members == {}
    {
      assert Elems(slots[..], 0) == multiset{};
    }

    /** The last element takes the place of the one in slot `i`, and sinks. */
    method TakeAway(i: nat, ghost ordered: bool)
      requires Valid() && 1 <= i <= nelem && (ordered ==> OrderedBut(slots[..], nelem, Times(members), i))
      modifies this, slots
      ensures Valid() && nelem == old(nelem) - 1 && old(slots[i]) in old(members) && members == old(members) - {old(slots[i])}
      ensures ordered ==> (InOrder() <==> old(KeepsOrder(i)))
      ensures ordered && !old(KeepsOrder(i)) ==> slots[..] == old(slots[..])[i := old(slots[nelem])]
    {
      hide Ordered, OrderedBut, Elems, Times, InOrder;
      ghost var key, d := Times(members), slots[i];
      SlotMember(i);
      AllTimed(key);
      MoveLast(i, key, ordered);
      Heapify(i, key, ordered);
      OneLess(members, d);
      members := members - {d};
      SameTimes(key);
    }

    /** The last element goes to slot `i`, and also stays in the slot now behind the last. */
    method MoveLast(i: nat, ghost key: Keys, ghost ordered: bool)
      requires slots.Length == HEAP_MAX_NELEM && 1 <= i <= nelem < HEAP_MAX_NELEM
      requires ordered ==> OrderedBut(slots[..], nelem, key, i)
      modifies slots, this`nelem
      ensures nelem == old(nelem) - 1
      ensures forall j :: 0 <= j < HEAP_MAX_NELEM ==> slots[j] == if j == i then old(slots[nelem]) else old(slots[j])
      ensures ordered ==> OrderedBut(slots[..], nelem, key, i)
      ensures Elems(slots[..], nelem) == Elems(old(slots[..]), old(nelem)) - multiset{old(slots[i])}
    {
      hide OrderedBut, Elems;
      ghost var s := slots[..];
      if ordered { LastMoved(s, nelem, key, i); }
      LastMovedElems(s, nelem, i);
      slots[i] := slots[nelem];
      nelem := nelem - 1;
      assert slots[..] == s[i := s[nelem + 1]];
    }

    lemma AllTimed(key: Keys)
      requires Valid() && forall d :: d in members ==> key(d) == d.hwtime
      ensures forall j :: 1 <= j <= nelem ==> key(slots[j]) == slots[j].hwtime
    {
      forall j | 1 <= j <= nelem ensures key(slots[j]) == slots[j].hwtime {
        SlotMember(j);
      }
    }

    lemma SameTimes(key: Keys)
      requires Valid() && forall d :: d in members ==> key(d) == d.hwtime
      ensures InOrder() <==> Ordered(slots[..], nelem, key)
    {
      forall j | 1 <= j <= nelem ensures key(slots[j]) == Times(members)(slots[j]) {
        SlotMember(j);
      }
      SameKeys(slots[..], nelem, key, Times(members));
    }

    /** Filling the hole at `i` with the last element keeps heap order: that element is not earlier
        than the parent of the hole. */
    ghost predicate KeepsOrder(i: nat)
      requires Valid() && 1 <= i <= nelem
      reads this, slots, slots[i / 2], slots[nelem]
    {
      i == 1 || i == nelem || slots[i / 2].hwtime <= slots[nelem].hwtime
    }

    /** Order lost by filling the hole at `i` is mended by inserting an element that expires at `time`: on
        its way up it comes through the parent of the hole but not through the hole, and neither it nor
        the element above that parent expires later than the last element. */
    ghost predicate Mends(i: nat, time: int)
      requires Valid() && 2 <= i <= nelem
      reads this, slots, slots[i / 4], slots[nelem]
    {
      !Above(i, nelem) && Above(i / 2, nelem) && time <= slots[nelem].hwtime &&
      (i / 2 == 1 || slots[i / 4].hwtime <= slots[nelem].hwtime)
    }

    /** `HEAP_insert`: a domain already armed is first taken out. */
    method Insert(k: Domain) returns (r: int)
      requires Valid() && (nelem + 1 < HEAP_MAX_NELEM || k in members)
      modifies this, slots
      ensures Valid() && members == old(members) + {k} && r == 0
      ensures nelem == if k in old(members) then old(nelem) else old(nelem) + 1
      ensures k !in old(members) && old(InOrder()) ==> InOrder()
      ensures forall i :: 1 <= i <= old(nelem) && old(slots[i]) == k && old(InOrderBut(i)) ==>
        (InOrder() <==> old(KeepsOrder(i)) || old(Mends(i, k.hwtime)))
      ensures k !in old(members) && (nelem == 1 || old(slots[(nelem + 1) / 2].hwtime) <= k.hwtime) ==>
        slots[..] == old(slots[..])[nelem := k]
    {
      hide Ordered, OrderedBut, Elems, Broken, Mended, Times, InOrder;
      ghost var hole := Hole(k);
      var _ := RemoveElement(k);
      SiftUp(k, hole);
      return 0;
    }

    /** The slot that `HEAP_insert` starts from is in the array exactly if fewer than 99 elements are in the
        heap or the element is one of them; the test against the capacity passes in any case. */
    lemma CapacityTest(k: Domain)
      requires Valid()
      ensures nelem + 1 <= HEAP_MAX_NELEM
      ensures (if k in members then nelem else nelem + 1) < slots.Length <==> nelem + 1 < HEAP_MAX_NELEM || k in members
    {
    }

    /** The slot of `k`, if filling it loses order, and what will be found there. */
    lemma Hole(k: Domain) returns (hole: nat)
      requires Valid()
      ensures if hole == 0 then forall i :: 1 <= i <= nelem && slots[i] == k && InOrderBut(i) ==> KeepsOrder(i)
        else 2 <= hole <= nelem && slots[hole] == k && InOrderBut(hole) && !KeepsOrder(hole)
      ensures hole != 0 ==> k in members && members - {k} + {k} == members
      ensures hole != 0 ==> forall i :: 1 <= i <= nelem && slots[i] == k ==> i == hole
      ensures hole != 0 ==> Broken(slots[..][hole := slots[nelem]], nelem - 1, Times(members), hole)
      ensures hole != 0 ==>
        (Mended(slots[..][hole := slots[nelem]], nelem, Times(members), hole, k) <==> Mends(hole, k.hwtime))
    {
      hide Ordered, OrderedBut, Elems, Broken, Times, Above;
      hole := 0;
      if k in members {
        hole := SlotOf(k);
        OnlySlot(hole);
        if !InOrderBut(hole) || KeepsOrder(hole) {
          hole := 0;
        } else {
          AllTimed(Times(members));
          BrokenAfter(slots[..], nelem, Times(members), hole);
        }
      } else {
        NoSlot(k);
      }
    }

    /** The first half of `sethwtimer`: the domain gets its expiry time and period, and is armed if it
        was not. */
    method Arm(k: Domain, dtime: int, period: int, now: int)
      requires Valid() && (nelem + 1 < HEAP_MAX_NELEM || k in members)
      modifies this, slots, k`hwtime, k`period
      ensures Valid() && members == old(members) + {k}
      ensures k.hwtime == dtime + now && k.period == period
      ensures old(InOrder()) && k !in old(members) ==> InOrder()
      ensures old(InOrder()) ==> forall i :: 1 <= i <= old(nelem) && old(slots[i]) == k ==>
        (InOrder() <==> old(KeepsOrder(i)) || old(Mends(i, dtime + now)))
    {
      hide Valid, InOrder, KeepsOrder, InOrderBut, Mends;
      Retime(k, dtime + now);
      var _ := Insert(k);
      k.period := period;
    }

    method Retime(k: Domain, hwtime: int)
      requires Valid()
      modifies k`hwtime
      ensures Valid() && k.hwtime == hwtime && (old(InOrder()) && k !in members ==> InOrder())
      ensures forall i :: 1 <= i <= nelem && slots[i] == k ==>
        (old(InOrder()) ==> InOrderBut(i)) && KeepsOrder(i) == old(KeepsOrder(i)) &&
        (!KeepsOrder(i) ==> 2 <= i && Mends(i, hwtime) == old(Mends(i, hwtime)))
    {
      hide Ordered, OrderedBut, Elems, Times, Above;
      ghost var key, ordered := Times(members), InOrder();
      AllTimed(key);
      k.hwtime := hwtime;
      AllTimed(Times(members));
      if k in members {
        ghost var i := SlotOf(k);
        OnlySlot(i);
        if ordered { Retimed(slots[..], nelem, key, Times(members), i); }
      } else {
        NoSlot(k);
        SameTimes(key);
      }
    }

    lemma SlotOf(k: Domain) returns (i: nat)
      requires Valid() && k in members
      ensures 1 <= i <= nelem && slots[i] == k
    {
      assert k in multiset(members);
      ElemAt(slots[..], nelem, k);
      i :| 1 <= i <= nelem && slots[..][i] == k;
    }

    method SiftUp(k: Domain, ghost hole: nat)
      requires Valid() && k !in members && nelem + 1 < HEAP_MAX_NELEM
      requires hole != 0 ==> Broken(slots[..], nelem, Times(members + {k}), hole)
      modifies this, slots
      ensures Valid() && members == old(members) + {k} && nelem == old(nelem) + 1
      ensures old(InOrder()) ==> InOrder()
      ensures hole != 0 ==> 2 <= hole < HEAP_MAX_NELEM
      ensures hole != 0 ==> (InOrder() <==> Mended(old(slots[..]), nelem, Times(members), hole, k))
      ensures nelem == 1 || old(slots[(nelem + 1) / 2].hwtime) <= k.hwtime ==> slots[..] == old(slots[..])[nelem := k]
    {
      hide Ordered, Elems, Times, InOrder, Broken, Mended;
      ghost var ordered := InOrder();
      ghost var all := members + {k};
      ghost var key := Times(all);
      SameTimes(key);
      AllTimed(key);
      nelem := nelem + 1;
      Rise(k, key, ordered, hole);
      OneMore(members, k);
      members := all;
      assert forall d :: d in members ==> key(d) == d.hwtime;
      SameTimes(key);
    }

    method Rise(k: Domain, ghost key: Keys, ghost ordered: bool, ghost hole: nat)
      requires slots.Length == HEAP_MAX_NELEM && 1 <= nelem < HEAP_MAX_NELEM && key(k) == k.hwtime
      requires forall j :: 1 <= j < nelem ==> slots[j] != null && key(slots[j]) == slots[j].hwtime
      requires ordered ==> Ordered(slots[..], nelem - 1, key)
      requires hole != 0 ==> Broken(slots[..], nelem - 1, key, hole)
      modifies slots
      ensures forall j :: 1 <= j <= nelem ==> slots[j] != null
      ensures Elems(slots[..], nelem) == Elems(old(slots[..]), nelem - 1) + multiset{k}
      ensures ordered ==> Ordered(slots[..], nelem, key)
      ensures hole != 0 ==> 2 <= hole < HEAP_MAX_NELEM
      ensures hole != 0 ==> (Ordered(slots[..], nelem, key) <==> Mended(old(slots[..]), nelem, key, hole, k))
      ensures nelem == 1 || old(slots[nelem / 2].hwtime) <= k.hwtime ==> slots[..] == old(slots[..])[nelem := k]
    {
      hide Ordered, Elems, Rising, Lifted, Broken, Mended, Rests;
      ghost var s0 := slots[..];
      var i := nelem;
      RiseStart(s0, nelem, key, k, ordered);
      LiftedStart(s0, nelem, key, k);
      while i > 1 && k.hwtime < slots[i / 2].hwtime
        invariant 1 <= i <= nelem
        invariant forall j :: 1 <= j <= nelem && j != i ==> slots[j] != null && key(slots[j]) == slots[j].hwtime
        invariant Rising(s0, slots[..][i := k], nelem, key, i, k, ordered) && Lifted(s0, slots[..][i := k], nelem, key, i, k)
        invariant if i == nelem then slots[..] == s0 else nelem > 1 && k.hwtime < old(slots[nelem / 2].hwtime)
      {
        ghost var s := slots[..];
        RiseStep(s0, s[i := k], nelem, key, i, k, ordered);
        LiftedStep(s0, s[i := k], nelem, key, i, k);
        slots[i] := slots[i / 2];
        assert slots[..][i / 2 := k] == Swapped(s[i := k], i / 2, i);
        i := i / 2;
      }
      RiseEnd(s0, slots[..][i := k], nelem, key, i, k, ordered);
      LiftedEnd(s0, slots[..][i := k], nelem, key, i, k, hole);
      ghost var s := slots[..];
      slots[i] := k;
      assert slots[..] == s[i := k];
    }

    method Find(k: Domain) returns (i: nat)
      requires Valid() && (nelem + 1 < HEAP_MAX_NELEM || k in members)
      ensures 1 <= i < HEAP_MAX_NELEM && i <= nelem + 1
      ensures if i <= nelem then slots[i] == k && k in members else k !in members && forall j :: 1 <= j <= nelem ==> slots[j] != k
    {
      i := 1;
      while i <= nelem && slots[i] != k
        invariant 1 <= i <= nelem + 1 && forall j :: 1 <= j < i ==> slots[j] != k
      {
        i := i + 1;
      }
      ElemAt(slots[..], nelem, k);
      if k in members {
        assert k in multiset(members);
        var j :| 1 <= j <= nelem && slots[..][j] == k;
      } else if i <= nelem {
        SlotMember(i);
        assert false;
      }
    }

    /** `HEAP_remove_element`, also with the expiry time of `k` changed since it was inserted. */
    method RemoveElement(k: Domain) returns (r: int)
      requires Valid() && (nelem + 1 < HEAP_MAX_NELEM || k in members)
      modifies this, slots
      ensures Valid() && members == old(members) - {k}
      ensures r == if k in old(members) then 0 else -1
      ensures k !in old(members) ==> nelem == old(nelem) && slots[..] == old(slots[..])
      ensures k in old(members) ==> nelem == old(nelem) - 1
      ensures forall i :: 1 <= i <= old(nelem) && old(slots[i]) == k && old(InOrderBut(i)) ==>
        (InOrder() <==> old(KeepsOrder(i))) &&
        (!old(KeepsOrder(i)) ==> slots[..] == old(slots[..])[i := old(slots[nelem])])
      ensures k !in old(members) && old(InOrder()) ==> InOrder()
    {
      hide Ordered, OrderedBut, Elems;
      var i := Find(k);
      if slots[i] != k {
        return -1;
      }
      if i <= nelem {
        OnlySlot(i);
        if nelem - 1 > 0 {
          TakeAway(i, InOrderBut(i));
        } else {
          Last(i);
        }
        return 0;
      }
      return -1;
    }

    method Last(i: nat)
      requires Valid() && i == nelem == 1
      modifies this, slots
      ensures Valid() && nelem == 0 && InOrder() && members == old(members) - {old(slots[i])}
    {
      SlotMember(1);
      assert slots[..][1..2] == [slots[1]];
      nelem := 0;
      slots[i] := null;
      ghost var d := old(slots[1]);
      assert multiset(members) == multiset{d};
      forall x | x in members ensures x == d {
        assert x in multiset(members);
      }
      members := members - {d};
      assert members == {};
    }

    lemma NoSlot(k: Domain)
      requires Valid() && k !in members
      ensures forall j :: 1 <= j <= nelem ==> slots[j] != k
    {
      forall j | 1 <= j <= nelem ensures slots[j] != k {
        SlotMember(j);
      }
    }

    /** A domain is in one slot only. */
    lemma OnlySlot(i: nat)
      requires Valid() && 1 <= i <= nelem
      ensures forall j :: 1 <= j <= nelem && slots[j] == slots[i] ==> j == i
    {
      forall j | 1 <= j <= nelem && slots[j] == slots[i] ensures j == i {
        if j != i {
          Twice(slots[..], nelem, i, j);
          SlotMember(i);
          assert false;
        }
      }
    }
  }

  lemma Twice(s: Slots, n: nat, i: nat, j: nat)
    requires 1 <= i <= n < |s| && 1 <= j <= n && i != j && s[i] == s[j]
    ensures Elems(s, n)[s[i]] >= 2
  {
    var a, b := if i < j then i else j, if i < j then j else i;
    assert s[1..n + 1] == s[1..a] + [s[a]] + s[a + 1..b] + [s[b]] + s[b + 1..n + 1];
  }

  // ---- the order lost by a removal ----

  /** Expiry times in heap order; the last is earlier than the parent of slot 4. */
  const LOPSIDED := [0, 1, 10, 2, 11, 12, 3, 4]

  /** Inserting timers with these times one after the other leads to it. */
  method Lopsided() returns (heap: Heap)
    ensures fresh(heap) && fresh(heap.slots) && fresh(heap.members) && Laid(heap, 7)
  {
    heap := new Heap();
    var j := 0;
    while j < 7
      invariant 0 <= j <= 7 && Laid(heap, j) && fresh(heap) && fresh(heap.slots) && fresh(heap.members)
    {
      hide Laid;
      j := j + 1;
      var d := new Domain(LOPSIDED[j], 0);
      LayNext(heap, j, d);
    }
  }

  /** The first `n` times are in their slots. */
  ghost predicate Laid(heap: Heap, n: nat)
    reads heap, heap.slots, heap.members`hwtime
  {
    heap.Valid() && heap.nelem == n <= 7 && Times7(heap.slots[..], n, Times(heap.members))
  }

  ghost predicate Times7(s: Slots, n: nat, key: Keys) {
    n < |s| && n <= 7 && forall i :: 1 <= i <= n ==> key(s[i]) == LOPSIDED[i]
  }

  method LayNext(heap: Heap, j: nat, d: Domain)
    requires 1 <= j <= 7 && Laid(heap, j - 1) && d !in heap.members && d.hwtime == LOPSIDED[j]
    modifies heap, heap.slots
    ensures Laid(heap, j) && heap.members == old(heap.members) + {d}
  {
    hide Times, Elems;
    ghost var key := Times(heap.members);
    heap.AllTimed(key);
    assert j > 1 ==> key(heap.slots[..][j / 2]) == LOPSIDED[j / 2] <= LOPSIDED[j];
    ghost var s := heap.slots[..];
    var _ := heap.Insert(d);
    heap.AllTimed(Times(heap.members));
    forall i | 1 <= i <= j ensures Times(heap.members)(heap.slots[..][i]) == LOPSIDED[i] {
      assert i < j ==> key(s[i]) == LOPSIDED[i];
    }
  }

  /** In it, removing the element in slot 4 loses order. */
  lemma LopsidedHeap(heap: Heap)
    requires Laid(heap, 7)
    ensures heap.InOrder() && !heap.KeepsOrder(4)
    ensures forall time :: !heap.Mends(4, time)
  {
    heap.AllTimed(Times(heap.members));
    var s := heap.slots[..];
    forall j | 2 <= j <= 7 ensures Edge(s, Times(heap.members), j) {
      assert LOPSIDED[j / 2] <= LOPSIDED[j];
    }
    assert heap.slots[2].hwtime == LOPSIDED[2] && heap.slots[7].hwtime == LOPSIDED[7];
    assert !Above(2, 7);
  }

  /** Arming the timer in slot 4 again loses order, whatever the new time. */
  method RearmLoses(dtime: int, now: int) returns (heap: Heap)
    ensures heap.Valid() && !heap.InOrder()
  {
    heap := Lopsided();
    LopsidedHeap(heap);
    var k := heap.slots[4];
    heap.SlotMember(4);
    heap.Arm(k, dtime, 0, now);
  }
}

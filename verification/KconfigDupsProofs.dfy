/** What `expr_eliminate_dups` keeps: values, normal forms, and a measure that makes it terminate. */
module KconfigDupsProofs {
  import opened Basics
  import opened KconfigExpr
  import opened KconfigTransform
  import opened KconfigDups

  // ---- properties of operands ----

  /** `p` holds of every operand, through all ands and ors. */
  predicate AllOperands(p: Expr -> bool, e: Expr) {
    match e
    case And(l, r) => AllOperands(p, l) && AllOperands(p, r)
    case Or(l, r) => AllOperands(p, l) && AllOperands(p, r)
    case _ => p(e)
  }

  ghost predicate AllIn(p: Expr -> bool, ls: seq<Expr>) {
    forall k :: 0 <= k < |ls| ==> AllOperands(p, ls[k])
  }

  /** `p` holds of comparisons and of 'y' and 'n'. */
  ghost predicate Lenient(p: Expr -> bool) {
    && p(Sym(Yes)) && p(Sym(No))
    && (forall a, b :: p(Equal(a, b)))
    && (forall a, b :: p(Unequal(a, b)))
  }

  lemma AllInConcat(p: Expr -> bool, a: seq<Expr>, b: seq<Expr>)
    ensures AllIn(p, a + b) <==> AllIn(p, a) && AllIn(p, b)
  {
    if AllIn(p, a + b) {
      assert forall k :: 0 <= k < |a| ==> (a + b)[k] == a[k];
      assert forall k :: 0 <= k < |b| ==> (a + b)[|a| + k] == b[k];
    }
  }

  lemma {:induction false} OperandsAll(p: Expr -> bool, op: Op, e: Expr)
    ensures AllOperands(p, e) <==> AllIn(p, Operands(op, e))
  {
    if Is(op, e) {
      OperandsAll(p, op, e.l);
      OperandsAll(p, op, e.r);
      AllInConcat(p, Operands(op, e.l), Operands(op, e.r));
    } else {
      assert Operands(op, e)[0] == e;
    }
  }

  lemma RebuildAll(p: Expr -> bool, op: Op, e: Expr, ls: seq<Expr>)
    requires |ls| == |Operands(op, e)| && (forall k :: 0 <= k < |ls| ==> !Is(op, ls[k])) && AllIn(p, ls)
    ensures AllOperands(p, Rebuild(op, e, ls))
  {
    RebuildOperands(op, e, ls);
    OperandsAll(p, op, Rebuild(op, e, ls));
  }

  lemma JoinTestsAll(p: Expr -> bool, op: Op, e1: Expr, e2: Expr)
    requires Lenient(p) && AllOperands(p, e1) && AllOperands(p, e2) && JoinTests(op, e1, e2).Some?
    ensures AllOperands(p, JoinTests(op, e1, e2).value)
  {
    hide Eq;
  }

  lemma {:induction false} Dups1All(p: Expr -> bool, op: Op, e: Expr)
    requires Lenient(p) && Is(op, e) && AllOperands(p, e)
    ensures AllOperands(p, Dups1(op, e).0)
    decreases Size(e), 1, 0, 0
  {
    hide Lenient, AllOperands, Operands, Rebuild, Pairs1, Sum;
    OperandsSize(op, e);
    OperandsAll(p, op, e);
    Pairs1All(p, op, Operands(op, e), 0, 0, Size(e));
    RebuildAll(p, op, e, Pairs1(op, Operands(op, e), 0, 0, Size(e)).0);
  }

  lemma {:induction false} Pairs1All(p: Expr -> bool, op: Op, ls: seq<Expr>, i: nat, j: nat, bound: nat)
    requires Lenient(p) && i <= |ls| && j <= |ls| && Sum(Size, ls) < bound
    requires (forall k :: 0 <= k < |ls| ==> !Is(op, ls[k])) && AllIn(p, ls)
    ensures AllIn(p, Pairs1(op, ls, i, j, bound).0)
    decreases bound, 0, |ls| - i, |ls| - j
  {
    hide Lenient, AllOperands, Sum, Dups1;
    if i == |ls| {
    } else if j == |ls| {
      Pairs1All(p, op, ls, i + 1, 0, bound);
    } else if i == j {
      Pairs1All(p, op, ls, i, j + 1, bound);
    } else {
      SumMember(Size, ls, i);
      var (e1, c1) := Inner1(op, ls[i]);
      if Is(Other(op), ls[i]) { Dups1All(p, Other(op), ls[i]); }
      Step1All(p, op, ls, i, j, e1);
      Pairs1All(p, op, Step1(op, ls, i, j, e1).0, i, j + 1, bound);
    }
  }

  lemma Step1All(p: Expr -> bool, op: Op, ls: seq<Expr>, i: nat, j: nat, e1: Expr)
    requires Lenient(p) && i < |ls| && j < |ls| && i != j && !Is(op, e1) && Size(e1) <= Size(ls[i])
    requires (forall k :: 0 <= k < |ls| ==> !Is(op, ls[k])) && AllIn(p, ls) && AllOperands(p, e1)
    ensures AllIn(p, Step1(op, ls, i, j, e1).0)
  {
    hide JoinTests;
    if JoinTests(op, e1, ls[j]).Some? {
      JoinTestsAll(p, op, e1, ls[j]);
    }
  }

  lemma {:induction false} Dups2All(p: Expr -> bool, op: Op, e: Expr)
    requires Lenient(p) && Is(op, e) && AllOperands(p, e)
    ensures AllOperands(p, Dups2(op, e).0)
    decreases Size(e), 4, 0
  {
    hide Lenient, AllOperands, Operands, Rebuild, Loop2, Sum;
    OperandsSize(op, e);
    OperandsAll(p, op, e);
    Loop2All(p, op, e, Operands(op, e), 0, Size(e));
    RebuildAll(p, op, e, Loop2(op, e, Operands(op, e), 0, Size(e)).0);
  }

  lemma {:induction false} Loop2All(p: Expr -> bool, op: Op, e: Expr, ls: seq<Expr>, i: nat, bound: nat)
    requires Lenient(p) && |ls| == |Operands(op, e)| && i <= |ls| && Sum(Size, ls) < bound
    requires (forall k :: 0 <= k < |ls| ==> !Is(op, ls[k])) && AllIn(p, ls)
    ensures AllIn(p, Loop2(op, e, ls, i, bound).0)
    decreases bound, 3, |ls| - i
  {
    hide Lenient, AllOperands, Sum, Operands, Walk2;
    if i < |ls| {
      Walk2All(p, op, e, 0, i, ls, bound);
      Loop2All(p, op, e, Walk2(op, e, 0, i, ls, bound).0, i + 1, bound);
    }
  }

  lemma {:induction false} Walk2All(p: Expr -> bool, op: Op, node: Expr, lo: nat, i: nat, ls: seq<Expr>, bound: nat)
    requires Lenient(p) && lo + |Operands(op, node)| <= |ls| && i < |ls| && Sum(Size, ls) < bound
    requires (forall k :: 0 <= k < |ls| ==> !Is(op, ls[k])) && AllIn(p, ls)
    ensures AllIn(p, Walk2(op, node, lo, i, ls, bound).0)
    decreases bound, 2, Size(node)
  {
    hide Lenient, AllOperands, Sum, Try2;
    if Is(op, node) {
      var (ls1, c1) := Walk2(op, node.l, lo, i, ls, bound);
      Walk2All(p, op, node.l, lo, i, ls, bound);
      Walk2All(p, op, node.r, lo + |Operands(op, node.l)|, i, ls1, bound);
      Try2All(p, op, node, lo, i, Walk2(op, node.r, lo + |Operands(op, node.l)|, i, ls1, bound).0, bound);
    } else if lo != i {
      Try2All(p, op, node, lo, i, ls, bound);
    }
  }

  lemma {:induction false} Try2All(p: Expr -> bool, op: Op, node: Expr, lo: nat, i: nat, ls: seq<Expr>, bound: nat)
    requires Lenient(p) && lo + |Operands(op, node)| <= |ls| && i < |ls| && Sum(Size, ls) < bound
    requires (forall k :: 0 <= k < |ls| ==> !Is(op, ls[k])) && AllIn(p, ls)
    ensures AllIn(p, Try2(op, node, lo, i, ls, bound).0)
    decreases bound, 1, 0
  {
    hide Sum, Operands, Rebuild, Dups2, ExtractEq, Transform;
    if Is(Other(op), ls[i]) {
      SumMember(Size, ls, i);
      Dups2All(p, Other(op), ls[i]);
    }
  }

  lemma {:induction false} YnAll(p: Expr -> bool, e: Expr)
    requires Lenient(p) && AllOperands(p, e)
    ensures AllOperands(p, Yn(e))
  {
    match e
    case And(l, r) => YnAll(p, l); YnAll(p, r);
    case Or(l, r) => YnAll(p, l); YnAll(p, r);
    case _ =>
  }

  // ---- the second pass changes values only away from m ----

  /** A value that may have changed, but only if it was m. */
  predicate Sharper(before: Tri, after: Tri) {
    before == 1 || after == before
  }

  lemma JoinSharper(op: Op, a: Tri, b: Tri, a': Tri, b': Tri)
    requires Sharper(a, a') && Sharper(b, b')
    ensures Sharper(Join(op, a, b), Join(op, a', b'))
  {
  }

  /** A run of operands is implied by all of them (under and), or implies them (under or). */
  lemma SubJoin(op: Op, ls: seq<Expr>, a: nat, b: nat, v: Valuation)
    requires Consistent(v) && a <= b <= |ls|
    ensures Join(op, JoinAll(op, ls, v), JoinAll(op, ls[a..b], v)) == JoinAll(op, ls, v)
  {
    hide Consistent, Join, JoinAll;
    var x, y, z := ls[..a], ls[a..b], ls[b..];
    assert ls == x + (y + z);
    JoinAllConcat(op, x, y + z, v);
    JoinAllConcat(op, y, z, v);
    var jx, jy, jz := JoinAll(op, x, v), JoinAll(op, y, v), JoinAll(op, z, v);
    AbsorbThree(op, jx, jy, jz);
  }

  lemma AbsorbThree(op: Op, x: Tri, y: Tri, z: Tri)
    ensures var w := Join(op, x, Join(op, y, z)); Join(op, w, y) == w
  {
  }

  /** A chain that holds an operand and, in a subchain, all operands of its negation is decided or m. */
  lemma Decided(op: Op, all: Tri, a: Tri, rest: Tri, sub: Tri, v: Valuation)
    requires Consistent(v) && all == Join(op, a, rest)
    requires Join(op, all, sub) == all && Join(op, 2 - a, sub) == sub
    ensures all == 1 || all == Value(Zero(op), v)
    ensures Value(Zero(op), v) != 1 && Join(op, Value(Zero(op), v), rest) == Value(Zero(op), v)
  {
  }

  lemma {:induction false} Dups2Value(op: Op, e: Expr, v: Valuation)
    requires Consistent(v) && Is(op, e)
    ensures Sharper(Value(e, v), Value(Dups2(op, e).0, v))
    decreases Size(e), 4, 0
  {
    hide Consistent, Value, Operands, Rebuild, Loop2, Sum;
    OperandsSize(op, e);
    Loop2Value(op, e, Operands(op, e), 0, Size(e), v);
    ChainValue(op, e, Loop2(op, e, Operands(op, e), 0, Size(e)).0, v);
    RebuildSame(op, e);
    ChainValue(op, e, Operands(op, e), v);
  }

  lemma {:induction false} Loop2Value(op: Op, e: Expr, ls: seq<Expr>, i: nat, bound: nat, v: Valuation)
    requires Consistent(v) && |ls| == |Operands(op, e)| && i <= |ls| && Sum(Size, ls) < bound
    requires forall k :: 0 <= k < |ls| ==> !Is(op, ls[k])
    ensures Sharper(JoinAll(op, ls, v), JoinAll(op, Loop2(op, e, ls, i, bound).0, v))
    decreases bound, 3, |ls| - i
  {
    hide Consistent, Value, JoinAll, Sum, Operands, Walk2;
    if i < |ls| {
      Walk2Value(op, e, 0, i, ls, bound, v);
      Loop2Value(op, e, Walk2(op, e, 0, i, ls, bound).0, i + 1, bound, v);
    }
  }

  lemma {:induction false} Walk2Value(op: Op, node: Expr, lo: nat, i: nat, ls: seq<Expr>, bound: nat, v: Valuation)
    requires Consistent(v) && lo + |Operands(op, node)| <= |ls| && i < |ls| && Sum(Size, ls) < bound
    requires forall k :: 0 <= k < |ls| ==> !Is(op, ls[k])
    ensures Sharper(JoinAll(op, ls, v), JoinAll(op, Walk2(op, node, lo, i, ls, bound).0, v))
    decreases bound, 2, Size(node)
  {
    hide Consistent, Value, JoinAll, Sum, Try2;
    if Is(op, node) {
      var n := lo + |Operands(op, node.l)|;
      var (ls1, c1) := Walk2(op, node.l, lo, i, ls, bound);
      Walk2Value(op, node.l, lo, i, ls, bound, v);
      var (ls2, c2) := Walk2(op, node.r, n, i, ls1, bound);
      Walk2Value(op, node.r, n, i, ls1, bound, v);
      Try2Value(op, node, lo, i, ls2, bound, v);
    } else if lo != i {
      Try2Value(op, node, lo, i, ls, bound, v);
    }
  }

  /** Operand `i` changes to `x`, and its value only if it was m. */
  lemma OperandSharper(op: Op, ls: seq<Expr>, i: nat, x: Expr, v: Valuation)
    requires Consistent(v) && i < |ls| && Sharper(Value(ls[i], v), Value(x, v))
    ensures Sharper(JoinAll(op, ls, v), JoinAll(op, ls[i := x], v))
  {
    hide Consistent, Join, JoinAll, Value;
    JoinAllAt(op, ls, i, ls[i], v);
    assert ls[i := ls[i]] == ls;
    JoinAllAt(op, ls, i, x, v);
    var rest := JoinAll(op, ls[i := Unit(op)], v);
    JoinSharper(op, Value(ls[i], v), rest, Value(x, v), rest);
  }

  lemma TryDecides(op: Op, node: Expr, lo: nat, i: nat, ls: seq<Expr>, v: Valuation)
    requires Consistent(v) && lo + |Operands(op, node)| <= |ls| && i < |ls|
    requires ExtractEq(op, Transform(Not(ls[i])), Rebuild(op, node, ls[lo..lo + |Operands(op, node)|])).1 == Unit(op)
    ensures JoinAll(op, ls, v) == 1 || JoinAll(op, ls, v) == Value(Zero(op), v)
    ensures JoinAll(op, ls[i := Zero(op)], v) == Value(Zero(op), v) != 1
  {
    hide Consistent, Join, JoinAll, Operands, Rebuild, ExtractEq, Transform, Zero;
    var sub, rest := ls[lo..lo + |Operands(op, node)|], JoinAll(op, ls[i := Unit(op)], v);
    var e2 := Rebuild(op, node, sub);
    ExtractAbsorbs(op, Transform(Not(ls[i])), e2, v);
    TransformValue(Not(ls[i]), v);
    ChainValue(op, node, sub, v);
    SubJoin(op, ls, lo, lo + |Operands(op, node)|, v);
    JoinAllAt(op, ls, i, ls[i], v);
    assert ls[i := ls[i]] == ls;
    Decided(op, JoinAll(op, ls, v), Value(ls[i], v), rest, Value(e2, v), v);
    JoinAllAt(op, ls, i, Zero(op), v);
  }

  /** The operand decides the chain. */
  predicate Fires(op: Op, node: Expr, lo: nat, i: nat, ls: seq<Expr>)
    requires lo + |Operands(op, node)| <= |ls| && i < |ls|
  {
    Is(Other(op), ls[i]) &&
    var ls1 := ls[i := Dups2(Other(op), ls[i]).0];
    ExtractEq(op, Transform(Not(ls1[i])), Rebuild(op, node, ls1[lo..lo + |Operands(op, node)|])).1 == Unit(op)
  }

  /** Deciding a chain keeps its value exactly if that is not m. */
  lemma {:induction false} FiresExact(op: Op, node: Expr, lo: nat, i: nat, ls: seq<Expr>, v: Valuation)
    requires Consistent(v) && lo + |Operands(op, node)| <= |ls| && i < |ls| && Fires(op, node, lo, i, ls)
    ensures JoinAll(op, ls[i := Zero(op)], v) == JoinAll(op, ls, v) <==> JoinAll(op, ls, v) != 1
    decreases Size(ls[i]), 5, 0
  {
    hide Consistent, JoinAll, Operands, Rebuild, Dups2, ExtractEq, Transform, Value, Zero, Unit;
    var e1 := Dups2(Other(op), ls[i]).0;
    var ls1 := ls[i := e1];
    Dups2Value(Other(op), ls[i], v);
    OperandSharper(op, ls, i, e1, v);
    TryDecides(op, node, lo, i, ls1, v);
    assert ls1[i := Zero(op)] == ls[i := Zero(op)];
  }

  lemma {:induction false} Try2Value(op: Op, node: Expr, lo: nat, i: nat, ls: seq<Expr>, bound: nat, v: Valuation)
    requires Consistent(v) && lo + |Operands(op, node)| <= |ls| && i < |ls| && Sum(Size, ls) < bound
    requires forall k :: 0 <= k < |ls| ==> !Is(op, ls[k])
    ensures Sharper(JoinAll(op, ls, v), JoinAll(op, Try2(op, node, lo, i, ls, bound).0, v))
    ensures Fires(op, node, lo, i, ls) ==> Try2(op, node, lo, i, ls, bound) == (ls[i := Zero(op)], true)
    decreases bound, 1, 0
  {
    hide Consistent, JoinAll, Sum, Operands, Rebuild, Dups2, ExtractEq, Transform, Value, Zero, Unit;
    if Is(Other(op), ls[i]) {
      SumMember(Size, ls, i);
      Dups2Value(Other(op), ls[i], v);
      OperandSharper(op, ls, i, Dups2(Other(op), ls[i]).0, v);
      if Fires(op, node, lo, i, ls) {
        FiresExact(op, node, lo, i, ls, v);
      }
    }
  }

  // ---- a measure for the repeated passes ----

  /** The number of operands other than 'y' and 'n'. */
  function Count(e: Expr): nat {
    match e
    case And(l, r) => Count(l) + Count(r)
    case Or(l, r) => Count(l) + Count(r)
    case Sym(s) => if s == Yes || s == No then 0 else 1
    case _ => 1
  }

  /** No operand is 'y' or 'n'. */
  predicate ConstFree(e: Expr) {
    match e
    case And(l, r) => ConstFree(l) && ConstFree(r)
    case Or(l, r) => ConstFree(l) && ConstFree(r)
    case _ => e != Sym(Yes) && e != Sym(No)
  }

  ghost predicate ConstFreeAll(ls: seq<Expr>) {
    forall k :: 0 <= k < |ls| ==> ConstFree(ls[k])
  }

  lemma {:induction false} CountPositive(e: Expr)
    requires ConstFree(e)
    ensures Count(e) >= 1
  {
    match e
    case And(l, r) => CountPositive(l);
    case Or(l, r) => CountPositive(l);
    case _ =>
  }

  lemma {:induction false} RebuildCount(op: Op, e: Expr, ls: seq<Expr>)
    requires |ls| == |Operands(op, e)|
    ensures Count(Rebuild(op, e, ls)) == Sum(Count, ls)
  {
    hide Sum;
    if Is(op, e) {
      var n := |Operands(op, e.l)|;
      RebuildCount(op, e.l, ls[..n]);
      RebuildCount(op, e.r, ls[n..]);
      SumConcat(Count, ls[..n], ls[n..]);
      assert ls[..n] + ls[n..] == ls;
    } else {
      assert ls == [ls[0]];
      SumSingle(Count, ls[0]);
    }
  }

  lemma {:induction false} OperandsConstFree(op: Op, e: Expr)
    requires ConstFree(e)
    ensures ConstFreeAll(Operands(op, e))
  {
    if Is(op, e) {
      OperandsConstFree(op, e.l);
      OperandsConstFree(op, e.r);
    }
  }

  lemma JoinTestsCount(op: Op, e1: Expr, e2: Expr)
    requires JoinTests(op, e1, e2).Some?
    ensures var t := JoinTests(op, e1, e2).value;
      Count(t) <= Count(e1) + Count(e2) && (Count(e2) >= 1 ==> Count(t) < Count(e1) + Count(e2))
  {
    hide Eq;
  }

  lemma Step1Count(op: Op, ls: seq<Expr>, i: nat, j: nat, e1: Expr)
    requires i < |ls| && j < |ls| && i != j && !Is(op, e1) && Size(e1) <= Size(ls[i])
    requires forall k :: 0 <= k < |ls| ==> !Is(op, ls[k])
    ensures var (r, c) := Step1(op, ls, i, j, e1);
      && Sum(Count, r) + Count(ls[i]) <= Sum(Count, ls) + Count(e1)
      && (!c ==> r == ls[i := e1])
      && (c && Count(ls[j]) >= 1 ==> Sum(Count, r) + Count(ls[i]) < Sum(Count, ls) + Count(e1))
  {
    hide JoinTests, Sum;
    SumUpdate(Count, ls, i, e1);
    match JoinTests(op, e1, ls[j])
    case None =>
    case Some(t) =>
      JoinTestsCount(op, e1, ls[j]);
      SumUpdate(Count, ls, i, Unit(op));
      SumUpdate(Count, ls[i := Unit(op)], j, t);
  }

  /** The first pass changes nothing, or, on an expression without constants, removes operands. */
  lemma {:induction false} Dups1Count(op: Op, e: Expr)
    requires Is(op, e)
    ensures var (r, c) := Dups1(op, e);
      Count(r) <= Count(e) && (!c ==> r == e) && (c && ConstFree(e) ==> Count(r) < Count(e))
    decreases Size(e), 1, 0, 0
  {
    hide Operands, Rebuild, Pairs1, Sum, ConstFree;
    OperandsSize(op, e);
    if ConstFree(e) { OperandsConstFree(op, e); }
    Pairs1Count(op, Operands(op, e), 0, 0, Size(e));
    RebuildCount(op, e, Pairs1(op, Operands(op, e), 0, 0, Size(e)).0);
    RebuildCount(op, e, Operands(op, e));
    RebuildSame(op, e);
  }

  lemma {:induction false} Pairs1Count(op: Op, ls: seq<Expr>, i: nat, j: nat, bound: nat)
    requires i <= |ls| && j <= |ls| && Sum(Size, ls) < bound
    requires forall k :: 0 <= k < |ls| ==> !Is(op, ls[k])
    ensures var (r, c) := Pairs1(op, ls, i, j, bound);
      && Sum(Count, r) <= Sum(Count, ls) && (!c ==> r == ls)
      && (c && ConstFreeAll(ls) ==> Sum(Count, r) < Sum(Count, ls))
    decreases bound, 0, |ls| - i, |ls| - j
  {
    hide Sum, Dups1, Step1, ConstFree;
    if i == |ls| {
    } else if j == |ls| {
      Pairs1Count(op, ls, i + 1, 0, bound);
    } else if i == j {
      Pairs1Count(op, ls, i, j + 1, bound);
    } else {
      SumMember(Size, ls, i);
      var (e1, c1) := Inner1(op, ls[i]);
      if Is(Other(op), ls[i]) { Dups1Count(Other(op), ls[i]); }
      if ConstFreeAll(ls) { CountPositive(ls[j]); }
      Step1Count(op, ls, i, j, e1);
      var (ls1, c2) := Step1(op, ls, i, j, e1);
      assert !c1 && !c2 ==> ls1 == ls;
      Pairs1Count(op, ls1, i, j + 1, bound);
    }
  }

  lemma {:induction false} Dups2Count(op: Op, e: Expr)
    requires Is(op, e)
    ensures var (r, c) := Dups2(op, e);
      Count(r) <= Count(e) && (!c ==> r == e) && (c && ConstFree(e) ==> Count(r) < Count(e))
    decreases Size(e), 4, 0
  {
    hide Operands, Rebuild, Loop2, Sum, ConstFree;
    OperandsSize(op, e);
    if ConstFree(e) { OperandsConstFree(op, e); }
    Loop2Count(op, e, Operands(op, e), 0, Size(e));
    RebuildCount(op, e, Loop2(op, e, Operands(op, e), 0, Size(e)).0);
    RebuildCount(op, e, Operands(op, e));
    RebuildSame(op, e);
  }

  lemma {:induction false} Loop2Count(op: Op, e: Expr, ls: seq<Expr>, i: nat, bound: nat)
    requires |ls| == |Operands(op, e)| && i <= |ls| && Sum(Size, ls) < bound
    requires forall k :: 0 <= k < |ls| ==> !Is(op, ls[k])
    ensures var (r, c) := Loop2(op, e, ls, i, bound);
      && Sum(Count, r) <= Sum(Count, ls) && (!c ==> r == ls)
      && (c && ConstFreeAll(ls) ==> Sum(Count, r) < Sum(Count, ls))
    decreases bound, 3, |ls| - i
  {
    hide Sum, Operands, Walk2, ConstFree;
    if i < |ls| {
      Walk2Count(op, e, 0, i, ls, bound);
      Loop2Count(op, e, Walk2(op, e, 0, i, ls, bound).0, i + 1, bound);
    }
  }

  lemma {:induction false} Walk2Count(op: Op, node: Expr, lo: nat, i: nat, ls: seq<Expr>, bound: nat)
    requires lo + |Operands(op, node)| <= |ls| && i < |ls| && Sum(Size, ls) < bound
    requires forall k :: 0 <= k < |ls| ==> !Is(op, ls[k])
    ensures var (r, c) := Walk2(op, node, lo, i, ls, bound);
      && Sum(Count, r) <= Sum(Count, ls) && (!c ==> r == ls)
      && (c && ConstFreeAll(ls) ==> Sum(Count, r) < Sum(Count, ls))
    decreases bound, 2, Size(node)
  {
    hide Sum, Try2, ConstFree;
    if Is(op, node) {
      var n := lo + |Operands(op, node.l)|;
      var (ls1, c1) := Walk2(op, node.l, lo, i, ls, bound);
      Walk2Count(op, node.l, lo, i, ls, bound);
      var (ls2, c2) := Walk2(op, node.r, n, i, ls1, bound);
      Walk2Count(op, node.r, n, i, ls1, bound);
      Try2Count(op, node, lo, i, ls2, bound);
    } else if lo != i {
      Try2Count(op, node, lo, i, ls, bound);
    }
  }

  lemma {:induction false} Try2Count(op: Op, node: Expr, lo: nat, i: nat, ls: seq<Expr>, bound: nat)
    requires lo + |Operands(op, node)| <= |ls| && i < |ls| && Sum(Size, ls) < bound
    requires forall k :: 0 <= k < |ls| ==> !Is(op, ls[k])
    ensures var (r, c) := Try2(op, node, lo, i, ls, bound);
      && Sum(Count, r) <= Sum(Count, ls) && (!c ==> r == ls)
      && (c && ConstFreeAll(ls) ==> Sum(Count, r) < Sum(Count, ls))
    decreases bound, 1, 0
  {
    hide Sum, Operands, Rebuild, Dups2, ExtractEq, Transform, ConstFree;
    if Is(Other(op), ls[i]) {
      SumMember(Size, ls, i);
      Dups2Count(Other(op), ls[i]);
      if ConstFreeAll(ls) { CountPositive(ls[i]); }
      var (e1, c1) := Dups2(Other(op), ls[i]);
      SumUpdate(Count, ls, i, e1);
      SumUpdate(Count, ls, i, Zero(op));
      assert e1 == ls[i] ==> ls[i := e1] == ls;
    }
  }

  lemma {:induction false} YnCount(e: Expr)
    ensures Count(Yn(e)) <= Count(e)
    ensures Folded(Yn(e))
  {
    match e
    case And(l, r) => YnCount(l); YnCount(r);
    case Or(l, r) => YnCount(l); YnCount(r);
    case _ =>
  }

  /** `expr_eliminate_yn` has nothing to fold. */
  predicate Folded(e: Expr) {
    e == Sym(Yes) || e == Sym(No) || ConstFree(e)
  }

  // ---- expr_eliminate_dups ----

  /** One round of `expr_eliminate_dups`. */
  function Pass(e: Expr): (Expr, bool) {
    if e.And? || e.Or? then
      var op := if e.And? then AndOp else OrOp;
      var (a, c1) := Dups1(op, e);
      var (b, c2) := Dups2(op, a);
      (b, c1 || c2)
    else (e, false)
  }

  lemma PassCount(e: Expr)
    ensures var (r, c) := Pass(e);
      Count(r) <= Count(e) && (!c ==> r == e) && (c && Folded(e) ==> Count(r) < Count(e))
  {
    hide Dups1, Dups2, Count;
    if e.And? || e.Or? {
      var op := if e.And? then AndOp else OrOp;
      Dups1Count(op, e);
      Dups2Count(op, Dups1(op, e).0);
    }
  }

  /** `expr_eliminate_dups`: rounds until one counts no transformation. */
  function EliminateDups(e: Expr): Expr
    decreases !Folded(e), Count(e)
  {
    var (r, c) := Pass(e);
    PassCount(e);
    YnCount(r);
    if c then EliminateDups(Yn(r)) else r
  }

  /** The loop of `expr_eliminate_dups` terminates, with that result. */
  method EliminateDupsLoop(e0: Expr) returns (e: Expr)
    ensures e == EliminateDups(e0)
  {
    hide Pass, Count, Folded, Yn;
    e := e0;
    while true
      invariant EliminateDups(e) == EliminateDups(e0)
      decreases !Folded(e), Count(e)
    {
      PassCount(e);
      var (r, c) := Pass(e);
      if !c {
        return r;
      }
      YnCount(r);
      e := Yn(r);
    }
  }

  /** The result is a fixed point: another call finds nothing to do. */
  lemma {:induction false} EliminateDupsStable(e: Expr)
    ensures !Pass(EliminateDups(e)).1 && EliminateDups(EliminateDups(e)) == EliminateDups(e)
    decreases !Folded(e), Count(e)
  {
    hide Pass, Count, Folded, Yn;
    var (r, c) := Pass(e);
    PassCount(e);
    YnCount(r);
    if c { EliminateDupsStable(Yn(r)); }
  }

  lemma PassAll(p: Expr -> bool, e: Expr)
    requires Lenient(p) && AllOperands(p, e)
    ensures AllOperands(p, Pass(e).0)
  {
    hide Dups1, Dups2, AllOperands, Lenient;
    if e.And? || e.Or? {
      var op := if e.And? then AndOp else OrOp;
      Dups1All(p, op, e);
      Dups2All(p, op, Dups1(op, e).0);
    }
  }

  /** What holds of comparisons and 'y' and 'n' and of all operands still holds of all operands. */
  lemma {:induction false} EliminateDupsAll(p: Expr -> bool, e: Expr)
    requires Lenient(p) && AllOperands(p, e)
    ensures AllOperands(p, EliminateDups(e))
    decreases !Folded(e), Count(e)
  {
    hide Pass, Count, Folded, Yn, AllOperands, Lenient;
    var (r, c) := Pass(e);
    PassCount(e);
    YnCount(r);
    PassAll(p, e);
    if c {
      YnAll(p, r);
      EliminateDupsAll(p, Yn(r));
    }
  }

  lemma PassValue(e: Expr, v: Valuation)
    requires Consistent(v)
    ensures Sharper(Value(e, v), Value(Pass(e).0, v))
  {
    hide Consistent, Value, Dups1, Dups2;
    if e.And? || e.Or? {
      var op := if e.And? then AndOp else OrOp;
      Dups1Value(op, e, v);
      Dups2Value(op, Dups1(op, e).0, v);
    }
  }

  /** In every valuation `expr_eliminate_dups` preserves every value other than m. */
  lemma {:induction false} EliminateDupsValue(e: Expr, v: Valuation)
    requires Consistent(v)
    ensures Sharper(Value(e, v), Value(EliminateDups(e), v))
    decreases !Folded(e), Count(e)
  {
    hide Consistent, Value, Pass, Count, Folded, Yn;
    var (r, c) := Pass(e);
    PassCount(e);
    YnCount(r);
    PassValue(e, v);
    if c {
      YnValue(r, v);
      EliminateDupsValue(Yn(r), v);
    }
  }

  /** Some round of the second pass counts a transformation: it decides a chain. */
  predicate Decides(e: Expr)
    decreases !Folded(e), Count(e)
  {
    if !e.And? && !e.Or? then false
    else
      var op := if e.And? then AndOp else OrOp;
      var (a, c1) := Dups1(op, e);
      var (b, c2) := Dups2(op, a);
      PassCount(e);
      YnCount(b);
      c2 || (c1 && Decides(Yn(b)))
  }

  /** Otherwise every value is preserved, m included. */
  lemma {:induction false} EliminateDupsUndecided(e: Expr, v: Valuation)
    requires Consistent(v) && !Decides(e)
    ensures Value(EliminateDups(e), v) == Value(e, v)
    decreases !Folded(e), Count(e)
  {
    hide Consistent, Value, Dups1, Dups2, Count, Folded, Yn;
    if e.And? || e.Or? {
      var op := if e.And? then AndOp else OrOp;
      var (a, c1) := Dups1(op, e);
      Dups1Value(op, e, v);
      Dups2Count(op, a);
      PassCount(e);
      YnCount(a);
      YnValue(a, v);
      if c1 { EliminateDupsUndecided(Yn(a), v); }
    }
  }

  /** Without m-valued symbols every value is preserved. */
  lemma EliminateDupsNoMod(e: Expr, v: Valuation)
    requires Consistent(v) && (forall s :: s != Mod ==> v.tri(s) != 1) && NoModConstant(e)
    ensures Value(EliminateDups(e), v) == Value(e, v) != 1
  {
    hide Consistent, EliminateDups;
    EliminateDupsValue(e, v);
    NoModValue(e, v);
  }

  lemma {:induction false} NoModValue(e: Expr, v: Valuation)
    requires (forall s :: s != Mod ==> v.tri(s) != 1) && NoModConstant(e)
    ensures Value(e, v) != 1
  {
    match e
    case And(l, r) => NoModValue(l, v); NoModValue(r, v);
    case Or(l, r) => NoModValue(l, v); NoModValue(r, v);
    case Not(x) => NoModValue(x, v);
    case _ =>
  }

  /** The constant 'm' does not stand as an operand. */
  predicate NoModConstant(e: Expr) {
    match e
    case Sym(s) => s != Mod
    case Not(x) => NoModConstant(x)
    case And(l, r) => NoModConstant(l) && NoModConstant(r)
    case Or(l, r) => NoModConstant(l) && NoModConstant(r)
    case _ => true
  }

  // ---- the second pass does not keep m ----

  const FOO := Sym(Named(0, Tristate, false))
  const BAR := Sym(Named(1, Tristate, false))
  const CLASH := And(Or(FOO, BAR), And(Not(FOO), Not(BAR)))

  lemma ClashParts()
    ensures Transform(Not(Or(FOO, BAR))) == And(Not(FOO), Not(BAR))
    ensures Dups2(OrOp, Or(FOO, BAR)) == (Or(FOO, BAR), false)
  {
  }

  lemma ClashExtract()
    ensures ExtractEq(AndOp, And(Not(FOO), Not(BAR)), And(Not(FOO), Not(BAR))).1 == Sym(Yes)
    ensures ExtractEq(AndOp, And(Not(FOO), Not(BAR)), Not(FOO)).1 == Not(BAR)
    ensures ExtractEq(AndOp, And(Not(FOO), Not(BAR)), Not(BAR)).1 == Not(FOO)
  {
    assert Extract(AndOp, None, And(Not(FOO), Not(BAR)), And(Not(FOO), Not(BAR))).1 == And(Sym(Yes), Sym(Yes));
  }

  lemma ClashTry(node: Expr, lo: nat, ls: seq<Expr>, bound: nat)
    requires lo + |Operands(AndOp, node)| <= |ls| && |ls| > 0 && Sum(Size, ls) < bound && ls[0] == Or(FOO, BAR)
    requires forall k :: 0 <= k < |ls| ==> !Is(AndOp, ls[k])
    ensures var e2 := Rebuild(AndOp, node, ls[lo..lo + |Operands(AndOp, node)|]);
      Try2(AndOp, node, lo, 0, ls, bound) ==
        if ExtractEq(AndOp, And(Not(FOO), Not(BAR)), e2).1 == Sym(Yes) then (ls[0 := Sym(No)], true) else (ls, false)
  {
    hide ExtractEq, Transform, Dups2, Rebuild, Operands, Sum;
    ClashParts();
    assert ls[0 := Or(FOO, BAR)] == ls;
  }

  lemma {:induction false} IdleWalk(op: Op, node: Expr, lo: nat, i: nat, ls: seq<Expr>, bound: nat)
    requires lo + |Operands(op, node)| <= |ls| && i < |ls| && Sum(Size, ls) < bound && !Is(Other(op), ls[i])
    requires forall k :: 0 <= k < |ls| ==> !Is(op, ls[k])
    ensures Walk2(op, node, lo, i, ls, bound) == (ls, false)
    decreases Size(node)
  {
    hide Sum;
    if Is(op, node) {
      IdleWalk(op, node.l, lo, i, ls, bound);
      IdleWalk(op, node.r, lo + |Operands(op, node.l)|, i, ls, bound);
    }
  }

  lemma ClashWalk(bound: nat)
    requires Sum(Size, [Or(FOO, BAR), Not(FOO), Not(BAR)]) < bound
    ensures |Operands(AndOp, CLASH)| == 3
    ensures Walk2(AndOp, CLASH, 0, 0, [Or(FOO, BAR), Not(FOO), Not(BAR)], bound) == ([Sym(No), Not(FOO), Not(BAR)], true)
  {
    hide ExtractEq, Transform, Dups2, Sum, Try2;
    var ls := [Or(FOO, BAR), Not(FOO), Not(BAR)];
    var rest := And(Not(FOO), Not(BAR));
    assert Operands(AndOp, rest) == [Not(FOO), Not(BAR)];
    ClashExtract();
    ClashTry(Not(FOO), 1, ls, bound);
    Slices(Or(FOO, BAR), Not(FOO), Not(BAR), Sym(No));
    ClashTry(Not(BAR), 2, ls, bound);
    ClashTry(rest, 1, ls, bound);
    RebuildSame(AndOp, rest);
    assert Walk2(AndOp, Not(FOO), 1, 0, ls, bound) == (ls, false);
    assert Walk2(AndOp, Not(BAR), 2, 0, ls, bound) == (ls, false);
    assert Walk2(AndOp, rest, 1, 0, ls, bound) == (ls[0 := Sym(No)], true);
    assert |Operands(AndOp, Or(FOO, BAR))| == 1;
    assert Walk2(AndOp, Or(FOO, BAR), 0, 0, ls, bound) == (ls, false);
    SumUpdate(Size, ls, 0, Sym(No));
    IdleTry(AndOp, CLASH, 0, 0, ls[0 := Sym(No)], bound);
    assert CLASH.l == Or(FOO, BAR) && CLASH.r == rest;
  }

  lemma Slices(a: Expr, b: Expr, c: Expr, d: Expr)
    ensures [a, b, c][1..2] == [b] && [a, b, c][2..3] == [c] && [a, b, c][1..3] == [b, c]
    ensures [a, b, c][0 := d] == [d, b, c]
  {
  }

  lemma IdleTry(op: Op, node: Expr, lo: nat, i: nat, ls: seq<Expr>, bound: nat)
    requires lo + |Operands(op, node)| <= |ls| && i < |ls| && Sum(Size, ls) < bound && !Is(Other(op), ls[i])
    requires forall k :: 0 <= k < |ls| ==> !Is(op, ls[k])
    ensures Try2(op, node, lo, i, ls, bound) == (ls, false)
  {
  }

  lemma ClashLoop()
    ensures Operands(AndOp, CLASH) == [Or(FOO, BAR), Not(FOO), Not(BAR)]
    ensures Dups2(AndOp, CLASH).0 == Rebuild(AndOp, CLASH, [Sym(No), Not(FOO), Not(BAR)])
  {
    hide Try2, Walk2, Sum, Rebuild;
    var ls := [Or(FOO, BAR), Not(FOO), Not(BAR)];
    var rs := [Sym(No), Not(FOO), Not(BAR)];
    assert Operands(AndOp, CLASH) == ls;
    OperandsSize(AndOp, CLASH);
    var bound := Size(CLASH);
    ClashWalk(bound);
    SumUpdate(Size, ls, 0, Sym(No));
    assert ls[0 := Sym(No)] == rs;
    IdleWalk(AndOp, CLASH, 0, 1, rs, bound);
    IdleWalk(AndOp, CLASH, 0, 2, rs, bound);
    assert Loop2(AndOp, CLASH, rs, 3, bound).0 == rs;
    assert Loop2(AndOp, CLASH, rs, 2, bound).0 == rs;
    assert Loop2(AndOp, CLASH, rs, 1, bound).0 == rs;
  }

  lemma ClashRebuilt()
    ensures Dups2(AndOp, CLASH).0 == And(Sym(No), And(Not(FOO), Not(BAR)))
  {
    hide Dups2;
    ClashLoop();
    var rs := [Sym(No), Not(FOO), Not(BAR)];
    assert Rebuild(AndOp, CLASH.r, rs[1..]) == And(Not(FOO), Not(BAR)) by {
      assert rs[1..][..1] == [Not(FOO)] && rs[1..][1..] == [Not(BAR)];
    }
    assert Rebuild(AndOp, CLASH.l, rs[..1]) == Sym(No);
  }

  /** With `FOO` and `BAR` both m, the pass turns an expression of value m into one of value n. */
  lemma ModLost()
    ensures var v := AllMod();
      Consistent(v) && Value(FOO, v) == Value(BAR, v) == 1 && Value(CLASH, v) == 1 && Value(Dups2(AndOp, CLASH).0, v) == 0
  {
    hide Dups2, Consistent;
    AllModConsistent();
    ClashRebuilt();
    var v, rest := AllMod(), And(Not(FOO), Not(BAR));
    assert Value(FOO, v) == Value(BAR, v) == 1;
    assert Value(Or(FOO, BAR), v) == 1 && Value(Not(FOO), v) == 1 && Value(Not(BAR), v) == 1;
    assert Value(rest, v) == 1 && CLASH == And(Or(FOO, BAR), rest);
  }

  // the first pass finds nothing to join in it

  lemma Unjoined(op: Op, ls: seq<Expr>, i: nat, j: nat, bound: nat)
    requires i <= |ls| && j <= |ls| && Sum(Size, ls) < bound && forall k :: 0 <= k < |ls| ==> !Is(op, ls[k])
    requires forall a :: 0 <= a < |ls| ==> Inner1(op, ls[a]) == (ls[a], false)
    requires forall a, b :: 0 <= a < |ls| && 0 <= b < |ls| && a != b ==> JoinTests(op, ls[a], ls[b]) == None
    ensures Pairs1(op, ls, i, j, bound) == (ls, false)
    decreases |ls| - i, |ls| - j
  {
    hide Inner1, JoinTests, Sum;
    if i < |ls| {
      if j == |ls| {
        Unjoined(op, ls, i + 1, 0, bound);
      } else {
        assert ls[i := ls[i]] == ls;
        Unjoined(op, ls, i, j + 1, bound);
      }
    }
  }

  lemma UnjoinedChain(op: Op, e: Expr)
    requires Is(op, e)
    requires forall a :: 0 <= a < |Operands(op, e)| ==> Inner1(op, Operands(op, e)[a]) == (Operands(op, e)[a], false)
    requires forall a, b :: 0 <= a < |Operands(op, e)| && 0 <= b < |Operands(op, e)| && a != b ==>
      JoinTests(op, Operands(op, e)[a], Operands(op, e)[b]) == None
    ensures Dups1(op, e) == (e, false)
  {
    hide Inner1, JoinTests, Sum, Operands, Rebuild;
    OperandsSize(op, e);
    Unjoined(op, Operands(op, e), 0, 0, Size(e));
    RebuildSame(op, e);
  }

  /** Nor does the second pass, where no operand is a chain. */
  lemma IdleChain(op: Op, e: Expr)
    requires Is(op, e) && forall k :: 0 <= k < |Operands(op, e)| ==> !Is(Other(op), Operands(op, e)[k])
    ensures Dups2(op, e) == (e, false)
  {
    hide Sum, Operands, Rebuild, Walk2;
    OperandsSize(op, e);
    IdleLoop(op, e, Operands(op, e), 0, Size(e));
    RebuildSame(op, e);
  }

  lemma {:induction false} IdleLoop(op: Op, e: Expr, ls: seq<Expr>, i: nat, bound: nat)
    requires |ls| == |Operands(op, e)| && i <= |ls| && Sum(Size, ls) < bound
    requires forall k :: 0 <= k < |ls| ==> !Is(op, ls[k]) && !Is(Other(op), ls[k])
    ensures Loop2(op, e, ls, i, bound) == (ls, false)
    decreases |ls| - i
  {
    hide Sum, Operands, Walk2;
    if i < |ls| {
      IdleWalk(op, e, 0, i, ls, bound);
      IdleLoop(op, e, ls, i + 1, bound);
    }
  }

  lemma ClashFirst()
    ensures Dups1(AndOp, CLASH) == (CLASH, false)
  {
    hide Dups1;
    var either, ls := Or(FOO, BAR), [Or(FOO, BAR), Not(FOO), Not(BAR)];
    assert Operands(OrOp, either) == [FOO, BAR];
    assert JoinTests(OrOp, FOO, BAR) == None && JoinTests(OrOp, BAR, FOO) == None;
    UnjoinedChain(OrOp, either);
    assert Operands(AndOp, CLASH) == ls by { assert Operands(AndOp, CLASH.r) == [Not(FOO), Not(BAR)]; }
    UnjoinedChain(AndOp, CLASH);
  }

  /** So `expr_eliminate_dups` as a whole loses the value m of this expression. */
  lemma ModLostAltogether()
    ensures EliminateDups(CLASH) == Sym(No) && Consistent(AllMod())
    ensures Value(CLASH, AllMod()) == 1 && Value(EliminateDups(CLASH), AllMod()) == 0
  {
    hide Dups1, Dups2, Consistent;
    ClashFirst();
    ClashRebuilt();
    ModLost();
    var (r, c) := Pass(CLASH);
    PassCount(CLASH);
    assert r == And(Sym(No), And(Not(FOO), Not(BAR))) && r != CLASH;
    assert Yn(r) == Sym(No);
    assert EliminateDups(Sym(No)) == Sym(No);
  }
}

/** `expr_eliminate_dups`: repeated passes that merge operands of a chain of ands or ors.

    The passes walk a tree with two pointers into itself. The operator nodes along the chain never
    change, only the operands below them do, so a chain is its shape and the list of its operands:
    each pass updates that list. A pass also reports whether it counted a transformation. */
module KconfigDups {
  import opened Basics
  import opened KconfigExpr
  import opened KconfigTransform

  // ---- chains ----

  /** The operands of the chain of `op` nodes at the root of `e`, left to right. */
  function Operands(op: Op, e: Expr): (ls: seq<Expr>)
    ensures |ls| >= 1
    ensures forall k :: 0 <= k < |ls| ==> !Is(op, ls[k])
    ensures Is(op, e) ==> |ls| >= 2
  {
    if Is(op, e) then Operands(op, e.l) + Operands(op, e.r) else [e]
  }

  /** The chain of the shape of `e` over other operands. */
  function Rebuild(op: Op, e: Expr, ls: seq<Expr>): (r: Expr)
    requires |ls| == |Operands(op, e)|
    ensures Is(op, e) ==> Is(op, r)
  {
    if Is(op, e) then
      var n := |Operands(op, e.l)|;
      Node(op, Rebuild(op, e.l, ls[..n]), Rebuild(op, e.r, ls[n..]))
    else ls[0]
  }

  function Sum(f: Expr -> nat, ls: seq<Expr>): nat {
    if ls == [] then 0 else f(ls[0]) + Sum(f, ls[1..])
  }

  lemma {:induction false} SumConcat(f: Expr -> nat, a: seq<Expr>, b: seq<Expr>)
    ensures Sum(f, a + b) == Sum(f, a) + Sum(f, b)
  {
    if a == [] {
      assert a + b == b;
    } else {
      assert (a + b)[1..] == a[1..] + b;
      SumConcat(f, a[1..], b);
    }
  }

  lemma {:induction false} SumUpdate(f: Expr -> nat, ls: seq<Expr>, i: nat, x: Expr)
    requires i < |ls|
    ensures Sum(f, ls[i := x]) + f(ls[i]) == Sum(f, ls) + f(x)
  {
    if i == 0 {
      assert ls[0 := x][1..] == ls[1..];
    } else {
      assert ls[i := x][1..] == ls[1..][i - 1 := x];
      SumUpdate(f, ls[1..], i - 1, x);
    }
  }

  lemma {:induction false} SumMember(f: Expr -> nat, ls: seq<Expr>, i: nat)
    requires i < |ls|
    ensures f(ls[i]) <= Sum(f, ls)
  {
    if i > 0 {
      SumMember(f, ls[1..], i - 1);
    }
  }

  lemma {:induction false} RebuildSame(op: Op, e: Expr)
    ensures Rebuild(op, e, Operands(op, e)) == e
  {
    if Is(op, e) {
      var a, b := Operands(op, e.l), Operands(op, e.r);
      RebuildSame(op, e.l);
      RebuildSame(op, e.r);
      assert (a + b)[..|a|] == a && (a + b)[|a|..] == b;
    }
  }

  /** The operands of a rebuilt chain are the given ones. */
  lemma {:induction false} RebuildOperands(op: Op, e: Expr, ls: seq<Expr>)
    requires |ls| == |Operands(op, e)| && forall k :: 0 <= k < |ls| ==> !Is(op, ls[k])
    ensures Operands(op, Rebuild(op, e, ls)) == ls
  {
    if Is(op, e) {
      var n := |Operands(op, e.l)|;
      RebuildOperands(op, e.l, ls[..n]);
      RebuildOperands(op, e.r, ls[n..]);
      assert ls[..n] + ls[n..] == ls;
    }
  }

  lemma {:induction false} OperandsSize(op: Op, e: Expr)
    ensures Sum(Size, Operands(op, e)) <= Size(e)
    ensures Is(op, e) ==> Sum(Size, Operands(op, e)) < Size(e)
  {
    if Is(op, e) {
      OperandsSize(op, e.l);
      OperandsSize(op, e.r);
      SumConcat(Size, Operands(op, e.l), Operands(op, e.r));
    }
  }

  lemma SumSingle(f: Expr -> nat, x: Expr)
    ensures Sum(f, [x]) == f(x)
  {
  }

  /** Replacing the operands changes the size of a chain by what it changes theirs. */
  lemma {:induction false} RebuildSize(op: Op, e: Expr, ls: seq<Expr>)
    requires |ls| == |Operands(op, e)|
    ensures Size(Rebuild(op, e, ls)) + Sum(Size, Operands(op, e)) == Size(e) + Sum(Size, ls)
  {
    hide Sum;
    if Is(op, e) {
      var a, b := Operands(op, e.l), Operands(op, e.r);
      var x, y := ls[..|a|], ls[|a|..];
      RebuildSize(op, e.l, x);
      RebuildSize(op, e.r, y);
      SumConcat(Size, a, b);
      SumConcat(Size, x, y);
      assert x + y == ls;
      NodeSize(op, e.l, e.r);
      NodeSize(op, Rebuild(op, e.l, x), Rebuild(op, e.r, y));
      assert Operands(op, e) == a + b && Rebuild(op, e, ls) == Node(op, Rebuild(op, e.l, x), Rebuild(op, e.r, y));
    } else {
      assert ls == [ls[0]];
      SumSingle(Size, ls[0]);
      SumSingle(Size, e);
    }
  }

  lemma NodeSize(op: Op, l: Expr, r: Expr)
    ensures Size(Node(op, l, r)) == 1 + Size(l) + Size(r)
  {
  }

  // ---- expr_join_or and expr_join_and ----

  /** The symbol a test is about, for the first operand of a join. */
  function TestedFirst(e: Expr): Option<Symbol> {
    match e
    case Sym(s) => Some(s)
    case Equal(s, _) => Some(s)
    case Unequal(s, _) => Some(s)
    case Not(Sym(s)) => Some(s)
    case Not(Equal(s, _)) => Some(s)
    case Not(Unequal(s, _)) => Some(s)
    case _ => None
  }

  /** The same for the second operand, where only symbols may be negated. */
  function TestedSecond(e: Expr): Option<Symbol> {
    match e
    case Sym(s) => Some(s)
    case Equal(s, _) => Some(s)
    case Unequal(s, _) => Some(s)
    case Not(Sym(s)) => Some(s)
    case _ => None
  }

  predicate Are(a: Symbol, b: Symbol, x: Symbol, y: Symbol) {
    (a == x && b == y) || (a == y && b == x)
  }

  function OrTests(e1: Expr, e2: Expr, s: Symbol): Option<Expr> {
    if Kind(s) == Tristate && e1.Equal? && e2.Equal? && Are(e1.right, e2.right, Yes, Mod) then Some(Unequal(s, No))
    else if Kind(s) == Tristate && e1.Equal? && e2.Equal? && Are(e1.right, e2.right, Yes, No) then Some(Unequal(s, Mod))
    else if Kind(s) == Tristate && e1.Equal? && e2.Equal? && Are(e1.right, e2.right, Mod, No) then Some(Unequal(s, Yes))
    else if Kind(s) == Boolean && ((e1.Not? && e1.arg.Sym? && e2.Sym?) || (e2.Not? && e2.arg.Sym? && e1.Sym?)) then Some(Sym(Yes))
    else None
  }

  function AndTests(e1: Expr, e2: Expr, s: Symbol): Option<Expr> {
    if (e1.Sym? && e2.Equal? && e2.right == Yes) || (e2.Sym? && e1.Equal? && e1.right == Yes) then Some(Equal(s, Yes))
    else if (e1.Sym? && e2.Unequal? && e2.right == No) || (e2.Sym? && e1.Unequal? && e1.right == No) then Some(Sym(s))
    else if (e1.Sym? && e2.Unequal? && e2.right == Mod) || (e2.Sym? && e1.Unequal? && e1.right == Mod) then Some(Equal(s, Yes))
    else if Kind(s) != Tristate then None
    else if e1.Equal? && e2.Unequal? && IsConst(e2.right) && IsConst(e1.right) then
      Some(if e1.right != e2.right then Equal(s, e1.right) else Sym(No))
    else if e1.Unequal? && e2.Equal? && IsConst(e1.right) && IsConst(e2.right) then
      Some(if e2.right != e1.right then Equal(s, e2.right) else Sym(No))
    else if e1.Unequal? && e2.Unequal? && Are(e1.right, e2.right, Yes, No) then Some(Equal(s, Mod))
    else if e1.Unequal? && e2.Unequal? && Are(e1.right, e2.right, Yes, Mod) then Some(Equal(s, No))
    else if e1.Unequal? && e2.Unequal? && Are(e1.right, e2.right, Mod, No) then Some(Equal(s, Yes))
    else None
  }

  /** `expr_join_or` and `expr_join_and`: one operand that stands for both, if there is one. */
  function JoinTests(op: Op, e1: Expr, e2: Expr): Option<Expr> {
    if Eq(e1, e2) then Some(e1)
    else
      var s1, s2 := TestedFirst(e1), TestedSecond(e2);
      if s1.None? || s1 != s2 then None
      else if Kind(s1.value) != Boolean && Kind(s1.value) != Tristate then None
      else match op case OrOp => OrTests(e1, e2, s1.value) case AndOp => AndTests(e1, e2, s1.value)
  }

  lemma SymbolString(v: Valuation, s: Symbol)
    requires Consistent(v) && (Kind(s) == Boolean || Kind(s) == Tristate)
    ensures v.str(s) == (if v.tri(s) == 0 then v.str(No) else if v.tri(s) == 1 then v.str(Mod) else v.str(Yes))
    ensures v.str(No) != v.str(Mod) && v.str(No) != v.str(Yes) && v.str(Yes) != v.str(Mod)
    ensures Kind(s) == Boolean ==> v.tri(s) != 1
    ensures v.tri(Yes) == 2 && v.tri(No) == 0
  {
    assert v.str(No) == ['n'] && v.str(Mod) == ['m'] && v.str(Yes) == ['y'];
  }

  lemma ConstStrings(v: Valuation, a: Symbol, b: Symbol)
    requires Consistent(v) && IsConst(a) && IsConst(b)
    ensures a == b <==> v.str(a) == v.str(b)
  {
  }

  /** A join has the joined value, in every valuation. */
  lemma JoinTestsValue(op: Op, e1: Expr, e2: Expr, v: Valuation)
    requires Consistent(v) && JoinTests(op, e1, e2).Some?
    ensures Value(JoinTests(op, e1, e2).value, v) == Join(op, Value(e1, v), Value(e2, v))
  {
    hide Consistent;
    if Eq(e1, e2) {
      EqSound(e1, e2, v);
    } else {
      var s := TestedFirst(e1).value;
      SymbolString(v, s);
      if op == OrOp {
        hide Eq, AndTests;
        OrTestsValue(e1, e2, s, v);
      } else {
        hide Eq, OrTests;
        AndTestsValue(e1, e2, s, v);
      }
    }
  }

  lemma OrTestsValue(e1: Expr, e2: Expr, s: Symbol, v: Valuation)
    requires Consistent(v) && (Kind(s) == Boolean || Kind(s) == Tristate)
    requires TestedFirst(e1) == Some(s) && TestedSecond(e2) == Some(s) && OrTests(e1, e2, s).Some?
    ensures Value(OrTests(e1, e2, s).value, v) == TriOr(Value(e1, v), Value(e2, v))
  {
    hide Consistent;
    SymbolString(v, s);
  }

  lemma AndTestsValue(e1: Expr, e2: Expr, s: Symbol, v: Valuation)
    requires Consistent(v) && (Kind(s) == Boolean || Kind(s) == Tristate)
    requires TestedFirst(e1) == Some(s) && TestedSecond(e2) == Some(s) && AndTests(e1, e2, s).Some?
    ensures Value(AndTests(e1, e2, s).value, v) == TriAnd(Value(e1, v), Value(e2, v))
  {
    hide Consistent;
    SymbolString(v, s);
    if (e1.Equal? && e2.Unequal?) || (e1.Unequal? && e2.Equal?) {
      if IsConst(e1.right) && IsConst(e2.right) {
        ConstStrings(v, e1.right, e2.right);
      }
    }
  }

  lemma JoinTestsShape(op: Op, e1: Expr, e2: Expr)
    requires JoinTests(op, e1, e2).Some?
    ensures var t := JoinTests(op, e1, e2).value;
      && Size(t) + 1 <= Size(e1) + Size(e2)
      && (!Is(op, e1) ==> !Is(op, t))
  {
    hide Eq;
  }

  // ---- the first pass ----

  function Other(op: Op): Op {
    match op case AndOp => OrOp case OrOp => AndOp
  }

  /** `expr_eliminate_dups1(op, &e, &e)` on a chain `e`. */
  function Dups1(op: Op, e: Expr): (r: (Expr, bool))
    requires Is(op, e)
    ensures Is(op, r.0) && Size(r.0) <= Size(e)
    decreases Size(e), 1, 0, 0
  {
    OperandsSize(op, e);
    var (ls, c) := Pairs1(op, Operands(op, e), 0, 0, Size(e));
    RebuildSize(op, e, ls);
    (Rebuild(op, e, ls), c)
  }

  /** An operand that is a chain of the other operator is reduced first. */
  function Inner1(op: Op, e: Expr): (r: (Expr, bool))
    requires !Is(op, e)
    ensures Size(r.0) <= Size(e) && !Is(op, r.0)
    decreases Size(e), 2, 0, 0
  {
    if Is(Other(op), e) then Dups1(Other(op), e) else (e, false)
  }

  /** All ordered pairs of different operands from (i, j) on; `bound` is the size of the chain. */
  function Pairs1(op: Op, ls: seq<Expr>, i: nat, j: nat, bound: nat): (r: (seq<Expr>, bool))
    requires i <= |ls| && j <= |ls| && Sum(Size, ls) < bound
    requires forall k :: 0 <= k < |ls| ==> !Is(op, ls[k])
    ensures |r.0| == |ls| && Sum(Size, r.0) <= Sum(Size, ls)
    ensures forall k :: 0 <= k < |ls| ==> !Is(op, r.0[k])
    decreases bound, 0, |ls| - i, |ls| - j
  {
    if i == |ls| then (ls, false)
    else if j == |ls| then Pairs1(op, ls, i + 1, 0, bound)
    else if i == j then Pairs1(op, ls, i, j + 1, bound)
    else
      SumMember(Size, ls, i);
      var (e1, c1) := Inner1(op, ls[i]);
      var (ls', c2) := Step1(op, ls, i, j, e1);
      var (r, c3) := Pairs1(op, ls', i, j + 1, bound);
      (r, c1 || c2 || c3)
  }

  /** Join operand `i`, already reduced to `e1`, into operand `j`. */
  function Step1(op: Op, ls: seq<Expr>, i: nat, j: nat, e1: Expr): (r: (seq<Expr>, bool))
    requires i < |ls| && j < |ls| && i != j && !Is(op, e1) && Size(e1) <= Size(ls[i])
    requires forall k :: 0 <= k < |ls| ==> !Is(op, ls[k])
    ensures |r.0| == |ls| && Sum(Size, r.0) <= Sum(Size, ls)
    ensures forall k :: 0 <= k < |ls| ==> !Is(op, r.0[k])
  {
    SumUpdate(Size, ls, i, e1);
    match JoinTests(op, e1, ls[j])
    case None => (ls[i := e1], false)
    case Some(t) =>
      JoinTestsShape(op, e1, ls[j]);
      SumUpdate(Size, ls, i, Unit(op));
      SumUpdate(Size, ls[i := Unit(op)], j, t);
      (ls[i := Unit(op)][j := t], true)
  }

  // ---- what the first pass keeps ----

  /** The value of a chain with these operands. */
  function JoinAll(op: Op, ls: seq<Expr>, v: Valuation): Tri {
    if ls == [] then Value(Unit(op), v) else Join(op, Value(ls[0], v), JoinAll(op, ls[1..], v))
  }

  lemma {:induction false} JoinAllConcat(op: Op, a: seq<Expr>, b: seq<Expr>, v: Valuation)
    requires Consistent(v)
    ensures JoinAll(op, a + b, v) == Join(op, JoinAll(op, a, v), JoinAll(op, b, v))
  {
    hide Consistent, Join, Value;
    if a == [] {
      assert a + b == b;
      UnitValue(op, v, JoinAll(op, b, v));
    } else {
      assert (a + b)[1..] == a[1..] + b;
      JoinAllConcat(op, a[1..], b, v);
      JoinLaws(op, Value(a[0], v), JoinAll(op, a[1..], v), JoinAll(op, b, v), 0);
    }
  }

  /** A chain has the joined value of its operands. */
  lemma {:induction false} ChainValue(op: Op, e: Expr, ls: seq<Expr>, v: Valuation)
    requires Consistent(v) && |ls| == |Operands(op, e)|
    ensures Value(Rebuild(op, e, ls), v) == JoinAll(op, ls, v)
  {
    hide Consistent, Join, Value;
    if Is(op, e) {
      var n := |Operands(op, e.l)|;
      ChainValue(op, e.l, ls[..n], v);
      ChainValue(op, e.r, ls[n..], v);
      JoinAllConcat(op, ls[..n], ls[n..], v);
      assert ls[..n] + ls[n..] == ls;
      NodeValue(op, Rebuild(op, e, ls), v);
    } else {
      assert ls == [ls[0]];
      UnitValue(op, v, Value(ls[0], v));
    }
  }

  /** One operand can be singled out of the joined value. */
  lemma {:induction false} JoinAllAt(op: Op, ls: seq<Expr>, i: nat, x: Expr, v: Valuation)
    requires Consistent(v) && i < |ls|
    ensures JoinAll(op, ls[i := x], v) == Join(op, Value(x, v), JoinAll(op, ls[i := Unit(op)], v))
  {
    hide Consistent, Join, Value;
    var u := Unit(op);
    if i == 0 {
      assert ls[0 := x][1..] == ls[1..] == ls[0 := u][1..];
      UnitValue(op, v, JoinAll(op, ls[1..], v));
    } else {
      assert ls[i := x][1..] == ls[1..][i - 1 := x] && ls[i := u][1..] == ls[1..][i - 1 := u];
      JoinAllAt(op, ls[1..], i - 1, x, v);
      var rest := JoinAll(op, ls[1..][i - 1 := u], v);
      JoinLaws(op, Value(ls[0], v), Value(x, v), rest, 0);
      JoinLaws(op, Value(x, v), Value(ls[0], v), rest, 0);
    }
  }

  lemma {:induction false} Step1Value(op: Op, ls: seq<Expr>, i: nat, j: nat, e1: Expr, v: Valuation)
    requires Consistent(v) && i < |ls| && j < |ls| && i != j && !Is(op, e1) && Size(e1) <= Size(ls[i])
    requires forall k :: 0 <= k < |ls| ==> !Is(op, ls[k])
    requires Value(e1, v) == Value(ls[i], v)
    ensures JoinAll(op, Step1(op, ls, i, j, e1).0, v) == JoinAll(op, ls, v)
  {
    hide Consistent, Join, Value, JoinAll, JoinTests;
    var u := Unit(op);
    JoinAllAt(op, ls, i, ls[i], v);
    assert ls[i := ls[i]] == ls;
    match JoinTests(op, e1, ls[j])
    case None => JoinAllAt(op, ls, i, e1, v);
    case Some(t) =>
      JoinTestsValue(op, e1, ls[j], v);
      var lu := ls[i := u];
      JoinAllAt(op, lu, j, ls[j], v);
      assert lu[j := ls[j]] == lu;
      JoinAllAt(op, lu, j, t, v);
      JoinLaws(op, Value(ls[i], v), Value(ls[j], v), JoinAll(op, lu[j := u], v), 0);
  }

  /** The first pass preserves the value in every valuation. */
  lemma {:induction false} Dups1Value(op: Op, e: Expr, v: Valuation)
    requires Consistent(v) && Is(op, e)
    ensures Value(Dups1(op, e).0, v) == Value(e, v)
    decreases Size(e), 1, 0, 0
  {
    hide Consistent, Value, Operands, Rebuild, Pairs1, Sum;
    OperandsSize(op, e);
    Pairs1Value(op, Operands(op, e), 0, 0, Size(e), v);
    var (ls, c) := Pairs1(op, Operands(op, e), 0, 0, Size(e));
    ChainValue(op, e, ls, v);
    RebuildSame(op, e);
    ChainValue(op, e, Operands(op, e), v);
  }

  lemma {:induction false} Pairs1Value(op: Op, ls: seq<Expr>, i: nat, j: nat, bound: nat, v: Valuation)
    requires Consistent(v) && i <= |ls| && j <= |ls| && Sum(Size, ls) < bound
    requires forall k :: 0 <= k < |ls| ==> !Is(op, ls[k])
    ensures JoinAll(op, Pairs1(op, ls, i, j, bound).0, v) == JoinAll(op, ls, v)
    decreases bound, 0, |ls| - i, |ls| - j
  {
    hide Consistent, Value, JoinAll, Sum, Step1, Dups1;
    if i == |ls| {
    } else if j == |ls| {
      Pairs1Value(op, ls, i + 1, 0, bound, v);
    } else if i == j {
      Pairs1Value(op, ls, i, j + 1, bound, v);
    } else {
      SumMember(Size, ls, i);
      var (e1, c1) := Inner1(op, ls[i]);
      if Is(Other(op), ls[i]) { Dups1Value(Other(op), ls[i], v); }
      Step1Value(op, ls, i, j, e1, v);
      Pairs1Value(op, Step1(op, ls, i, j, e1).0, i, j + 1, bound, v);
    }
  }

  // ---- expr_extract_eq ----

  /** `expr_extract_eq`: like elimination, but also collecting what was removed. */
  function Extract(op: Op, acc: Option<Expr>, e1: Expr, e2: Expr): (r: (Option<Expr>, Expr, Expr))
    ensures Size(r.1) <= Size(e1) && Size(r.2) <= Size(e2)
    decreases Size(e1) + Size(e2)
  {
    if Is(op, e1) then
      var (acc1, l, e2') := Extract(op, acc, e1.l, e2);
      var (acc2, r, e2'') := Extract(op, acc1, e1.r, e2');
      (acc2, Node(op, l, r), e2'')
    else if Is(op, e2) then
      var (acc1, e1', l) := Extract(op, acc, e1, e2.l);
      var (acc2, e1'', r) := Extract(op, acc1, e1', e2.r);
      (acc2, e1'', Node(op, l, r))
    else if Eq(e1, e2) then
      (Some(if acc.Some? then Node(op, acc.value, e1) else e1), Unit(op), Unit(op))
    else (acc, e1, e2)
  }

  /** `expr_extract_eq_and` and `expr_extract_eq_or` */
  function ExtractEq(op: Op, e1: Expr, e2: Expr): (r: (Option<Expr>, Expr, Expr)) {
    var (acc, r1, r2) := Extract(op, None, e1, e2);
    if acc.Some? then (acc, Yn(r1), Yn(r2)) else (acc, r1, r2)
  }

  function Collected(op: Op, acc: Option<Expr>, v: Valuation): Tri {
    if acc.Some? then Value(acc.value, v) else Value(Unit(op), v)
  }

  /** What extraction collects is the common operand it removes. */
  lemma {:induction false} ExtractFactor(op: Op, acc: Option<Expr>, e1: Expr, e2: Expr, v: Valuation) returns (c: Tri)
    requires Consistent(v)
    ensures var (acc', r1, r2) := Extract(op, acc, e1, e2);
      && Value(e1, v) == Join(op, c, Value(r1, v)) && Value(e2, v) == Join(op, c, Value(r2, v))
      && Collected(op, acc', v) == Join(op, Collected(op, acc, v), c)
    decreases Size(e1) + Size(e2)
  {
    hide Consistent, Value, Join, Unit, Eq;
    var (acc', r1, r2) := Extract(op, acc, e1, e2);
    if Is(op, e1) {
      var (acc1, l, e2') := Extract(op, acc, e1.l, e2);
      var c1 := ExtractFactor(op, acc, e1.l, e2, v);
      var c2 := ExtractFactor(op, acc1, e1.r, e2', v);
      c := Join(op, c1, c2);
      NodeValue(op, e1, v);
      NodeValue(op, r1, v);
      JoinLaws(op, c1, Value(r1.l, v), c2, Value(r1.r, v));
      JoinLaws(op, c1, c2, Value(r2, v), 0);
      JoinLaws(op, Collected(op, acc, v), c1, c2, 0);
    } else if Is(op, e2) {
      var (acc1, e1', l) := Extract(op, acc, e1, e2.l);
      var c1 := ExtractFactor(op, acc, e1, e2.l, v);
      var c2 := ExtractFactor(op, acc1, e1', e2.r, v);
      c := Join(op, c1, c2);
      NodeValue(op, e2, v);
      NodeValue(op, r2, v);
      JoinLaws(op, c1, Value(r2.l, v), c2, Value(r2.r, v));
      JoinLaws(op, c1, c2, Value(r1, v), 0);
      JoinLaws(op, Collected(op, acc, v), c1, c2, 0);
    } else if Eq(e1, e2) {
      EqSound(e1, e2, v);
      c := Value(e1, v);
      UnitValue(op, v, c);
      if acc.Some? { NodeValue(op, Node(op, acc.value, e1), v); }
    } else {
      c := Value(Unit(op), v);
      UnitValue(op, v, Value(e1, v));
      UnitValue(op, v, Value(e2, v));
      UnitValue(op, v, Collected(op, acc, v));
    }
  }

  /** If extraction leaves nothing of `e1`, then `e1` is implied by `e2` (under and) or implies it (under or). */
  lemma ExtractAbsorbs(op: Op, e1: Expr, e2: Expr, v: Valuation)
    requires Consistent(v) && ExtractEq(op, e1, e2).1 == Unit(op)
    ensures Join(op, Value(e1, v), Value(e2, v)) == Value(e2, v)
  {
    hide Consistent, Value, Join, Unit, Extract, Yn;
    var (acc, r1, r2) := Extract(op, None, e1, e2);
    var c := ExtractFactor(op, None, e1, e2, v);
    YnValue(r1, v);
    UnitValue(op, v, c);
    JoinLaws(op, c, c, Value(r2, v), 0);
  }

  // ---- the second pass ----

  /** The constant that decides a chain: 'n' under and, 'y' under or. */
  function Zero(op: Op): Expr {
    match op case AndOp => Sym(No) case OrOp => Sym(Yes)
  }

  /** `expr_eliminate_dups2(op, &e, &e)` on a chain `e`. */
  function Dups2(op: Op, e: Expr): (r: (Expr, bool))
    requires Is(op, e)
    ensures Is(op, r.0) && Size(r.0) <= Size(e)
    decreases Size(e), 4, 0
  {
    OperandsSize(op, e);
    var (ls, c) := Loop2(op, e, Operands(op, e), 0, Size(e));
    RebuildSize(op, e, ls);
    (Rebuild(op, e, ls), c)
  }

  /** Every operand from the `i`-th on is tried against every node of the chain. */
  function Loop2(op: Op, e: Expr, ls: seq<Expr>, i: nat, bound: nat): (r: (seq<Expr>, bool))
    requires |ls| == |Operands(op, e)| && i <= |ls| && Sum(Size, ls) < bound
    requires forall k :: 0 <= k < |ls| ==> !Is(op, ls[k])
    ensures |r.0| == |ls| && Sum(Size, r.0) <= Sum(Size, ls)
    ensures forall k :: 0 <= k < |ls| ==> !Is(op, r.0[k])
    decreases bound, 3, |ls| - i
  {
    if i == |ls| then (ls, false)
    else
      var (ls1, c1) := Walk2(op, e, 0, i, ls, bound);
      var (r, c2) := Loop2(op, e, ls1, i + 1, bound);
      (r, c1 || c2)
  }

  /** Operand `i` against the nodes of the subchain `node`, whose operands start at `lo`: the
      operands first, then, as the pass does not stop there, the operator nodes above them. */
  function Walk2(op: Op, node: Expr, lo: nat, i: nat, ls: seq<Expr>, bound: nat): (r: (seq<Expr>, bool))
    requires lo + |Operands(op, node)| <= |ls| && i < |ls| && Sum(Size, ls) < bound
    requires forall k :: 0 <= k < |ls| ==> !Is(op, ls[k])
    ensures |r.0| == |ls| && Sum(Size, r.0) <= Sum(Size, ls)
    ensures forall k :: 0 <= k < |ls| ==> !Is(op, r.0[k])
    decreases bound, 2, Size(node)
  {
    if Is(op, node) then
      var (ls1, c1) := Walk2(op, node.l, lo, i, ls, bound);
      var (ls2, c2) := Walk2(op, node.r, lo + |Operands(op, node.l)|, i, ls1, bound);
      var (ls3, c3) := Try2(op, node, lo, i, ls2, bound);
      (ls3, c1 || c2 || c3)
    else if lo == i then (ls, false)
    else Try2(op, node, lo, i, ls, bound)
  }

  /** Operand `i`, if a chain of the other operator, is reduced, and decides the whole chain if all
      operands of its negation occur in the subchain. */
  function Try2(op: Op, node: Expr, lo: nat, i: nat, ls: seq<Expr>, bound: nat): (r: (seq<Expr>, bool))
    requires lo + |Operands(op, node)| <= |ls| && i < |ls| && Sum(Size, ls) < bound
    requires forall k :: 0 <= k < |ls| ==> !Is(op, ls[k])
    ensures |r.0| == |ls| && Sum(Size, r.0) <= Sum(Size, ls)
    ensures forall k :: 0 <= k < |ls| ==> !Is(op, r.0[k])
    decreases bound, 1, 0
  {
    if !Is(Other(op), ls[i]) then (ls, false)
    else
      SumMember(Size, ls, i);
      var (e1, c1) := Dups2(Other(op), ls[i]);
      SumUpdate(Size, ls, i, e1);
      SumUpdate(Size, ls, i, Zero(op));
      var e2 := Rebuild(op, node, ls[i := e1][lo..lo + |Operands(op, node)|]);
      if ExtractEq(op, Transform(Not(e1)), e2).1 == Unit(op) then (ls[i := Zero(op)], true)
      else (ls[i := e1], c1)
  }
}

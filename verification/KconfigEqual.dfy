/** What `expr_eq` finds and `expr_eliminate_eq` removes. Soundness bounds them from one side; here is the
    other: which expressions are found equal to themselves, and that a common part goes. */
module KconfigEqual {
  import opened Basics
  import opened KconfigExpr
  import opened KconfigDups
  import opened KconfigDupsProofs

  // ---- elimination on lists of operands ----

  /** One operand of each side. */
  function Pair(op: Op, x: Expr, y: Expr): (Expr, Expr) {
    if SameFixed(x, y) || !Eq(x, y) then (x, y) else (Unit(op), Unit(op))
  }

  /** One operand against all of the other side. */
  function One(op: Op, x: Expr, ys: seq<Expr>): (r: (Expr, seq<Expr>))
    ensures |r.1| == |ys|
    decreases |ys|
  {
    if ys == [] then (x, [])
    else
      var (x1, y1) := Pair(op, x, ys[0]);
      var (x2, rest) := One(op, x1, ys[1..]);
      (x2, [y1] + rest)
  }

  function Every(op: Op, xs: seq<Expr>, ys: seq<Expr>): (r: (seq<Expr>, seq<Expr>))
    ensures |r.0| == |xs| && |r.1| == |ys|
    decreases |xs|
  {
    if xs == [] then ([], ys)
    else
      var (x, ys1) := One(op, xs[0], ys);
      var (rest, ys2) := Every(op, xs[1..], ys1);
      ([x] + rest, ys2)
  }

  lemma {:induction false} OneConcat(op: Op, x: Expr, a: seq<Expr>, b: seq<Expr>)
    ensures var (x1, a1) := One(op, x, a); var (x2, b1) := One(op, x1, b);
      One(op, x, a + b) == (x2, a1 + b1)
    decreases |a|
  {
    hide Pair;
    if a == [] {
      assert a + b == b;
      assert [] + One(op, x, b).1 == One(op, x, b).1;
    } else {
      var (x1, y1) := Pair(op, x, a[0]);
      assert (a + b)[1..] == a[1..] + b;
      OneConcat(op, x1, a[1..], b);
      var (x2, a1) := One(op, x1, a[1..]);
      assert [y1] + (a1 + One(op, x2, b).1) == ([y1] + a1) + One(op, x2, b).1;
    }
  }

  lemma {:induction false} EveryConcat(op: Op, a: seq<Expr>, b: seq<Expr>, ys: seq<Expr>)
    ensures var (a1, ys1) := Every(op, a, ys); var (b1, ys2) := Every(op, b, ys1);
      Every(op, a + b, ys) == (a1 + b1, ys2)
    decreases |a|
  {
    hide One;
    if a == [] {
      assert a + b == b;
      assert [] + Every(op, b, ys).0 == Every(op, b, ys).0;
    } else {
      var (x, ys1) := One(op, a[0], ys);
      assert (a + b)[1..] == a[1..] + b;
      EveryConcat(op, a[1..], b, ys1);
      var (a1, ys2) := Every(op, a[1..], ys1);
      assert [x] + (a1 + Every(op, b, ys2).0) == ([x] + a1) + Every(op, b, ys2).0;
    }
  }

  lemma OneSingle(op: Op, x: Expr, y: Expr)
    ensures One(op, x, [y]) == (Pair(op, x, y).0, [Pair(op, x, y).1])
  {
    hide Pair;
    assert [y][1..] == [] && [Pair(op, x, y).1] + [] == [Pair(op, x, y).1];
  }

  lemma EverySingle(op: Op, x: Expr, ys: seq<Expr>)
    ensures Every(op, [x], ys) == ([One(op, x, ys).0], One(op, x, ys).1)
  {
    hide One;
    var (x1, ys1) := One(op, x, ys);
    assert [x][1..] == [] && Every(op, [], ys1) == ([], ys1) && [x1] + [] == [x1];
  }

  lemma {:induction false} OnePlain(op: Op, x: Expr, ys: seq<Expr>)
    requires !Is(op, x) && forall k :: 0 <= k < |ys| ==> !Is(op, ys[k])
    ensures !Is(op, One(op, x, ys).0) && forall k :: 0 <= k < |ys| ==> !Is(op, One(op, x, ys).1[k])
    decreases |ys|
  {
    hide Eq;
    if ys != [] { OnePlain(op, Pair(op, x, ys[0]).0, ys[1..]); }
  }

  lemma {:induction false} OneTree(op: Op, x: Expr, e2: Expr)
    requires !Is(op, x)
    ensures EliminateIn(op, x, e2) ==
      (One(op, x, Operands(op, e2)).0, Rebuild(op, e2, One(op, x, Operands(op, e2)).1))
    decreases Size(e2)
  {
    hide Eq;
    if Is(op, e2) {
      var a, b := Operands(op, e2.l), Operands(op, e2.r);
      OneTree(op, x, e2.l);
      var (x1, a1) := One(op, x, a);
      OnePlain(op, x, a);
      OneTree(op, x1, e2.r);
      OneConcat(op, x, a, b);
      var b1 := One(op, x1, b).1;
      assert (a1 + b1)[..|a|] == a1 && (a1 + b1)[|a|..] == b1;
    } else {
      OneSingle(op, x, e2);
    }
  }

  lemma {:induction false} EveryPlain(op: Op, xs: seq<Expr>, ys: seq<Expr>)
    requires (forall k :: 0 <= k < |xs| ==> !Is(op, xs[k])) && forall k :: 0 <= k < |ys| ==> !Is(op, ys[k])
    ensures forall k :: 0 <= k < |xs| ==> !Is(op, Every(op, xs, ys).0[k])
    ensures forall k :: 0 <= k < |ys| ==> !Is(op, Every(op, xs, ys).1[k])
    decreases |xs|
  {
    hide One;
    if xs != [] {
      OnePlain(op, xs[0], ys);
      EveryPlain(op, xs[1..], One(op, xs[0], ys).1);
    }
  }

  lemma {:induction false} RebuildTwice(op: Op, e: Expr, a: seq<Expr>, b: seq<Expr>)
    requires |a| == |b| == |Operands(op, e)| && forall k :: 0 <= k < |a| ==> !Is(op, a[k])
    ensures Operands(op, Rebuild(op, e, a)) == a && Rebuild(op, Rebuild(op, e, a), b) == Rebuild(op, e, b)
  {
    RebuildOperands(op, e, a);
    if Is(op, e) {
      var n := |Operands(op, e.l)|;
      RebuildTwice(op, e.l, a[..n], b[..n]);
      RebuildTwice(op, e.r, a[n..], b[n..]);
    }
  }

  /** The double recursion over two trees is that over their operands. */
  lemma {:induction false} EveryTree(op: Op, e1: Expr, e2: Expr)
    ensures var (xs, ys) := Every(op, Operands(op, e1), Operands(op, e2));
      EliminateIn(op, e1, e2) == (Rebuild(op, e1, xs), Rebuild(op, e2, ys))
    decreases Size(e1)
  {
    hide Eq, One;
    if Is(op, e1) {
      var a, b, ys := Operands(op, e1.l), Operands(op, e1.r), Operands(op, e2);
      EveryTree(op, e1.l, e2);
      var (a1, ys1) := Every(op, a, ys);
      EveryPlain(op, a, ys);
      RebuildOperands(op, e2, ys1);
      EveryTree(op, e1.r, Rebuild(op, e2, ys1));
      EveryConcat(op, a, b, ys);
      var (b1, ys2) := Every(op, b, ys1);
      RebuildTwice(op, e2, ys1, ys2);
      assert (a1 + b1)[..|a|] == a1 && (a1 + b1)[|a|..] == b1;
    } else {
      OneTree(op, e1, e2);
      var ys := Operands(op, e2);
      EverySingle(op, e1, ys);
    }
  }

  // ---- folding what is left ----

  /** What is left of the operands: all but the units. */
  function Live(op: Op, ls: seq<Expr>): seq<Expr> {
    if ls == [] then [] else if ls[0] == Unit(op) then Live(op, ls[1..]) else [ls[0]] + Live(op, ls[1..])
  }

  lemma {:induction false} LiveConcat(op: Op, a: seq<Expr>, b: seq<Expr>)
    ensures Live(op, a + b) == Live(op, a) + Live(op, b)
  {
    hide Unit;
    if a == [] {
      assert a + b == b;
    } else {
      assert (a + b)[1..] == a[1..] + b;
      LiveConcat(op, a[1..], b);
      assert [a[0]] + (Live(op, a[1..]) + Live(op, b)) == [a[0]] + Live(op, a[1..]) + Live(op, b);
    }
  }

  lemma {:induction false} LiveMember(op: Op, ls: seq<Expr>, k: nat)
    requires k < |ls| && ls[k] != Unit(op)
    ensures ls[k] in Live(op, ls)
  {
    if k > 0 { LiveMember(op, ls[1..], k - 1); }
  }

  /** Every operand is the unit, or has nothing to fold. */
  ghost predicate Foldable(op: Op, ls: seq<Expr>) {
    forall k :: 0 <= k < |ls| ==> !Is(op, ls[k]) && (ls[k] == Unit(op) || ConstFree(ls[k]))
  }

  lemma {:induction false} YnConstFree(e: Expr)
    requires ConstFree(e)
    ensures Yn(e) == e
  {
    match e
    case And(l, r) => YnConstFree(l); YnConstFree(r);
    case Or(l, r) => YnConstFree(l); YnConstFree(r);
    case _ =>
  }

  lemma YnUnit(op: Op)
    ensures Yn(Unit(op)) == Unit(op)
  {
  }

  lemma FoldNode(op: Op, l: Expr, r: Expr)
    ensures Yn(l) == Unit(op) ==> Yn(Node(op, l, r)) == Yn(r)
    ensures Yn(r) == Unit(op) && ConstFree(Yn(l)) ==> Yn(Node(op, l, r)) == Yn(l)
    ensures ConstFree(Yn(l)) && ConstFree(Yn(r)) ==> Yn(Node(op, l, r)) == Node(op, Yn(l), Yn(r))
    ensures ConstFree(Yn(l)) && ConstFree(Yn(r)) ==> ConstFree(Node(op, Yn(l), Yn(r)))
    ensures Operands(op, Node(op, Yn(l), Yn(r))) == Operands(op, Yn(l)) + Operands(op, Yn(r))
  {
  }

  lemma ChainParts(op: Op, e: Expr, ls: seq<Expr>)
    requires Is(op, e) && |ls| == |Operands(op, e)| && Foldable(op, ls)
    ensures |Operands(op, e)| == |Operands(op, e.l)| + |Operands(op, e.r)|
    ensures var n := |Operands(op, e.l)|;
      && Foldable(op, ls[..n]) && Foldable(op, ls[n..]) && Live(op, ls) == Live(op, ls[..n]) + Live(op, ls[n..])
      && Rebuild(op, e, ls) == Node(op, Rebuild(op, e.l, ls[..n]), Rebuild(op, e.r, ls[n..]))
  {
    hide Unit, ConstFree, Live;
    var n := |Operands(op, e.l)|;
    LiveConcat(op, ls[..n], ls[n..]);
    assert ls[..n] + ls[n..] == ls;
  }

  lemma LeafLeft(op: Op, e: Expr, ls: seq<Expr>)
    requires !Is(op, e) && |ls| == |Operands(op, e)| && Foldable(op, ls)
    ensures var r := Yn(Rebuild(op, e, ls));
      if Live(op, ls) == [] then r == Unit(op) else ConstFree(r) && Operands(op, r) == Live(op, ls)
  {
    hide Yn;
    assert ls[1..] == [] && Live(op, ls) == if ls[0] == Unit(op) then [] else [ls[0]];
    YnUnit(op);
    if ls[0] != Unit(op) { YnConstFree(ls[0]); }
  }

  /** Folding a chain leaves the chain of what is left, or the unit. */
  lemma {:induction false} YnChain(op: Op, e: Expr, ls: seq<Expr>)
    requires |ls| == |Operands(op, e)| && Foldable(op, ls)
    ensures var r := Yn(Rebuild(op, e, ls));
      if Live(op, ls) == [] then r == Unit(op) else ConstFree(r) && Operands(op, r) == Live(op, ls)
  {
    hide Yn, ConstFree, Unit, Foldable, Live, Rebuild, Operands;
    if Is(op, e) {
      var n := |Operands(op, e.l)|;
      ChainParts(op, e, ls);
      YnChain(op, e.l, ls[..n]);
      YnChain(op, e.r, ls[n..]);
      FoldNode(op, Rebuild(op, e.l, ls[..n]), Rebuild(op, e.r, ls[n..]));
    } else {
      LeafLeft(op, e, ls);
    }
  }

  /** The constant that decides a chain is what is left of it. */
  lemma {:induction false} YnDecided(op: Op, e: Expr)
    requires Zero(op) in Operands(op, e)
    ensures Yn(e) == Zero(op)
  {
    if Is(op, e) {
      if Zero(op) in Operands(op, e.l) { YnDecided(op, e.l); } else { YnDecided(op, e.r); }
    }
  }

  predicate OneSymbol(l: seq<Expr>) {
    l == [] || (|l| == 1 && l[0].Sym?)
  }

  lemma EqTrees(op: Op, e1: Expr, e2: Expr)
    requires Is(op, e1) && Is(op, e2)
    ensures var (a, b) := EliminateIn(op, e1, e2); Eq(e1, e2) <==> Yn(a).Sym? && Yn(a) == Yn(b)
  {
    hide EliminateIn, Yn;
  }

  lemma LeftSym(op: Op, r: Expr, l: seq<Expr>)
    requires if l == [] then r == Unit(op) else ConstFree(r) && Operands(op, r) == l
    ensures r.Sym? <==> OneSymbol(l)
    ensures |l| == 1 ==> r == l[0]
    ensures r == Unit(op) <==> l == []
  {
  }

  /** `expr_eq` on two chains whose operands have nothing to fold: nothing is left, or the same symbol. */
  lemma EqChains(op: Op, e1: Expr, e2: Expr, xs: seq<Expr>, ys: seq<Expr>)
    requires Is(op, e1) && Is(op, e2) && (xs, ys) == Every(op, Operands(op, e1), Operands(op, e2))
    ensures Foldable(op, xs) && Eq(e1, e2) ==> OneSymbol(Live(op, xs))
    ensures Foldable(op, ys) && Eq(e1, e2) ==> OneSymbol(Live(op, ys))
    ensures Foldable(op, xs) && Foldable(op, ys) ==> (Eq(e1, e2) <==> Live(op, xs) == Live(op, ys) && OneSymbol(Live(op, xs)))
  {
    hide Every, EliminateIn, Rebuild, Yn;
    EveryTree(op, e1, e2);
    EqTrees(op, e1, e2);
    if Foldable(op, xs) {
      YnChain(op, e1, xs);
      LeftSym(op, Yn(Rebuild(op, e1, xs)), Live(op, xs));
    }
    if Foldable(op, ys) {
      YnChain(op, e2, ys);
      LeftSym(op, Yn(Rebuild(op, e2, ys)), Live(op, ys));
    }
  }

  // ---- operands that are never removed ----

  /** Found equal to nothing, but for a constant to itself. */
  ghost predicate Inert(x: Expr) {
    forall y :: Eq(x, y) || Eq(y, x) ==> Fixed(x) && x == y
  }

  lemma FixedInert(x: Expr)
    requires Fixed(x)
    ensures Inert(x)
  {
    forall y | Eq(x, y) || Eq(y, x) ensures Fixed(x) && x == y {
    }
  }

  lemma InertPair(op: Op, x: Expr, y: Expr)
    requires Inert(x) || Inert(y)
    ensures Pair(op, x, y) == (x, y)
  {
    hide Eq;
  }

  lemma {:induction false} OneInert(op: Op, x: Expr, ys: seq<Expr>)
    ensures Inert(x) ==> One(op, x, ys) == (x, ys)
    ensures forall k :: 0 <= k < |ys| && Inert(ys[k]) ==> One(op, x, ys).1[k] == ys[k]
    ensures (forall k :: 0 <= k < |ys| ==> Inert(ys[k])) ==> One(op, x, ys) == (x, ys)
    decreases |ys|
  {
    hide Inert, Pair;
    if ys != [] {
      var (x1, y1) := Pair(op, x, ys[0]);
      if Inert(x) || Inert(ys[0]) { InertPair(op, x, ys[0]); }
      OneInert(op, x1, ys[1..]);
      assert [ys[0]] + ys[1..] == ys;
    }
  }

  lemma {:induction false} EveryInert(op: Op, xs: seq<Expr>, ys: seq<Expr>)
    ensures forall k :: 0 <= k < |xs| && Inert(xs[k]) ==> Every(op, xs, ys).0[k] == xs[k]
    ensures forall k :: 0 <= k < |ys| && Inert(ys[k]) ==> Every(op, xs, ys).1[k] == ys[k]
    ensures (forall k :: 0 <= k < |ys| ==> Inert(ys[k])) ==> Every(op, xs, ys) == (xs, ys)
    decreases |xs|
  {
    hide Inert, One;
    if xs != [] {
      OneInert(op, xs[0], ys);
      EveryInert(op, xs[1..], One(op, xs[0], ys).1);
      assert [xs[0]] + xs[1..] == xs;
    }
  }

  /** Every operand stays or becomes the unit. */
  lemma {:induction false} OneParts(op: Op, x: Expr, ys: seq<Expr>)
    ensures One(op, x, ys).0 == x || One(op, x, ys).0 == Unit(op)
    ensures forall k :: 0 <= k < |ys| ==> One(op, x, ys).1[k] == ys[k] || One(op, x, ys).1[k] == Unit(op)
    decreases |ys|
  {
    hide Eq;
    if ys != [] { OneParts(op, Pair(op, x, ys[0]).0, ys[1..]); }
  }

  lemma {:induction false} EveryParts(op: Op, xs: seq<Expr>, ys: seq<Expr>)
    ensures forall k :: 0 <= k < |xs| ==> Every(op, xs, ys).0[k] == xs[k] || Every(op, xs, ys).0[k] == Unit(op)
    ensures forall k :: 0 <= k < |ys| ==> Every(op, xs, ys).1[k] == ys[k] || Every(op, xs, ys).1[k] == Unit(op)
    decreases |xs|
  {
    hide One;
    if xs != [] {
      OneParts(op, xs[0], ys);
      EveryParts(op, xs[1..], One(op, xs[0], ys).1);
    }
  }

  // ---- a chain against itself ----

  /** The operands left when each has been removed that can be. */
  function Cleared(op: Op, ls: seq<Expr>): (r: seq<Expr>)
    ensures |r| == |ls| && forall k :: 0 <= k < |r| ==> r[k] == if Fixed(ls[k]) then ls[k] else Unit(op)
  {
    seq(|ls|, k requires 0 <= k < |ls| => if Fixed(ls[k]) then ls[k] else Unit(op))
  }

  lemma ClearedInert(op: Op, ls: seq<Expr>)
    ensures forall k :: 0 <= k < |ls| ==> Inert(Cleared(op, ls)[k])
  {
    hide Inert;
    forall k | 0 <= k < |ls| ensures Inert(Cleared(op, ls)[k]) {
      FixedInert(Cleared(op, ls)[k]);
    }
  }

  lemma OneAgainstOwn(op: Op, pre: seq<Expr>, x: Expr, rest: seq<Expr>)
    requires (forall k :: 0 <= k < |pre| ==> Inert(pre[k])) && (Fixed(x) || Eq(x, x))
    ensures var c := if Fixed(x) then x else Unit(op); One(op, x, pre + [x] + rest) == (c, pre + [c] + rest)
  {
    hide Inert, Eq;
    var c := if Fixed(x) then x else Unit(op);
    OneInert(op, x, pre);
    OneSingle(op, x, x);
    FixedInert(c);
    OneInert(op, c, rest);
    OneConcat(op, x, pre, [x]);
    OneConcat(op, x, pre + [x], rest);
  }

  lemma EveryNone(op: Op, ys: seq<Expr>)
    ensures Every(op, [], ys) == ([], ys)
  {
  }

  lemma EveryFirst(op: Op, x: Expr, rest: seq<Expr>, ys: seq<Expr>)
    ensures var (x1, ys1) := One(op, x, ys); var (rest1, ys2) := Every(op, rest, ys1);
      Every(op, [x] + rest, ys) == ([x1] + rest1, ys2)
  {
    hide One;
    assert ([x] + rest)[1..] == rest;
  }

  lemma ClearedFirst(op: Op, x: Expr, rest: seq<Expr>)
    ensures var c := if Fixed(x) then x else Unit(op);
      Cleared(op, [x] + rest) == [c] + Cleared(op, rest) && Inert(c)
  {
    hide Inert;
    FixedInert(if Fixed(x) then x else Unit(op));
  }

  lemma {:induction false} EveryAgainstOwn(op: Op, pre: seq<Expr>, ls: seq<Expr>)
    requires (forall k :: 0 <= k < |pre| ==> Inert(pre[k])) && forall k :: 0 <= k < |ls| ==> Fixed(ls[k]) || Eq(ls[k], ls[k])
    ensures Every(op, ls, pre + ls) == (Cleared(op, ls), pre + Cleared(op, ls))
    decreases |ls|
  {
    hide Inert, Eq, One, Fixed, Every, Cleared;
    if ls == [] {
      assert Cleared(op, ls) == [] && pre + [] == pre;
      EveryNone(op, pre);
    } else {
      var x, rest := ls[0], ls[1..];
      var c, all := if Fixed(x) then x else Unit(op), Cleared(op, rest);
      OneAgainstOwn(op, pre, x, rest);
      ClearedFirst(op, x, rest);
      assert ls == [x] + rest && pre + ls == pre + [x] + rest;
      EveryAgainstOwn(op, pre + [c], rest);
      EveryFirst(op, x, rest, pre + ls);
      assert pre + [c] + all == pre + ([c] + all);
    }
  }

  // ---- which expressions are found equal to themselves ----

  lemma {:induction false} OperandsSmaller(op: Op, e: Expr)
    ensures forall k :: 0 <= k < |Operands(op, e)| ==> Size(Operands(op, e)[k]) <= Size(e)
    ensures Is(op, e) ==> forall k :: 0 <= k < |Operands(op, e)| ==> Size(Operands(op, e)[k]) < Size(e)
  {
    if Is(op, e) {
      OperandsSmaller(op, e.l);
      OperandsSmaller(op, e.r);
    }
  }

  /** The constants, other than 'm' and the unit, among the operands. */
  function Constants(op: Op, ls: seq<Expr>): nat {
    if ls == [] then 0 else (if Fixed(ls[0]) && ls[0] != Unit(op) then 1 else 0) + Constants(op, ls[1..])
  }

  /** Every chain, at any depth, has the constant that decides it among its operands, or at most one
      constant, not counting 'm' and the unit. */
  predicate Few(e: Expr)
    decreases Size(e)
  {
    match e
    case Not(x) => Few(x)
    case And(_, _) => FewAll(AndOp, e)
    case Or(_, _) => FewAll(OrOp, e)
    case _ => true
  }

  predicate FewAll(op: Op, e: Expr)
    requires Is(op, e)
    decreases Size(e), 0
  {
    OperandsSmaller(op, e);
    var ls := Operands(op, e);
    Zero(op) in ls || (Constants(op, ls) <= 1 && forall k :: 0 <= k < |ls| ==> Few(ls[k]))
  }

  /** Neither 'y' nor 'n' stands as an operand, at any depth. */
  predicate Free(e: Expr) {
    match e
    case Sym(s) => s != Yes && s != No
    case Not(x) => Free(x)
    case And(l, r) => Free(l) && Free(r)
    case Or(l, r) => Free(l) && Free(r)
    case _ => true
  }

  lemma {:induction false} FreeOperands(op: Op, e: Expr)
    requires Free(e)
    ensures forall k :: 0 <= k < |Operands(op, e)| ==> Free(Operands(op, e)[k])
  {
    if Is(op, e) {
      FreeOperands(op, e.l);
      FreeOperands(op, e.r);
    }
  }

  lemma {:induction false} FreeConstFree(e: Expr)
    requires Free(e)
    ensures ConstFree(e)
  {
    match e
    case And(l, r) => FreeConstFree(l); FreeConstFree(r);
    case Or(l, r) => FreeConstFree(l); FreeConstFree(r);
    case _ =>
  }

  /** The constants stay. */
  lemma {:induction false} LiveConstants(op: Op, ls: seq<Expr>, left: seq<Expr>)
    requires |left| == |ls| && forall k :: 0 <= k < |ls| && Fixed(ls[k]) ==> left[k] == ls[k]
    ensures |Live(op, left)| >= Constants(op, ls)
    ensures left == Cleared(op, ls) ==> |Live(op, left)| == Constants(op, ls)
  {
    hide Fixed;
    if ls != [] {
      FixedUnit(op);
      LiveConstants(op, ls[1..], left[1..]);
      if left == Cleared(op, ls) { assert left[1..] == Cleared(op, ls[1..]); }
    }
  }

  lemma FixedUnit(op: Op)
    ensures Fixed(Unit(op))
  {
  }

  lemma {:induction false} LiveParts(op: Op, ls: seq<Expr>, p: Expr -> bool)
    requires forall k :: 0 <= k < |ls| && ls[k] != Unit(op) ==> p(ls[k])
    ensures forall k :: 0 <= k < |Live(op, ls)| ==> p(Live(op, ls)[k])
  {
    if ls != [] { LiveParts(op, ls[1..], p); }
  }

  /** Two chains with the deciding constant are found equal. */
  lemma EqDecided(op: Op, e1: Expr, e2: Expr)
    requires Is(op, e1) && Is(op, e2) && Zero(op) in Operands(op, e1) && Zero(op) in Operands(op, e2)
    ensures Eq(e1, e2)
  {
    hide Eq, Every, EliminateIn, Yn, Rebuild, Operands, Inert;
    var ls1, ls2 := Operands(op, e1), Operands(op, e2);
    var (xs, ys) := Every(op, ls1, ls2);
    EveryTree(op, e1, e2);
    FixedInert(Zero(op));
    EveryInert(op, ls1, ls2);
    var i :| 0 <= i < |ls1| && ls1[i] == Zero(op);
    var j :| 0 <= j < |ls2| && ls2[j] == Zero(op);
    EveryPlain(op, ls1, ls2);
    RebuildOperands(op, e1, xs);
    RebuildOperands(op, e2, ys);
    assert xs[i] == Zero(op) && ys[j] == Zero(op);
    YnDecided(op, Rebuild(op, e1, xs));
    YnDecided(op, Rebuild(op, e2, ys));
    EqTrees(op, e1, e2);
  }

  lemma NotEq(x: Expr, y: Expr)
    ensures Eq(Not(x), Not(y)) <==> Eq(x, y)
  {
  }

  lemma LeafEq(e: Expr)
    requires !e.Not? && !e.And? && !e.Or?
    ensures Eq(e, e)
  {
  }

  lemma ClearedLeft(op: Op, ls: seq<Expr>)
    requires Zero(op) !in ls
    ensures Foldable(op, Cleared(op, ls)) && |Live(op, Cleared(op, ls))| == Constants(op, ls)
    ensures forall k :: 0 <= k < |Live(op, Cleared(op, ls))| ==> Live(op, Cleared(op, ls))[k].Sym?
  {
    LiveConstants(op, ls, Cleared(op, ls));
    LiveParts(op, Cleared(op, ls), (x: Expr) => x.Sym?);
  }

  lemma {:induction false} FewReflexive(e: Expr)
    requires Few(e)
    ensures Eq(e, e)
    decreases Size(e)
  {
    hide Eq;
    match e
    case Not(x) => FewReflexive(x); assert Eq(e, e) by { NotEq(x, x); }
    case And(_, _) => FewChain(AndOp, e);
    case Or(_, _) => FewChain(OrOp, e);
    case _ => LeafEq(e);
  }

  lemma {:induction false} FewChain(op: Op, e: Expr)
    requires Is(op, e) && FewAll(op, e)
    ensures Eq(e, e)
    decreases Size(e), 0
  {
    hide Eq, Every, Few, Cleared, Live, Foldable, Constants;
    var ls := Operands(op, e);
    OperandsSmaller(op, e);
    if Zero(op) in ls {
      EqDecided(op, e, e);
    } else {
      forall k | 0 <= k < |ls| ensures Eq(ls[k], ls[k]) {
        FewReflexive(ls[k]);
      }
      assert [] + ls == ls && [] + Cleared(op, ls) == Cleared(op, ls);
      EveryAgainstOwn(op, [], ls);
      ClearedLeft(op, ls);
      EqChains(op, e, e, Cleared(op, ls), Cleared(op, ls));
    }
  }

  lemma KindsDiffer(z: Expr, y: Expr)
    ensures (z.Not? && !y.Not?) || (z.And? && !y.And?) || (z.Or? && !y.Or?) ==> !Eq(z, y) && !Eq(y, z)
  {
  }

  /** An expression with too many constants somewhere is found equal to nothing. */
  lemma {:induction false} StuckNever(z: Expr, y: Expr)
    requires Free(z) && !Few(z)
    ensures !Eq(z, y) && !Eq(y, z)
    decreases Size(z), 1
  {
    hide Eq;
    KindsDiffer(z, y);
    match z
    case Not(x) =>
      if y.Not? {
        StuckNever(x, y.arg);
        NotEq(x, y.arg);
        NotEq(y.arg, x);
      }
    case And(_, _) => if y.And? { StuckChain(AndOp, z, y); }
    case Or(_, _) => if y.Or? { StuckChain(OrOp, z, y); }
    case _ =>
  }

  lemma {:induction false} StuckChain(op: Op, z: Expr, y: Expr)
    requires Is(op, z) && Is(op, y) && Free(z) && !FewAll(op, z)
    ensures !Eq(z, y) && !Eq(y, z)
    decreases Size(z), 0
  {
    hide Eq, Every, Few, Live, Inert, Fixed;
    var zs, ys := Operands(op, z), Operands(op, y);
    var left, right := Every(op, zs, ys).0, Every(op, ys, zs).1;
    InertOperands(op, z);
    EveryInert(op, zs, ys);
    EveryInert(op, ys, zs);
    EveryParts(op, zs, ys);
    EveryParts(op, ys, zs);
    LeftOver(op, z, left);
    LeftOver(op, z, right);
    EqChains(op, z, y, left, Every(op, zs, ys).1);
    EqChains(op, y, z, Every(op, ys, zs).0, right);
  }

  /** Constants and what has too many of them are never removed. */
  lemma {:induction false} InertOperands(op: Op, z: Expr)
    requires Is(op, z) && Free(z)
    ensures forall k :: 0 <= k < |Operands(op, z)| && (Fixed(Operands(op, z)[k]) || !Few(Operands(op, z)[k])) ==>
      Inert(Operands(op, z)[k])
    decreases Size(z), 0, 0
  {
    hide Eq, Few, Fixed, Inert;
    var zs := Operands(op, z);
    OperandsSmaller(op, z);
    FreeOperands(op, z);
    forall k | 0 <= k < |zs| && (Fixed(zs[k]) || !Few(zs[k])) ensures Inert(zs[k]) {
      if Fixed(zs[k]) {
        FixedInert(zs[k]);
      } else {
        NeverInert(zs[k]);
      }
    }
  }

  lemma {:induction false} NeverInert(z: Expr)
    requires Free(z) && !Few(z)
    ensures Inert(z)
    decreases Size(z), 2
  {
    hide Eq, Few;
    forall y ensures !Eq(z, y) && !Eq(y, z) {
      StuckNever(z, y);
    }
  }

  lemma SymFew(e: Expr)
    ensures e.Sym? ==> Few(e)
  {
  }

  /** Then more than one symbol is left of the chain. */
  lemma LeftOver(op: Op, z: Expr, left: seq<Expr>)
    requires Is(op, z) && Free(z) && !FewAll(op, z) && |left| == |Operands(op, z)|
    requires forall k :: 0 <= k < |left| ==> left[k] == Operands(op, z)[k] || left[k] == Unit(op)
    requires forall k :: 0 <= k < |left| && (Fixed(Operands(op, z)[k]) || !Few(Operands(op, z)[k])) ==> left[k] == Operands(op, z)[k]
    ensures Foldable(op, left) && !OneSymbol(Live(op, left))
  {
    hide Live, Fixed, Few, Constants;
    var zs := Operands(op, z);
    FreeOperands(op, z);
    forall k | 0 <= k < |zs| ensures !Is(op, left[k]) && (left[k] == Unit(op) || ConstFree(left[k])) {
      FreeConstFree(zs[k]);
    }
    LiveConstants(op, zs, left);
    if Constants(op, zs) <= 1 {
      var k :| 0 <= k < |zs| && !Few(zs[k]);
      SymFew(zs[k]);
      SymFew(Unit(op));
      LiveMember(op, left, k);
    }
  }

  /** `expr_eq` is reflexive on expressions with few constants, whatever they are; and on those in which
      neither 'y' nor 'n' stands as an operand, on no others. */
  lemma EqReflexive(e: Expr)
    ensures Few(e) ==> Eq(e, e)
    ensures Free(e) ==> (Eq(e, e) <==> Few(e))
  {
    hide Eq, Few;
    if Few(e) {
      FewReflexive(e);
    } else if Free(e) {
      StuckNever(e, e);
    }
  }

  lemma {:induction false} AllUnits(op: Op, us: seq<Expr>)
    requires forall k :: 0 <= k < |us| ==> us[k] == Unit(op)
    ensures Live(op, us) == [] && Foldable(op, us)
  {
    if us != [] { AllUnits(op, us[1..]); }
  }

  /** After the round for `op`, the second expression is a chain of it or no chain at all. */
  lemma FirstRound(op: Op, e: Expr, p: Expr)
    requires Is(op, e)
    requires var (a, b) := EliminateIn(op, e, p); Is(op, a) && !Is(Other(op), b)
    ensures EliminateEq(e, p).1 == Yn(EliminateIn(op, e, p).1)
  {
    hide EliminateIn, Yn;
  }

  lemma UnitsRebuilt(op: Op, p: Expr, us: seq<Expr>)
    requires |us| == |Operands(op, p)| && forall k :: 0 <= k < |us| ==> us[k] == Unit(op)
    ensures !Is(Other(op), Rebuild(op, p, us))
  {
  }

  lemma OperandsOf(op: Op, l: Expr, r: Expr)
    ensures Operands(op, Node(op, l, r)) == Operands(op, l) + Operands(op, r)
  {
  }

  /** The test for a common part that `menu_finalize` uses for nesting: what stands joined to something is
      removed from the other side, if it has no constants as operands and few below them. */
  lemma CommonRemoved(op: Op, p: Expr, c: Expr)
    requires forall k :: 0 <= k < |Operands(op, p)| ==> Few(Operands(op, p)[k]) && !Fixed(Operands(op, p)[k])
    ensures EliminateEq(Node(op, p, c), p).1 == Unit(op)
  {
    hide Eq, Every, EliminateIn, EliminateEq, Few, Fixed, Inert, Yn, Cleared, Live, Operands, Rebuild, Foldable;
    var e, ps, cs := Node(op, p, c), Operands(op, p), Operands(op, c);
    var us := Cleared(op, ps);
    forall k | 0 <= k < |ps| ensures Eq(ps[k], ps[k]) {
      FewReflexive(ps[k]);
    }
    OperandsOf(op, p, c);
    assert [] + ps == ps && [] + us == us;
    EveryAgainstOwn(op, [], ps);
    EveryConcat(op, ps, cs, ps);
    ClearedInert(op, ps);
    EveryInert(op, cs, us);
    EveryTree(op, e, p);
    assert EliminateIn(op, e, p).1 == Rebuild(op, p, us);
    AllUnits(op, us);
    UnitsRebuilt(op, p, us);
    YnChain(op, p, us);
    FirstRound(op, e, p);
  }

  lemma FreeNoUnit(op: Op, e: Expr)
    requires Free(e)
    ensures e != Unit(op)
  {
  }

  lemma StillThere(op: Op, ps: seq<Expr>, ys: seq<Expr>, k: nat)
    requires |ps| == |ys| && k < |ps| && ys[k] == ps[k]
    requires forall j :: 0 <= j < |ps| ==> Free(ps[j]) && !Is(op, ps[j]) && (ys[j] == ps[j] || ys[j] == Unit(op))
    ensures Foldable(op, ys) && Live(op, ys) != []
  {
    forall j | 0 <= j < |ps| ensures !Is(op, ys[j]) && (ys[j] == Unit(op) || ConstFree(ys[j])) {
      FreeConstFree(ps[j]);
    }
    FreeNoUnit(op, ps[k]);
    LiveMember(op, ys, k);
  }

  lemma ChainOfOther(op: Op, p: Expr, k: nat)
    requires Is(Other(op), p) && k < |Operands(op, p)| && (Fixed(Operands(op, p)[k]) || !Few(Operands(op, p)[k]))
    ensures !Few(p)
  {
    hide Few;
    assert Operands(op, p) == [p];
  }

  lemma NotOther(op: Op, e: Expr, p: Expr, xs: seq<Expr>, ys: seq<Expr>)
    requires Is(op, e) && !Is(Other(op), p) && |xs| == |Operands(op, e)| && |ys| == |Operands(op, p)|
    requires forall k :: 0 <= k < |ys| ==> ys[k] == Operands(op, p)[k] || ys[k] == Unit(op)
    ensures Is(op, Rebuild(op, e, xs)) && !Is(Other(op), Rebuild(op, p, ys))
  {
  }

  lemma FewOperands(op: Op, e: Expr, x: Expr)
    requires Is(op, e) && Free(e) && x in Operands(op, e) && !Few(x)
    ensures !Few(e)
  {
    FreeOperands(op, e);
  }

  lemma TwoRounds(op: Op, e: Expr, p: Expr)
    requires Is(op, e) && Is(Other(op), p) && EliminateIn(op, e, p) == (e, p) && EliminateIn(Other(op), e, p) == (e, p)
    ensures EliminateEq(e, p) == (Yn(e), Yn(p))
  {
    hide EliminateIn, Yn;
  }

  /** A chain of the other operator with too many constants is not removed in either round. */
  lemma StuckAlone(op: Op, p: Expr, c: Expr)
    requires Is(Other(op), p) && Free(p) && Free(c) && !Few(p)
    ensures EliminateEq(Node(op, p, c), p).1 != Unit(op)
  {
    hide Eq, Every, EliminateIn, Few, Inert, Yn, Rebuild;
    var e := Node(op, p, c);
    NeverInert(p);
    EveryInert(op, Operands(op, e), [p]);
    EveryTree(op, e, p);
    RebuildSame(op, e);
    RebuildSame(op, p);
    assert EliminateIn(op, e, p) == (e, p);
    FewOperands(op, e, p);
    NeverInert(e);
    var qs := Operands(Other(op), p);
    OneInert(Other(op), e, qs);
    EverySingle(Other(op), e, qs);
    EveryTree(Other(op), e, p);
    RebuildSame(Other(op), e);
    RebuildSame(Other(op), p);
    assert EliminateIn(Other(op), e, p) == (e, p);
    FreeConstFree(p);
    YnConstFree(p);
    TwoRounds(op, e, p);
  }

  /** And on expressions without 'y' and 'n' only then. */
  lemma CommonStays(op: Op, p: Expr, c: Expr, k: nat)
    requires Free(p) && Free(c) && k < |Operands(op, p)|
    requires Fixed(Operands(op, p)[k]) || !Few(Operands(op, p)[k])
    ensures EliminateEq(Node(op, p, c), p).1 != Unit(op)
  {
    hide Eq, Every, EliminateIn, Few, Fixed, Inert, Yn, Live, Operands, Rebuild, Foldable;
    if Is(Other(op), p) {
      ChainOfOther(op, p, k);
      StuckAlone(op, p, c);
      return;
    }
    var e, ps := Node(op, p, c), Operands(op, p);
    var (xs, ys) := Every(op, Operands(op, e), ps);
    FreeOperands(op, p);
    if Fixed(ps[k]) { FixedInert(ps[k]); } else { NeverInert(ps[k]); }
    EveryInert(op, Operands(op, e), ps);
    EveryParts(op, Operands(op, e), ps);
    StillThere(op, ps, ys, k);
    EveryTree(op, e, p);
    YnChain(op, p, ys);
    LeftSym(op, Yn(Rebuild(op, p, ys)), Live(op, ys));
    NotOther(op, e, p, xs, ys);
    FirstRound(op, e, p);
  }
}

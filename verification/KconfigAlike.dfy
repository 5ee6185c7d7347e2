/** What `expr_eq` decides on expressions without constants: equality up to the order and the grouping of
    operands, at every depth. It is an equivalence relation there, and two chains are equal exactly if
    every expression is equal to as many operands of one as of the other. */
module KconfigAlike {
  import opened Basics
  import opened KconfigExpr
  import opened KconfigDups
  import opened KconfigDupsProofs
  import opened KconfigEqual

  /** No constant but 'm' stands as an operand, at any depth. */
  predicate Unfixed(e: Expr) {
    match e
    case Sym(_) => !Fixed(e)
    case Not(x) => Unfixed(x)
    case And(l, r) => Unfixed(l) && Unfixed(r)
    case Or(l, r) => Unfixed(l) && Unfixed(r)
    case _ => true
  }

  lemma {:induction false} UnfixedOperands(op: Op, e: Expr)
    requires Unfixed(e)
    ensures forall k :: 0 <= k < |Operands(op, e)| ==> Unfixed(Operands(op, e)[k])
  {
    if Is(op, e) {
      UnfixedOperands(op, e.l);
      UnfixedOperands(op, e.r);
    }
  }

  lemma {:induction false} UnfixedFree(e: Expr)
    requires Unfixed(e)
    ensures ConstFree(e)
  {
    match e
    case And(l, r) => UnfixedFree(l); UnfixedFree(r);
    case Or(l, r) => UnfixedFree(l); UnfixedFree(r);
    case _ =>
  }

  lemma {:induction false} NoConstants(op: Op, ls: seq<Expr>)
    requires forall k :: 0 <= k < |ls| ==> Unfixed(ls[k])
    ensures Constants(op, ls) == 0
  {
    if ls != [] { NoConstants(op, ls[1..]); }
  }

  lemma {:induction false} UnfixedFew(e: Expr)
    requires Unfixed(e)
    ensures Few(e)
    decreases Size(e)
  {
    match e
    case Not(x) => UnfixedFew(x);
    case And(_, _) => UnfixedChain(AndOp, e);
    case Or(_, _) => UnfixedChain(OrOp, e);
    case _ =>
  }

  lemma {:induction false} UnfixedChain(op: Op, e: Expr)
    requires Is(op, e) && Unfixed(e)
    ensures FewAll(op, e)
    decreases Size(e), 0
  {
    hide Few, Constants;
    var ls := Operands(op, e);
    UnfixedOperands(op, e);
    NoConstants(op, ls);
    OperandsSmaller(op, e);
    forall k | 0 <= k < |ls| ensures Few(ls[k]) {
      UnfixedFew(ls[k]);
    }
  }

  lemma Reflexive(e: Expr)
    requires Unfixed(e)
    ensures Eq(e, e)
  {
    UnfixedFew(e);
    FewReflexive(e);
  }

  // ---- counting equal operands ----

  /** How many of `ls` are found equal to `r`. */
  function Copies(r: Expr, ls: seq<Expr>): nat {
    if ls == [] then 0 else Found(r, ls[0]) + Copies(r, ls[1..])
  }

  function Found(r: Expr, x: Expr): nat {
    if Eq(r, x) then 1 else 0
  }

  lemma {:induction false} CopiesConcat(r: Expr, a: seq<Expr>, b: seq<Expr>)
    ensures Copies(r, a + b) == Copies(r, a) + Copies(r, b)
  {
    hide Found;
    if a == [] {
      assert a + b == b;
    } else {
      assert (a + b)[1..] == a[1..] + b;
      CopiesConcat(r, a[1..], b);
    }
  }

  lemma {:induction false} CopiesSome(r: Expr, ls: seq<Expr>, k: nat)
    requires k < |ls| && Eq(r, ls[k])
    ensures Copies(r, ls) > 0
  {
    hide Eq;
    if k > 0 { CopiesSome(r, ls[1..], k - 1); }
  }

  lemma {:induction false} CopiesNone(r: Expr, ls: seq<Expr>)
    requires forall k :: 0 <= k < |ls| ==> !Eq(r, ls[k])
    ensures Copies(r, ls) == 0
  {
    hide Eq;
    if ls != [] { CopiesNone(r, ls[1..]); }
  }

  predicate Small(e: Expr, n: nat) {
    Unfixed(e) && Size(e) < n
  }

  /** `expr_eq` is symmetric and transitive on small expressions. */
  ghost predicate Equivalence(n: nat) {
    && (forall a, b :: Small(a, n) && Small(b, n) && Eq(a, b) ==> Eq(b, a))
    && (forall a, b, c :: Small(a, n) && Small(b, n) && Small(c, n) && Eq(a, b) && Eq(b, c) ==> Eq(a, c))
  }

  ghost predicate Parts(op: Op, ls: seq<Expr>, n: nat) {
    forall k :: 0 <= k < |ls| ==> IsPart(op, ls[k], n)
  }

  predicate IsPart(op: Op, x: Expr, n: nat) {
    x == Unit(op) || Small(x, n)
  }

  lemma UnitUnequal(op: Op, r: Expr)
    requires Unfixed(r)
    ensures !Eq(r, Unit(op)) && !Eq(Unit(op), r)
  {
    FixedInert(Unit(op));
  }

  lemma PairCopies(op: Op, x: Expr, y: Expr, r: Expr, n: nat)
    requires Equivalence(n) && IsPart(op, x, n) && IsPart(op, y, n) && Small(r, n)
    ensures var (x1, y1) := Pair(op, x, y); Found(r, x) + Found(r, y1) == Found(r, y) + Found(r, x1)
    ensures var (x1, y1) := Pair(op, x, y); IsPart(op, x1, n) && IsPart(op, y1, n)
  {
    hide Eq;
    UnitUnequal(op, r);
    if Eq(x, y) && !SameFixed(x, y) {
      UnitPair(op, x, y);
      assert Small(x, n) && Small(y, n);
      assert Eq(y, x);
      assert Eq(r, x) <==> Eq(r, y);
    }
  }

  lemma UnitPair(op: Op, x: Expr, y: Expr)
    ensures Eq(x, y) && (x == Unit(op) || y == Unit(op)) ==> SameFixed(x, y)
  {
    FixedInert(Unit(op));
  }

  lemma {:induction false} OneCopies(op: Op, x: Expr, ys: seq<Expr>, r: Expr, n: nat)
    requires Equivalence(n) && IsPart(op, x, n) && Parts(op, ys, n) && Small(r, n)
    ensures var (x1, ys1) := One(op, x, ys); Found(r, x) + Copies(r, ys1) == Copies(r, ys) + Found(r, x1)
    ensures var (x1, ys1) := One(op, x, ys); IsPart(op, x1, n) && Parts(op, ys1, n)
    decreases |ys|
  {
    hide Equivalence, Pair, Found, IsPart, Small;
    if ys != [] {
      var (x1, y1) := Pair(op, x, ys[0]);
      PairCopies(op, x, ys[0], r, n);
      OneCopies(op, x1, ys[1..], r, n);
      var rest := One(op, x1, ys[1..]).1;
      assert ([y1] + rest)[1..] == rest;
    }
  }

  lemma {:induction false} EveryCopies(op: Op, xs: seq<Expr>, ys: seq<Expr>, r: Expr, n: nat)
    requires Equivalence(n) && Parts(op, xs, n) && Parts(op, ys, n) && Small(r, n)
    ensures var (xs1, ys1) := Every(op, xs, ys); Copies(r, xs) + Copies(r, ys1) == Copies(r, ys) + Copies(r, xs1)
    ensures var (xs1, ys1) := Every(op, xs, ys); Parts(op, xs1, n) && Parts(op, ys1, n)
    decreases |xs|
  {
    hide Equivalence, One, Found, IsPart, Small;
    if xs != [] {
      var (x1, ys1) := One(op, xs[0], ys);
      OneCopies(op, xs[0], ys, r, n);
      EveryCopies(op, xs[1..], ys1, r, n);
      var rest := Every(op, xs[1..], ys1).0;
      assert ([x1] + rest)[1..] == rest;
    }
  }

  // ---- nothing equal is left on both sides ----

  ghost predicate Unmatched(x: Expr, ys: seq<Expr>) {
    forall k :: 0 <= k < |ys| ==> !Eq(x, ys[k])
  }

  lemma {:induction false} OneUnmatched(op: Op, x: Expr, ys: seq<Expr>)
    ensures var (x1, ys1) := One(op, x, ys); Fixed(x1) || Unmatched(x1, ys1)
    decreases |ys|
  {
    hide Eq, Fixed;
    if ys != [] {
      var (x1, y1) := Pair(op, x, ys[0]);
      FixedUnit(op);
      OneUnmatched(op, x1, ys[1..]);
      OneParts(op, x1, ys[1..]);
      if x1 == Unit(op) { OneInertUnit(op, ys[1..]); }
      SameFixedFixed(x, ys[0]);
    }
  }

  lemma SameFixedFixed(x: Expr, y: Expr)
    ensures SameFixed(x, y) ==> Fixed(x)
  {
  }

  lemma OneInertUnit(op: Op, ys: seq<Expr>)
    ensures One(op, Unit(op), ys).0 == Unit(op)
  {
    FixedInert(Unit(op));
    OneInert(op, Unit(op), ys);
  }

  lemma {:induction false} EveryUnmatched(op: Op, xs: seq<Expr>, ys: seq<Expr>)
    ensures var (xs1, ys1) := Every(op, xs, ys); forall k :: 0 <= k < |xs1| ==> Fixed(xs1[k]) || Unmatched(xs1[k], ys1)
    decreases |xs|
  {
    hide Eq, Fixed, One;
    if xs != [] {
      var (x1, ys1) := One(op, xs[0], ys);
      OneUnmatched(op, xs[0], ys);
      EveryUnmatched(op, xs[1..], ys1);
      EveryParts(op, xs[1..], ys1);
      var (rest, ys2) := Every(op, xs[1..], ys1);
      assert [xs[0]] + xs[1..] == xs;
      EveryFirst(op, xs[0], xs[1..], ys);
      if !Fixed(x1) {
        UnfixedUnit(op, x1);
        forall k | 0 <= k < |ys2| ensures !Eq(x1, ys2[k]) {
          assert !Eq(x1, ys1[k]);
        }
      }
      forall k | 0 <= k < |xs| ensures Fixed(([x1] + rest)[k]) || Unmatched(([x1] + rest)[k], ys2) {
        assert k > 0 ==> ([x1] + rest)[k] == rest[k - 1];
      }
    }
  }

  lemma UnfixedUnit(op: Op, x: Expr)
    requires !Fixed(x)
    ensures !Eq(x, Unit(op))
  {
    FixedInert(Unit(op));
  }

  // ---- what is found equal ----

  ghost predicate SameCopies(a: seq<Expr>, b: seq<Expr>, n: nat) {
    forall r :: Small(r, n) ==> Copies(r, a) == Copies(r, b)
  }

  /** Something left on one side is missing on the other. */
  lemma LeftMissing(op: Op, xs: seq<Expr>, ys: seq<Expr>, n: nat, k: nat)
    requires Parts(op, xs, n) && k < |xs| && xs[k] != Unit(op) && Unmatched(xs[k], ys)
    ensures Small(xs[k], n) && Copies(xs[k], xs) > 0 && Copies(xs[k], ys) == 0
  {
    hide Eq;
    Reflexive(xs[k]);
    CopiesSome(xs[k], xs, k);
    CopiesNone(xs[k], ys);
  }

  lemma UnitsCopies(op: Op, us: seq<Expr>, r: Expr)
    requires Unfixed(r) && forall k :: 0 <= k < |us| ==> us[k] == Unit(op)
    ensures Copies(r, us) == 0
  {
    hide Eq;
    UnitUnequal(op, r);
    CopiesNone(r, us);
  }

  lemma PartsFoldable(op: Op, e: Expr, ls: seq<Expr>)
    requires Unfixed(e) && |ls| == |Operands(op, e)|
    requires forall k :: 0 <= k < |ls| ==> ls[k] == Operands(op, e)[k] || ls[k] == Unit(op)
    ensures Foldable(op, ls)
  {
    UnfixedOperands(op, e);
    forall k | 0 <= k < |ls| ensures !Is(op, ls[k]) && (ls[k] == Unit(op) || ConstFree(ls[k])) {
      UnfixedFree(Operands(op, e)[k]);
    }
  }

  lemma {:induction false} LiveIn(op: Op, ls: seq<Expr>, x: Expr)
    requires x in Live(op, ls)
    ensures x in ls && x != Unit(op)
  {
    if ls[0] != Unit(op) && x == ls[0] {
    } else {
      LiveIn(op, ls[1..], x);
    }
  }

  /** Two chains are found equal if and only if nothing is left of either. */
  lemma EqEmpty(op: Op, e1: Expr, e2: Expr, xs: seq<Expr>, ys: seq<Expr>, n: nat)
    requires Is(op, e1) && Is(op, e2) && Unfixed(e1) && Unfixed(e2)
    requires (xs, ys) == Every(op, Operands(op, e1), Operands(op, e2)) && Parts(op, xs, n)
    ensures Eq(e1, e2) <==> Live(op, xs) == [] && Live(op, ys) == []
  {
    hide Eq, Every, Live, Operands, Foldable, Fixed;
    EveryParts(op, Operands(op, e1), Operands(op, e2));
    EveryUnmatched(op, Operands(op, e1), Operands(op, e2));
    PartsFoldable(op, e1, xs);
    PartsFoldable(op, e2, ys);
    EqChains(op, e1, e2, xs, ys);
    if Eq(e1, e2) && Live(op, xs) != [] {
      var s := Live(op, xs)[0];
      assert Live(op, ys)[0] == s;
      LiveIn(op, xs, s);
      SmallUnfixed(s, n);
      LeftApart(xs, ys, s);
      LiveIn(op, ys, s);
    }
  }

  lemma LeftApart(xs: seq<Expr>, ys: seq<Expr>, s: Expr)
    requires (forall k :: 0 <= k < |xs| ==> Fixed(xs[k]) || Unmatched(xs[k], ys)) && s in xs && Unfixed(s) && !Fixed(s)
    ensures s !in ys
  {
    hide Eq;
    Reflexive(s);
  }

  lemma SmallUnfixed(e: Expr, n: nat)
    requires Small(e, n)
    ensures !Fixed(e)
  {
  }

  lemma OperandParts(op: Op, e: Expr, n: nat)
    requires Unfixed(e) && Is(op, e) && Size(e) <= n
    ensures Parts(op, Operands(op, e), n)
  {
    UnfixedOperands(op, e);
    OperandsSmaller(op, e);
  }

  lemma EveryBoth(op: Op, a: seq<Expr>, b: seq<Expr>, n: nat)
    requires Parts(op, a, n) && Parts(op, b, n)
    ensures Parts(op, Every(op, a, b).0, n) && Parts(op, Every(op, a, b).1, n)
  {
    hide Every, Small;
    EveryParts(op, a, b);
  }

  /** With the same copies before and nothing matching after, nothing is left. */
  lemma SameNothing(op: Op, xs: seq<Expr>, ys: seq<Expr>, n: nat)
    requires Parts(op, xs, n) && Parts(op, ys, n) && SameCopies(xs, ys, n)
    requires forall k :: 0 <= k < |xs| ==> Fixed(xs[k]) || Unmatched(xs[k], ys)
    ensures Live(op, xs) == [] && Live(op, ys) == []
  {
    hide Eq, Live, Copies, Unmatched, Fixed;
    forall k | 0 <= k < |xs| ensures xs[k] == Unit(op) {
      if xs[k] != Unit(op) {
        SmallUnfixed(xs[k], n);
        LeftMissing(op, xs, ys, n, k);
      }
    }
    forall k | 0 <= k < |ys| ensures ys[k] == Unit(op) {
      if ys[k] != Unit(op) {
        UnitsCopies(op, xs, ys[k]);
        Reflexive(ys[k]);
        CopiesSome(ys[k], ys, k);
      }
    }
    AllLive(op, xs);
    AllLive(op, ys);
  }

  /** Two chains are found equal exactly if they have the same number of copies of every expression. */
  lemma EqCounts(op: Op, e1: Expr, e2: Expr, n: nat)
    requires Equivalence(n) && Is(op, e1) && Is(op, e2) && Small(e1, n + 1) && Small(e2, n + 1)
    ensures Eq(e1, e2) <==> SameCopies(Operands(op, e1), Operands(op, e2), n)
  {
    hide Eq, Every, Live, Operands, Equivalence, Copies, Unmatched;
    var a, b := Operands(op, e1), Operands(op, e2);
    var (xs, ys) := Every(op, a, b);
    OperandParts(op, e1, n);
    OperandParts(op, e2, n);
    EveryBoth(op, a, b, n);
    EqEmpty(op, e1, e2, xs, ys, n);
    forall r | Small(r, n) ensures Copies(r, a) + Copies(r, ys) == Copies(r, b) + Copies(r, xs) {
      EveryCopies(op, a, b, r, n);
    }
    if Live(op, xs) == [] && Live(op, ys) == [] {
      AllLive(op, xs);
      AllLive(op, ys);
      forall r | Small(r, n) ensures Copies(r, a) == Copies(r, b) {
        UnitsCopies(op, xs, r);
        UnitsCopies(op, ys, r);
      }
    } else if SameCopies(a, b, n) {
      EveryUnmatched(op, a, b);
      SameNothing(op, xs, ys, n);
    }
  }

  lemma {:induction false} AllLive(op: Op, ls: seq<Expr>)
    ensures Live(op, ls) == [] <==> forall k :: 0 <= k < |ls| ==> ls[k] == Unit(op)
  {
    if ls != [] { AllLive(op, ls[1..]); }
  }

  /** `expr_eq` by the shape of the first expression. */
  lemma EqByShape(a: Expr, b: Expr)
    ensures !a.Not? && !a.And? && !a.Or? ==> (Eq(a, b) <==> a == b)
    ensures a.Not? ==> (Eq(a, b) <==> b.Not? && Eq(a.arg, b.arg))
    ensures Eq(a, b) ==> (a.And? <==> b.And?) && (a.Or? <==> b.Or?)
  {
  }

  lemma {:induction false} SymmetricStep(a: Expr, b: Expr, n: nat)
    requires Equivalence(n) && Small(a, n + 1) && Small(b, n + 1) && Eq(a, b)
    ensures Eq(b, a)
    decreases Size(a)
  {
    hide Eq, Equivalence, SameCopies;
    EqByShape(a, b);
    EqByShape(b, a);
    if a.Not? {
      SymmetricStep(a.arg, b.arg, n);
    } else if a.And? || a.Or? {
      var op := if a.And? then AndOp else OrOp;
      EqCounts(op, a, b, n);
      EqCounts(op, b, a, n);
      CopiesSwap(Operands(op, a), Operands(op, b), n);
    }
  }

  lemma CopiesSwap(a: seq<Expr>, b: seq<Expr>, n: nat)
    requires SameCopies(a, b, n)
    ensures SameCopies(b, a, n)
  {
  }

  lemma CopiesChain(a: seq<Expr>, b: seq<Expr>, c: seq<Expr>, n: nat)
    requires SameCopies(a, b, n) && SameCopies(b, c, n)
    ensures SameCopies(a, c, n)
  {
  }

  lemma {:induction false} TransitiveStep(a: Expr, b: Expr, c: Expr, n: nat)
    requires Equivalence(n) && Small(a, n + 1) && Small(b, n + 1) && Small(c, n + 1) && Eq(a, b) && Eq(b, c)
    ensures Eq(a, c)
    decreases Size(a)
  {
    hide Eq, Equivalence, SameCopies;
    EqByShape(a, b);
    EqByShape(b, c);
    EqByShape(a, c);
    if a.Not? {
      TransitiveStep(a.arg, b.arg, c.arg, n);
    } else if a.And? || a.Or? {
      var op := if a.And? then AndOp else OrOp;
      EqCounts(op, a, b, n);
      EqCounts(op, b, c, n);
      EqCounts(op, a, c, n);
      CopiesChain(Operands(op, a), Operands(op, b), Operands(op, c), n);
    }
  }

  lemma {:induction false} AllEquivalent(n: nat)
    ensures Equivalence(n)
  {
    hide Eq, Small;
    if n > 0 {
      AllEquivalent(n - 1);
      forall a, b | Small(a, n) && Small(b, n) && Eq(a, b) ensures Eq(b, a) {
        SymmetricStep(a, b, n - 1);
      }
      forall a, b, c | Small(a, n) && Small(b, n) && Small(c, n) && Eq(a, b) && Eq(b, c) ensures Eq(a, c) {
        TransitiveStep(a, b, c, n - 1);
      }
    } else {
      NothingSmall();
    }
  }

  lemma NothingSmall()
    ensures forall a :: !Small(a, 0)
  {
  }

  /** `expr_eq` is an equivalence relation on expressions without constants. */
  lemma EqEquivalence(a: Expr, b: Expr, c: Expr)
    requires Unfixed(a) && Unfixed(b) && Unfixed(c)
    ensures Eq(a, a)
    ensures Eq(a, b) ==> Eq(b, a)
    ensures Eq(a, b) && Eq(b, c) ==> Eq(a, c)
  {
    hide Eq;
    Reflexive(a);
    var n := Size(a) + Size(b) + Size(c) + 1;
    AllEquivalent(n);
    assert Small(a, n) && Small(b, n) && Small(c, n);
  }

  /** What it finds equal: the same symbol or comparison, negations of equals, and two chains of the same
      operator with, for every expression, the same number of operands equal to it. */
  lemma EqExactly(a: Expr, b: Expr)
    requires Unfixed(a) && Unfixed(b)
    ensures a.Sym? || a.Equal? || a.Unequal? ==> (Eq(a, b) <==> a == b)
    ensures a.Not? ==> (Eq(a, b) <==> b.Not? && Eq(a.arg, b.arg))
    ensures (a.And? && !b.And?) || (a.Or? && !b.Or?) ==> !Eq(a, b)
    ensures a.And? && b.And? ==>
      (Eq(a, b) <==> forall r :: Unfixed(r) ==> Copies(r, Operands(AndOp, a)) == Copies(r, Operands(AndOp, b)))
    ensures a.Or? && b.Or? ==>
      (Eq(a, b) <==> forall r :: Unfixed(r) ==> Copies(r, Operands(OrOp, a)) == Copies(r, Operands(OrOp, b)))
  {
    hide Eq, Copies;
    EqByShape(a, b);
    if a.And? && b.And? { ChainsExactly(AndOp, a, b); }
    if a.Or? && b.Or? { ChainsExactly(OrOp, a, b); }
  }

  lemma ChainsExactly(op: Op, a: Expr, b: Expr)
    requires Is(op, a) && Is(op, b) && Unfixed(a) && Unfixed(b)
    ensures Eq(a, b) <==> forall r :: Unfixed(r) ==> Copies(r, Operands(op, a)) == Copies(r, Operands(op, b))
  {
    hide Eq, Equivalence, Copies, Operands;
    var n := Size(a) + Size(b);
    AllEquivalent(n);
    EqCounts(op, a, b, n);
    if Eq(a, b) {
      forall r | Unfixed(r) ensures Copies(r, Operands(op, a)) == Copies(r, Operands(op, b)) {
        var m := n + Size(r) + 1;
        AllEquivalent(m);
        EqCounts(op, a, b, m);
        SmallAt(r, a, b, m);
      }
    } else {
      EnoughCopies(Operands(op, a), Operands(op, b), n);
    }
  }

  lemma SmallAt(r: Expr, a: Expr, b: Expr, m: nat)
    requires Unfixed(r) && m == Size(a) + Size(b) + Size(r) + 1
    ensures Small(r, m)
  {
  }

  lemma EnoughCopies(a: seq<Expr>, b: seq<Expr>, n: nat)
    ensures (forall r :: Unfixed(r) ==> Copies(r, a) == Copies(r, b)) ==> SameCopies(a, b, n)
  {
    hide Unfixed, Copies;
  }

  /** Order and grouping of operands make no difference. */
  lemma EqReordered(op: Op, a: Expr, b: Expr, c: Expr)
    requires Unfixed(a) && Unfixed(b) && Unfixed(c)
    ensures Eq(Node(op, a, b), Node(op, b, a))
    ensures Eq(Node(op, Node(op, a, b), c), Node(op, a, Node(op, b, c)))
  {
    hide Eq, Copies, Operands, Node, Unfixed;
    OperandsOf(op, a, b);
    OperandsOf(op, b, a);
    OperandsOf(op, b, c);
    OperandsOf(op, Node(op, a, b), c);
    OperandsOf(op, a, Node(op, b, c));
    var s, t, u := Operands(op, a), Operands(op, b), Operands(op, c);
    forall r | Unfixed(r) ensures Copies(r, s + t) == Copies(r, t + s) {
      CopiesConcat(r, s, t);
      CopiesConcat(r, t, s);
    }
    assert s + t + u == s + (t + u);
    UnfixedNode(op, a, b);
    UnfixedNode(op, b, a);
    UnfixedNode(op, b, c);
    UnfixedNode(op, Node(op, a, b), c);
    UnfixedNode(op, a, Node(op, b, c));
    ChainsExactly(op, Node(op, a, b), Node(op, b, a));
    ChainsExactly(op, Node(op, Node(op, a, b), c), Node(op, a, Node(op, b, c)));
  }

  lemma UnfixedNode(op: Op, l: Expr, r: Expr)
    requires Unfixed(l) && Unfixed(r)
    ensures Is(op, Node(op, l, r)) && Unfixed(Node(op, l, r))
  {
  }

  /** Equals may be put for equals. */
  lemma EqCongruence(op: Op, a: Expr, a': Expr, b: Expr, b': Expr)
    requires Unfixed(a) && Unfixed(a') && Unfixed(b) && Unfixed(b') && Eq(a, a') && Eq(b, b')
    ensures Eq(Node(op, a, b), Node(op, a', b'))
  {
    hide Eq, Copies, Operands;
    OperandsOf(op, a, b);
    OperandsOf(op, a', b');
    var x, x' := Operands(op, Node(op, a, b)), Operands(op, Node(op, a', b'));
    forall r | Unfixed(r) ensures Copies(r, x) == Copies(r, x') {
      SameCounts(op, a, a', r);
      SameCounts(op, b, b', r);
      CopiesConcat(r, Operands(op, a), Operands(op, b));
      CopiesConcat(r, Operands(op, a'), Operands(op, b'));
    }
    ChainsExactly(op, Node(op, a, b), Node(op, a', b'));
  }

  lemma SameCounts(op: Op, a: Expr, a': Expr, r: Expr)
    requires Unfixed(a) && Unfixed(a') && Unfixed(r) && Eq(a, a')
    ensures Copies(r, Operands(op, a)) == Copies(r, Operands(op, a'))
  {
    hide Eq;
    EqByShape(a, a');
    if Is(op, a) {
      ChainsExactly(op, a, a');
    } else {
      EqEquivalence(a, a', r);
      EqEquivalence(r, a, a');
      EqEquivalence(r, a', a);
      assert Operands(op, a) == [a] && Operands(op, a') == [a'];
    }
  }

  // ---- common parts ----

  /** A part without constants is always removed from what it is joined to. */
  lemma CommonAlways(p: Expr, c: Expr)
    requires Unfixed(p)
    ensures EliminateEq(And(p, c), p).1 == Sym(Yes)
    ensures EliminateEq(Or(p, c), p).1 == Sym(No)
  {
    hide EliminateEq;
    UnfixedRemoved(AndOp, p);
    UnfixedRemoved(OrOp, p);
    CommonRemoved(AndOp, p, c);
    CommonRemoved(OrOp, p, c);
  }

  lemma UnfixedRemoved(op: Op, p: Expr)
    requires Unfixed(p)
    ensures forall k :: 0 <= k < |Operands(op, p)| ==> Few(Operands(op, p)[k]) && !Fixed(Operands(op, p)[k])
  {
    hide Few;
    UnfixedOperands(op, p);
    forall k | 0 <= k < |Operands(op, p)| ensures Few(Operands(op, p)[k]) {
      UnfixedFew(Operands(op, p)[k]);
    }
  }

  /** Two equal expressions leave nothing of each other, if they are chains; what is no chain stays. */
  lemma EliminateSame(p: Expr, q: Expr)
    requires Unfixed(p) && Unfixed(q) && Eq(p, q)
    ensures p.And? ==> EliminateEq(p, q) == (Sym(Yes), Sym(Yes))
    ensures p.Or? ==> EliminateEq(p, q) == (Sym(No), Sym(No))
    ensures !p.And? && !p.Or? ==> EliminateEq(p, q) == (p, q)
  {
    hide Eq, EliminateIn;
    EqByShape(p, q);
    if p.And? || p.Or? {
      var op := if p.And? then AndOp else OrOp;
      NothingLeft(op, p, q);
      SameKind(op, p, q);
    }
  }

  lemma SameKind(op: Op, p: Expr, q: Expr)
    requires Is(op, p) && Is(op, q)
    ensures EliminateEq(p, q) == (Yn(EliminateIn(op, p, q).0), Yn(EliminateIn(op, p, q).1))
  {
    hide EliminateIn, Yn;
  }

  lemma NothingLeft(op: Op, p: Expr, q: Expr)
    requires Is(op, p) && Is(op, q) && Unfixed(p) && Unfixed(q) && Eq(p, q)
    ensures Yn(EliminateIn(op, p, q).0) == Unit(op) && Yn(EliminateIn(op, p, q).1) == Unit(op)
  {
    hide Eq, Every, Live, Operands, Yn, Rebuild, Foldable;
    var n := Size(p);
    var (xs, ys) := Every(op, Operands(op, p), Operands(op, q));
    OperandParts(op, p, n);
    EveryParts(op, Operands(op, p), Operands(op, q));
    UnitOrPart(op, Operands(op, p), xs, n);
    EqEmpty(op, p, q, xs, ys, n);
    EveryTree(op, p, q);
    PartsFoldable(op, p, xs);
    PartsFoldable(op, q, ys);
    YnChain(op, p, xs);
    YnChain(op, q, ys);
  }

  lemma UnitOrPart(op: Op, ls: seq<Expr>, xs: seq<Expr>, n: nat)
    requires Parts(op, ls, n) && |xs| == |ls| && forall k :: 0 <= k < |xs| ==> xs[k] == ls[k] || xs[k] == Unit(op)
    ensures Parts(op, xs, n)
  {
  }
}

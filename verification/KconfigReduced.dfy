/** What `expr_eliminate_dups` eliminates: the rules by which two tests of one symbol become one, and what
    its result is free of. */
module KconfigReduced {
  import opened Basics
  import opened KconfigExpr
  import opened KconfigTransform
  import opened KconfigDups
  import opened KconfigDupsProofs
  import opened KconfigEqual
  import opened KconfigAlike

  // ---- the rules ----

  predicate Tri3(t: Symbol, u: Symbol, w: Symbol) {
    {t, u, w} == {Yes, Mod, No}
  }

  /** Equal operands are joined; so are two of the three tests of a tristate symbol, and a boolean symbol
      and its negation. */
  lemma JoinsUnderOr(s: Symbol, t: Symbol, u: Symbol, w: Symbol, e: Expr)
    requires t != u && Tri3(t, u, w)
    ensures Kind(s) == Tristate ==> JoinTests(OrOp, Equal(s, t), Equal(s, u)) == Some(Unequal(s, w))
    ensures Kind(s) == Boolean ==> JoinTests(OrOp, Sym(s), Not(Sym(s))) == Some(Sym(Yes))
    ensures Kind(s) == Boolean ==> JoinTests(OrOp, Not(Sym(s)), Sym(s)) == Some(Sym(Yes))
    ensures Eq(e, e) ==> JoinTests(OrOp, e, e) == Some(e)
  {
    assert Yes in {t, u, w} && Mod in {t, u, w} && No in {t, u, w};
    assert t in {Yes, Mod, No} && u in {Yes, Mod, No} && w in {Yes, Mod, No};
  }

  /** Under and: a symbol with a test of it, a test for one constant with one against another, and two
      tests against different values. */
  lemma JoinsUnderAnd(s: Symbol, t: Symbol, u: Symbol, w: Symbol, c: Symbol, d: Symbol, e: Expr)
    requires (Kind(s) == Boolean || Kind(s) == Tristate) && t != u && Tri3(t, u, w) && IsConst(c) && IsConst(d)
    ensures JoinTests(AndOp, Sym(s), Equal(s, Yes)) == JoinTests(AndOp, Equal(s, Yes), Sym(s)) == Some(Equal(s, Yes))
    ensures JoinTests(AndOp, Sym(s), Unequal(s, No)) == JoinTests(AndOp, Unequal(s, No), Sym(s)) == Some(Sym(s))
    ensures JoinTests(AndOp, Sym(s), Unequal(s, Mod)) == JoinTests(AndOp, Unequal(s, Mod), Sym(s)) == Some(Equal(s, Yes))
    ensures Kind(s) == Tristate ==> JoinTests(AndOp, Unequal(s, t), Unequal(s, u)) == Some(Equal(s, w))
    ensures Kind(s) == Tristate ==>
      JoinTests(AndOp, Equal(s, c), Unequal(s, d)) == Some(if c != d then Equal(s, c) else Sym(No))
    ensures Kind(s) == Tristate ==>
      JoinTests(AndOp, Unequal(s, d), Equal(s, c)) == Some(if c != d then Equal(s, c) else Sym(No))
    ensures Eq(e, e) ==> JoinTests(AndOp, e, e) == Some(e)
  {
    assert Yes in {t, u, w} && Mod in {t, u, w} && No in {t, u, w};
    assert t in {Yes, Mod, No} && u in {Yes, Mod, No} && w in {Yes, Mod, No};
  }

  /** And nothing else is joined. */
  lemma JoinsOnly(op: Op, e1: Expr, e2: Expr)
    requires JoinTests(op, e1, e2).Some? && !Eq(e1, e2)
    ensures op == OrOp ==>
      || (e1.Equal? && e2.Equal? && e1.left == e2.left && Kind(e1.left) == Tristate
          && e1.right != e2.right && e1.right in {Yes, Mod, No} && e2.right in {Yes, Mod, No})
      || (e1.Sym? && e2 == Not(e1) && Kind(e1.sym) == Boolean)
      || (e2.Sym? && e1 == Not(e2) && Kind(e2.sym) == Boolean)
    ensures op == AndOp ==>
      || TestOf(e1, e2) || TestOf(e2, e1)
      || (e1.Equal? && e2.Unequal? && e1.left == e2.left && Kind(e1.left) == Tristate
          && IsConst(e1.right) && IsConst(e2.right))
      || (e1.Unequal? && e2.Equal? && e1.left == e2.left && Kind(e1.left) == Tristate
          && IsConst(e1.right) && IsConst(e2.right))
      || (e1.Unequal? && e2.Unequal? && e1.left == e2.left && Kind(e1.left) == Tristate
          && e1.right != e2.right && e1.right in {Yes, Mod, No} && e2.right in {Yes, Mod, No})
  {
    hide Eq;
  }

  /** A boolean or tristate symbol, and a test of it that it can be joined with. */
  predicate TestOf(e: Expr, test: Expr) {
    e.Sym? && (Kind(e.sym) == Boolean || Kind(e.sym) == Tristate)
    && (test == Equal(e.sym, Yes) || test == Unequal(e.sym, No) || test == Unequal(e.sym, Mod))
  }

  // ---- what is left after the first pass ----

  /** No two operands of the chain can be joined, nor any two of a chain of the other operator below it. */
  ghost predicate Unjoinable(op: Op, e: Expr)
    requires Is(op, e)
    decreases Size(e)
  {
    OperandsSmaller(op, e);
    var ls := Operands(op, e);
    && (forall i, j :: 0 <= i < |ls| && 0 <= j < |ls| && i != j ==> JoinTests(op, ls[i], ls[j]) == None)
    && (forall i :: 0 <= i < |ls| && Is(Other(op), ls[i]) ==> Unjoinable(Other(op), ls[i]))
  }

  lemma StepUncounted(op: Op, ls: seq<Expr>, i: nat, j: nat, e1: Expr)
    requires i < |ls| && j < |ls| && i != j && e1 == ls[i] && forall k :: 0 <= k < |ls| ==> !Is(op, ls[k])
    requires !Step1(op, ls, i, j, e1).1
    ensures JoinTests(op, ls[i], ls[j]) == None && Step1(op, ls, i, j, e1).0 == ls
  {
    hide JoinTests;
  }

  lemma InnerUncounted(op: Op, e: Expr)
    requires !Is(op, e) && !Inner1(op, e).1
    ensures Inner1(op, e).0 == e
  {
    hide Dups1;
    if Is(Other(op), e) { Dups1Count(Other(op), e); }
  }

  /** A pass over the pairs from (i, j) on that counts nothing has found nothing to join. */
  lemma {:induction false} PairsUncounted(op: Op, ls: seq<Expr>, i: nat, j: nat, bound: nat, a: nat, b: nat)
    requires i <= |ls| && j <= |ls| && Sum(Size, ls) < bound && forall k :: 0 <= k < |ls| ==> !Is(op, ls[k])
    requires !Pairs1(op, ls, i, j, bound).1
    requires a < |ls| && b < |ls| && a != b && (a > i || (a == i && b >= j))
    ensures JoinTests(op, ls[a], ls[b]) == None && !Inner1(op, ls[a]).1
    decreases |ls| - i, |ls| - j
  {
    hide Sum, Step1, Inner1, JoinTests;
    if j == |ls| {
      PairsUncounted(op, ls, i + 1, 0, bound, a, b);
    } else if i == j {
      PairsUncounted(op, ls, i, j + 1, bound, a, b);
    } else {
      SumMember(Size, ls, i);
      InnerUncounted(op, ls[i]);
      StepUncounted(op, ls, i, j, ls[i]);
      if a > i || b > j {
        PairsUncounted(op, ls, i, j + 1, bound, a, b);
      }
    }
  }

  lemma {:induction false} PassUncounted(op: Op, e: Expr)
    requires Is(op, e) && !Dups1(op, e).1
    ensures Unjoinable(op, e)
    decreases Size(e)
  {
    hide Sum, JoinTests, Pairs1, Dups1;
    var ls := Operands(op, e);
    OperandsSize(op, e);
    OperandsSmaller(op, e);
    FirstPass(op, e);
    forall i, j | 0 <= i < |ls| && 0 <= j < |ls| && i != j ensures JoinTests(op, ls[i], ls[j]) == None {
      PairsUncounted(op, ls, 0, 0, Size(e), i, j);
    }
    forall i | 0 <= i < |ls| && Is(Other(op), ls[i]) ensures Unjoinable(Other(op), ls[i]) {
      PairsUncounted(op, ls, 0, 0, Size(e), i, if i == 0 then 1 else 0);
      PassUncounted(Other(op), ls[i]);
    }
  }

  lemma FirstPass(op: Op, e: Expr)
    requires Is(op, e)
    ensures Sum(Size, Operands(op, e)) < Size(e)
    ensures Dups1(op, e).1 == Pairs1(op, Operands(op, e), 0, 0, Size(e)).1
  {
    hide Pairs1, Sum;
    OperandsSize(op, e);
  }

  // ---- what is left after the second pass ----

  /** No operand that is a chain of the other operator is decided by the chain: of its negation something
      is not found among the operands. Nor in the chains below. */
  ghost predicate Undecidable(op: Op, e: Expr)
    requires Is(op, e)
    decreases Size(e)
  {
    OperandsSmaller(op, e);
    var ls := Operands(op, e);
    forall i :: 0 <= i < |ls| && Is(Other(op), ls[i]) ==>
      ExtractEq(op, Transform(Not(ls[i])), e).1 != Unit(op) && Undecidable(Other(op), ls[i])
  }

  lemma TryUncounted(op: Op, e: Expr, i: nat, bound: nat)
    requires i < |Operands(op, e)| && Sum(Size, Operands(op, e)) < bound && Is(Other(op), Operands(op, e)[i])
    requires !Try2(op, e, 0, i, Operands(op, e), bound).1
    ensures ExtractEq(op, Transform(Not(Operands(op, e)[i])), e).1 != Unit(op)
    ensures !Dups2(Other(op), Operands(op, e)[i]).1
  {
    hide Sum, Dups2, ExtractEq, Transform, Operands, Rebuild;
    var ls := Operands(op, e);
    SumMember(Size, ls, i);
    Dups2Count(Other(op), ls[i]);
    RebuildSame(op, e);
    assert ls[i := ls[i]] == ls && ls[0..|ls|] == ls;
  }

  lemma WalkUncounted(op: Op, e: Expr, i: nat, ls: seq<Expr>, bound: nat)
    requires Is(op, e) && ls == Operands(op, e) && i < |ls| && Sum(Size, ls) < bound
    requires !Walk2(op, e, 0, i, ls, bound).1
    ensures !Try2(op, e, 0, i, ls, bound).1
  {
    hide Sum, Try2, Operands;
    assert |Operands(op, e)| == |Operands(op, e.l)| + |Operands(op, e.r)| by { OperandsOf(op, e.l, e.r); }
    Walk2Count(op, e.l, 0, i, ls, bound);
    Walk2Count(op, e.r, |Operands(op, e.l)|, i, ls, bound);
  }

  lemma {:induction false} LoopUncounted(op: Op, e: Expr, i: nat, bound: nat, k: nat)
    requires Is(op, e) && i <= k < |Operands(op, e)| && Sum(Size, Operands(op, e)) < bound
    requires !Loop2(op, e, Operands(op, e), i, bound).1
    ensures !Walk2(op, e, 0, k, Operands(op, e), bound).1
    decreases k - i
  {
    hide Sum, Walk2, Operands;
    Walk2Count(op, e, 0, i, Operands(op, e), bound);
    if i < k { LoopUncounted(op, e, i + 1, bound, k); }
  }

  lemma {:induction false} SecondUncounted(op: Op, e: Expr)
    requires Is(op, e) && !Dups2(op, e).1
    ensures Undecidable(op, e)
    decreases Size(e)
  {
    hide Sum, Dups2, Walk2, Try2, ExtractEq, Transform;
    var ls := Operands(op, e);
    SecondPass(op, e);
    OperandsSmaller(op, e);
    forall i | 0 <= i < |ls| && Is(Other(op), ls[i])
      ensures ExtractEq(op, Transform(Not(ls[i])), e).1 != Unit(op) && Undecidable(Other(op), ls[i])
    {
      LoopUncounted(op, e, 0, Size(e), i);
      WalkUncounted(op, e, i, ls, Size(e));
      TryUncounted(op, e, i, Size(e));
      SecondUncounted(Other(op), ls[i]);
    }
  }

  lemma SecondPass(op: Op, e: Expr)
    requires Is(op, e)
    ensures Sum(Size, Operands(op, e)) < Size(e)
    ensures Dups2(op, e).1 == Loop2(op, e, Operands(op, e), 0, Size(e)).1
  {
    hide Loop2, Sum;
    OperandsSize(op, e);
  }

  // ---- what is left altogether ----

  /** No two operands of the chain are equal, nor any two of a chain of the other operator below it. */
  ghost predicate NoTwins(op: Op, e: Expr)
    requires Is(op, e)
    decreases Size(e)
  {
    OperandsSmaller(op, e);
    var ls := Operands(op, e);
    && (forall i, j :: 0 <= i < |ls| && 0 <= j < |ls| && i != j ==> !Eq(ls[i], ls[j]))
    && (forall i :: 0 <= i < |ls| && Is(Other(op), ls[i]) ==> NoTwins(Other(op), ls[i]))
  }

  lemma {:induction false} UnjoinableNoTwins(op: Op, e: Expr)
    requires Is(op, e) && Unjoinable(op, e)
    ensures NoTwins(op, e)
    decreases Size(e)
  {
    hide Eq, JoinTests;
    var ls := Operands(op, e);
    OperandsSmaller(op, e);
    forall i, j | 0 <= i < |ls| && 0 <= j < |ls| && i != j ensures !Eq(ls[i], ls[j]) {
      EqualJoined(op, ls[i], ls[j]);
    }
    forall i | 0 <= i < |ls| && Is(Other(op), ls[i]) ensures NoTwins(Other(op), ls[i]) {
      UnjoinableNoTwins(Other(op), ls[i]);
    }
  }

  lemma EqualJoined(op: Op, e1: Expr, e2: Expr)
    ensures Eq(e1, e2) ==> JoinTests(op, e1, e2) == Some(e1)
  {
    hide Eq;
  }

  /** The result of `expr_eliminate_dups` has no two equal operands in a chain, no two tests in a chain that
      can be joined, and no operand decided by its chain, at any depth of ands and ors. */
  lemma NothingRedundant(op: Op, e: Expr)
    requires Is(op, EliminateDups(e))
    ensures NoTwins(op, EliminateDups(e)) && Unjoinable(op, EliminateDups(e)) && Undecidable(op, EliminateDups(e))
  {
    hide EliminateDups, Dups1, Dups2, NoTwins, Unjoinable, Undecidable;
    var r := EliminateDups(e);
    EliminateDupsStable(e);
    BothPasses(op, r);
    Dups1Count(op, r);
    PassUncounted(op, r);
    SecondUncounted(op, r);
    UnjoinableNoTwins(op, r);
  }

  lemma BothPasses(op: Op, e: Expr)
    requires Is(op, e) && !Pass(e).1
    ensures !Dups1(op, e).1 && !Dups2(op, Dups1(op, e).0).1
  {
    hide Dups1, Dups2;
  }

  /** Of a symbol joined to itself the symbol is left. */
  lemma SymbolTwice(op: Op, s: Symbol)
    requires s.Named?
    ensures EliminateDups(Node(op, Sym(s), Sym(s))) == Sym(s)
  {
    hide Dups1, Dups2;
    var x, e := Sym(s), Node(op, Sym(s), Sym(s));
    TwicePairs(op, s);
    IdleChain(op, Node(op, Unit(op), x));
    var (r, c) := Pass(e);
    assert r == Node(op, Unit(op), x) && c;
    PassCount(e);
    assert Yn(r) == x;
    assert EliminateDups(x) == x;
  }

  lemma TwicePairs(op: Op, s: Symbol)
    requires s.Named?
    ensures Dups1(op, Node(op, Sym(s), Sym(s))) == (Node(op, Unit(op), Sym(s)), true)
  {
    hide Sum;
    var x, e := Sym(s), Node(op, Sym(s), Sym(s));
    var ls := [Unit(op), x];
    FirstPass(op, e);
    assert Operands(op, e) == [x, x];
    SumUpdate(Size, [x, x], 0, Unit(op));
    assert [x, x][0 := Unit(op)][1 := x] == ls;
    assert Step1(op, [x, x], 0, 1, x) == (ls, true);
    assert JoinTests(op, x, Unit(op)) == None;
    assert ls[1 := x] == ls;
    assert Step1(op, ls, 1, 0, x) == (ls, false);
    assert Pairs1(op, ls, 2, 0, Size(e)) == (ls, false);
    assert Pairs1(op, ls, 1, 1, Size(e)) == (ls, false);
    assert Pairs1(op, ls, 1, 0, Size(e)) == (ls, false);
    assert Pairs1(op, ls, 0, 2, Size(e)) == (ls, false);
    assert Pairs1(op, [x, x], 0, 1, Size(e)) == (ls, true);
    assert Rebuild(op, e, ls) == Node(op, Unit(op), x) by { assert ls[..1] == [Unit(op)] && ls[1..] == [x]; }
  }

  // ---- when the second pass decides a chain ----

  predicate UnfixedOrUnit(op: Op, x: Expr) {
    !Fixed(x) || x == Unit(op)
  }

  /** Without constants extraction removes what elimination removes. */
  lemma {:induction false} ExtractEliminates(op: Op, acc: Option<Expr>, e1: Expr, e2: Expr)
    requires forall k :: 0 <= k < |Operands(op, e1)| ==> UnfixedOrUnit(op, Operands(op, e1)[k])
    ensures Extract(op, acc, e1, e2).1 == EliminateIn(op, e1, e2).0
    ensures Extract(op, acc, e1, e2).2 == EliminateIn(op, e1, e2).1
    decreases Size(e1) + Size(e2)
  {
    hide Eq, Fixed;
    if Is(op, e1) {
      var a, b := Operands(op, e1.l), Operands(op, e1.r);
      assert forall k :: 0 <= k < |a| ==> a[k] == Operands(op, e1)[k];
      assert forall k :: 0 <= k < |b| ==> b[k] == Operands(op, e1)[|a| + k];
      ExtractEliminates(op, acc, e1.l, e2);
      ExtractEliminates(op, Extract(op, acc, e1.l, e2).0, e1.r, EliminateIn(op, e1.l, e2).1);
    } else if Is(op, e2) {
      assert Operands(op, e1)[0] == e1;
      OneTree(op, e1, e2.l);
      OneParts(op, e1, Operands(op, e2.l));
      ExtractEliminates(op, acc, e1, e2.l);
      ExtractEliminates(op, Extract(op, acc, e1, e2.l).0, EliminateIn(op, e1, e2.l).0, e2.r);
    } else {
      assert Operands(op, e1)[0] == e1;
      LeafExtract(op, acc, e1, e2);
    }
  }

  lemma LeafExtract(op: Op, acc: Option<Expr>, e1: Expr, e2: Expr)
    requires !Is(op, e1) && !Is(op, e2) && UnfixedOrUnit(op, e1)
    ensures Extract(op, acc, e1, e2).1 == EliminateIn(op, e1, e2).0
    ensures Extract(op, acc, e1, e2).2 == EliminateIn(op, e1, e2).1
  {
    if SameFixed(e1, e2) {
      assert Eq(e1, e2);
    }
  }

  /** What collects nothing removes nothing. */
  lemma {:induction false} ExtractNothing(op: Op, acc: Option<Expr>, e1: Expr, e2: Expr)
    ensures Extract(op, acc, e1, e2).0 == None ==> acc == None && Extract(op, acc, e1, e2) == (None, e1, e2)
    decreases Size(e1) + Size(e2)
  {
    hide Eq;
    if Is(op, e1) {
      ExtractNothing(op, acc, e1.l, e2);
      ExtractNothing(op, Extract(op, acc, e1.l, e2).0, e1.r, Extract(op, acc, e1.l, e2).2);
    } else if Is(op, e2) {
      ExtractNothing(op, acc, e1, e2.l);
      ExtractNothing(op, Extract(op, acc, e1, e2.l).0, Extract(op, acc, e1, e2.l).1, e2.r);
    }
  }

  /** Extraction leaves nothing of `e1` exactly if each of its operands is found in `e2` as often: so an
      operand decides its chain exactly if all operands of its negation stand in it. */
  lemma DecidesExactly(op: Op, e1: Expr, e2: Expr)
    requires Unfixed(e1) && Unfixed(e2)
    ensures ExtractEq(op, e1, e2).1 == Unit(op) <==>
      forall r :: Unfixed(r) ==> Copies(r, Operands(op, e1)) <= Copies(r, Operands(op, e2))
  {
    hide Eq, Extract, EliminateIn, Every, Live, Operands, Yn, Copies, Unfixed, Equivalence, Rebuild, Foldable;
    var a, b := Operands(op, e1), Operands(op, e2);
    var (xs, ys) := Every(op, a, b);
    ExtractLeft(op, e1, e2);
    if Live(op, xs) == [] {
      AllLive(op, xs);
      forall r | Unfixed(r) ensures Copies(r, a) <= Copies(r, b) {
        CopiesLeft(op, e1, e2, r);
        UnitsCopies(op, xs, r);
      }
    } else {
      AllLive(op, xs);
      var k :| 0 <= k < |xs| && xs[k] != Unit(op);
      Surplus(op, e1, e2, k);
    }
  }

  lemma CopiesLeft(op: Op, e1: Expr, e2: Expr, r: Expr)
    requires Unfixed(e1) && Unfixed(e2) && Unfixed(r)
    ensures var (xs, ys) := Every(op, Operands(op, e1), Operands(op, e2));
      Copies(r, Operands(op, e1)) + Copies(r, ys) == Copies(r, Operands(op, e2)) + Copies(r, xs)
  {
    hide Eq, Every, Copies, Equivalence, Operands;
    var n := Size(e1) + Size(e2) + Size(r) + 1;
    AllEquivalent(n);
    ListParts(op, e1, n);
    ListParts(op, e2, n);
    EveryCopies(op, Operands(op, e1), Operands(op, e2), r, n);
  }

  lemma ListParts(op: Op, e: Expr, n: nat)
    requires Unfixed(e) && Size(e) < n
    ensures Parts(op, Operands(op, e), n)
  {
    UnfixedOperands(op, e);
    OperandsSmaller(op, e);
  }

  /** Something left over of `e1` occurs in it more often than in `e2`. */
  lemma Surplus(op: Op, e1: Expr, e2: Expr, k: nat)
    requires Unfixed(e1) && Unfixed(e2) && k < |Operands(op, e1)|
    requires Every(op, Operands(op, e1), Operands(op, e2)).0[k] != Unit(op)
    ensures exists r :: Unfixed(r) && Copies(r, Operands(op, e1)) > Copies(r, Operands(op, e2))
  {
    hide Eq, Every, Copies, Operands, Fixed;
    var n := Size(e1) + Size(e2) + 1;
    var (xs, ys) := Every(op, Operands(op, e1), Operands(op, e2));
    ListParts(op, e1, n);
    EveryParts(op, Operands(op, e1), Operands(op, e2));
    EveryUnmatched(op, Operands(op, e1), Operands(op, e2));
    UnitOrPart(op, Operands(op, e1), xs, n);
    SmallUnfixed(xs[k], n);
    LeftMissing(op, xs, ys, n, k);
    CopiesLeft(op, e1, e2, xs[k]);
  }

  lemma ExtractLeft(op: Op, e1: Expr, e2: Expr)
    requires Unfixed(e1) && Unfixed(e2)
    ensures ExtractEq(op, e1, e2).1 == Unit(op) <==> Live(op, Every(op, Operands(op, e1), Operands(op, e2)).0) == []
  {
    hide Eq, Extract, EliminateIn, Every, Live, Operands, Yn, Rebuild, Foldable;
    var (xs, ys) := Every(op, Operands(op, e1), Operands(op, e2));
    UnfixedOperands(op, e1);
    forall k | 0 <= k < |Operands(op, e1)| ensures UnfixedOrUnit(op, Operands(op, e1)[k]) {
      SmallUnfixed(Operands(op, e1)[k], Size(Operands(op, e1)[k]) + 1);
    }
    ExtractEliminates(op, None, e1, e2);
    ExtractNothing(op, None, e1, e2);
    EveryTree(op, e1, e2);
    EveryParts(op, Operands(op, e1), Operands(op, e2));
    PartsFoldable(op, e1, xs);
    YnChain(op, e1, xs);
    LeftSym(op, Yn(Rebuild(op, e1, xs)), Live(op, xs));
    UnfixedFree(e1);
    YnConstFree(e1);
    NoUnit(op, e1);
  }

  lemma NoUnit(op: Op, e: Expr)
    requires Unfixed(e)
    ensures e != Unit(op)
  {
  }
}

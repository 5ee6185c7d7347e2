/** How `menu_finalize` uses the rewriter: the conditions it builds for menus and prompts, and its
    test for nesting the following entries under a symbol. */
module KconfigMenu {
  import opened Basics
  import opened KconfigExpr
  import opened KconfigTransform
  import opened KconfigDups
  import opened KconfigDupsProofs
  import opened KconfigEqual
  import opened KconfigAlike

  // an absent expression stands for 'y'

  function OptValue(e: Option<Expr>, v: Valuation): Tri {
    if e.Some? then Value(e.value, v) else 2
  }

  function OptTransform(e: Option<Expr>): Option<Expr> {
    if e.Some? then Some(Transform(e.value)) else None
  }

  /** `expr_alloc_and` */
  function AllocAnd(a: Option<Expr>, b: Option<Expr>): Option<Expr> {
    if a.None? then b else if b.None? then a else Some(And(a.value, b.value))
  }

  function OptDups(e: Option<Expr>): Option<Expr> {
    if e.Some? then Some(EliminateDups(e.value)) else None
  }

  predicate OptNots(e: Option<Expr>) {
    e.Some? ==> NotsOnSymbols(e.value)
  }

  /** The condition of an entry below a parent condition, and of a prompt below an entry's. */
  function BuildDep(parent: Option<Expr>, own: Option<Expr>): Option<Expr> {
    OptDups(AllocAnd(parent, OptTransform(own)))
  }

  /** The condition stored for a prompt: comparisons with n are dropped unless the symbol is tristate. */
  function PromptDep(base: Option<Expr>, own: Option<Expr>, tristate: bool): Option<Expr> {
    var dep := BuildDep(base, own);
    if !tristate && dep.Some? then Some(TransBool(dep.value)) else dep
  }

  predicate GoodNot(x: Expr) {
    x.Not? ==> x.arg.Sym? && !Predefined(x.arg.sym)
  }

  lemma {:induction false} NotsAreOperands(e: Expr)
    ensures NotsOnSymbols(e) <==> AllOperands(GoodNot, e)
  {
    match e
    case And(l, r) => NotsAreOperands(l); NotsAreOperands(r);
    case Or(l, r) => NotsAreOperands(l); NotsAreOperands(r);
    case _ =>
  }

  lemma EliminateDupsNots(e: Expr)
    requires NotsOnSymbols(e)
    ensures NotsOnSymbols(EliminateDups(e))
  {
    hide EliminateDups;
    NotsAreOperands(e);
    EliminateDupsAll(GoodNot, e);
    NotsAreOperands(EliminateDups(e));
  }

  /** A built condition has the value of the conjunction of its parts unless that is m, and its
      negations stand on symbols. */
  lemma BuildDepValue(parent: Option<Expr>, own: Option<Expr>, v: Valuation)
    requires Consistent(v) && OptNots(parent)
    ensures Sharper(TriAnd(OptValue(parent, v), OptValue(own, v)), OptValue(BuildDep(parent, own), v))
    ensures OptNots(BuildDep(parent, own))
  {
    hide Consistent, EliminateDups, Transform, NotsOnSymbols;
    if own.Some? {
      TransformValue(own.value, v);
      TransformNormal(own.value);
    }
    var e := AllocAnd(parent, OptTransform(own));
    if e.Some? {
      assert NotsOnSymbols(e.value) by {
        if parent.Some? && own.Some? { NotsConjunction(parent.value, Transform(own.value)); }
      }
      EliminateDupsValue(e.value, v);
      EliminateDupsNots(e.value);
    }
  }

  /** It is reduced: another `expr_eliminate_dups` finds nothing to do. A prompt's condition for a symbol
      that is not tristate tests no tristate symbol for n. */
  lemma BuildDepReduced(parent: Option<Expr>, own: Option<Expr>, tristate: bool)
    ensures BuildDep(parent, own) == None <==> parent == None && own == None
    ensures BuildDep(parent, own).Some? ==> EliminateDups(BuildDep(parent, own).value) == BuildDep(parent, own).value
    ensures tristate ==> PromptDep(parent, own, tristate) == BuildDep(parent, own)
    ensures !tristate && PromptDep(parent, own, tristate).Some? ==> NoVisibilityTest(PromptDep(parent, own, tristate).value)
  {
    hide EliminateDups, TransBool;
    var e := AllocAnd(parent, OptTransform(own));
    if e.Some? {
      EliminateDupsStable(e.value);
      TransBoolDone(EliminateDups(e.value));
    }
  }

  lemma NotsConjunction(a: Expr, b: Expr)
    requires NotsOnSymbols(a) && NotsOnSymbols(b)
    ensures NotsOnSymbols(And(a, b))
  {
  }

  lemma {:induction false} TransBoolNots(e: Expr)
    requires NotsOnSymbols(e)
    ensures NotsOnSymbols(TransBool(e))
  {
    match e
    case And(l, r) => TransBoolNots(l); TransBoolNots(r);
    case Or(l, r) => TransBoolNots(l); TransBoolNots(r);
    case _ =>
  }

  /** Visibility: unless the conjunction of the menu condition and the prompt's own is m, the condition
      stored for a prompt decides visibility as the conjunction does. */
  lemma PromptVisible(base: Option<Expr>, own: Option<Expr>, tristate: bool, v: Valuation)
    requires Consistent(v) && OptNots(base)
    ensures var c := TriAnd(OptValue(base, v), OptValue(own, v));
      c != 1 ==> Promote(OptValue(PromptDep(base, own, tristate), v)) == c
    ensures tristate ==> Sharper(TriAnd(OptValue(base, v), OptValue(own, v)), OptValue(PromptDep(base, own, tristate), v))
    ensures OptNots(PromptDep(base, own, tristate))
  {
    hide Consistent, NotsOnSymbols, BuildDep, TransBool;
    BuildDepValue(base, own, v);
    var dep := BuildDep(base, own);
    if !tristate && dep.Some? {
      TransBoolVisible(dep.value, v);
      TransBoolNots(dep.value);
    }
  }

  /** If it is m, the prompt can be lost: with this condition of its own it is not shown, though the
      condition promoted is y. */
  lemma PromptLost()
    ensures var v := AllMod();
      Consistent(v) && Promote(Value(CLASH, v)) == 2 && OptValue(PromptDep(None, Some(CLASH), false), v) == 0
  {
    hide EliminateDups, Consistent;
    ModLostAltogether();
    assert Normal(CLASH);
    NormalFixed(CLASH);
    assert AllocAnd(None, OptTransform(Some(CLASH))) == Some(CLASH);
  }

  // ---- nesting ----

  /** Comparisons, boolean symbols and 'y' and 'n' under any operators: never m. */
  predicate Tests(e: Expr) {
    match e
    case Sym(s) => s == Yes || s == No || Kind(s) == Boolean
    case Not(x) => Tests(x)
    case And(l, r) => Tests(l) && Tests(r)
    case Or(l, r) => Tests(l) && Tests(r)
    case _ => true
  }

  lemma {:induction false} TestsValue(e: Expr, v: Valuation)
    requires Consistent(v) && Tests(e)
    ensures Value(e, v) != 1
  {
    match e
    case And(l, r) => TestsValue(l, v); TestsValue(r, v);
    case Or(l, r) => TestsValue(l, v); TestsValue(r, v);
    case Not(x) => TestsValue(x, v);
    case _ =>
  }

  lemma {:induction false} TransformTests(e: Expr)
    requires Tests(e)
    ensures Tests(Transform(e))
    decreases Weight(e)
  {
    match e
    case And(l, r) => TransformTests(l); TransformTests(r);
    case Or(l, r) => TransformTests(l); TransformTests(r);
    case Not(x) =>
      TransformTests(x);
      match Transform(x) {
        case Not(z) => TransformTests(z);
        case Or(a, b) => DeMorganWeight(a, b); TransformTests(And(Not(a), Not(b)));
        case And(a, b) => DeMorganWeight(a, b); TransformTests(Or(Not(a), Not(b)));
        case _ =>
      }
    case _ =>
  }

  lemma {:induction false} CompareTests(e: Expr, unequal: bool, s: Symbol)
    requires s == Yes || s == No
    ensures Tests(TransCompare(e, unequal, s))
  {
    match e
    case And(l, r) => CompareTests(l, false, s); CompareTests(r, false, s);
    case Or(l, r) => CompareTests(l, false, s); CompareTests(r, false, s);
    case Not(x) => CompareTests(x, !unequal, s);
    case _ =>
  }

  /** The condition "not n" as `menu_finalize` prepares it for the nesting test. */
  function Shown(e: Option<Expr>): Expr {
    EliminateDups(Transform(TransCompareOpt(e, true, No)))
  }

  /** The test as prepared answers whether the condition differs from n, as `expr_trans_compare` does. */
  lemma ShownValue(e: Option<Expr>, v: Valuation)
    requires Consistent(v)
    ensures Value(Shown(e), v) == if Shows(e, v) then 2 else 0
  {
    hide EliminateDups, Transform, EqualTo;
    var c := TransCompareOpt(e, true, No);
    if e.Some? {
      hide TransCompare;
      TransCompareValue(e.value, true, No, v);
      CompareTests(e.value, true, No);
    }
    hide Consistent;
    TransformValue(c, v);
    TransformTests(c);
    TestsValue(Transform(c), v);
    EliminateDupsValue(Transform(c), v);
  }

  lemma ShownReduced(e: Option<Expr>)
    ensures EliminateDups(Shown(e)) == Shown(e)
  {
    hide EliminateDups, Transform;
    EliminateDupsStable(Transform(TransCompareOpt(e, true, No)));
  }

  /** An absent condition stands for 'y'. */
  predicate Shows(e: Option<Expr>, v: Valuation) {
    e.Some? ==> !EqualTo(e.value, No, v)
  }

  /** The nesting test: what is left of the parent's condition is 'y'. */
  predicate Nests(child: Expr, parent: Option<Expr>) {
    EliminateEq(Shown(Some(child)), Shown(parent)).1 == Sym(Yes)
  }

  /** A condition that joins something to the parent's is nested, unless constants stand in the way. */
  lemma NestingFound(child: Expr, parent: Option<Expr>, c: Expr)
    requires Unfixed(Shown(parent)) && Shown(Some(child)) == And(Shown(parent), c)
    ensures Nests(child, parent)
  {
    hide Shown, EliminateEq;
    CommonAlways(Shown(parent), c);
  }

  /** A condition equal to the parent's is nested exactly if it is a conjunction: between two expressions
      that are no chains nothing is eliminated. */
  lemma NestingEqual(child: Expr, parent: Option<Expr>)
    requires Unfixed(Shown(Some(child))) && Unfixed(Shown(parent)) && Eq(Shown(Some(child)), Shown(parent))
    ensures Nests(child, parent) <==> Shown(Some(child)).And?
  {
    hide Shown, EliminateEq, Eq;
    EliminateSame(Shown(Some(child)), Shown(parent));
  }

  /** Nesting is sound for the answers compared: if the child's condition is answered to differ from n,
      so is the parent's. */
  lemma NestingAnswers(child: Expr, parent: Option<Expr>, v: Valuation)
    requires Consistent(v) && Nests(child, parent)
    ensures Shows(Some(child), v) ==> Shows(parent, v)
  {
    hide Consistent, EliminateEq, Shown, Shows;
    EliminateEqImplies(Shown(Some(child)), Shown(parent), v);
    ShownValue(Some(child), v);
    ShownValue(parent, v);
  }

  /** For conditions as they are stored, with negations on symbols, a nested child whose strict value is
      not n is visible only if its parent is. So below an invisible parent a nested child is visible
      only if its strict value is n, through a negated operand of value m. */
  lemma NestingSound(child: Expr, parent: Option<Expr>, v: Valuation)
    requires Consistent(v) && Nests(child, parent)
    requires NotsOnSymbols(child) && Prints(child, v) && OptNots(parent) && (parent.Some? ==> Prints(parent.value, v))
    ensures Strict(child, v) != 0 ==> OptValue(parent, v) != 0
    ensures Value(child, v) != 0 && OptValue(parent, v) == 0 ==> Strict(child, v) == 0
  {
    hide Consistent, Nests, Prints, NotsOnSymbols;
    NestingAnswers(child, parent, v);
    EqualToStrict(child, v);
    if parent.Some? {
      EqualToStrict(parent.value, v);
      StrictBelow(parent.value, v);
    }
  }

  /** Such a child and such a parent, with FOO and BAR both m. */
  const CHILD := And(Not(FOO), BAR)
  const PARENT := And(Equal(FOO.sym, No), BAR)
  const TEST := And(Equal(FOO.sym, No), Unequal(BAR.sym, No))

  lemma TestStays()
    ensures EliminateDups(TEST) == TEST
  {
    var ls := [TEST.l, TEST.r];
    assert Operands(AndOp, TEST) == ls;
    assert JoinTests(AndOp, TEST.l, TEST.r) == None && JoinTests(AndOp, TEST.r, TEST.l) == None;
    UnjoinedChain(AndOp, TEST);
    IdleChain(AndOp, TEST);
    PassCount(TEST);
    assert Pass(TEST) == (TEST, false);
  }

  lemma ChildShown()
    ensures Shown(Some(CHILD)) == TEST
  {
    hide EliminateDups;
    TestStays();
    assert TransCompare(CHILD, true, No) == Not(Or(Unequal(FOO.sym, No), Equal(BAR.sym, No)));
    assert Transform(Not(Or(Unequal(FOO.sym, No), Equal(BAR.sym, No)))) == TEST;
  }

  lemma ParentShown()
    ensures Shown(Some(PARENT)) == TEST
  {
    hide EliminateDups;
    TestStays();
    assert TransCompare(PARENT, true, No) == Not(Or(Not(Equal(FOO.sym, No)), Equal(BAR.sym, No)));
    assert Transform(Not(Or(Not(Equal(FOO.sym, No)), Equal(BAR.sym, No)))) == TEST;
  }

  lemma TestCancels()
    ensures EliminateEq(TEST, TEST).1 == Sym(Yes)
  {
    assert EliminateIn(AndOp, TEST, TEST) == (And(Sym(Yes), Sym(Yes)), And(Sym(Yes), Sym(Yes)));
  }

  /** The entry with the child's condition is nested below the other and visible, though that is not. */
  lemma NestedBelowInvisible()
    ensures Consistent(AllMod()) && Normal(CHILD) && Normal(PARENT) && Nests(CHILD, Some(PARENT))
    ensures Value(CHILD, AllMod()) == 1 && Value(PARENT, AllMod()) == 0
  {
    hide Consistent, Shown, EliminateEq;
    AllModConsistent();
    ChildShown();
    ParentShown();
    TestCancels();
    assert ModStr(FOO.sym) == TriName(1) == ['m'] && ModStr(No) == ['n'];
  }

  /** `expr_depends_symbol`, the other way to be nested. */
  predicate Depends(e: Expr, s: Symbol) {
    match e
    case And(l, r) => Depends(l, s) || Depends(r, s)
    case Sym(t) => t == s
    case Equal(a, b) => a == s && (b == Yes || b == Mod)
    case Unequal(a, b) => a == s && b == No
    case _ => false
  }

  /** It finds the symbol, or a test that it is not n, among the operands of a conjunction. */
  lemma {:induction false} DependsExactly(e: Expr, s: Symbol)
    ensures var ls := Operands(AndOp, e);
      Depends(e, s) <==> Sym(s) in ls || Equal(s, Yes) in ls || Equal(s, Mod) in ls || Unequal(s, No) in ls
  {
    if e.And? {
      DependsExactly(e.l, s);
      DependsExactly(e.r, s);
    }
  }

  /** An entry that depends on a symbol is visible only when the symbol is set. */
  lemma {:induction false} DependsSound(e: Expr, s: Symbol, v: Valuation)
    requires Consistent(v) && Depends(e, s) && (Kind(s) == Boolean || Kind(s) == Tristate)
    ensures Value(e, v) != 0 ==> v.tri(s) != 0
  {
    match e
    case And(l, r) => if Depends(l, s) { DependsSound(l, s, v); } else { DependsSound(r, s, v); }
    case Sym(_) =>
    case _ => SymbolString(v, s);
  }
}

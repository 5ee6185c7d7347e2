/** The normalisation `expr_transform` pushes negations down to symbols; `expr_trans_bool` and
    `expr_trans_compare` rewrite comparisons on its results. */
module KconfigTransform {
  import opened Basics
  import opened KconfigExpr

  /** A measure under which distributing a negation over an operator is a step down. */
  function Weight(e: Expr): (w: nat)
    ensures w >= 1
  {
    match e
    case Sym(_) => 1
    case Not(x) => 2 * Weight(x) + 1
    case And(l, r) => Weight(l) + Weight(r) + 2
    case Or(l, r) => Weight(l) + Weight(r) + 2
    case Equal(_, _) => 3
    case Unequal(_, _) => 3
  }

  lemma DeMorganWeight(a: Expr, b: Expr)
    ensures Weight(And(Not(a), Not(b))) < Weight(Not(Or(a, b)))
    ensures Weight(Or(Not(a), Not(b))) < Weight(Not(And(a, b)))
  {
    assert Weight(Not(a)) == 2 * Weight(a) + 1 && Weight(Not(b)) == 2 * Weight(b) + 1;
    assert Weight(Or(a, b)) == Weight(And(a, b)) == Weight(a) + Weight(b) + 2;
  }

  predicate Predefined(s: Symbol) { !s.Named? }

  /** Comparisons of a boolean symbol with a predefined constant. */
  function TransformLeaf(e: Expr): (r: Expr)
    requires e.Equal? || e.Unequal?
    ensures Weight(r) <= Weight(e)
  {
    if Kind(e.left) != Boolean || !Predefined(e.right) then e
    else if e.right == Mod then Sym(if e.Equal? then No else Yes)
    else if (e.right == Yes) == e.Equal? then Sym(e.left)
    else Not(Sym(e.left))
  }

  /** `expr_transform` */
  function Transform(e: Expr): (r: Expr)
    ensures Weight(r) <= Weight(e)
    decreases Weight(e)
  {
    match e
    case Sym(_) => e
    case Equal(_, _) => TransformLeaf(e)
    case Unequal(_, _) => TransformLeaf(e)
    case And(l, r) => And(Transform(l), Transform(r))
    case Or(l, r) => Or(Transform(l), Transform(r))
    case Not(x) =>
      match Transform(x)
      case Not(z) => Transform(z)
      case Equal(a, b) => Unequal(a, b)
      case Unequal(a, b) => Equal(a, b)
      case Or(a, b) => DeMorganWeight(a, b); Transform(And(Not(a), Not(b)))
      case And(a, b) => DeMorganWeight(a, b); Transform(Or(Not(a), Not(b)))
      case Sym(s) => if s == Yes then Sym(No) else if s == Mod then Sym(Mod) else if s == No then Sym(Yes) else Not(Sym(s))
  }

  lemma LeafValue(e: Expr, v: Valuation)
    requires Consistent(v) && (e.Equal? || e.Unequal?)
    ensures Value(TransformLeaf(e), v) == Value(e, v)
  {
    var s := e.left;
    if Kind(s) == Boolean {
      assert v.str(s) == TriName(v.tri(s)) && v.tri(s) != 1;
      assert TriName(0) == ['n'] && TriName(1) == ['m'] && TriName(2) == ['y'];
    }
  }

  /** `expr_transform` preserves the value in every valuation. */
  lemma {:induction false} TransformValue(e: Expr, v: Valuation)
    requires Consistent(v)
    ensures Value(Transform(e), v) == Value(e, v)
    decreases Weight(e)
  {
    hide Consistent;
    match e
    case Sym(_) =>
    case Equal(_, _) => LeafValue(e, v);
    case Unequal(_, _) => LeafValue(e, v);
    case And(l, r) => TransformValue(l, v); TransformValue(r, v);
    case Or(l, r) => TransformValue(l, v); TransformValue(r, v);
    case Not(x) =>
      TransformValue(x, v);
      match Transform(x) {
        case Not(z) => TransformValue(z, v);
        case Or(a, b) => DeMorganWeight(a, b); TransformValue(And(Not(a), Not(b)), v);
        case And(a, b) => DeMorganWeight(a, b); TransformValue(Or(Not(a), Not(b)), v);
        case Sym(s) => PredefinedValue(v);
        case _ =>
      }
  }

  lemma PredefinedValue(v: Valuation)
    requires Consistent(v)
    ensures v.tri(Yes) == 2 && v.tri(Mod) == 1 && v.tri(No) == 0
  {
  }

  /** Negations stand directly above symbols other than the predefined constants. */
  predicate NotsOnSymbols(e: Expr) {
    match e
    case Not(x) => x.Sym? && !Predefined(x.sym)
    case And(l, r) => NotsOnSymbols(l) && NotsOnSymbols(r)
    case Or(l, r) => NotsOnSymbols(l) && NotsOnSymbols(r)
    case _ => true
  }

  /** Boolean symbols are not compared with predefined constants. */
  predicate PlainTests(e: Expr) {
    match e
    case Not(x) => PlainTests(x)
    case And(l, r) => PlainTests(l) && PlainTests(r)
    case Or(l, r) => PlainTests(l) && PlainTests(r)
    case Equal(a, b) => Kind(a) != Boolean || !Predefined(b)
    case Unequal(a, b) => Kind(a) != Boolean || !Predefined(b)
    case Sym(_) => true
  }

  predicate Normal(e: Expr) {
    NotsOnSymbols(e) && PlainTests(e)
  }

  /** `expr_transform` yields normal forms. */
  lemma {:induction false} TransformNormal(e: Expr)
    ensures Normal(Transform(e))
    decreases Weight(e)
  {
    match e
    case Sym(_) =>
    case Equal(_, _) =>
    case Unequal(_, _) =>
    case And(l, r) => TransformNormal(l); TransformNormal(r);
    case Or(l, r) => TransformNormal(l); TransformNormal(r);
    case Not(x) =>
      TransformNormal(x);
      match Transform(x) {
        case Not(z) => TransformNormal(z);
        case Or(a, b) => DeMorganWeight(a, b); TransformNormal(And(Not(a), Not(b)));
        case And(a, b) => DeMorganWeight(a, b); TransformNormal(Or(Not(a), Not(b)));
        case _ =>
      }
  }

  /** Normal forms are left alone. */
  lemma {:induction false} NormalFixed(e: Expr)
    requires Normal(e)
    ensures Transform(e) == e
  {
    match e
    case And(l, r) => NormalFixed(l); NormalFixed(r);
    case Or(l, r) => NormalFixed(l); NormalFixed(r);
    case _ =>
  }

  /** `expr_transform` is idempotent, and changes exactly what is not normal. */
  lemma TransformIdempotent(e: Expr)
    ensures Transform(Transform(e)) == Transform(e)
    ensures Transform(e) == e <==> Normal(e)
  {
    TransformNormal(e);
    NormalFixed(Transform(e));
    if Normal(e) {
      NormalFixed(e);
    }
  }

  /** The expression, or its negation, with negations pushed down in one go. */
  function Pushed(e: Expr, negated: bool): Expr {
    match e
    case Sym(s) =>
      if !negated then e else if s == Yes then Sym(No) else if s == No then Sym(Yes) else if s == Mod then e else Not(e)
    case Not(x) => Pushed(x, !negated)
    case And(l, r) =>
      if negated then Or(Pushed(l, true), Pushed(r, true)) else And(Pushed(l, false), Pushed(r, false))
    case Or(l, r) =>
      if negated then And(Pushed(l, true), Pushed(r, true)) else Or(Pushed(l, false), Pushed(r, false))
    case Equal(a, b) => PushedTest(a, b, !negated)
    case Unequal(a, b) => PushedTest(a, b, negated)
  }

  /** The test whether `a` is `b`, or is not; a boolean symbol is y or n, and is tested by itself. */
  function PushedTest(a: Symbol, b: Symbol, equal: bool): Expr {
    if Kind(a) == Boolean && b == Yes then if equal then Sym(a) else Not(Sym(a))
    else if Kind(a) == Boolean && b == No then if equal then Not(Sym(a)) else Sym(a)
    else if Kind(a) == Boolean && b == Mod then if equal then Sym(No) else Sym(Yes)
    else if equal then Equal(a, b) else Unequal(a, b)
  }

  lemma {:induction false} PushedTwice(e: Expr, p: bool, q: bool)
    ensures Pushed(Pushed(e, p), q) == Pushed(e, p != q)
  {
    match e
    case Not(x) => PushedTwice(x, !p, q);
    case And(l, r) => PushedTwice(l, p, q); PushedTwice(r, p, q);
    case Or(l, r) => PushedTwice(l, p, q); PushedTwice(r, p, q);
    case _ =>
  }

  /** `expr_transform`, which works from the bottom up and over again, computes just that. */
  lemma {:induction false} TransformPushed(e: Expr)
    ensures Transform(e) == Pushed(e, false)
    decreases Weight(e)
  {
    match e
    case And(l, r) => TransformPushed(l); TransformPushed(r);
    case Or(l, r) => TransformPushed(l); TransformPushed(r);
    case Not(x) =>
      TransformPushed(x);
      TransformNormal(x);
      PushedTwice(x, false, true);
      match Transform(x) {
        case Not(z) => TransformPushed(z);
        case Or(a, b) => DeMorganWeight(a, b); TransformPushed(And(Not(a), Not(b)));
        case And(a, b) => DeMorganWeight(a, b); TransformPushed(Or(Not(a), Not(b)));
        case _ =>
      }
    case _ =>
  }

  // ---- expr_trans_bool ----

  /** `expr_trans_bool` */
  function TransBool(e: Expr): Expr {
    match e
    case And(l, r) => And(TransBool(l), TransBool(r))
    case Or(l, r) => Or(TransBool(l), TransBool(r))
    case Not(x) => Not(TransBool(x))
    case Unequal(a, b) => if Kind(a) == Tristate && b == No then Sym(a) else e
    case _ => e
  }

  /** No tristate symbol is compared with n. */
  predicate NoVisibilityTest(e: Expr) {
    match e
    case And(l, r) => NoVisibilityTest(l) && NoVisibilityTest(r)
    case Or(l, r) => NoVisibilityTest(l) && NoVisibilityTest(r)
    case Not(x) => NoVisibilityTest(x)
    case Unequal(a, b) => Kind(a) != Tristate || b != No
    case _ => true
  }

  /** `expr_trans_bool` leaves no such comparison, and changes nothing else: FOO != n becomes FOO. */
  lemma {:induction false} TransBoolDone(e: Expr)
    ensures NoVisibilityTest(TransBool(e))
    ensures TransBool(e) == e <==> NoVisibilityTest(e)
    ensures forall s :: Kind(s) == Tristate && e == Unequal(s, No) ==> TransBool(e) == Sym(s)
  {
    match e
    case And(l, r) => TransBoolDone(l); TransBoolDone(r);
    case Or(l, r) => TransBoolDone(l); TransBoolDone(r);
    case Not(x) => TransBoolDone(x);
    case _ =>
  }

  /** The promotion of m to y in `sym_calc_visibility` for symbols that are not tristate. */
  function Promote(t: Tri): Tri { if t == 1 then 2 else t }

  /** Where negations stand on symbols only, `expr_trans_bool` keeps "not n", so promoted
      visibility does not change. */
  lemma {:induction false} TransBoolVisible(e: Expr, v: Valuation)
    requires Consistent(v) && NotsOnSymbols(e)
    ensures Value(TransBool(e), v) == 0 <==> Value(e, v) == 0
    ensures Promote(Value(TransBool(e), v)) == Promote(Value(e, v))
  {
    match e
    case And(l, r) => TransBoolVisible(l, v); TransBoolVisible(r, v);
    case Or(l, r) => TransBoolVisible(l, v); TransBoolVisible(r, v);
    case Unequal(a, b) =>
      if Kind(a) == Tristate && b == No {
        assert v.str(a) == TriName(v.tri(a));
        assert TriName(0) == ['n'] && TriName(1) == ['m'] && TriName(2) == ['y'];
      }
    case _ =>
  }

  /** Under a negated comparison it does not: !(FOO != n) with FOO = m. */
  lemma TransBoolNegated()
    ensures var v, e := AllMod(), Not(Unequal(Named(0, Tristate, false), No));
      Consistent(v) && Value(e, v) == 0 && Value(TransBool(e), v) == 1
  {
    hide Consistent;
    AllModConsistent();
    var s := Named(0, Tristate, false);
    assert ModStr(s) == TriName(1) == ['m'] && ModStr(No) == ['n'];
  }

  // ---- expr_trans_compare with 'y' or 'n' ----

  /** `expr_trans_compare(e, unequal ? E_UNEQUAL : E_EQUAL, s)` */
  function TransCompare(e: Expr, unequal: bool, s: Symbol): Expr
    requires s == Yes || s == No
  {
    match e
    case And(l, r) =>
      var a, b := TransCompare(l, false, s), TransCompare(r, false, s);
      var c := if s == Yes then And(a, b) else Or(a, b);
      if unequal then Not(c) else c
    case Or(l, r) =>
      var a, b := TransCompare(l, false, s), TransCompare(r, false, s);
      var c := if s == Yes then Or(a, b) else And(a, b);
      if unequal then Not(c) else c
    case Not(x) => TransCompare(x, !unequal, s)
    case Sym(t) => if unequal then Unequal(t, s) else Equal(t, s)
    case _ => if unequal == (s == Yes) then Not(e) else e
  }

  /** The absent expression stands for 'y'. */
  function TransCompareOpt(e: Option<Expr>, unequal: bool, s: Symbol): Expr
    requires s == Yes || s == No
  {
    match e
    case None => if unequal then Not(Sym(s)) else Sym(s)
    case Some(x) => TransCompare(x, unequal, s)
  }

  /** The answer that `expr_trans_compare` gives to "e is s": symbols are compared as strings, and a
      negation answers the opposite. */
  predicate EqualTo(e: Expr, s: Symbol, v: Valuation)
    requires s == Yes || s == No
  {
    match e
    case Sym(t) => v.str(t) == v.str(s)
    case Not(x) => !EqualTo(x, s, v)
    case And(l, r) => if s == Yes then EqualTo(l, s, v) && EqualTo(r, s, v) else EqualTo(l, s, v) || EqualTo(r, s, v)
    case Or(l, r) => if s == Yes then EqualTo(l, s, v) || EqualTo(r, s, v) else EqualTo(l, s, v) && EqualTo(r, s, v)
    case _ => (Value(e, v) != 0) == (s == Yes)
  }

  /** The expression built is y or n, and gives that answer, in every valuation. */
  lemma {:induction false} TransCompareValue(e: Expr, unequal: bool, s: Symbol, v: Valuation)
    requires Consistent(v) && (s == Yes || s == No)
    ensures Value(TransCompare(e, unequal, s), v) == if EqualTo(e, s, v) != unequal then 2 else 0
  {
    match e
    case And(l, r) => TransCompareValue(l, false, s, v); TransCompareValue(r, false, s, v);
    case Or(l, r) => TransCompareValue(l, false, s, v); TransCompareValue(r, false, s, v);
    case Not(x) => TransCompareValue(x, !unequal, s, v);
    case _ =>
  }

  /** Symbols print as their value, and nothing negated is m. */
  ghost predicate Exact(e: Expr, v: Valuation) {
    match e
    case Sym(s) => v.str(s) == TriName(v.tri(s))
    case Not(x) => Value(x, v) != 1 && Exact(x, v)
    case And(l, r) => Exact(l, v) && Exact(r, v)
    case Or(l, r) => Exact(l, v) && Exact(r, v)
    case _ => true
  }

  lemma {:induction false} EqualToExact(e: Expr, s: Symbol, v: Valuation)
    requires Consistent(v) && (s == Yes || s == No) && Exact(e, v)
    ensures EqualTo(e, s, v) <==> Value(e, v) == v.tri(s)
  {
    match e
    case And(l, r) => EqualToExact(l, s, v); EqualToExact(r, s, v);
    case Or(l, r) => EqualToExact(l, s, v); EqualToExact(r, s, v);
    case Not(x) => EqualToExact(x, s, v);
    case Sym(t) =>
      assert TriName(0) == ['n'] && TriName(1) == ['m'] && TriName(2) == ['y'];
      assert v.str(s) == TriName(v.tri(s));
    case _ =>
  }

  /** There, the answer is the truth of the comparison. */
  lemma TransCompareExact(e: Expr, unequal: bool, s: Symbol, v: Valuation)
    requires Consistent(v) && (s == Yes || s == No) && Exact(e, v)
    ensures Value(TransCompare(e, unequal, s), v) == if (Value(e, v) == v.tri(s)) != unequal then 2 else 0
  {
    hide Consistent, Exact;
    TransCompareValue(e, unequal, s, v);
    EqualToExact(e, s, v);
  }

  /** With a negated operand of value m it need not be: !FOO is m, and the test whether it differs from n
      says no. */
  lemma TransCompareInexact()
    ensures var v, e := AllMod(), Not(Sym(Named(0, Tristate, false)));
      Consistent(v) && Value(e, v) == 1 && Value(TransCompare(e, true, No), v) == 0
  {
    hide Consistent;
    AllModConsistent();
    assert ModStr(Named(0, Tristate, false)) == TriName(1) == ['m'] && ModStr(No) == ['n'];
  }

  /** The value of `e` with every negated operand of value m read as n. */
  function Strict(e: Expr, v: Valuation): Tri {
    match e
    case Not(x) => if Value(x, v) == 1 then 0 else 2 - Value(x, v)
    case And(l, r) => TriAnd(Strict(l, v), Strict(r, v))
    case Or(l, r) => TriOr(Strict(l, v), Strict(r, v))
    case _ => Value(e, v)
  }

  lemma {:induction false} StrictBelow(e: Expr, v: Valuation)
    ensures Strict(e, v) <= Value(e, v)
  {
    match e
    case And(l, r) => StrictBelow(l, v); StrictBelow(r, v);
    case Or(l, r) => StrictBelow(l, v); StrictBelow(r, v);
    case _ =>
  }

  /** Symbols print as their value. */
  ghost predicate Prints(e: Expr, v: Valuation) {
    match e
    case Sym(s) => v.str(s) == TriName(v.tri(s))
    case Not(x) => Prints(x, v)
    case And(l, r) => Prints(l, v) && Prints(r, v)
    case Or(l, r) => Prints(l, v) && Prints(r, v)
    case _ => true
  }

  /** On expressions with negations on symbols, the answer to "e is n" is that of the strict value. */
  lemma {:induction false} EqualToStrict(e: Expr, v: Valuation)
    requires Consistent(v) && NotsOnSymbols(e) && Prints(e, v)
    ensures EqualTo(e, No, v) <==> Strict(e, v) == 0
  {
    assert TriName(0) == ['n'] && TriName(1) == ['m'] && TriName(2) == ['y'] && v.str(No) == ['n'];
    match e
    case And(l, r) => EqualToStrict(l, v); EqualToStrict(r, v);
    case Or(l, r) => EqualToStrict(l, v); EqualToStrict(r, v);
    case _ =>
  }
}

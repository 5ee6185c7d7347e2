/** The expression language of kconfig over three-valued logic (n = 0, m = 1, y = 2), its
    evaluation, the constant folding of `expr_eliminate_yn`, and the equality test `expr_eq`
    with the elimination of common operands it is mutually recursive with. */
module KconfigExpr {

  type Tri = t: int | 0 <= t <= 2 witness 0

  datatype SymType = Unknown | Boolean | Tristate | OtherType

  /** The three predefined constants, and all other symbols; `constant` is the SYMBOL_CONST flag. */
  datatype Symbol = Yes | Mod | No | Named(id: nat, kind: SymType, constant: bool)

  datatype Expr =
    | Sym(sym: Symbol)
    | Not(arg: Expr)
    | And(l: Expr, r: Expr)
    | Or(l: Expr, r: Expr)
    | Equal(left: Symbol, right: Symbol)
    | Unequal(left: Symbol, right: Symbol)

  /** The type of a symbol; constants have none. */
  function Kind(s: Symbol): SymType {
    if s.Named? && !s.constant then s.kind else Unknown
  }

  predicate IsConst(s: Symbol) {
    s.Named? ==> s.constant
  }

  // ---- values ----

  /** What `sym_calc_value` and `sym_get_string_value` find for each symbol. */
  datatype Valuation = Valuation(tri: Symbol -> Tri, str: Symbol -> string)

  function TriName(t: Tri): string {
    if t == 0 then "n" else if t == 1 then "m" else "y"
  }

  /** Boolean symbols are n or y, boolean and tristate symbols print as their value, and
      distinct constants have distinct strings. */
  ghost predicate Consistent(v: Valuation) {
    && v.tri(Yes) == 2 && v.tri(Mod) == 1 && v.tri(No) == 0
    && v.str(Yes) == "y" && v.str(Mod) == "m" && v.str(No) == "n"
    && (forall s :: Kind(s) == Boolean ==> v.tri(s) != 1)
    && (forall s :: Kind(s) == Boolean || Kind(s) == Tristate ==> v.str(s) == TriName(v.tri(s)))
    && (forall s, t :: IsConst(s) && IsConst(t) && s != t ==> v.str(s) != v.str(t))
  }

  /** A valuation in which every tristate symbol is m, every boolean symbol n, and a constant is its own
      name. */
  function AllMod(): Valuation {
    Valuation(ModTri, ModStr)
  }

  function ModTri(s: Symbol): Tri {
    match s
    case Yes => 2
    case Mod => 1
    case No => 0
    case Named(_, _, _) => if Kind(s) == Tristate then 1 else 0
  }

  function ModStr(s: Symbol): string {
    match s
    case Yes => "y"
    case Mod => "m"
    case No => "n"
    case Named(id, kind, constant) => if constant then Name(id, kind) else TriName(ModTri(s))
  }

  /** A name of its own for every constant: its length tells the number. */
  function Name(id: nat, kind: SymType): string {
    ['c', match kind case Unknown => 'u' case Boolean => 'b' case Tristate => 't' case OtherType => 'o'] + seq(id, _ => 'x')
  }

  lemma NamesDiffer(i: nat, k: SymType, j: nat, l: SymType)
    requires Name(i, k) == Name(j, l)
    ensures i == j && k == l
  {
    assert |Name(i, k)| == i + 2 && |Name(j, l)| == j + 2;
    assert Name(i, k)[1] == Name(j, l)[1];
  }

  /** What is asked of valuations can be met. */
  lemma AllModConsistent()
    ensures Consistent(AllMod())
  {
    var v := AllMod();
    forall s, t | IsConst(s) && IsConst(t) && s != t ensures v.str(s) != v.str(t) {
      if s.Named? && t.Named? {
        if Name(s.id, s.kind) == Name(t.id, t.kind) { NamesDiffer(s.id, s.kind, t.id, t.kind); }
      } else {
        assert s.Named? ==> |v.str(s)| >= 2;
        assert t.Named? ==> |v.str(t)| >= 2;
      }
    }
  }

  function TriAnd(a: Tri, b: Tri): Tri { if a < b then a else b }
  function TriOr(a: Tri, b: Tri): Tri { if a > b then a else b }

  /** `expr_calc_value` */
  function Value(e: Expr, v: Valuation): Tri {
    match e
    case Sym(s) => v.tri(s)
    case Not(x) => 2 - Value(x, v)
    case And(l, r) => TriAnd(Value(l, v), Value(r, v))
    case Or(l, r) => TriOr(Value(l, v), Value(r, v))
    case Equal(a, b) => if v.str(a) == v.str(b) then 2 else 0
    case Unequal(a, b) => if v.str(a) == v.str(b) then 0 else 2
  }

  function Size(e: Expr): (n: nat)
    ensures n >= 1
  {
    match e
    case Not(x) => 1 + Size(x)
    case And(l, r) => 1 + Size(l) + Size(r)
    case Or(l, r) => 1 + Size(l) + Size(r)
    case _ => 1
  }

  // ---- the two binary operators, E_AND and E_OR ----

  datatype Op = AndOp | OrOp

  predicate Is(op: Op, e: Expr) {
    match op case AndOp => e.And? case OrOp => e.Or?
  }

  function Node(op: Op, l: Expr, r: Expr): Expr {
    match op case AndOp => And(l, r) case OrOp => Or(l, r)
  }

  function Join(op: Op, a: Tri, b: Tri): Tri {
    match op case AndOp => TriAnd(a, b) case OrOp => TriOr(a, b)
  }

  /** The operand that changes nothing: 'y' under and, 'n' under or. */
  function Unit(op: Op): Expr {
    match op case AndOp => Sym(Yes) case OrOp => Sym(No)
  }

  // ---- expr_eliminate_yn ----

  function Yn(e: Expr): (r: Expr)
    ensures Size(r) <= Size(e)
  {
    match e
    case And(l0, r0) =>
      var l, r := Yn(l0), Yn(r0);
      if l == Sym(No) then Sym(No)
      else if l == Sym(Yes) then r
      else if r == Sym(No) then Sym(No)
      else if r == Sym(Yes) then l
      else And(l, r)
    case Or(l0, r0) =>
      var l, r := Yn(l0), Yn(r0);
      if l == Sym(No) then r
      else if l == Sym(Yes) then Sym(Yes)
      else if r == Sym(No) then l
      else if r == Sym(Yes) then Sym(Yes)
      else Or(l, r)
    case _ => e
  }

  lemma {:induction false} YnValue(e: Expr, v: Valuation)
    requires Consistent(v)
    ensures Value(Yn(e), v) == Value(e, v)
  {
    match e
    case And(l, r) => YnValue(l, v); YnValue(r, v);
    case Or(l, r) => YnValue(l, v); YnValue(r, v);
    case _ =>
  }

  // ---- expr_eq and expr_eliminate_eq ----

  /** A constant other than 'm'. */
  predicate Fixed(e: Expr) {
    e.Sym? && e.sym != Mod && IsConst(e.sym)
  }

  /** Both are the same constant other than 'm': such a pair is left alone. */
  predicate SameFixed(e1: Expr, e2: Expr) {
    Fixed(e1) && e1 == e2
  }

  /** `__expr_eliminate_eq`: replace operands of `e1` and `e2` that are equal by the unit. */
  function EliminateIn(op: Op, e1: Expr, e2: Expr): (r: (Expr, Expr))
    ensures Size(r.0) <= Size(e1) && Size(r.1) <= Size(e2)
    ensures Is(op, e1) ==> Is(op, r.0)
    ensures Is(op, e1) && Is(op, e2) ==> Is(op, r.1)
    decreases Size(e1) + Size(e2), if Is(op, e1) || Is(op, e2) then 1 else 4
  {
    if Is(op, e1) then
      var (l, e2') := EliminateIn(op, e1.l, e2);
      var (r, e2'') := EliminateIn(op, e1.r, e2');
      (Node(op, l, r), e2'')
    else if Is(op, e2) then
      var (e1', l) := EliminateIn(op, e1, e2.l);
      var (e1'', r) := EliminateIn(op, e1', e2.r);
      (e1'', Node(op, l, r))
    else if SameFixed(e1, e2) then (e1, e2)
    else if !Eq(e1, e2) then (e1, e2)
    else (Unit(op), Unit(op))
  }

  /** `expr_eliminate_eq` */
  function EliminateEq(e1: Expr, e2: Expr): (r: (Expr, Expr))
    ensures Size(r.0) <= Size(e1) && Size(r.1) <= Size(e2)
    decreases Size(e1) + Size(e2), 2
  {
    var (a1, a2) := if e1.And? then EliminateIn(AndOp, e1, e2)
                    else if e1.Or? then EliminateIn(OrOp, e1, e2) else (e1, e2);
    var (b1, b2) := if a2.And? && !a1.And? then EliminateIn(AndOp, a1, a2)
                    else if a2.Or? && !a1.Or? then EliminateIn(OrOp, a1, a2) else (a1, a2);
    (Yn(b1), Yn(b2))
  }

  /** `expr_eq` */
  function Eq(e1: Expr, e2: Expr): bool
    decreases Size(e1) + Size(e2), 3
  {
    match e1
    case Equal(a, b) => e2 == e1
    case Unequal(a, b) => e2 == e1
    case Sym(s) => e2 == e1
    case Not(x) => e2.Not? && Eq(x, e2.arg)
    case And(_, _) => e2.And? && var (a, b) := EliminateEq(e1, e2); a.Sym? && a == b
    case Or(_, _) => e2.Or? && var (a, b) := EliminateEq(e1, e2); a.Sym? && a == b
  }

  lemma NodeValue(op: Op, e: Expr, v: Valuation)
    requires Is(op, e)
    ensures Value(e, v) == Join(op, Value(e.l, v), Value(e.r, v))
  {
  }

  lemma JoinLaws(op: Op, a: Tri, b: Tri, c: Tri, d: Tri)
    ensures Join(op, Join(op, a, b), Join(op, c, d)) == Join(op, Join(op, a, c), Join(op, b, d))
    ensures Join(op, a, Join(op, b, c)) == Join(op, Join(op, a, b), c)
    ensures Join(op, a, b) == Join(op, b, a) && Join(op, a, a) == a
  {
  }

  lemma UnitValue(op: Op, v: Valuation, a: Tri)
    requires Consistent(v)
    ensures Join(op, Value(Unit(op), v), a) == a && Join(op, a, Value(Unit(op), v)) == a
  {
  }

  /** What elimination removes is a common operand: both old values are it joined to the new ones. */
  lemma {:induction false} EliminateInFactor(op: Op, e1: Expr, e2: Expr, v: Valuation) returns (c: Tri)
    requires Consistent(v)
    ensures var (r1, r2) := EliminateIn(op, e1, e2);
      Value(e1, v) == Join(op, c, Value(r1, v)) && Value(e2, v) == Join(op, c, Value(r2, v))
    decreases Size(e1) + Size(e2), if Is(op, e1) || Is(op, e2) then 1 else 4
  {
    hide Consistent, Value, Join, Unit;
    var (r1, r2) := EliminateIn(op, e1, e2);
    if Is(op, e1) {
      var (l, e2') := EliminateIn(op, e1.l, e2);
      var c1 := EliminateInFactor(op, e1.l, e2, v);
      var c2 := EliminateInFactor(op, e1.r, e2', v);
      c := Join(op, c1, c2);
      NodeValue(op, e1, v);
      NodeValue(op, r1, v);
      JoinLaws(op, c1, Value(r1.l, v), c2, Value(r1.r, v));
      JoinLaws(op, c1, c2, Value(r2, v), 0);
    } else if Is(op, e2) {
      var (e1', l) := EliminateIn(op, e1, e2.l);
      var c1 := EliminateInFactor(op, e1, e2.l, v);
      var c2 := EliminateInFactor(op, e1', e2.r, v);
      c := Join(op, c1, c2);
      NodeValue(op, e2, v);
      NodeValue(op, r2, v);
      JoinLaws(op, c1, Value(r2.l, v), c2, Value(r2.r, v));
      JoinLaws(op, c1, c2, Value(r1, v), 0);
    } else if !SameFixed(e1, e2) && Eq(e1, e2) {
      EqSound(e1, e2, v);
      c := Value(e1, v);
      UnitValue(op, v, c);
    } else {
      c := Value(Unit(op), v);
      UnitValue(op, v, Value(e1, v));
      UnitValue(op, v, Value(e2, v));
    }
  }

  /** `expr_eq` is sound: expressions it finds equal have the same value in every valuation. */
  lemma {:induction false} EqSound(e1: Expr, e2: Expr, v: Valuation)
    requires Consistent(v) && Eq(e1, e2)
    ensures Value(e1, v) == Value(e2, v)
    decreases Size(e1) + Size(e2), 3
  {
    match e1
    case Not(x) => EqSound(x, e2.arg, v);
    case And(_, _) =>
      var c := EliminateInFactor(AndOp, e1, e2, v);
      var (a1, a2) := EliminateIn(AndOp, e1, e2);
      YnValue(a1, v);
      YnValue(a2, v);
    case Or(_, _) =>
      var c := EliminateInFactor(OrOp, e1, e2, v);
      var (a1, a2) := EliminateIn(OrOp, e1, e2);
      YnValue(a1, v);
      YnValue(a2, v);
    case _ =>
  }

  /** One round of `expr_eliminate_eq`, by the operator at the root of `e`. */
  function EliminateRound(e: Expr, e1: Expr, e2: Expr): (r: (Expr, Expr)) {
    if e.And? then EliminateIn(AndOp, e1, e2) else if e.Or? then EliminateIn(OrOp, e1, e2) else (e1, e2)
  }

  lemma JoinMonotone(op: Op, c: Tri, a: Tri, b: Tri)
    requires a <= b
    ensures Join(op, c, a) <= Join(op, c, b)
  {
  }

  lemma RoundImplies(e: Expr, e1: Expr, e2: Expr, v: Valuation)
    requires Consistent(v)
    requires var (r1, r2) := EliminateRound(e, e1, e2); Value(r1, v) <= Value(r2, v)
    ensures Value(e1, v) <= Value(e2, v)
  {
    hide Consistent, Value, EliminateIn, Join;
    var (r1, r2) := EliminateRound(e, e1, e2);
    if e.And? || e.Or? {
      var op := if e.And? then AndOp else OrOp;
      var c := EliminateInFactor(op, e1, e2, v);
      JoinMonotone(op, c, Value(r1, v), Value(r2, v));
    }
  }

  /** The nesting test of `menu_finalize` is sound: if eliminating common operands leaves 'y' of the
      second expression, the first is at most the second in every valuation. */
  lemma EliminateEqImplies(e1: Expr, e2: Expr, v: Valuation)
    requires Consistent(v) && EliminateEq(e1, e2).1 == Sym(Yes)
    ensures Value(e1, v) <= Value(e2, v)
  {
    hide EliminateIn, Yn;
    var (a1, a2) := EliminateRound(e1, e1, e2);
    if (a2.And? && !a1.And?) || (a2.Or? && !a1.Or?) {
      var (b1, b2) := EliminateRound(a2, a1, a2);
      YnValue(b2, v);
      RoundImplies(a2, a1, a2, v);
    } else {
      YnValue(a2, v);
    }
    RoundImplies(e1, e1, e2, v);
  }
}

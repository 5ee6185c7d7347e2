/** The check for recursive dependencies among symbols: a depth-first walk that marks symbols in
    place and gives up a path as soon as it has found it to close a cycle. */
module KconfigDeps {
  import opened Basics
  import opened KconfigExpr

  datatype PropKind = Prompt | Comment | Menu | Default | Choice | Select | Range | UnknownProp

  datatype Property = Property(kind: PropKind, visible: Option<Expr>, expr: Option<Expr>)

  /** What the check reads of a symbol: the condition of the symbols selecting it, its properties
      and whether it is a choice. */
  datatype Entry = Entry(revDep: Option<Expr>, props: seq<Property>, choice: bool)

  // ---- the dependency graph ----

  function Mentioned(e: Expr): set<Symbol> {
    match e
    case Sym(s) => {s}
    case Not(x) => Mentioned(x)
    case And(l, r) => Mentioned(l) + Mentioned(r)
    case Or(l, r) => Mentioned(l) + Mentioned(r)
    case Equal(a, b) => {a, b}
    case Unequal(a, b) => {a, b}
  }

  function MentionedIn(e: Option<Expr>): set<Symbol> {
    if e.None? then {} else Mentioned(e.value)
  }

  /** A symbol depends on what the conditions of its prompts, defaults and ranges mention, and on
      what its default values mention unless it is a choice. */
  function PropDeps(choice: bool, p: Property): set<Symbol> {
    if p.kind.Choice? || p.kind.Select? then {}
    else MentionedIn(p.visible) + if p.kind.Default? && !choice then MentionedIn(p.expr) else {}
  }

  function Deps(n: Entry): set<Symbol> {
    MentionedIn(n.revDep) + PropsDeps(n.choice, n.props)
  }

  function PropsDeps(choice: bool, props: seq<Property>): (r: set<Symbol>)
    ensures forall i :: 0 <= i < |props| ==> PropDeps(choice, props[i]) <= r
  {
    if props == [] then {} else PropDeps(choice, props[0]) + PropsDeps(choice, props[1..])
  }

  lemma {:induction false} PropsDepsFrom(choice: bool, props: seq<Property>, x: Symbol)
    requires x in PropsDeps(choice, props)
    ensures exists i :: 0 <= i < |props| && x in PropDeps(choice, props[i])
  {
    if x in PropDeps(choice, props[0]) {
    } else {
      PropsDepsFrom(choice, props[1..], x);
      var i :| 0 <= i < |props[1..]| && x in PropDeps(choice, props[1..][i]);
      assert props[i + 1] == props[1..][i];
    }
  }

  /** The symbols a symbol depends on, in terms of its entry. */
  lemma DepsExactly(n: Entry, x: Symbol)
    ensures x in Deps(n) <==>
      || (n.revDep.Some? && x in Mentioned(n.revDep.value))
      || exists i :: 0 <= i < |n.props| && n.props[i].kind != Choice && n.props[i].kind != Select &&
           ((n.props[i].visible.Some? && x in Mentioned(n.props[i].visible.value)) ||
            (n.props[i].kind == Default && !n.choice && n.props[i].expr.Some? && x in Mentioned(n.props[i].expr.value)))
  {
    if x in PropsDeps(n.choice, n.props) {
      PropsDepsFrom(n.choice, n.props, x);
    }
    forall i | 0 <= i < |n.props| && x in PropDeps(n.choice, n.props[i]) ensures x in PropsDeps(n.choice, n.props) {
    }
  }

  /** The expression with `t` for `s`. */
  function Renamed(e: Expr, s: Symbol, t: Symbol): Expr {
    match e
    case Sym(x) => Sym(if x == s then t else x)
    case Not(x) => Not(Renamed(x, s, t))
    case And(l, r) => And(Renamed(l, s, t), Renamed(r, s, t))
    case Or(l, r) => Or(Renamed(l, s, t), Renamed(r, s, t))
    case Equal(a, b) => Equal(if a == s then t else a, if b == s then t else b)
    case Unequal(a, b) => Unequal(if a == s then t else a, if b == s then t else b)
  }

  /** The symbols mentioned are those that occur, and the value depends on no others. */
  lemma {:induction false} MentionedExactly(e: Expr, s: Symbol, t: Symbol, v: Valuation, w: Valuation)
    requires s != t
    ensures s in Mentioned(e) <==> Renamed(e, s, t) != e
    ensures (forall x :: x in Mentioned(e) ==> v.tri(x) == w.tri(x) && v.str(x) == w.str(x)) ==> Value(e, v) == Value(e, w)
  {
    match e
    case And(l, r) => MentionedExactly(l, s, t, v, w); MentionedExactly(r, s, t, v, w);
    case Or(l, r) => MentionedExactly(l, s, t, v, w); MentionedExactly(r, s, t, v, w);
    case Not(x) => MentionedExactly(x, s, t, v, w);
    case _ =>
  }

  type Table = map<Symbol, Entry>

  predicate Edge(t: Table, a: Symbol, b: Symbol) {
    a in t && b in Deps(t[a])
  }

  /** Every symbol mentioned is a symbol of the configuration. */
  ghost predicate Closed(t: Table) {
    forall s, x :: Edge(t, s, x) ==> x in t
  }

  ghost predicate Walk(t: Table, w: seq<Symbol>) {
    forall i :: 0 < i < |w| ==> Edge(t, w[i - 1], w[i])
  }

  /** `c` closes a cycle of dependencies. */
  ghost predicate Cycle(t: Table, c: seq<Symbol>) {
    |c| >= 2 && Walk(t, c) && c[0] == c[|c| - 1]
  }

  ghost predicate Recursive(t: Table) {
    exists c :: Cycle(t, c)
  }

  /** `w` leads from a symbol of `roots` into a cycle: its last symbol occurs earlier in it. */
  ghost predicate Lasso(t: Table, roots: set<Symbol>, w: seq<Symbol>) {
    |w| >= 2 && w[0] in roots && Walk(t, w) && w[|w| - 1] in w[..|w| - 1]
  }

  ghost predicate LeadsToCycle(t: Table, roots: set<Symbol>) {
    exists w :: Lasso(t, roots, w)
  }

  /** Where every symbol that has dependencies is a root, cycles and lassos are the same. */
  lemma RootedCycles(t: Table, roots: set<Symbol>)
    requires forall s :: s in t && Deps(t[s]) != {} ==> s in roots
    ensures LeadsToCycle(t, roots) <==> Recursive(t)
  {
    if LeadsToCycle(t, roots) {
      var w :| Lasso(t, roots, w);
      var i :| 0 <= i < |w| - 1 && w[i] == w[|w| - 1];
      var c := w[i..];
      forall k | 0 < k < |c| ensures Edge(t, c[k - 1], c[k]) {
        assert Edge(t, w[i + k - 1], w[i + k]);
      }
      assert Cycle(t, c);
    }
    if Recursive(t) {
      var c :| Cycle(t, c);
      assert Edge(t, c[0], c[1]);
      assert c[0] in c[..|c| - 1];
      assert Lasso(t, roots, c);
    }
  }

  // ---- what a silent check leaves behind ----

  /** Every symbol of `done` depends only on symbols earlier in it. */
  ghost predicate Ordered(t: Table, done: seq<Symbol>) {
    && (forall i :: 0 <= i < |done| ==> done[i] in t)
    && (forall i, x :: 0 <= i < |done| && Edge(t, done[i], x) ==> x in done[..i])
  }

  lemma OrderedExtended(t: Table, done: seq<Symbol>, s: Symbol)
    requires Ordered(t, done) && s in t && forall x :: x in Deps(t[s]) ==> x in done
    ensures Ordered(t, done + [s])
  {
    var d := done + [s];
    forall i, x | 0 <= i < |d| && Edge(t, d[i], x) ensures x in d[..i] {
      assert d[..i] == done[..i];
      if i == |done| {
        assert done[..i] == done;
      }
    }
  }

  /** Along a walk from an ordered symbol the positions fall, so the walk stays among the ordered
      symbols and never returns. */
  lemma {:induction false} WalkFalls(t: Table, done: seq<Symbol>, w: seq<Symbol>, i: nat, n: nat) returns (j: nat)
    requires Ordered(t, done) && Walk(t, w) && 0 < n <= |w| && i < |done| && done[i] == w[0]
    ensures j < |done| && done[j] == w[n - 1] && j <= i - (n - 1)
  {
    if n == 1 {
      return i;
    }
    var k := WalkFalls(t, done, w, i, n - 1);
    assert Edge(t, done[k], w[n - 1]);
    j :| 0 <= j < |done[..k]| && done[..k][j] == w[n - 1];
  }

  ghost predicate Distinct(q: seq<Symbol>) {
    forall i, j :: 0 <= i < j < |q| ==> q[i] != q[j]
  }

  lemma OrderedAcyclic(t: Table, done: seq<Symbol>, roots: set<Symbol>)
    requires Ordered(t, done) && Distinct(done) && forall s :: s in roots ==> s in done
    ensures !LeadsToCycle(t, roots)
  {
    if LeadsToCycle(t, roots) {
      var w :| Lasso(t, roots, w);
      var n := |w|;
      var m :| 0 <= m < n - 1 && w[m] == w[n - 1];
      var i :| 0 <= i < |done| && done[i] == w[0];
      var k := WalkFalls(t, done, w, i, m + 1);
      var c := w[m..];
      forall a | 0 < a < |c| ensures Edge(t, c[a - 1], c[a]) {
        assert Edge(t, w[m + a - 1], w[m + a]);
      }
      var l := WalkFalls(t, done, c, k, |c|);
      assert false;
    }
  }

  // ---- the check ----

  /** A printed line, read from its end: each name depends on the one printed before it. */
  ghost predicate Backwards(t: Table, line: seq<Symbol>) {
    forall i :: 0 < i < |line| ==> Edge(t, line[i], line[i - 1])
  }

  /** A complete line is a cycle of dependencies, printed backwards. */
  ghost predicate Report(t: Table, line: seq<Symbol>) {
    |line| >= 2 && Backwards(t, line) && line[0] == line[|line| - 1]
  }

  function Elements(q: seq<Symbol>): set<Symbol> {
    set s | s in q
  }

  /** The flag bits CHECK and CHECKED of all symbols, the lines printed and the line being printed;
      `path` is the stack of calls and `done` the symbols in the order their calls returned. */
  class Checker {
    const table: Table
    ghost const roots: set<Symbol>
    var check: set<Symbol>
    var checked: set<Symbol>
    var line: seq<Symbol>
    var lines: seq<seq<Symbol>>
    ghost var path: seq<Symbol>
    ghost var done: seq<Symbol>

    ghost predicate OnPath()
      reads this
    {
      && Distinct(path) && Elements(path) == check && check <= checked && (forall s :: s in checked ==> s in table)
      && Walk(table, path) && (path != [] ==> path[0] in roots)
    }

    ghost predicate Quiet()
      reads this
    {
      line == [] && lines == []
    }

    ghost predicate Valid()
      reads this
    {
      && Closed(table) && (forall s :: s in roots ==> s in table) && OnPath()
      && (forall i :: 0 <= i < |lines| ==> Report(table, lines[i]))
      && (!Quiet() ==> LeadsToCycle(table, roots))
      && (Quiet() ==> Ordered(table, done) && Distinct(done) && Elements(done) == checked - check)
    }

    /** A call may be made for `s`. */
    ghost predicate Due(s: Symbol)
      reads this
    {
      if path == [] then s in roots else Edge(table, path[|path| - 1], s)
    }

    /** The symbol being checked depends on all of `xs`. */
    ghost predicate Wanted(xs: set<Symbol>)
      reads this
    {
      path != [] && forall x :: x in xs ==> Edge(table, path[|path| - 1], x)
    }

    /** While a symbol is handed up, the line ends in the name of a dependency of the caller. */
    ghost predicate Returned(r: Option<Symbol>)
      reads this
    {
      match r
      case None => line == []
      case Some(s) =>
        && line != [] && line[0] == s && s in check && Backwards(table, line)
        && path != [] && Edge(table, path[|path| - 1], line[|line| - 1])
    }

    constructor (table: Table, ghost roots: set<Symbol>)
      requires Closed(table) && forall s :: s in roots ==> s in table
      ensures Valid() && Quiet() && path == [] && check == {} && this.table == table && this.roots == roots
    {
      this.table, this.roots := table, roots;
      check, checked, line, lines, path, done := {}, {}, [], [], [], [];
    }

    /** Every call leaves the CHECK flags and the stack as they were, and if nothing was printed at
        all, the symbol and all it leads to are in dependency order. */
    method CheckSym(s: Symbol) returns (r: Option<Symbol>)
      requires Valid() && line == [] && Due(s)
      modifies this
      ensures Valid() && Returned(r) && check == old(check) && path == old(path)
      ensures old(checked) <= checked && old(lines) <= lines && (r.None? <==> line == [])
      ensures Quiet() ==> s in checked - check
      decreases |table.Keys - checked|, 0, 0
    {
      hide Valid, Returned;
      if s in check {
        r := Close(s);
        return;
      }
      if s in checked {
        NothingReturned();
        return None;
      }
      Enter(s);
      Fewer(table.Keys, old(checked), checked, s);
      r := CheckOption(table[s].revDep);
      if r.None? {
        Fewer(table.Keys, old(checked), checked, s);
        r := CheckProps(s);
      }
      r := Leave(s, r);
    }

    /** A symbol already on the stack: the stack and the symbol are a lasso. */
    method Close(s: Symbol) returns (r: Option<Symbol>)
      requires Valid() && line == [] && Due(s) && s in check
      modifies this`line
      ensures Valid() && Returned(r) && !Quiet() && r == Some(s)
    {
      line := [s];
      r := Some(s);
      assert s in path;
      assert (path + [s])[..|path|] == path;
      assert Lasso(table, roots, path + [s]);
    }

    method Enter(s: Symbol)
      requires Valid() && line == [] && Due(s) && s !in checked
      modifies this`check, this`checked, this`path
      ensures Valid() && path == old(path) + [s] && s in table
      ensures check == old(check) + {s} && checked == old(checked) + {s}
    {
      check, checked, path := check + {s}, checked + {s}, path + [s];
    }

    /** The end of a call: the name is added to a line being printed, and the line is complete when
        the symbol it began with is reached. */
    method Leave(s: Symbol, found: Option<Symbol>) returns (r: Option<Symbol>)
      requires Valid() && Returned(found) && path != [] && path[|path| - 1] == s && s in table
      requires Quiet() ==> Deps(table[s]) <= checked - check
      modifies this`check, this`line, this`lines, this`path, this`done
      ensures Valid() && Returned(r) && check == old(check) - {s} && path == old(path)[..|old(path)| - 1]
      ensures old(lines) <= lines && (r.None? <==> line == [])
      ensures Quiet() ==> s in checked - check
    {
      hide Ordered, LeadsToCycle, Closed;
      PathLeft(s);
      r := found;
      if r.Some? {
        line := line + [s];
        if r.value == s {
          lines, line, r := lines + [line], [], None;
        }
      }
      check, path := check - {s}, path[..|path| - 1];
      if Quiet() {
        DoneNext(s);
        done := done + [s];
      }
    }

    lemma PathLeft(s: Symbol)
      requires OnPath() && path != [] && path[|path| - 1] == s
      ensures Elements(path[..|path| - 1]) == check - {s}
    {
    }

    lemma DoneNext(s: Symbol)
      requires Ordered(table, done) && Distinct(done) && Elements(done) == checked - check - {s}
      requires s in table && s in checked && s !in check && Deps(table[s]) <= checked - check - {s}
      ensures Ordered(table, done + [s]) && Distinct(done + [s]) && Elements(done + [s]) == checked - check
    {
      forall x | x in Deps(table[s]) ensures x in done {
        assert x in Elements(done);
      }
      OrderedExtended(table, done, s);
      assert Elements(done + [s]) == Elements(done) + {s};
      assert s !in Elements(done);
    }

    lemma NothingReturned()
      requires line == []
      ensures Returned(None)
    {
    }

    method CheckOption(e: Option<Expr>) returns (r: Option<Symbol>)
      requires Valid() && line == [] && Wanted(MentionedIn(e))
      modifies this
      ensures Valid() && Returned(r) && check == old(check) && path == old(path)
      ensures old(checked) <= checked && old(lines) <= lines && (r.None? <==> line == [])
      ensures Quiet() ==> MentionedIn(e) <= checked - check
      decreases |table.Keys - checked|, 3, 0
    {
      hide Valid, Returned;
      if e.None? {
        NothingReturned();
        return None;
      }
      r := CheckExpr(e.value);
    }

    method CheckExpr(e: Expr) returns (r: Option<Symbol>)
      requires Valid() && line == [] && Wanted(Mentioned(e))
      modifies this
      ensures Valid() && Returned(r) && check == old(check) && path == old(path)
      ensures old(checked) <= checked && old(lines) <= lines && (r.None? <==> line == [])
      ensures Quiet() ==> Mentioned(e) <= checked - check
      decreases |table.Keys - checked|, 2, Size(e)
    {
      hide Valid, Returned;
      match e
      case Sym(s) =>
        r := CheckSym(s);
      case Not(x) =>
        r := CheckExpr(x);
      case And(a, b) =>
        r := CheckExprs(a, b);
      case Or(a, b) =>
        r := CheckExprs(a, b);
      case Equal(a, b) =>
        r := CheckSyms(a, b);
      case Unequal(a, b) =>
        r := CheckSyms(a, b);
    }

    method CheckExprs(a: Expr, b: Expr) returns (r: Option<Symbol>)
      requires Valid() && line == [] && Wanted(Mentioned(a) + Mentioned(b))
      modifies this
      ensures Valid() && Returned(r) && check == old(check) && path == old(path)
      ensures old(checked) <= checked && old(lines) <= lines && (r.None? <==> line == [])
      ensures Quiet() ==> Mentioned(a) + Mentioned(b) <= checked - check
      decreases |table.Keys - checked|, 2, Size(a) + Size(b)
    {
      hide Valid, Returned, Mentioned;
      r := CheckExpr(a);
      if r.None? {
        NoMore(table.Keys, old(checked), checked);
        r := CheckExpr(b);
      }
    }

    method CheckSyms(a: Symbol, b: Symbol) returns (r: Option<Symbol>)
      requires Valid() && line == [] && Wanted({a, b})
      modifies this
      ensures Valid() && Returned(r) && check == old(check) && path == old(path)
      ensures old(checked) <= checked && old(lines) <= lines && (r.None? <==> line == [])
      ensures Quiet() ==> {a, b} <= checked - check
      decreases |table.Keys - checked|, 1, 0
    {
      hide Valid, Returned;
      r := CheckSym(a);
      if r.None? {
        NoMore(table.Keys, old(checked), checked);
        r := CheckSym(b);
      }
    }

    method CheckProps(s: Symbol) returns (r: Option<Symbol>)
      requires Valid() && line == [] && path != [] && path[|path| - 1] == s && s in table
      modifies this
      ensures Valid() && Returned(r) && check == old(check) && path == old(path)
      ensures old(checked) <= checked && old(lines) <= lines && (r.None? <==> line == [])
      ensures Quiet() ==> PropsDeps(table[s].choice, table[s].props) <= checked - check
      decreases |table.Keys - checked|, 5, 0
    {
      hide Valid, Returned;
      var props, i := table[s].props, 0;
      r := None;
      NothingReturned();
      while i < |props|
        invariant i <= |props| && r.None? && Valid() && line == [] && check == old(check) && path == old(path)
        invariant old(checked) <= checked && old(lines) <= lines && Returned(r)
        invariant |table.Keys - checked| <= |table.Keys - old(checked)|
        invariant Quiet() ==> PropsDeps(table[s].choice, props[..i]) <= checked - check
      {
        r := CheckProp(s, props[i]);
        if r.Some? {
          return;
        }
        PropsDepsNext(table[s].choice, props, i);
        NoMore(table.Keys, old(checked), checked);
        i := i + 1;
      }
      assert props[..i] == props;
    }

    method CheckProp(s: Symbol, p: Property) returns (r: Option<Symbol>)
      requires Valid() && line == [] && path != [] && path[|path| - 1] == s && s in table && p in table[s].props
      modifies this
      ensures Valid() && Returned(r) && check == old(check) && path == old(path)
      ensures old(checked) <= checked && old(lines) <= lines && (r.None? <==> line == [])
      ensures Quiet() ==> PropDeps(table[s].choice, p) <= checked - check
      decreases |table.Keys - checked|, 4, 0
    {
      hide Valid, Returned;
      if p.kind.Choice? || p.kind.Select? {
        NothingReturned();
        return None;
      }
      r := CheckOption(p.visible);
      if r.None? && p.kind.Default? && !table[s].choice {
        NoMore(table.Keys, old(checked), checked);
        r := CheckOption(p.expr);
      }
    }

    /** After all roots have been checked no flag CHECK is left and no line is unfinished. */
    method CheckAll(order: seq<Symbol>)
      requires Valid() && Quiet() && path == [] && check == {} && roots == Elements(order)
      modifies this
      ensures Valid() && line == [] && check == {}
      ensures lines != [] <==> LeadsToCycle(table, roots)
    {
      hide Valid, Returned;
      var i := 0;
      while i < |order|
        invariant i <= |order| && Valid() && line == [] && path == [] && check == {} && roots == Elements(order)
        invariant Quiet() ==> forall k :: 0 <= k < i ==> order[k] in checked
      {
        var r := CheckSym(order[i]);
        ToplevelReturns(r);
        i := i + 1;
      }
      Verdict();
    }

    lemma ToplevelReturns(r: Option<Symbol>)
      requires Returned(r) && path == []
      ensures r.None? && line == []
    {
    }

    lemma Verdict()
      requires Valid() && line == [] && check == {} && (Quiet() ==> forall s :: s in roots ==> s in checked)
      ensures lines != [] <==> LeadsToCycle(table, roots)
    {
      if Quiet() {
        forall s | s in roots ensures s in done {
          assert s in Elements(done);
        }
        OrderedAcyclic(table, done, roots);
      }
    }
  }

  /** What loading a configuration does after parsing it: all symbols of the hash table are checked
      in turn. A recursive dependency is reported exactly if there is one, each line printed being
      a cycle read backwards. */
  method CheckDependencies(table: Table, order: seq<Symbol>) returns (lines: seq<seq<Symbol>>)
    requires Closed(table)
    requires forall s :: s in order ==> s in table
    requires forall s :: s in table && Deps(table[s]) != {} ==> s in order
    ensures lines != [] <==> Recursive(table)
    ensures forall i :: 0 <= i < |lines| ==> Report(table, lines[i])
  {
    var checker := new Checker(table, Elements(order));
    checker.CheckAll(order);
    RootedCycles(table, Elements(order));
    lines := checker.lines;
  }

  lemma PropsDepsNext(choice: bool, props: seq<Property>, i: nat)
    requires i < |props|
    ensures PropsDeps(choice, props[..i + 1]) <= PropsDeps(choice, props[..i]) + PropDeps(choice, props[i])
  {
    forall x | x in PropsDeps(choice, props[..i + 1])
      ensures x in PropsDeps(choice, props[..i]) + PropDeps(choice, props[i])
    {
      PropsDepsFrom(choice, props[..i + 1], x);
      var k :| 0 <= k < i + 1 && x in PropDeps(choice, props[..i + 1][k]);
      if k < i {
        assert props[..i][k] == props[..i + 1][k];
      }
    }
  }

  lemma NoMore<T>(all: set<T>, before: set<T>, after: set<T>)
    requires before <= after
    ensures |all - after| <= |all - before|
  {
    Subset(all - after, all - before);
  }

  lemma {:induction false} Subset<T>(a: set<T>, b: set<T>)
    requires a <= b
    ensures |a| <= |b|
  {
    if a != {} {
      var x :| x in a;
      Subset(a - {x}, b - {x});
    }
  }

  lemma Fewer<T>(all: set<T>, before: set<T>, after: set<T>, x: T)
    requires before <= after && x in all && x !in before && x in after
    ensures |all - after| < |all - before|
  {
    Subset(all - after, all - before - {x});
  }
}

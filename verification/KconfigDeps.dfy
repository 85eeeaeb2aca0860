/** Detection of recursive dependencies among non-choice symbols
    (sym_check_deps and its helpers, external/kconfig/symbol.c). */
module KconfigDeps {
  import opened KconfigExpr
  import opened KconfigEq

  datatype PropType = Prompt | Comment | Menu | Default | Choice | Select | Range | Env | Definition

  datatype Property = Property(kind: PropType, visible: Option<Expr>, expr: Option<Expr>)

  /** The dependencies of one symbol: who selects it, and its properties. */
  datatype Entry = Entry(revDep: Option<Expr>, props: seq<Property>)

  // ----- The dependency graph -----

  function ExprSymbols(e: Expr): set<Symbol> {
    match e
    case Sym(s) => {s}
    case Not(a) => ExprSymbols(a)
    case And(l, r) => ExprSymbols(l) + ExprSymbols(r)
    case Or(l, r) => ExprSymbols(l) + ExprSymbols(r)
    case Equal(a, b) => {a, b}
    case Unequal(a, b) => {a, b}
  }

  /** The value of an expression depends on these symbols only. */
  lemma {:induction false} OnlySymbolsMatter(e: Expr, v: Valuation, w: Valuation)
    requires forall s :: s in ExprSymbols(e) ==> v.tri(s) == w.tri(s) && v.str(s) == w.str(s)
    ensures Eval(e, v) == Eval(e, w)
  {
    match e
    case Not(a) => OnlySymbolsMatter(a, v, w);
    case And(l, r) => OnlySymbolsMatter(l, v, w); OnlySymbolsMatter(r, v, w);
    case Or(l, r) => OnlySymbolsMatter(l, v, w); OnlySymbolsMatter(r, v, w);
    case _ =>
  }

  function OptSymbols(e: Option<Expr>): set<Symbol> {
    if e.Some? then ExprSymbols(e.value) else {}
  }

  /** Choice and select properties are skipped; only defaults add a value. */
  function PropSymbols(p: Property): set<Symbol> {
    if p.kind == Choice || p.kind == Select then {}
    else OptSymbols(p.visible) + if p.kind == Default then OptSymbols(p.expr) else {}
  }

  function PropsSymbols(ps: seq<Property>): set<Symbol> {
    if ps == [] then {} else PropsSymbols(ps[..|ps| - 1]) + PropSymbols(ps[|ps| - 1])
  }

  function EntrySymbols(n: Entry): set<Symbol> {
    OptSymbols(n.revDep) + PropsSymbols(n.props)
  }

  /** The property mentions the symbol in its condition, or in the value of a default. */
  predicate Mentions(p: Property, b: Symbol) {
    || (p.visible.Some? && b in ExprSymbols(p.visible.value))
    || (p.kind == Default && p.expr.Some? && b in ExprSymbols(p.expr.value))
  }

  /** A symbol depends on what selects it and on what its properties other than
      choices and selects mention. */
  lemma EntrySymbolsExactly(n: Entry, b: Symbol)
    ensures b in EntrySymbols(n) <==>
            (n.revDep.Some? && b in ExprSymbols(n.revDep.value)) ||
            exists i :: 0 <= i < |n.props| && n.props[i].kind != Choice && n.props[i].kind != Select
                        && Mentions(n.props[i], b)
  {
    PropsSymbolsExactly(n.props, b);
  }

  lemma {:induction false} PropsSymbolsExactly(ps: seq<Property>, b: Symbol)
    ensures b in PropsSymbols(ps) <==>
            exists i :: 0 <= i < |ps| && ps[i].kind != Choice && ps[i].kind != Select && Mentions(ps[i], b)
  {
    if ps != [] {
      var front := ps[..|ps| - 1];
      PropsSymbolsExactly(front, b);
      if b in PropsSymbols(front) {
        var i :| 0 <= i < |front| && front[i].kind != Choice && front[i].kind != Select && Mentions(front[i], b);
        assert ps[i] == front[i];
      }
      if i :| 0 <= i < |ps| && ps[i].kind != Choice && ps[i].kind != Select && Mentions(ps[i], b) {
        assert i < |front| ==> front[i] == ps[i];
      }
    }
  }

  type Table = map<Symbol, Entry>

  predicate Edge(t: Table, a: Symbol, b: Symbol) {
    a in t && b in EntrySymbols(t[a])
  }

  /** Every symbol of the table and every symbol mentioned there. */
  function Universe(t: Table): set<Symbol> {
    t.Keys + set a, b | a in t.Keys && b in EntrySymbols(t[a]) :: b
  }

  /** u holds every dependency of every symbol. */
  ghost predicate Closed(t: Table, u: set<Symbol>) {
    forall a, b {:trigger Edge(t, a, b)} :: Edge(t, a, b) ==> b in u
  }

  predicate IsPath(t: Table, p: seq<Symbol>) {
    forall i :: 0 <= i < |p| - 1 ==> Edge(t, p[i], p[i + 1])
  }

  predicate IsCycle(t: Table, p: seq<Symbol>) {
    |p| >= 2 && p[0] == p[|p| - 1] && IsPath(t, p)
  }

  ghost predicate OnCycle(t: Table, s: Symbol) {
    exists p :: IsCycle(t, p) && p[0] == s
  }

  ghost predicate Acyclic(t: Table) {
    forall s :: !OnCycle(t, s)
  }

  /** A numbering in which every dependency comes before its user. */
  ghost predicate IsRanking(t: Table, rank: map<Symbol, nat>) {
    forall a, b {:trigger Edge(t, a, b)} :: a in rank && Edge(t, a, b) ==> b in rank && rank[b] < rank[a]
  }

  lemma {:induction false} RankFallsAlong(t: Table, rank: map<Symbol, nat>, p: seq<Symbol>)
    requires IsRanking(t, rank) && IsPath(t, p) && |p| >= 2 && p[0] in rank
    ensures p[|p| - 1] in rank && rank[p[|p| - 1]] < rank[p[0]]
  {
    assert Edge(t, p[0], p[1]);
    if |p| > 2 {
      assert IsPath(t, p[1..]) by {
        forall i | 0 <= i < |p| - 2 ensures Edge(t, p[1..][i], p[1..][i + 1]) {
          assert Edge(t, p[i + 1], p[i + 2]);
        }
      }
      RankFallsAlong(t, rank, p[1..]);
    }
  }

  lemma RankingMeansAcyclic(t: Table, rank: map<Symbol, nat>)
    requires IsRanking(t, rank) && t.Keys <= rank.Keys
    ensures Acyclic(t)
  {
    forall s ensures !OnCycle(t, s) {
      if OnCycle(t, s) {
        var p :| IsCycle(t, p) && p[0] == s;
        assert Edge(t, p[0], p[1]);
        RankFallsAlong(t, rank, p);
      }
    }
  }

  /** Meeting a symbol that is on the path closes a cycle through it. */
  lemma StackClosesCycle(t: Table, stack: seq<Symbol>, s: Symbol)
    requires IsPath(t, stack) && s in stack && Edge(t, stack[|stack| - 1], s)
    ensures OnCycle(t, s)
  {
    var i :| 0 <= i < |stack| && stack[i] == s;
    var p := stack[i..] + [s];
    forall j | 0 <= j < |p| - 1 ensures Edge(t, p[j], p[j + 1]) {
      if j < |p| - 2 {
        assert Edge(t, stack[i + j], stack[i + j + 1]);
      }
    }
    assert IsCycle(t, p);
  }

  lemma {:induction false} PropsSymbolsContain(ps: seq<Property>, i: nat)
    requires i < |ps|
    ensures PropSymbols(ps[i]) <= PropsSymbols(ps)
  {
    if i < |ps| - 1 {
      PropsSymbolsContain(ps[..|ps| - 1], i);
    }
  }

  // ----- The checker -----

  /** The symbol may be checked next: it is a dependency of the top symbol. */
  predicate Callable(t: Table, u: set<Symbol>, stack: seq<Symbol>, s: Symbol) {
    s in u && (stack == [] || Edge(t, stack[|stack| - 1], s))
  }

  predicate AllCallable(t: Table, u: set<Symbol>, stack: seq<Symbol>, ss: set<Symbol>) {
    stack != [] && forall s :: s in ss ==> Callable(t, u, stack, s)
  }

  lemma EntryCallable(t: Table, u: set<Symbol>, stack: seq<Symbol>)
    requires stack != [] && stack[|stack| - 1] in t && Closed(t, u)
    ensures AllCallable(t, u, stack, EntrySymbols(t[stack[|stack| - 1]]))
  {
    var top := stack[|stack| - 1];
    forall s | s in EntrySymbols(t[top]) ensures Callable(t, u, stack, s) {
      assert Edge(t, top, s);
    }
  }

  ghost predicate AllOnCycles(t: Table, reports: seq<Symbol>) {
    forall s :: s in reports ==> OnCycle(t, s)
  }

  lemma OneMoreReport(t: Table, reports: seq<Symbol>, s: Symbol)
    requires AllOnCycles(t, reports) && OnCycle(t, s)
    ensures AllOnCycles(t, reports + [s])
  {
  }

  /** The finished symbols, numbered in the order they were finished. */
  ghost predicate Finished(t: Table, rank: map<Symbol, nat>, done: set<Symbol>) {
    rank.Keys == done && IsRanking(t, rank) && forall s :: s in rank ==> rank[s] < |rank|
  }

  lemma FinishOne(t: Table, rank: map<Symbol, nat>, done: set<Symbol>, s: Symbol)
    requires Finished(t, rank, done) && s !in done
    requires s in t ==> EntrySymbols(t[s]) <= done
    ensures Finished(t, rank[s := |rank|], done + {s})
  {
    var rank' := rank[s := |rank|];
    assert rank'.Keys == rank.Keys + {s};
    assert |rank'| == |rank| + 1 by {
      assert |rank'.Keys| == |rank.Keys| + 1;
    }
  }

  lemma PushPath(t: Table, stack: seq<Symbol>, s: Symbol)
    requires IsPath(t, stack) && (stack == [] || Edge(t, stack[|stack| - 1], s))
    ensures IsPath(t, stack + [s])
  {
    var p := stack + [s];
    forall i | 0 <= i < |p| - 1 ensures Edge(t, p[i], p[i + 1]) {
      if i < |p| - 2 {
        assert Edge(t, stack[i], stack[i + 1]);
      }
    }
  }

  /** What holds at every call: the stack is a dependency path, every report is a
      symbol on a cycle, and until the first report the finished symbols are
      ranked. */
  ghost predicate Good(t: Table, u: set<Symbol>, check: set<Symbol>, checked: set<Symbol>,
                       stack: seq<Symbol>, reports: seq<Symbol>, rank: map<Symbol, nat>)
  {
    && Closed(t, u)
    && check <= checked <= u
    && IsPath(t, stack)
    && AllOnCycles(t, reports)
    && (|reports| == 0 ==> Finished(t, rank, checked - check))
  }

  lemma MarkOne(t: Table, u: set<Symbol>, check: set<Symbol>, checked: set<Symbol>,
                stack: seq<Symbol>, reports: seq<Symbol>, rank: map<Symbol, nat>, s: Symbol)
    requires Good(t, u, check, checked, stack, reports, rank) && s in u && s !in checked
    ensures Good(t, u, check + {s}, checked + {s}, stack, reports, rank)
  {
    assert checked - check == (checked + {s}) - (check + {s});
  }

  lemma UnmarkOne(t: Table, u: set<Symbol>, check: set<Symbol>, checked: set<Symbol>,
                  stack: seq<Symbol>, reports: seq<Symbol>, rank: map<Symbol, nat>, s: Symbol)
    requires Good(t, u, check + {s}, checked, stack, reports, rank) && s !in check
    requires |reports| == 0 && s in t ==> EntrySymbols(t[s]) <= checked - (check + {s})
    ensures Good(t, u, check, checked, stack, reports,
                 if |reports| == 0 then rank[s := |rank|] else rank)
  {
    var done := checked - (check + {s});
    assert checked - check == done + {s};
    if |reports| == 0 {
      FinishOne(t, rank, done, s);
    }
  }

  predicate Covered(symbols: seq<Symbol>, n: nat, done: set<Symbol>)
    requires n <= |symbols|
  {
    forall j :: 0 <= j < n ==> symbols[j] in done
  }

  lemma CoverStep(symbols: seq<Symbol>, n: nat, before: set<Symbol>, after: set<Symbol>)
    requires n < |symbols| && Covered(symbols, n, before) && before <= after && symbols[n] in after
    ensures Covered(symbols, n + 1, after)
  {
  }

  class DepChecker {
    const table: Table
    ghost const universe: set<Symbol>
    /** The symbols flagged SYMBOL_CHECK and SYMBOL_CHECKED. */
    var check: set<Symbol>
    var checked: set<Symbol>
    /** The check_top stack, bottom first. */
    var stack: seq<Symbol>
    /** The symbols for which a recursive dependency was printed. */
    var reports: seq<Symbol>
    /** The order in which symbols were finished. */
    ghost var rank: map<Symbol, nat>

    constructor (table: Table)
      ensures this.table == table && universe == Universe(table)
      ensures Valid() && check == {} && checked == {} && stack == [] && reports == []
    {
      this.table := table;
      universe := Universe(table);
      check, checked, stack, reports := {}, {}, [], [];
      rank := map[];
    }

    ghost predicate Inv()
      reads this
    {
      Good(table, universe, check, checked, stack, reports, rank)
    }

    ghost predicate Valid()
      reads this
    {
      Inv() && check == set s | s in stack
    }

    /** sym_check_expr_deps. */
    method CheckExpr(e: Expr) returns (r: Option<Symbol>)
      requires Valid() && AllCallable(table, universe, stack, ExprSymbols(e))
      modifies this
      ensures Valid() && check == old(check) && stack == old(stack)
      ensures old(checked) <= checked && |old(reports)| <= |reports|
      ensures r.Some? ==> r.value in check && |reports| > 0
      ensures |reports| == 0 ==> ExprSymbols(e) <= checked - check
      decreases universe - checked, 2, e
    {
      hide Good, Callable;
      if e.Or? || e.And? {
        r := CheckExpr(e.l);
        if r.None? {
          r := CheckExpr(e.r);
        }
      } else if e.Not? {
        r := CheckExpr(e.arg);
      } else if e.Equal? || e.Unequal? {
        r := CheckDeps(e.ls);
        if r.None? {
          r := CheckDeps(e.rs);
        }
      } else {
        r := CheckDeps(e.sym);
      }
    }

    method CheckOptExpr(e: Option<Expr>) returns (r: Option<Symbol>)
      requires Valid() && AllCallable(table, universe, stack, OptSymbols(e))
      modifies this
      ensures Valid() && check == old(check) && stack == old(stack)
      ensures old(checked) <= checked && |old(reports)| <= |reports|
      ensures r.Some? ==> r.value in check && |reports| > 0
      ensures |reports| == 0 ==> OptSymbols(e) <= checked - check
      decreases universe - checked, 3
    {
      r := None;
      if e.Some? {
        r := CheckExpr(e.value);
      }
    }

    /** sym_check_sym_deps: the body of one symbol, between push and pop. */
    method CheckSym(s: Symbol) returns (r: Option<Symbol>)
      requires Inv() && Callable(table, universe, stack, s)
      requires s !in stack && check == (set x | x in stack) + {s}
      modifies this
      ensures Inv() && check == old(check) && stack == old(stack)
      ensures old(checked) <= checked && |old(reports)| <= |reports|
      ensures r.Some? ==> r.value in check && |reports| > 0
      ensures |reports| == 0 && s in table ==> EntrySymbols(table[s]) <= checked - check
      decreases universe - checked, 6
    {
      ghost var below := stack;
      PushPath(table, stack, s);
      stack := stack + [s];
      r := None;
      if s in table {
        var entry := table[s];
        EntryCallable(table, universe, stack);
        r := CheckOptExpr(entry.revDep);
        if r.None? {
          r := CheckProps(entry.props);
        }
      }
      stack := stack[..|stack| - 1];
      assert stack == below;
    }

    /** One property of the symbol on top of the stack. */
    method CheckProp(p: Property) returns (r: Option<Symbol>)
      requires Valid() && AllCallable(table, universe, stack, PropSymbols(p))
      modifies this
      ensures Valid() && check == old(check) && stack == old(stack)
      ensures old(checked) <= checked && |old(reports)| <= |reports|
      ensures r.Some? ==> r.value in check && |reports| > 0
      ensures |reports| == 0 ==> PropSymbols(p) <= checked - check
      decreases universe - checked, 4
    {
      r := None;
      if p.kind != Choice && p.kind != Select {
        r := CheckOptExpr(p.visible);
        if r.None? && p.kind == Default {
          r := CheckOptExpr(p.expr);
        }
      }
    }

    /** The loop over the properties of the symbol on top of the stack. */
    method CheckProps(props: seq<Property>) returns (r: Option<Symbol>)
      requires Valid() && AllCallable(table, universe, stack, PropsSymbols(props))
      modifies this
      ensures Valid() && check == old(check) && stack == old(stack)
      ensures old(checked) <= checked && |old(reports)| <= |reports|
      ensures r.Some? ==> r.value in check && |reports| > 0
      ensures |reports| == 0 ==> PropsSymbols(props) <= checked - check
      decreases universe - checked, 5
    {
      hide Good, Callable;
      r := None;
      var i := 0;
      while i < |props| && r.None?
        invariant 0 <= i <= |props|
        invariant Valid() && check == old(check) && stack == old(stack)
        invariant old(checked) <= checked && |old(reports)| <= |reports|
        invariant r.Some? ==> r.value in check && |reports| > 0
        invariant |reports| == 0 ==> PropsSymbols(props[..i]) <= checked - check
      {
        PropsSymbolsContain(props, i);
        assert props[..i + 1][..i] == props[..i];
        r := CheckProp(props[i]);
        i := i + 1;
      }
      assert props[..|props|] == props;
    }

    /** sym_check_print_recursive, reduced to the fact that it was called. */
    method Report(s: Symbol)
      requires Valid() && Callable(table, universe, stack, s) && s in check
      modifies this`reports
      ensures Valid() && reports == old(reports) + [s]
    {
      StackClosesCycle(table, stack, s);
      OneMoreReport(table, reports, s);
      reports := reports + [s];
    }

    /** The last branch of sym_check_deps: flag, descend, unflag. */
    method Visit(s: Symbol) returns (r: Option<Symbol>)
      requires Valid() && Callable(table, universe, stack, s) && s !in checked
      modifies this
      ensures Valid() && check == old(check) && stack == old(stack)
      ensures old(checked) <= checked && |old(reports)| <= |reports|
      ensures r.Some? ==> r.value in check + {s} && |reports| > 0
      ensures |reports| == 0 ==> s in checked - check
      decreases universe - checked, 0
    {
      hide Edge, IsPath, Closed, AllOnCycles, Finished, EntrySymbols;
      MarkOne(table, universe, check, checked, stack, reports, rank, s);
      check, checked := check + {s}, checked + {s};
      r := CheckSym(s);
      UnmarkOne(table, universe, old(check), checked, stack, reports, rank, s);
      check := check - {s};
      assert check == old(check);
      if |reports| == 0 {
        rank := rank[s := |rank|];
      }
    }

    /** sym_check_deps: a symbol met again on its own path is reported and handed
        up to its own call, which swallows it. */
    method CheckDeps(s: Symbol) returns (r: Option<Symbol>)
      requires Valid() && Callable(table, universe, stack, s)
      modifies this
      ensures Valid() && check == old(check) && stack == old(stack)
      ensures old(checked) <= checked && |old(reports)| <= |reports|
      ensures r.Some? ==> r.value in check && |reports| > 0
      ensures |reports| == 0 ==> s in checked - check
      decreases universe - checked, 1
    {
      if s in check {
        Report(s);
        return Some(s);
      }
      if s in checked {
        return None;
      }
      r := Visit(s);
      if r == Some(s) {
        r := None;
      }
    }

    /** The loop over all symbols after parsing: the number of errors counted. */
    method CheckAll(symbols: seq<Symbol>) returns (errors: int)
      requires Valid() && check == {} && checked == {} && stack == [] && reports == []
      requires forall s :: s in symbols ==> s in universe
      requires forall s :: s in table ==> s in symbols
      modifies this
      ensures reports == [] <==> Acyclic(table)
      ensures forall s :: s in reports ==> OnCycle(table, s)
      ensures errors == 0
    {
      errors := 0;
      for i := 0 to |symbols|
        invariant Valid() && check == {} && stack == []
        invariant errors == 0
        invariant |reports| == 0 ==> Covered(symbols, i, checked)
      {
        ghost var before := checked;
        var r := CheckDeps(symbols[i]);
        if |reports| == 0 {
          CoverStep(symbols, i, before, checked);
        }
        if r.Some? {
          errors := errors + 1;
        }
      }
      if |reports| == 0 {
        RankingMeansAcyclic(table, rank);
      } else {
        assert reports[0] in reports;
      }
    }
  }
}

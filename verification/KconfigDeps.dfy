/** The search for recursive dependencies among Kconfig symbols (scripts/kconfig/symbol.c). */
module KconfigDeps {
  import opened KconfigExpr
  import opened Options

  // ----- declarations -----

  datatype PropType = PPrompt | PComment | PMenu | PDefault | PChoice | PSelect | PRange | PEnv

  /** `hasText` marks the prompts: only they have a text to show. */
  datatype Property = Property(kind: PropType, hasText: bool, visible: Option<Expr>, expr: Option<Expr>)

  /** `user` is the value the user chose, `revDep` the condition under which others select the symbol. */
  datatype Declaration = Declaration(user: Option<Tristate>, revDep: Option<Expr>, props: seq<Property>)

  type Table = map<Symbol, Declaration>

  // ----- the dependency relation -----

  function ExprSymbols(e: Expr): set<Symbol> {
    match e
    case Sym(s) => {s}
    case Not(a) => ExprSymbols(a)
    case Bin(_, l, r) => ExprSymbols(l) + ExprSymbols(r)
    case Cmp(_, a, b) => {a, b}
  }

  function OptSymbols(e: Option<Expr>): set<Symbol> {
    match e
    case None => {}
    case Some(x) => ExprSymbols(x)
  }

  /** A property makes its symbol depend on what its visibility mentions, and a default also on what
      its value mentions.  `select` and choice properties are the other symbol's business. */
  function PropertySymbols(p: Property): set<Symbol> {
    if p.kind == PChoice || p.kind == PSelect then {}
    else if p.kind == PDefault then OptSymbols(p.visible) + OptSymbols(p.expr)
    else OptSymbols(p.visible)
  }

  function PropsSymbols(ps: seq<Property>): set<Symbol> {
    if ps == [] then {} else PropertySymbols(ps[0]) + PropsSymbols(ps[1..])
  }

  function DependsOn(t: Table, s: Symbol): set<Symbol> {
    if s in t then OptSymbols(t[s].revDep) + PropsSymbols(t[s].props) else {}
  }

  /** Each symbol on the path depends on the next. */
  ghost predicate IsPath(t: Table, p: seq<Symbol>) {
    forall i | 0 <= i < |p| - 1 :: p[i + 1] in DependsOn(t, p[i])
  }

  ghost predicate IsCycle(t: Table, p: seq<Symbol>) {
    |p| >= 2 && p[0] == p[|p| - 1] && IsPath(t, p)
  }

  ghost predicate HasCycle(t: Table) {
    exists p :: IsCycle(t, p)
  }

  // ----- orders without forward dependencies -----

  /** Everything an element depends on comes before it. */
  ghost predicate Topological(t: Table, order: seq<Symbol>) {
    forall i | 0 <= i < |order| :: forall d | d in DependsOn(t, order[i]) :: d in order[..i]
  }

  /** The position of the first occurrence of `s`. */
  function IndexOf(order: seq<Symbol>, s: Symbol): (i: nat)
    requires s in order
    ensures i < |order| && order[i] == s && s !in order[..i]
  {
    if order[0] == s then 0
    else
      var j := IndexOf(order[1..], s);
      assert order[..j + 1] == [order[0]] + order[1..][..j];
      1 + j
  }

  lemma {:induction false} PathDescends(t: Table, order: seq<Symbol>, p: seq<Symbol>, k: nat)
    requires Topological(t, order) && IsPath(t, p) && k < |p|
    requires p[0] in order
    ensures p[k] in order
    ensures k > 0 ==> IndexOf(order, p[k]) < IndexOf(order, p[0])
    decreases k
  {
    if k > 0 {
      PathDescends(t, order, p, k - 1);
      var i := IndexOf(order, p[k - 1]);
      assert p[k] in DependsOn(t, order[i]);
      var j :| 0 <= j < i && order[j] == p[k];
      assert IndexOf(order, p[k]) <= j;
    }
  }

  /** An order of all declared symbols in which dependencies come first rules out every cycle. */
  lemma TopologicalMeansAcyclic(t: Table, order: seq<Symbol>)
    requires Topological(t, order) && forall s | s in t :: s in order
    ensures !HasCycle(t)
  {
    if p :| IsCycle(t, p) {
      assert p[1] in DependsOn(t, p[0]);
      PathDescends(t, order, p, |p| - 1);
    }
  }

  ghost function Elements(p: seq<Symbol>): set<Symbol> {
    set s | s in p
  }

  lemma TopologicalAppend(t: Table, order: seq<Symbol>, s: Symbol)
    requires Topological(t, order) && forall d | d in DependsOn(t, s) :: d in order
    ensures Topological(t, order + [s])
  {
    forall i | 0 <= i < |order + [s]| ensures forall d | d in DependsOn(t, (order + [s])[i]) :: d in (order + [s])[..i] {
      assert (order + [s])[..i] == order[..i];
    }
  }

  lemma PushPath(t: Table, p: seq<Symbol>, s: Symbol)
    requires IsPath(t, p) && (p != [] ==> s in DependsOn(t, p[|p| - 1]))
    ensures IsPath(t, p + [s])
    ensures Elements(p + [s]) == Elements(p) + {s}
  {
  }

  lemma CycleFromStack(t: Table, stack: seq<Symbol>, s: Symbol)
    requires IsPath(t, stack) && s in stack && s in DependsOn(t, stack[|stack| - 1])
    ensures HasCycle(t)
  {
    var i :| 0 <= i < |stack| && stack[i] == s;
    var p := stack[i..] + [s];
    forall k | 0 <= k < |p| - 1 ensures p[k + 1] in DependsOn(t, p[k]) {
      if k < |p| - 2 {
        assert p[k] == stack[i + k] && p[k + 1] == stack[i + k + 1];
      }
    }
    assert IsCycle(t, p);
  }

  // ----- the search -----

  /** The flags of all symbols, as the sets of symbols that carry them, and the count of errors. */
  class Checker {
    const table: Table
    ghost const universe: set<Symbol>
    var check: set<Symbol>
    var checkedSyms: set<Symbol>
    var errors: nat
    /** The symbols whose check has ended, in that order. */
    ghost var done: seq<Symbol>

    constructor (table: Table)
      ensures this.table == table
      ensures check == {} && checkedSyms == {} && errors == 0
      ensures Searching([]) && Clean()
    {
      this.table := table;
      this.universe := table.Keys + set s, d | s in table && d in DependsOn(table, s) :: d;
      this.check, this.checkedSyms, this.errors, this.done := {}, {}, 0, [];
    }

    /** `stack` holds the symbols whose check is under way; each depends on the next. */
    ghost predicate Searching(stack: seq<Symbol>)
      reads this
    {
      && IsPath(table, stack)
      && check == Elements(stack)
      && check <= checkedSyms <= universe
      && (forall s | s in universe :: DependsOn(table, s) <= universe)
      && table.Keys <= universe
    }

    /** Every symbol whose check has ended came after all it depends on. */
    ghost predicate Clean()
      reads this
    {
      Topological(table, done) && forall s :: s in done <==> s in checkedSyms - check
    }

    /** `sym_check_deps`: returns the symbol at which a cycle was closed, until the search has
        unwound to that symbol. */
    method CheckDeps(s: Symbol, ghost stack: seq<Symbol>) returns (r: Option<Symbol>)
      requires Searching(stack) && s in universe
      requires stack != [] ==> s in DependsOn(table, stack[|stack| - 1])
      requires errors == 0 ==> Clean()
      modifies this
      ensures Searching(stack) && old(checkedSyms) <= checkedSyms
      ensures old(errors) <= errors
      ensures r.Some? ==> r.value in stack
      ensures s in checkedSyms
      ensures r.Some? || errors > old(errors) ==> HasCycle(table)
      ensures r.None? && errors == 0 ==> Clean() && s in done && old(done) <= done
      decreases universe - checkedSyms, 0
    {
      if s in check {
        CycleFromStack(table, stack, s);
        return Some(s);
      }
      if s in checkedSyms {
        return None;
      }
      check, checkedSyms := check + {s}, checkedSyms + {s};
      PushPath(table, stack, s);
      r := CheckSymDeps(s, stack + [s]);
      check := check - {s};
      if r.None? && errors == 0 {
        TopologicalAppend(table, done, s);
        done := done + [s];
      }
      if r == Some(s) {
        errors := errors + 1;
        r := None;
      }
    }

    /** `sym_check_sym_deps` */
    method CheckSymDeps(s: Symbol, ghost stack: seq<Symbol>) returns (r: Option<Symbol>)
      requires Searching(stack) && s in universe && stack != [] && stack[|stack| - 1] == s
      requires errors == 0 ==> Clean()
      modifies this
      ensures Searching(stack) && old(checkedSyms) <= checkedSyms
      ensures old(errors) <= errors
      ensures r.Some? ==> r.value in stack
      ensures r.Some? || errors > old(errors) ==> HasCycle(table)
      ensures r.None? && errors == 0 ==>
                Clean() && old(done) <= done && forall d | d in DependsOn(table, s) :: d in done
      decreases universe - checkedSyms, 2
    {
      if s !in table {
        return None;
      }
      r := CheckOptDeps(table[s].revDep, s, stack);
      if r.Some? {
        return;
      }
      var ps := table[s].props;
      while ps != []
        invariant Searching(stack) && old(checkedSyms) <= checkedSyms
        invariant old(errors) <= errors
        invariant errors > old(errors) ==> HasCycle(table)
        invariant PropsSymbols(ps) <= DependsOn(table, s)
        invariant errors == 0 ==> Clean() && old(done) <= done
        invariant errors == 0 ==> forall d | d in DependsOn(table, s) :: d in done || d in PropsSymbols(ps)
        decreases |ps|
      {
        var p := ps[0];
        if p.kind != PChoice && p.kind != PSelect {
          r := CheckOptDeps(p.visible, s, stack);
          if r.Some? {
            return;
          }
          if p.kind == PDefault {
            r := CheckOptDeps(p.expr, s, stack);
            if r.Some? {
              return;
            }
          }
        }
        ps := ps[1..];
      }
      r := None;
    }

    method CheckOptDeps(e: Option<Expr>, ghost s: Symbol, ghost stack: seq<Symbol>) returns (r: Option<Symbol>)
      requires Searching(stack) && s in universe && stack != [] && stack[|stack| - 1] == s
      requires OptSymbols(e) <= DependsOn(table, s)
      requires errors == 0 ==> Clean()
      modifies this
      ensures Searching(stack) && old(checkedSyms) <= checkedSyms
      ensures old(errors) <= errors
      ensures r.Some? ==> r.value in stack
      ensures r.Some? || errors > old(errors) ==> HasCycle(table)
      ensures r.None? && errors == 0 ==>
                Clean() && old(done) <= done && forall d | d in OptSymbols(e) :: d in done
      decreases universe - checkedSyms, 1, 1
    {
      if e.None? {
        return None;
      }
      r := CheckExprDeps(e.value, s, stack);
    }

    /** `sym_check_expr_deps` */
    method CheckExprDeps(e: Expr, ghost s: Symbol, ghost stack: seq<Symbol>) returns (r: Option<Symbol>)
      requires Searching(stack) && s in universe && stack != [] && stack[|stack| - 1] == s
      requires ExprSymbols(e) <= DependsOn(table, s)
      requires errors == 0 ==> Clean()
      modifies this
      ensures Searching(stack) && old(checkedSyms) <= checkedSyms
      ensures old(errors) <= errors
      ensures r.Some? ==> r.value in stack
      ensures r.Some? || errors > old(errors) ==> HasCycle(table)
      ensures r.None? && errors == 0 ==>
                Clean() && old(done) <= done && forall d | d in ExprSymbols(e) :: d in done
      decreases universe - checkedSyms, 1, 0, e
    {
      match e
      case Sym(a) => r := CheckDeps(a, stack);
      case Not(a) => r := CheckExprDeps(a, s, stack);
      case Bin(_, left, right) =>
        r := CheckExprDeps(left, s, stack);
        if r.None? {
          r := CheckExprDeps(right, s, stack);
        }
      case Cmp(_, a, b) =>
        r := CheckDeps(a, stack);
        if r.None? {
          r := CheckDeps(b, stack);
        }
    }

    /** The loop over all symbols after parsing: it reports an error exactly when some symbol depends
        on itself, directly or through others. */
    method CheckAll(symbols: seq<Symbol>)
      requires Elements(symbols) == table.Keys
      requires Searching([]) && Clean() && errors == 0 && checkedSyms == {}
      modifies this
      ensures errors > 0 <==> HasCycle(table)
      ensures errors == 0 ==> Topological(table, done) && forall s | s in table :: s in done
      ensures check == {} && table.Keys <= checkedSyms
    {
      var i := 0;
      while i < |symbols|
        invariant 0 <= i <= |symbols|
        invariant Searching([])
        invariant errors == 0 ==> Clean()
        invariant errors > 0 ==> HasCycle(table)
        invariant forall k | 0 <= k < i :: symbols[k] in checkedSyms
      {
        var r := CheckDeps(symbols[i], []);
        // The caller's own count is never needed: with nothing under way, every cycle has been unwound.
        assert r.None?;
        i := i + 1;
      }
      if errors == 0 {
        TopologicalMeansAcyclic(table, done);
      }
    }
  }
}

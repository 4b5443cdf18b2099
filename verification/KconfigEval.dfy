/** Evaluation of bool and tristate symbols (scripts/kconfig/symbol.c): the values a configuration
    defines, and the evaluator that computes each value once and caches it. */
module KconfigEval {
  import opened KconfigExpr
  import opened KconfigDeps
  import opened Options

  // ----- configurations without recursive dependencies -----

  /** The declared symbols, in an order in which everything comes after what it depends on; the value
      of the modules symbol; and the texts of the int, hex and string symbols. */
  datatype Configuration = Configuration(table: Table, order: seq<Symbol>, modules: Tristate, texts: Symbol -> string)

  /** Choice values and selections are never prompts. */
  predicate PromptsOnly(ps: seq<Property>) {
    forall p | p in ps :: p.hasText ==> p.kind != PChoice && p.kind != PSelect
  }

  ghost predicate WellFormed(c: Configuration) {
    && Topological(c.table, c.order)
    && (forall s | s in c.table :: s in c.order)
    && (forall s | s in c.table :: PromptsOnly(c.table[s].props))
  }

  ghost function Rank(c: Configuration, s: Symbol): nat {
    if s in c.order then IndexOf(c.order, s) + 1 else 0
  }

  /** All of `syms` come before rank `k`. */
  ghost predicate Below(c: Configuration, k: nat, syms: set<Symbol>) {
    forall d | d in syms :: Rank(c, d) < k
  }

  lemma DependenciesBelow(c: Configuration, s: Symbol)
    requires WellFormed(c)
    ensures Below(c, Rank(c, s), DependsOn(c.table, s))
  {
    forall d | d in DependsOn(c.table, s) ensures Rank(c, d) < Rank(c, s) {
      var i := IndexOf(c.order, s);
      var j :| 0 <= j < i && c.order[j] == d;
      assert IndexOf(c.order, d) <= j;
    }
  }

  // ----- the values a configuration defines -----

  predicate IsTri(s: Symbol) {
    TypeOf(s) == SBoolean || TypeOf(s) == STristate
  }

  /** `sym_get_type`: without modules a tristate symbol behaves like a bool one. */
  predicate ActsAsBool(s: Symbol, modules: Tristate) {
    TypeOf(s) != STristate || modules == 0
  }

  function RoundUp(s: Symbol, modules: Tristate, t: Tristate): Tristate {
    if t == 1 && ActsAsBool(s, modules) then 2 else t
  }

  ghost function SymVal(c: Configuration, s: Symbol): Tristate
    requires WellFormed(c)
    decreases Rank(c, s), 4
  {
    if s.Constant? then (if s == SymYes then 2 else if s == SymMod then 1 else 0)
    else if !IsTri(s) || s !in c.table then 0
    else
      DependenciesBelow(c, s);
      var own := OwnVal(c, Rank(c, s), c.table[s], VisibleVal(c, s));
      RoundUp(s, c.modules, Combine(Or, own, RevDepVal(c, s)))
  }

  /** How visible the symbol's prompts are. */
  ghost function VisibleVal(c: Configuration, s: Symbol): Tristate
    requires WellFormed(c) && s in c.table
    decreases Rank(c, s), 3
  {
    DependenciesBelow(c, s);
    RoundUp(s, c.modules, PromptsVal(c, Rank(c, s), c.table[s].props))
  }

  /** How strongly other symbols select the symbol. */
  ghost function RevDepVal(c: Configuration, s: Symbol): Tristate
    requires WellFormed(c) && s in c.table
    decreases Rank(c, s), 3
  {
    DependenciesBelow(c, s);
    RoundUp(s, c.modules, OptVal(c, Rank(c, s), c.table[s].revDep, 0))
  }

  /** The user's value as far as the symbol is visible; if there is none, the first visible default. */
  ghost function OwnVal(c: Configuration, k: nat, d: Declaration, visible: Tristate): Tristate
    requires WellFormed(c) && Below(c, k, PropsSymbols(d.props))
    decreases k, 3
  {
    if visible != 0 && d.user.Some? then Combine(And, d.user.value, visible) else DefaultVal(c, k, d.props)
  }

  ghost function PromptsVal(c: Configuration, k: nat, ps: seq<Property>): Tristate
    requires WellFormed(c) && PromptsOnly(ps) && Below(c, k, PropsSymbols(ps))
    decreases k, 2, |ps|
  {
    if ps == [] then 0
    else Combine(Or, if ps[0].hasText then OptVal(c, k, ps[0].visible, 2) else 0, PromptsVal(c, k, ps[1..]))
  }

  ghost function DefaultVal(c: Configuration, k: nat, ps: seq<Property>): Tristate
    requires WellFormed(c) && Below(c, k, PropsSymbols(ps))
    decreases k, 2, |ps|
  {
    if ps == [] then 0
    else if ps[0].kind == PDefault && OptVal(c, k, ps[0].visible, 2) != 0 then
      Combine(And, OptVal(c, k, ps[0].expr, 2), OptVal(c, k, ps[0].visible, 2))
    else DefaultVal(c, k, ps[1..])
  }

  ghost function OptVal(c: Configuration, k: nat, e: Option<Expr>, absent: Tristate): Tristate
    requires WellFormed(c) && Below(c, k, OptSymbols(e))
    decreases k, 1
  {
    match e
    case None => absent
    case Some(x) => ExprVal(c, k, x)
  }

  /** `expr_calc_value` */
  ghost function ExprVal(c: Configuration, k: nat, e: Expr): Tristate
    requires WellFormed(c) && Below(c, k, ExprSymbols(e))
    decreases k, 0, e
  {
    match e
    case Sym(s) => SymVal(c, s)
    case Not(a) => 2 - ExprVal(c, k, a)
    case Bin(op, l, r) => Combine(op, ExprVal(c, k, l), ExprVal(c, k, r))
    case Cmp(rel, a, b) =>
      Truth((TextGiven(c, a, SymVal(c, a)) == TextGiven(c, b, SymVal(c, b))) == (rel == Equal))
  }

  /** `sym_get_string_value` of a symbol whose tristate is `t` */
  function TextGiven(c: Configuration, s: Symbol, t: Tristate): string {
    if s.Constant? then s.name else if IsTri(s) then TriName(t) else c.texts(s)
  }

  /** The values of all symbols form one well-typed valuation ... */
  ghost function ValuationOf(c: Configuration): Valuation
    requires WellFormed(c)
  {
    Valuation(name => SymVal(c, Config(name, SBoolean)) == 2, name => SymVal(c, Config(name, STristate)), c.texts)
  }

  lemma SymValIsValuation(c: Configuration, s: Symbol)
    requires WellFormed(c)
    ensures SymVal(c, s) == TriOf(s, ValuationOf(c))
    ensures TextGiven(c, s, SymVal(c, s)) == TextOf(s, ValuationOf(c))
  {
    assert "y"[0] != "m"[0];
  }

  /** ... under which every expression has the value that evaluating its symbols gives it. */
  lemma {:induction false} ExprValIsValue(c: Configuration, k: nat, e: Expr)
    requires WellFormed(c) && Below(c, k, ExprSymbols(e))
    ensures ExprVal(c, k, e) == Value(e, ValuationOf(c))
  {
    match e
    case Sym(s) => SymValIsValuation(c, s);
    case Not(a) => ExprValIsValue(c, k, a);
    case Bin(_, l, r) => ExprValIsValue(c, k, l); ExprValIsValue(c, k, r);
    case Cmp(_, a, b) => SymValIsValuation(c, a); SymValIsValuation(c, b);
  }

  // ----- the caching evaluator -----

  datatype Request = Evaluate(s: Symbol) | ClearAll

  /** The flags and cached values of all symbols: `valid` holds the symbols whose value is cached in
      `curr`, and `visible` and `revDep` the two parts it is made of. */
  class Evaluator {
    const c: Configuration
    const modulesSym: Option<Symbol>
    var valid: set<Symbol>
    var curr: map<Symbol, Tristate>
    var visible: map<Symbol, Tristate>
    var revDep: map<Symbol, Tristate>

    constructor (c: Configuration, modulesSym: Option<Symbol>)
      requires WellFormed(c)
      ensures this.c == c && this.modulesSym == modulesSym
      ensures Cached({})
    {
      this.c, this.modulesSym := c, modulesSym;
      this.valid := {SymYes, SymMod, SymNo};
      this.curr := map[SymYes := 2, SymMod := 1, SymNo := 0];
      this.visible, this.revDep := map[], map[];
    }

    /** The caches of `s` hold what the configuration defines. */
    ghost predicate Holds(s: Symbol)
      requires WellFormed(c)
      reads this`curr, this`visible, this`revDep
    {
      && s in curr && curr[s] == SymVal(c, s)
      && (s in c.table && IsTri(s) && s.Config? ==> HoldsParts(s))
    }

    ghost predicate HoldsParts(s: Symbol)
      requires WellFormed(c) && s in c.table
      reads this`visible, this`revDep
    {
      s in visible && visible[s] == VisibleVal(c, s) && s in revDep && revDep[s] == RevDepVal(c, s)
    }

    /** Every symbol that is valid and not being evaluated holds its value. */
    ghost predicate Cached(active: set<Symbol>)
      reads this
    {
      && WellFormed(c)
      && {SymYes, SymMod, SymNo} <= valid
      && forall s | s in valid && s !in active :: Holds(s)
    }

    /** Nothing valid becomes invalid, and the parts already computed for the symbols being
        evaluated stay. */
    twostate predicate Kept(active: set<Symbol>)
      reads this
    {
      && old(valid) <= valid
      && (forall a | a in active && a in old(visible) :: a in visible && visible[a] == old(visible[a]))
      && (forall a | a in active && a in old(revDep) :: a in revDep && revDep[a] == old(revDep[a]))
    }

    /** `sym_calc_value` */
    method CalcValue(s: Symbol, ghost active: set<Symbol>)
      requires Cached(active) && forall a | a in active :: Rank(c, s) < Rank(c, a)
      modifies this
      ensures Cached(active) && Kept(active)
      ensures s in valid && s in curr && curr[s] == SymVal(c, s)
      decreases Rank(c, s), 4
    {
      if s in valid {
        assert Holds(s);
        return;
      }
      valid := valid + {s};
      assert Cached(active + {s}) by {
        forall x | x in valid && x !in active + {s} ensures Holds(x) {
          assert old(Holds(x));
        }
      }
      var newval: Tristate := 0;
      if s.Config? && IsTri(s) && s in c.table {
        newval := CalcParts(s, active + {s});
      }
      Store(s, newval, active);
    }

    /** The value is written when everything it depends on has been evaluated. */
    method Store(s: Symbol, newval: Tristate, ghost active: set<Symbol>)
      requires Cached(active + {s}) && s in valid && s !in active
      requires newval == SymVal(c, s)
      requires s in c.table && IsTri(s) && s.Config? ==> HoldsParts(s)
      modifies this`curr
      ensures Cached(active) && s in curr && curr[s] == SymVal(c, s)
    {
      curr := curr[s := newval];
      assert Holds(s);
      forall x | x in valid && x !in active && x != s ensures Holds(x) {
        assert old(Holds(x));
      }
    }

    /** Visibility first; then the value is reset, in case of a recursive call, and computed. */
    method CalcParts(s: Symbol, ghost active: set<Symbol>) returns (newval: Tristate)
      requires Cached(active) && s in active && s in valid && s in c.table && IsTri(s) && s.Config?
      requires forall a | a in active :: Rank(c, s) <= Rank(c, a)
      modifies this
      ensures Cached(active) && Kept(active - {s})
      ensures newval == SymVal(c, s) && HoldsParts(s)
      decreases Rank(c, s), 3, 2
    {
      CalcVisibility(s, active);
      Reset(s, active);
      newval := CalcNew(s, active);
    }

    method Reset(s: Symbol, ghost active: set<Symbol>)
      requires Cached(active) && s in active && s in c.table
      modifies this`curr
      ensures Cached(active)
      ensures old(HoldsParts(s)) ==> HoldsParts(s)
    {
      curr := curr[s := 0];
      forall x | x in valid && x !in active ensures Holds(x) {
        assert old(Holds(x));
      }
    }

    /** The value from its parts: the symbol's own value and what selects it. */
    method CalcNew(s: Symbol, ghost active: set<Symbol>) returns (newval: Tristate)
      requires Cached(active) && s in active && s in c.table && IsTri(s) && s.Config?
      requires forall a | a in active :: Rank(c, s) <= Rank(c, a)
      requires HoldsParts(s)
      modifies this
      ensures Cached(active) && Kept(active)
      ensures newval == SymVal(c, s) && HoldsParts(s)
      decreases Rank(c, s), 3, 1
    {
      newval := CalcOwn(s, active);
      newval := RoundUp(s, c.modules, Combine(Or, newval, revDep[s]));
    }

    /** The part of `sym_calc_value` that chooses between the user's value and the defaults. */
    method CalcOwn(s: Symbol, ghost active: set<Symbol>) returns (newval: Tristate)
      requires Cached(active) && s in active && s in c.table && s in visible
      requires forall a | a in active :: Rank(c, s) <= Rank(c, a)
      modifies this
      ensures Cached(active) && Kept(active)
      ensures Below(c, Rank(c, s), PropsSymbols(c.table[s].props))
      ensures newval == OwnVal(c, Rank(c, s), c.table[s], old(visible[s]))
      decreases Rank(c, s), 3, 0
    {
      DependenciesBelow(c, s);
      var d := c.table[s];
      if visible[s] != 0 && d.user.Some? {
        newval := Combine(And, d.user.value, visible[s]);
      } else {
        newval := CalcDefault(d.props, Rank(c, s), active);
      }
    }

    /** `sym_calc_visibility` */
    method CalcVisibility(s: Symbol, ghost active: set<Symbol>)
      requires Cached(active) && s in active && s in c.table
      requires forall a | a in active :: Rank(c, s) <= Rank(c, a)
      modifies this
      ensures Cached(active) && Kept(active - {s})
      ensures HoldsParts(s)
      decreases Rank(c, s), 2
    {
      DependenciesBelow(c, s);
      var k := Rank(c, s);
      var tri := CalcPrompts(c.table[s].props, k, active);
      SetVisible(s, RoundUp(s, c.modules, tri), active);
      tri := CalcOpt(c.table[s].revDep, 0, k, active);
      SetRevDep(s, RoundUp(s, c.modules, tri), active);
    }

    method SetVisible(s: Symbol, tri: Tristate, ghost active: set<Symbol>)
      requires Cached(active) && s in active
      modifies this`visible
      ensures Cached(active) && visible == old(visible)[s := tri]
    {
      visible := visible[s := tri];
      forall x | x in valid && x !in active ensures Holds(x) {
        assert old(Holds(x));
      }
    }

    method SetRevDep(s: Symbol, tri: Tristate, ghost active: set<Symbol>)
      requires Cached(active) && s in active
      modifies this`revDep
      ensures Cached(active) && revDep == old(revDep)[s := tri]
    {
      revDep := revDep[s := tri];
      forall x | x in valid && x !in active ensures Holds(x) {
        assert old(Holds(x));
      }
    }

    /** The loop over the prompts of a symbol. */
    method CalcPrompts(props: seq<Property>, ghost k: nat, ghost active: set<Symbol>) returns (tri: Tristate)
      requires Cached(active) && forall a | a in active :: k <= Rank(c, a)
      requires PromptsOnly(props) && Below(c, k, PropsSymbols(props))
      modifies this
      ensures Cached(active) && Kept(active)
      ensures tri == PromptsVal(c, k, props)
      decreases k, 1
    {
      tri := 0;
      var ps := props;
      while ps != []
        invariant Cached(active) && Kept(active)
        invariant PromptsOnly(ps) && Below(c, k, PropsSymbols(ps))
        invariant Combine(Or, tri, PromptsVal(c, k, ps)) == PromptsVal(c, k, props)
        decreases |ps|
      {
        if ps[0].hasText {
          var v := CalcOpt(ps[0].visible, 2, k, active);
          tri := Combine(Or, tri, v);
        }
        ps := ps[1..];
      }
    }

    /** The value of the first visible default (`sym_get_default_prop` and its use). */
    method CalcDefault(props: seq<Property>, ghost k: nat, ghost active: set<Symbol>) returns (tri: Tristate)
      requires Cached(active) && forall a | a in active :: k <= Rank(c, a)
      requires Below(c, k, PropsSymbols(props))
      modifies this
      ensures Cached(active) && Kept(active)
      ensures tri == DefaultVal(c, k, props)
      decreases k, 1
    {
      var ps := props;
      while ps != []
        invariant Cached(active) && Kept(active)
        invariant Below(c, k, PropsSymbols(ps))
        invariant DefaultVal(c, k, ps) == DefaultVal(c, k, props)
        decreases |ps|
      {
        if ps[0].kind == PDefault {
          var v := CalcOpt(ps[0].visible, 2, k, active);
          if v != 0 {
            var d := CalcOpt(ps[0].expr, 2, k, active);
            return Combine(And, d, v);
          }
        }
        ps := ps[1..];
      }
      tri := 0;
    }

    method CalcOpt(e: Option<Expr>, absent: Tristate, ghost k: nat, ghost active: set<Symbol>) returns (tri: Tristate)
      requires Cached(active) && forall a | a in active :: k <= Rank(c, a)
      requires Below(c, k, OptSymbols(e))
      modifies this
      ensures Cached(active) && Kept(active)
      ensures tri == OptVal(c, k, e, absent)
      decreases k, 0, 1
    {
      if e.None? {
        return absent;
      }
      tri := CalcExpr(e.value, k, active);
    }

    /** `expr_calc_value` */
    method CalcExpr(e: Expr, ghost k: nat, ghost active: set<Symbol>) returns (tri: Tristate)
      requires Cached(active) && forall a | a in active :: k <= Rank(c, a)
      requires Below(c, k, ExprSymbols(e))
      modifies this
      ensures Cached(active) && Kept(active)
      ensures tri == ExprVal(c, k, e)
      decreases k, 0, 0, e
    {
      match e
      case Sym(s) =>
        CalcValue(s, active);
        tri := curr[s];
      case Not(a) =>
        tri := CalcExpr(a, k, active);
        tri := 2 - tri;
      case Bin(op, l, r) =>
        var val1 := CalcExpr(l, k, active);
        var val2 := CalcExpr(r, k, active);
        tri := Combine(op, val1, val2);
      case Cmp(rel, a, b) =>
        CalcValue(a, active);
        CalcValue(b, active);
        tri := Truth((TextGiven(c, a, curr[a]) == TextGiven(c, b, curr[b])) == (rel == Equal));
    }

    /** `sym_clear_all_valid`: forgets every cached value but those of y, m and n. */
    method ClearAllValid()
      requires Cached({})
      modifies this
      ensures Cached({})
    {
      valid := {SymYes, SymMod, SymNo};
      if modulesSym.Some? {
        CalcValue(modulesSym.value, {});
      }
    }

    /** Whatever is evaluated, in whatever order, and however often the caches are cleared in
        between: every answer is the value that the configuration defines. */
    method Session(requests: seq<Request>) returns (answers: seq<Tristate>)
      requires Cached({})
      modifies this
      ensures Cached({}) && |answers| == |requests|
      ensures forall i | 0 <= i < |requests| && requests[i].Evaluate? :: answers[i] == SymVal(c, requests[i].s)
    {
      answers := [];
      while |answers| < |requests|
        invariant Cached({}) && |answers| <= |requests|
        invariant forall i | 0 <= i < |answers| && requests[i].Evaluate? :: answers[i] == SymVal(c, requests[i].s)
      {
        match requests[|answers|]
        case Evaluate(s) =>
          CalcValue(s, {});
          answers := answers + [curr[s]];
        case ClearAll =>
          ClearAllValid();
          answers := answers + [0];
      }
    }
  }
}

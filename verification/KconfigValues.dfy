/** What the values of bool and tristate symbols are (scripts/kconfig/symbol.c), said of the
    declarations and of the values of their conditions alone: the equations that every symbol meets,
    that nothing else meets them, and what follows for the user. */
module KconfigValues {
  import opened KconfigExpr
  import opened KconfigDeps
  import opened KconfigEval
  import opened Options

  // ----- the equations -----

  function Condition(p: Property, v: Valuation): Tristate {
    if p.visible.Some? then Value(p.visible.value, v) else 2
  }

  function Yield(p: Property, v: Valuation): Tristate {
    if p.expr.Some? then Value(p.expr.value, v) else 2
  }

  /** How strongly the symbol is selected. */
  function Selection(d: Declaration, v: Valuation): Tristate {
    if d.revDep.Some? then Value(d.revDep.value, v) else 0
  }

  /** A bool symbol, and without modules any symbol, has y for m. */
  function Promoted(s: Symbol, modules: Tristate, t: Tristate): Tristate {
    if t == 1 && (TypeOf(s) == SBoolean || modules == 0) then 2 else t
  }

  /** `t` is the greatest condition of the prompts, and n if there are none. */
  ghost predicate Shown(ps: seq<Property>, v: Valuation, t: Tristate) {
    && (forall i | 0 <= i < |ps| && ps[i].hasText :: Condition(ps[i], v) <= t)
    && (t != 0 ==> exists i :: 0 <= i < |ps| && ps[i].hasText && Condition(ps[i], v) == t)
  }

  predicate VisibleDefault(p: Property, v: Valuation) {
    p.kind == PDefault && Condition(p, v) != 0
  }

  ghost predicate FirstDefault(ps: seq<Property>, v: Valuation, i: nat) {
    i < |ps| && VisibleDefault(ps[i], v) && forall j | 0 <= j < i :: !VisibleDefault(ps[j], v)
  }

  /** `t` is what the first visible default yields, limited by its condition; without one it is n. */
  ghost predicate Defaults(ps: seq<Property>, v: Valuation, t: Tristate) {
    if forall i | 0 <= i < |ps| :: !VisibleDefault(ps[i], v) then t == 0
    else exists i: nat :: FirstDefault(ps, v, i) && t == Combine(And, Yield(ps[i], v), Condition(ps[i], v))
  }

  /** The symbol's own value: the user's, limited by visibility, if it is visible at all. */
  ghost predicate Own(s: Symbol, d: Declaration, modules: Tristate, v: Valuation, t: Tristate) {
    exists shown: Tristate :: Shown(d.props, v, shown) &&
      if shown != 0 && d.user.Some? then t == Combine(And, d.user.value, Promoted(s, modules, shown))
      else Defaults(d.props, v, t)
  }

  ghost predicate Answers(s: Symbol, d: Declaration, modules: Tristate, v: Valuation, t: Tristate) {
    exists own: Tristate :: Own(s, d, modules, v, own) &&
      t == Promoted(s, modules, Combine(Or, own, Selection(d, v)))
  }

  predicate Declared(c: Configuration, s: Symbol) {
    s.Config? && IsTri(s) && s in c.table
  }

  /** Every declared symbol has the value that its declaration gives it, the others have n. */
  ghost predicate Solves(c: Configuration, v: Valuation) {
    && v.texts == c.texts
    && (forall s | Declared(c, s) :: Answers(s, c.table[s], c.modules, v, TriOf(s, v)))
    && (forall s: Symbol | s.Config? && IsTri(s) && s !in c.table :: TriOf(s, v) == 0)
  }

  // ----- the computed values solve them -----

  lemma OptValIsValue(c: Configuration, k: nat, e: Option<Expr>, absent: Tristate)
    requires WellFormed(c) && Below(c, k, OptSymbols(e))
    ensures OptVal(c, k, e, absent) == if e.Some? then Value(e.value, ValuationOf(c)) else absent
  {
    if e.Some? {
      ExprValIsValue(c, k, e.value);
    }
  }

  lemma {:induction false} PromptsAreShown(c: Configuration, k: nat, ps: seq<Property>)
    requires WellFormed(c) && PromptsOnly(ps) && Below(c, k, PropsSymbols(ps))
    ensures Shown(ps, ValuationOf(c), PromptsVal(c, k, ps))
    decreases |ps|
  {
    if ps != [] {
      var v, rest := ValuationOf(c), ps[1..];
      PromptsAreShown(c, k, rest);
      if ps[0].hasText {
        OptValIsValue(c, k, ps[0].visible, 2);
      }
      ShownBefore(ps, v, PromptsVal(c, k, rest));
    }
  }

  /** One property more at the front. */
  lemma ShownBefore(ps: seq<Property>, v: Valuation, t: Tristate)
    requires ps != [] && Shown(ps[1..], v, t)
    ensures Shown(ps, v, if ps[0].hasText then Combine(Or, Condition(ps[0], v), t) else t)
  {
    var rest := ps[1..];
    forall i | 0 < i < |ps| ensures ps[i] == rest[i - 1] {
    }
    if t != 0 {
      var i :| 0 <= i < |rest| && rest[i].hasText && Condition(rest[i], v) == t;
      assert ps[i + 1] == rest[i];
    }
  }

  lemma {:induction false} DefaultIsFirst(c: Configuration, k: nat, ps: seq<Property>)
    requires WellFormed(c) && Below(c, k, PropsSymbols(ps))
    ensures Defaults(ps, ValuationOf(c), DefaultVal(c, k, ps))
    decreases |ps|
  {
    if ps != [] {
      var v, rest := ValuationOf(c), ps[1..];
      DefaultIsFirst(c, k, rest);
      if ps[0].kind == PDefault {
        OptValIsValue(c, k, ps[0].visible, 2);
        OptValIsValue(c, k, ps[0].expr, 2);
      }
      if VisibleDefault(ps[0], v) {
        assert FirstDefault(ps, v, 0);
      } else {
        DefaultsBefore(ps, v, DefaultVal(c, k, rest));
      }
    }
  }

  lemma DefaultsBefore(ps: seq<Property>, v: Valuation, t: Tristate)
    requires ps != [] && !VisibleDefault(ps[0], v) && Defaults(ps[1..], v, t)
    ensures Defaults(ps, v, t)
  {
    var rest := ps[1..];
    assert forall i | 0 < i < |ps| :: ps[i] == rest[i - 1];
    if !(forall i | 0 <= i < |rest| :: !VisibleDefault(rest[i], v)) {
      var i: nat :| FirstDefault(rest, v, i) && t == Combine(And, Yield(rest[i], v), Condition(rest[i], v));
      assert FirstDefault(ps, v, i + 1);
    }
  }

  /** Every declared symbol has the value that its declaration gives it under the values of all. */
  lemma SymValAnswers(c: Configuration, s: Symbol)
    requires WellFormed(c) && Declared(c, s)
    ensures Answers(s, c.table[s], c.modules, ValuationOf(c), SymVal(c, s))
  {
    var d, k, v := c.table[s], Rank(c, s), ValuationOf(c);
    DependenciesBelow(c, s);
    PromptsAreShown(c, k, d.props);
    DefaultIsFirst(c, k, d.props);
    OptValIsValue(c, k, d.revDep, 0);
    var own := OwnVal(c, k, d, VisibleVal(c, s));
    var shown := PromptsVal(c, k, d.props);
    assert Shown(d.props, v, shown) && VisibleVal(c, s) == Promoted(s, c.modules, shown);
    assert Own(s, d, c.modules, v, own);
    assert RevDepVal(c, s) == Promoted(s, c.modules, Selection(d, v));
  }

  lemma ValuesSolve(c: Configuration)
    requires WellFormed(c)
    ensures Solves(c, ValuationOf(c))
  {
    var v := ValuationOf(c);
    forall s | Declared(c, s) ensures Answers(s, c.table[s], c.modules, v, TriOf(s, v)) {
      SymValIsValuation(c, s);
      SymValAnswers(c, s);
    }
    forall s: Symbol | s.Config? && IsTri(s) && s !in c.table ensures TriOf(s, v) == 0 {
      SymValIsValuation(c, s);
    }
  }

  // ----- nothing else solves them -----

  /** Two valuations give `s` the same value and the same text. */
  predicate AgreeOn(v: Valuation, w: Valuation, s: Symbol) {
    TriOf(s, v) == TriOf(s, w) && TextOf(s, v) == TextOf(s, w)
  }

  ghost predicate Agree(v: Valuation, w: Valuation, syms: set<Symbol>) {
    forall s | s in syms :: AgreeOn(v, w, s)
  }

  lemma {:induction false} ValueAgrees(e: Expr, v: Valuation, w: Valuation)
    requires Agree(v, w, ExprSymbols(e))
    ensures Value(e, v) == Value(e, w)
  {
    match e
    case Sym(s) => assert AgreeOn(v, w, s);
    case Not(a) => ValueAgrees(a, v, w);
    case Bin(_, l, r) => ValueAgrees(l, v, w); ValueAgrees(r, v, w);
    case Cmp(_, a, b) => assert AgreeOn(v, w, a) && AgreeOn(v, w, b);
  }

  /** Where the symbols of a property agree, so do its condition and what it yields. */
  ghost predicate SameProperty(p: Property, v: Valuation, w: Valuation) {
    && (p.hasText || p.kind == PDefault ==> Condition(p, v) == Condition(p, w))
    && (p.kind == PDefault ==> Yield(p, v) == Yield(p, w))
  }

  lemma PropertyAgrees(p: Property, v: Valuation, w: Valuation)
    requires PromptsOnly([p]) && Agree(v, w, PropertySymbols(p))
    ensures SameProperty(p, v, w)
  {
    assert p in [p];
    if p.visible.Some? && (p.hasText || p.kind == PDefault) {
      ValueAgrees(p.visible.value, v, w);
    }
    if p.expr.Some? && p.kind == PDefault {
      ValueAgrees(p.expr.value, v, w);
    }
  }

  lemma {:induction false} PropsAgree(ps: seq<Property>, v: Valuation, w: Valuation)
    requires PromptsOnly(ps) && Agree(v, w, PropsSymbols(ps))
    ensures forall i | 0 <= i < |ps| :: SameProperty(ps[i], v, w)
    decreases |ps|
  {
    if ps != [] {
      assert ps[0] in ps;
      PropertyAgrees(ps[0], v, w);
      PropsAgree(ps[1..], v, w);
      forall i | 0 <= i < |ps| ensures SameProperty(ps[i], v, w) {
        assert i > 0 ==> ps[i] == ps[1..][i - 1];
      }
    }
  }

  lemma ShownOnce(ps: seq<Property>, v: Valuation, w: Valuation, t: Tristate, u: Tristate)
    requires forall i | 0 <= i < |ps| :: SameProperty(ps[i], v, w)
    requires Shown(ps, v, t) && Shown(ps, w, u)
    ensures t == u
  {
  }

  lemma DefaultsOnce(ps: seq<Property>, v: Valuation, w: Valuation, t: Tristate, u: Tristate)
    requires forall i | 0 <= i < |ps| :: SameProperty(ps[i], v, w)
    requires Defaults(ps, v, t) && Defaults(ps, w, u)
    ensures t == u
  {
    assert forall i | 0 <= i < |ps| :: VisibleDefault(ps[i], v) == VisibleDefault(ps[i], w);
    if !(forall i | 0 <= i < |ps| :: !VisibleDefault(ps[i], v)) {
      var i: nat :| FirstDefault(ps, v, i) && t == Combine(And, Yield(ps[i], v), Condition(ps[i], v));
      var j: nat :| FirstDefault(ps, w, j) && u == Combine(And, Yield(ps[j], w), Condition(ps[j], w));
      assert !(i < j) && !(j < i);
      assert SameProperty(ps[i], v, w);
    }
  }

  lemma AnswersOnce(s: Symbol, d: Declaration, modules: Tristate, v: Valuation, w: Valuation, t: Tristate, u: Tristate)
    requires PromptsOnly(d.props) && Agree(v, w, OptSymbols(d.revDep)) && Agree(v, w, PropsSymbols(d.props))
    requires Answers(s, d, modules, v, t) && Answers(s, d, modules, w, u)
    ensures t == u
  {
    PropsAgree(d.props, v, w);
    if d.revDep.Some? {
      ValueAgrees(d.revDep.value, v, w);
    }
    var own: Tristate :| Own(s, d, modules, v, own) && t == Promoted(s, modules, Combine(Or, own, Selection(d, v)));
    var own': Tristate :| Own(s, d, modules, w, own') && u == Promoted(s, modules, Combine(Or, own', Selection(d, w)));
    OwnOnce(s, d, modules, v, w, own, own');
  }

  /** The visibility on which the symbol's own value is based. */
  lemma OwnCase(s: Symbol, d: Declaration, modules: Tristate, v: Valuation, t: Tristate) returns (shown: Tristate)
    requires Own(s, d, modules, v, t)
    ensures Shown(d.props, v, shown)
    ensures if shown != 0 && d.user.Some? then t == Combine(And, d.user.value, Promoted(s, modules, shown))
            else Defaults(d.props, v, t)
  {
    shown :| Shown(d.props, v, shown) &&
      if shown != 0 && d.user.Some? then t == Combine(And, d.user.value, Promoted(s, modules, shown))
      else Defaults(d.props, v, t);
  }

  lemma OwnOnce(s: Symbol, d: Declaration, modules: Tristate, v: Valuation, w: Valuation, t: Tristate, u: Tristate)
    requires forall i | 0 <= i < |d.props| :: SameProperty(d.props[i], v, w)
    requires Own(s, d, modules, v, t) && Own(s, d, modules, w, u)
    ensures t == u
  {
    var x := OwnCase(s, d, modules, v, t);
    var y := OwnCase(s, d, modules, w, u);
    ShownOnce(d.props, v, w, x, y);
    if !(x != 0 && d.user.Some?) {
      DefaultsOnce(d.props, v, w, t, u);
    }
  }

  /** The values of a configuration are the only ones that solve its equations: evaluation finds them. */
  lemma {:induction false} OnlySolution(c: Configuration, v: Valuation, s: Symbol)
    requires WellFormed(c) && Solves(c, v)
    ensures TriOf(s, v) == SymVal(c, s) && AgreeOn(v, ValuationOf(c), s)
    decreases Rank(c, s)
  {
    var w := ValuationOf(c);
    SymValIsValuation(c, s);
    if Declared(c, s) {
      DependenciesBelow(c, s);
      forall x | x in DependsOn(c.table, s) ensures AgreeOn(v, w, x) {
        OnlySolution(c, v, x);
      }
      SymValAnswers(c, s);
      assert PromptsOnly(c.table[s].props);
      AnswersOnce(s, c.table[s], c.modules, v, w, TriOf(s, v), SymVal(c, s));
    }
  }

  // ----- what follows for the user -----

  /** A visible symbol with a user value is never above both its visibility and what selects it; and
      it has the user's value wherever it is fully visible and nothing selects it. */
  lemma UserLimited(c: Configuration, s: Symbol, shown: Tristate)
    requires WellFormed(c) && Declared(c, s) && c.table[s].user.Some?
    requires Shown(c.table[s].props, ValuationOf(c), shown) && shown != 0
    ensures var d, v := c.table[s], ValuationOf(c);
            && SymVal(c, s) <= Promoted(s, c.modules, Combine(Or, shown, Selection(d, v)))
            && (shown == 2 && Selection(d, v) == 0 ==> SymVal(c, s) == Promoted(s, c.modules, d.user.value))
  {
    var d, v := c.table[s], ValuationOf(c);
    SymValAnswers(c, s);
    var own: Tristate :| Own(s, d, c.modules, v, own) && SymVal(c, s) == Promoted(s, c.modules, Combine(Or, own, Selection(d, v)));
    var x := OwnCase(s, d, c.modules, v, own);
    ShownOnce(d.props, v, v, x, shown);
  }

  /** No symbol is below what selects it. */
  lemma NeverBelowSelection(c: Configuration, s: Symbol)
    requires WellFormed(c) && Declared(c, s)
    ensures Selection(c.table[s], ValuationOf(c)) <= SymVal(c, s)
  {
    SymValAnswers(c, s);
  }

  /** A bool symbol, and without modules any symbol, is never m. */
  lemma NeverM(c: Configuration, s: Symbol)
    requires WellFormed(c) && s.Config? && (c.modules == 0 || TypeOf(s) != STristate)
    ensures SymVal(c, s) != 1
  {
    if Declared(c, s) {
      SymValAnswers(c, s);
    }
  }

  /** Without a visible prompt, or without a user value, the first visible default decides. */
  lemma DefaultDecides(c: Configuration, s: Symbol, t: Tristate)
    requires WellFormed(c) && Declared(c, s) && Defaults(c.table[s].props, ValuationOf(c), t)
    requires Shown(c.table[s].props, ValuationOf(c), 0) || c.table[s].user.None?
    ensures SymVal(c, s) == Promoted(s, c.modules, Combine(Or, t, Selection(c.table[s], ValuationOf(c))))
  {
    var d, v := c.table[s], ValuationOf(c);
    SymValAnswers(c, s);
    var own: Tristate :| Own(s, d, c.modules, v, own) && SymVal(c, s) == Promoted(s, c.modules, Combine(Or, own, Selection(d, v)));
    var x := OwnCase(s, d, c.modules, v, own);
    if d.user.Some? {
      ShownOnce(d.props, v, v, x, 0);
    }
    DefaultsOnce(d.props, v, v, own, t);
  }

  function WithUser(c: Configuration, s: Symbol, user: Option<Tristate>): Configuration
    requires s in c.table
  {
    c.(table := c.table[s := c.table[s].(user := user)])
  }

  lemma WithUserWellFormed(c: Configuration, s: Symbol, user: Option<Tristate>)
    requires WellFormed(c) && s in c.table
    ensures WellFormed(WithUser(c, s, user))
  {
    var c' := WithUser(c, s, user);
    assert forall x :: DependsOn(c'.table, x) == DependsOn(c.table, x);
  }

  /** The user's choice for a symbol without a visible prompt changes nothing, for that symbol or any
      other. */
  lemma InvisibleUserIgnored(c: Configuration, s: Symbol, user: Option<Tristate>, x: Symbol)
    requires WellFormed(c) && s in c.table && Shown(c.table[s].props, ValuationOf(c), 0)
    ensures WellFormed(WithUser(c, s, user)) && SymVal(WithUser(c, s, user), x) == SymVal(c, x)
  {
    var c', v := WithUser(c, s, user), ValuationOf(c);
    WithUserWellFormed(c, s, user);
    ValuesSolve(c);
    if Declared(c, s) {
      var d, d' := c.table[s], c'.table[s];
      var own: Tristate :| Own(s, d, c.modules, v, own) && TriOf(s, v) == Promoted(s, c.modules, Combine(Or, own, Selection(d, v)));
      InvisibleOwn(s, d, c.modules, v, own, user);
      assert Answers(s, d', c.modules, v, TriOf(s, v));
    }
    assert Solves(c', v);
    OnlySolution(c', v, x);
    SymValIsValuation(c, x);
  }

  lemma InvisibleOwn(s: Symbol, d: Declaration, modules: Tristate, v: Valuation, t: Tristate, user: Option<Tristate>)
    requires Shown(d.props, v, 0) && Own(s, d, modules, v, t)
    ensures Own(s, d.(user := user), modules, v, t)
  {
    var x := OwnCase(s, d, modules, v, t);
    ShownOnce(d.props, v, v, x, 0);
  }
}

/** Merging two operands of an OR or of an AND into one (scripts/kconfig/expr.c). */
module KconfigJoin {
  import opened KconfigExpr
  import opened KconfigEq
  import opened KconfigReorder
  import opened Options

  /** `(x is a and y is b)` in either order */
  predicate Either(x: Symbol, y: Symbol, a: Symbol, b: Symbol) {
    (x == a && y == b) || (x == b && y == a)
  }

  /** The symbol the first operand of a join speaks about: NOT may stand over a symbol or a comparison. */
  function FirstSubject(e: Expr): Option<Symbol> {
    match e
    case Sym(s) => Some(s)
    case Cmp(_, a, _) => Some(a)
    case Not(Sym(s)) => Some(s)
    case Not(Cmp(_, a, _)) => Some(a)
    case _ => None
  }

  /** For the second operand, NOT may stand over a symbol only. */
  function SecondSubject(e: Expr): Option<Symbol> {
    match e
    case Sym(s) => Some(s)
    case Cmp(_, a, _) => Some(a)
    case Not(Sym(s)) => Some(s)
    case _ => None
  }

  /** The bool or tristate symbol both operands speak about, if there is one. */
  function Subject(e1: Expr, e2: Expr): Option<Symbol> {
    var s := FirstSubject(e1);
    if s.Some? && SecondSubject(e2) == s && TypeOf(s.value) in {SBoolean, STristate} then s else None
  }

  predicate IsCmp(rel: Rel, e: Expr) {
    e.Cmp? && e.rel == rel
  }

  /** One operand is the bare symbol and the other compares it with `c`. */
  predicate SymbolAndCmp(e1: Expr, e2: Expr, rel: Rel, c: Symbol) {
    || (e1.Sym? && IsCmp(rel, e2) && e2.rhs == c)
    || (e2.Sym? && IsCmp(rel, e1) && e1.rhs == c)
  }

  predicate BothCmp(e1: Expr, e2: Expr, rel: Rel, c: Symbol, d: Symbol) {
    IsCmp(rel, e1) && IsCmp(rel, e2) && Either(e1.rhs, e2.rhs, c, d)
  }

  /** `expr_join_or` */
  function JoinOr(e1: Expr, e2: Expr): Option<Expr> {
    if ExprEq(e1, e2) then Some(e1)
    else match Subject(e1, e2)
      case None => None
      case Some(s) =>
        if TypeOf(s) == STristate then
          if BothCmp(e1, e2, Equal, SymYes, SymMod) then Some(Cmp(Unequal, s, SymNo))
          else if BothCmp(e1, e2, Equal, SymYes, SymNo) then Some(Cmp(Unequal, s, SymMod))
          else if BothCmp(e1, e2, Equal, SymMod, SymNo) then Some(Cmp(Unequal, s, SymYes))
          else None
        else if (e1 == Not(Sym(s)) && e2.Sym?) || (e2 == Not(Sym(s)) && e1.Sym?) then Some(Sym(SymYes))
        else None
  }

  /** `(a = b) && (a != c)` for constants b and c. */
  function JoinEqualUnequal(s: Symbol, b: Symbol, c: Symbol): Option<Expr> {
    if b.Constant? && c.Constant? then Some(if b != c then Cmp(Equal, s, b) else Sym(SymNo)) else None
  }

  function JoinUnequal(s: Symbol, e1: Expr, e2: Expr): Option<Expr> {
    if BothCmp(e1, e2, Unequal, SymYes, SymNo) then Some(Cmp(Equal, s, SymMod))
    else if BothCmp(e1, e2, Unequal, SymYes, SymMod) then Some(Cmp(Equal, s, SymNo))
    else if BothCmp(e1, e2, Unequal, SymMod, SymNo) then Some(Cmp(Equal, s, SymYes))
    else None
  }

  /** `expr_join_and` */
  function JoinAnd(e1: Expr, e2: Expr): Option<Expr> {
    if ExprEq(e1, e2) then Some(e1)
    else match Subject(e1, e2)
      case None => None
      case Some(s) =>
        if SymbolAndCmp(e1, e2, Equal, SymYes) then Some(Cmp(Equal, s, SymYes))
        else if SymbolAndCmp(e1, e2, Unequal, SymNo) then Some(Sym(s))
        else if SymbolAndCmp(e1, e2, Unequal, SymMod) then Some(Cmp(Equal, s, SymYes))
        else if TypeOf(s) != STristate then None
        else
          var j := if IsCmp(Equal, e1) && IsCmp(Unequal, e2) then JoinEqualUnequal(s, e1.rhs, e2.rhs)
                   else if IsCmp(Unequal, e1) && IsCmp(Equal, e2) then JoinEqualUnequal(s, e2.rhs, e1.rhs)
                   else None;
          if j.Some? then j else JoinUnequal(s, e1, e2)
  }

  function Join(op: Op, e1: Expr, e2: Expr): Option<Expr> {
    if op == Or then JoinOr(e1, e2) else JoinAnd(e1, e2)
  }

  // ----- soundness -----

  /** A comparison of a bool or tristate symbol with y, m or n, by tristates. */
  lemma CmpWithTriConstant(rel: Rel, s: Symbol, c: Symbol, v: Valuation)
    requires TypeOf(s) in {SBoolean, STristate} && IsTriConstant(c)
    ensures Value(Cmp(rel, s, c), v) == Truth((TriOf(s, v) == TriOf(c, v)) == (rel == Equal))
  {
    assert c == Constant(TriName(TriOf(c, v)));
    TriNameInjective(TriOf(s, v), TriOf(c, v));
  }

  lemma CmpWithAllTriConstants(s: Symbol, v: Valuation)
    requires TypeOf(s) in {SBoolean, STristate}
    ensures forall rel, c | IsTriConstant(c) ::
              Value(Cmp(rel, s, c), v) == Truth((TriOf(s, v) == TriOf(c, v)) == (rel == Equal))
  {
    forall rel, c | IsTriConstant(c) {
      CmpWithTriConstant(rel, s, c, v);
    }
  }

  lemma JoinOrSound(e1: Expr, e2: Expr, v: Valuation)
    requires JoinOr(e1, e2).Some?
    ensures Value(JoinOr(e1, e2).value, v) == Combine(Or, Value(e1, v), Value(e2, v))
  {
    if ExprEq(e1, e2) {
      ExprEqSound(e1, e2, v);
    } else {
      var s := Subject(e1, e2).value;
      CmpWithAllTriConstants(s, v);
    }
  }

  lemma JoinEqualUnequalSound(s: Symbol, b: Symbol, c: Symbol, v: Valuation)
    requires JoinEqualUnequal(s, b, c).Some?
    ensures Value(JoinEqualUnequal(s, b, c).value, v)
         == Combine(And, Value(Cmp(Equal, s, b), v), Value(Cmp(Unequal, s, c), v))
  {
  }

  lemma JoinUnequalSound(s: Symbol, e1: Expr, e2: Expr, v: Valuation)
    requires TypeOf(s) == STristate && e1.Cmp? && e2.Cmp? && e1.lhs == e2.lhs == s
    requires JoinUnequal(s, e1, e2).Some?
    ensures Value(JoinUnequal(s, e1, e2).value, v) == Combine(And, Value(e1, v), Value(e2, v))
  {
    CmpWithAllTriConstants(s, v);
  }

  lemma JoinSymbolSound(s: Symbol, e1: Expr, e2: Expr, rel: Rel, c: Symbol, v: Valuation)
    requires Subject(e1, e2) == Some(s) && IsTriConstant(c)
    requires SymbolAndCmp(e1, e2, rel, c)
    ensures Combine(And, Value(e1, v), Value(e2, v))
         == Combine(And, TriOf(s, v), Truth((TriOf(s, v) == TriOf(c, v)) == (rel == Equal)))
  {
    CmpWithTriConstant(rel, s, c, v);
  }

  lemma JoinAndSound(e1: Expr, e2: Expr, v: Valuation)
    requires JoinAnd(e1, e2).Some?
    ensures Value(JoinAnd(e1, e2).value, v) == Combine(And, Value(e1, v), Value(e2, v))
  {
    if ExprEq(e1, e2) {
      ExprEqSound(e1, e2, v);
    } else {
      var s := Subject(e1, e2).value;
      if SymbolAndCmp(e1, e2, Equal, SymYes) {
        JoinSymbolSound(s, e1, e2, Equal, SymYes, v);
        CmpWithTriConstant(Equal, s, SymYes, v);
      } else if SymbolAndCmp(e1, e2, Unequal, SymNo) {
        JoinSymbolSound(s, e1, e2, Unequal, SymNo, v);
      } else if SymbolAndCmp(e1, e2, Unequal, SymMod) {
        JoinSymbolSound(s, e1, e2, Unequal, SymMod, v);
        CmpWithTriConstant(Equal, s, SymYes, v);
      } else if IsCmp(Equal, e1) && IsCmp(Unequal, e2) {
        JoinEqualUnequalSound(s, e1.rhs, e2.rhs, v);
      } else if IsCmp(Unequal, e1) && IsCmp(Equal, e2) {
        JoinEqualUnequalSound(s, e2.rhs, e1.rhs, v);
      } else {
        JoinUnequalSound(s, e1, e2, v);
      }
    }
  }

  /** Whatever the join returns has exactly the value of the two operands together. */
  lemma JoinKeepsValue(op: Op, e1: Expr, e2: Expr, v: Valuation)
    requires Join(op, e1, e2).Some?
    ensures Value(Join(op, e1, e2).value, v) == Combine(op, Value(e1, v), Value(e2, v))
    ensures MFree(e1, v) && MFree(e2, v) ==> MFree(Join(op, e1, e2).value, v)
  {
    if op == Or {
      JoinOrSound(e1, e2, v);
    } else {
      JoinAndSound(e1, e2, v);
    }
  }

  /** A join is either its first operand or a single symbol or comparison. */
  lemma JoinIsSmall(op: Op, e1: Expr, e2: Expr)
    requires Join(op, e1, e2).Some?
    ensures var t := Join(op, e1, e2).value; t == e1 || t.Sym? || t.Cmp?
  {
  }

  lemma JoinIsNnf(op: Op, e1: Expr, e2: Expr)
    requires Join(op, e1, e2).Some? && Nnf(e1) && Nnf(e2)
    ensures Nnf(Join(op, e1, e2).value)
  {
  }

  // ----- what must be joined -----

  /** Operands that are the same up to reordering are merged into the first. */
  lemma JoinsEqual(op: Op, e1: Expr, e2: Expr)
    requires Plain(e1) && Plain(e2) && FormOf(e1) == FormOf(e2)
    ensures Join(op, e1, e2) == Some(e1)
  {
    ExprEqExact(e1, e2);
  }

  /** Two comparisons of a tristate symbol with two of y, m and n become one with the third, where
      one can say it; `=` and `!=` together become one of the two, or n. */
  lemma JoinsComparisons(s: Symbol, a: Symbol, b: Symbol, c: Symbol)
    requires TypeOf(s) == STristate && {a, b, c} == {SymYes, SymMod, SymNo}
    ensures Join(Or, Cmp(Equal, s, a), Cmp(Equal, s, b)) == Some(Cmp(Unequal, s, c))
    ensures Join(And, Cmp(Unequal, s, a), Cmp(Unequal, s, b)) == Some(Cmp(Equal, s, c))
    ensures Join(And, Cmp(Equal, s, a), Cmp(Unequal, s, b)) == Some(Cmp(Equal, s, a))
    ensures Join(And, Cmp(Unequal, s, b), Cmp(Equal, s, a)) == Some(Cmp(Equal, s, a))
    ensures Join(And, Cmp(Equal, s, a), Cmp(Unequal, s, a)) == Some(Sym(SymNo))
    ensures Join(And, Cmp(Unequal, s, a), Cmp(Equal, s, a)) == Some(Sym(SymNo))
  {
    assert a in {a, b, c} && b in {a, b, c} && c in {a, b, c};
    assert SymYes in {a, b, c} && SymMod in {a, b, c} && SymNo in {a, b, c};
    assert SymYes.name[0] != SymMod.name[0] && SymMod.name[0] != SymNo.name[0] && SymYes.name[0] != SymNo.name[0];
  }

  /** A bool or tristate symbol absorbs, or is absorbed by, a comparison of itself in an AND; and a
      bool symbol or its negation is y. */
  lemma JoinsSymbol(s: Symbol)
    requires TypeOf(s) in {SBoolean, STristate}
    ensures forall rel, c | (rel, c) in {(Equal, SymYes), (Unequal, SymMod)} ::
              Join(And, Sym(s), Cmp(rel, s, c)) == Join(And, Cmp(rel, s, c), Sym(s)) == Some(Cmp(Equal, s, SymYes))
    ensures Join(And, Sym(s), Cmp(Unequal, s, SymNo)) == Join(And, Cmp(Unequal, s, SymNo), Sym(s)) == Some(Sym(s))
    ensures TypeOf(s) == SBoolean ==>
              Join(Or, Sym(s), Not(Sym(s))) == Join(Or, Not(Sym(s)), Sym(s)) == Some(Sym(SymYes))
  {
    assert SymYes.name[0] != SymMod.name[0] && SymMod.name[0] != SymNo.name[0] && SymYes.name[0] != SymNo.name[0];
  }
}

/** Exactly which values the cancellations of the optimiser change (`expr_eliminate_dups2`,
    scripts/kconfig/expr.c), and a chain that it changes. */
module KconfigExact {
  import opened KconfigExpr
  import opened KconfigEq
  import opened KconfigReorder
  import opened KconfigJoin
  import opened KconfigSlots
  import opened KconfigDups
  import opened KconfigCancel
  import opened Options

  // ----- what is cancelled -----

  /** Without y and n operands, an operand is cancelled against `y` if and only if `y` has all the
      operands of its negation, each as often. */
  lemma CancelsContradictions(op: Op, x: Expr, y: Expr)
    requires var n := Transform(Not(x)); Plain(n) && !IsYn(n) && Plain(y) && !IsYn(y)
    ensures Cancels(op, x, y) <==> Operands(op, Transform(Not(x))) <= Operands(op, y)
  {
    ExtractExact(op, Transform(Not(x)), y);
  }

  // ----- cancellations on the chain itself -----

  /** The traversal cancels an operand of the chain, not only something within one. */
  ghost predicate Fires(op: Op, e: Expr, p: Path, q: Path)
    requires OnChain(op, e, p) && OnChain(op, e, q)
    decreases LayersUnder(op, e), Forks(ShapeOf(op, Get(op, e, p))) + Forks(ShapeOf(op, Get(op, e, q))), 1
  {
    if IsChain(op, Get(op, e, p)) then
      Descend(op, e, e, p, q);
      var f := Dups2(op, e, p + [L], q).tree;
      Descend(op, e, f, p, q);
      Fires(op, e, p + [L], q) || Fires(op, f, p + [R], q)
    else
      var f := BelowSecond(op, e, p, q).tree;
      SameShape(op, e, f, p);
      SameShape(op, e, f, q);
      FiresBelow(op, e, p, q) || (p != q && FiresPair(op, f, p, q))
  }

  ghost predicate FiresBelow(op: Op, e: Expr, p: Path, q: Path)
    requires IsOperand(op, e, p) && OnChain(op, e, q)
    decreases LayersUnder(op, e), Forks(ShapeOf(op, Get(op, e, p))) + Forks(ShapeOf(op, Get(op, e, q))), 0
  {
    IsChain(op, Get(op, e, q)) && (
      Descend(op, e, e, q, p);
      var f := Dups2(op, e, p, q + [L]).tree;
      Descend(op, e, f, q, p);
      Fires(op, e, p, q + [L]) || Fires(op, f, p, q + [R]))
  }

  ghost predicate FiresPair(op: Op, e: Expr, p: Path, q: Path)
    requires IsOperand(op, e, p) && OnChain(op, e, q) && p != q
  {
    var x := Get(op, e, p);
    x.Bin? && (
      LayersOfOperand(op, x);
      var n := Dups2(x.op, x, [], []).tree;
      GetPut(op, e, p, n);
      SameShape(op, e, Put(op, e, p, n), q);
      Cancels(op, n, Get(op, Put(op, e, p, n), q)))
  }

  /** Nothing can be cancelled within an operand of the chain. */
  ghost predicate OperandsClean(op: Op, e: Expr) {
    forall p | IsOperand(op, e, p) && Get(op, e, p).Bin? :: Uncancelled(Get(op, e, p).op, Get(op, e, p))
  }

  /** If the operands are clean, the traversal `r` cancels nothing but operands. */
  ghost predicate CancelsOperands(op: Op, e: Expr, r: Rewrite, fired: bool) {
    OperandsClean(op, e) ==> OperandsClean(op, r.tree) && (fired <==> r.count > 0) && (r.count == 0 ==> r.tree == e)
  }

  /** The traversal `r` of the chain `e` may change the value m only; once it has cancelled something
      on the chain itself, the chain has the value that decides it. */
  ghost predicate Decides(op: Op, e: Expr, r: Rewrite, fired: bool, v: Valuation) {
    && KeepsDefinite(e, r.tree, v)
    && (fired ==> r.count > 0 && Value(r.tree, v) == ZeroValue(op) && (Value(e, v) == ZeroValue(op) <==> Value(e, v) != 1))
    && CancelsOperands(op, e, r, fired)
  }

  /** One traversal after another. */
  lemma DecidesThen(op: Op, e: Expr, a: Rewrite, b: Rewrite, fa: bool, fb: bool, v: Valuation)
    requires Decides(op, e, a, fa, v) && Decides(op, a.tree, b, fb, v)
    ensures Decides(op, e, Rewrite(b.tree, a.count + b.count), fa || fb, v)
  {
  }

  lemma CancelPairDecides(op: Op, e: Expr, p: Path, q: Path, v: Valuation)
    requires IsOperand(op, e, p) && OnChain(op, e, q) && p != q
    ensures Decides(op, e, CancelPair(op, e, p, q), FiresPair(op, e, p, q), v)
  {
    var x := Get(op, e, p);
    CancelPairKeeps(op, e, p, q, v);
    if x.Bin? {
      LayersOfOperand(op, x);
      var n := Dups2(x.op, x, [], []);
      Dups2Keeps(x.op, x, [], [], v);
      OperandKeepsDefinite(op, e, p, n.tree, v);
      GetPut(op, e, p, n.tree);
      var f := Put(op, e, p, n.tree);
      SameShape(op, e, f, q);
      if Cancels(op, n.tree, Get(op, f, q)) {
        CancelDecides(op, f, p, q, v);
      }
      CancelPairCancelsOperands(op, e, p, q);
    }
  }

  lemma CancelPairCancelsOperands(op: Op, e: Expr, p: Path, q: Path)
    requires IsOperand(op, e, p) && OnChain(op, e, q) && p != q && Get(op, e, p).Bin?
    ensures CancelsOperands(op, e, CancelPair(op, e, p, q), FiresPair(op, e, p, q))
  {
    var x := Get(op, e, p);
    if OperandsClean(op, e) {
      LayersOfOperand(op, x);
      Dups2Counts(x.op, x);
      Dups2Progress(x.op, x, [], []);
      PutSame(op, e, p);
      ZeroClean(op, e, p);
    }
  }

  lemma ZeroClean(op: Op, e: Expr, p: Path)
    requires IsOperand(op, e, p) && OperandsClean(op, e)
    ensures OperandsClean(op, Put(op, e, p, Sym(Zero(op))))
  {
    var z := Sym(Zero(op));
    var f := Put(op, e, p, z);
    GetPut(op, e, p, z);
    forall q | IsOperand(op, f, q) && q != p ensures IsOperand(op, e, q) && Get(op, f, q) == Get(op, e, q) {
      SameShape(op, f, e, q);
      GetPutOther(op, e, p, q, z);
    }
  }

  lemma {:induction false} Dups2Decides(op: Op, e: Expr, p: Path, q: Path, v: Valuation)
    requires OnChain(op, e, p) && OnChain(op, e, q)
    ensures Decides(op, e, Dups2(op, e, p, q), Fires(op, e, p, q), v)
    decreases LayersUnder(op, e), Forks(ShapeOf(op, Get(op, e, p))) + Forks(ShapeOf(op, Get(op, e, q))), 2
  {
    if IsChain(op, Get(op, e, p)) {
      Descend(op, e, e, p, q);
      var a := Dups2(op, e, p + [L], q);
      Descend(op, e, a.tree, p, q);
      Dups2Decides(op, e, p + [L], q, v);
      Dups2Decides(op, a.tree, p + [R], q, v);
      DecidesThen(op, e, a, Dups2(op, a.tree, p + [R], q), Fires(op, e, p + [L], q), Fires(op, a.tree, p + [R], q), v);
    } else {
      OperandDecides(op, e, p, q, v);
    }
  }

  lemma OperandDecides(op: Op, e: Expr, p: Path, q: Path, v: Valuation)
    requires IsOperand(op, e, p) && OnChain(op, e, q)
    ensures Decides(op, e, Dups2(op, e, p, q), Fires(op, e, p, q), v)
    decreases LayersUnder(op, e), Forks(ShapeOf(op, Get(op, e, p))) + Forks(ShapeOf(op, Get(op, e, q))), 1
  {
    var a := BelowSecond(op, e, p, q);
    BelowSecondDecides(op, e, p, q, v);
    SameShape(op, e, a.tree, p);
    SameShape(op, e, a.tree, q);
    if p != q {
      CancelPairDecides(op, a.tree, p, q, v);
      DecidesThen(op, e, a, CancelPair(op, a.tree, p, q), FiresBelow(op, e, p, q), FiresPair(op, a.tree, p, q), v);
    }
  }

  lemma {:induction false} BelowSecondDecides(op: Op, e: Expr, p: Path, q: Path, v: Valuation)
    requires IsOperand(op, e, p) && OnChain(op, e, q)
    ensures Decides(op, e, BelowSecond(op, e, p, q), FiresBelow(op, e, p, q), v)
    decreases LayersUnder(op, e), Forks(ShapeOf(op, Get(op, e, p))) + Forks(ShapeOf(op, Get(op, e, q))), 0
  {
    if IsChain(op, Get(op, e, q)) {
      Descend(op, e, e, q, p);
      var a := Dups2(op, e, p, q + [L]);
      Descend(op, e, a.tree, q, p);
      Dups2Decides(op, e, p, q + [L], v);
      Dups2Decides(op, a.tree, p, q + [R], v);
      DecidesThen(op, e, a, Dups2(op, a.tree, p, q + [R]), Fires(op, e, p, q + [L]), Fires(op, a.tree, p, q + [R]), v);
    }
  }

  /** Where the traversal cancels anything on the chain itself, it keeps the value if and only if
      that is not m; and on a chain whose operands are clean it cancels something exactly when some
      operand contradicts another part of the chain. */
  lemma Dups2Exact(op: Op, e: Expr, v: Valuation)
    ensures Fires(op, e, [], []) ==>
              (Value(Dups2(op, e, [], []).tree, v) == Value(e, v) <==> Value(e, v) != 1)
    ensures OperandsClean(op, e) ==>
              && (Fires(op, e, [], []) <==> !Uncancelled(op, e))
              && (Uncancelled(op, e) ==> Dups2(op, e, [], []).tree == e)
  {
    Dups2Decides(op, e, [], [], v);
    Dups2Counts(op, e);
  }

  // ----- a chain that changes -----

  function Contradiction(a: Expr, b: Expr): Expr {
    Bin(And, Bin(Or, a, b), Bin(And, Not(a), Not(b)))
  }

  /** The operands of a chain are those of its two halves. */
  lemma OperandBelow(op: Op, e: Expr, p: Path)
    requires IsOperand(op, e, p)
    ensures if IsChain(op, e)
            then p != [] && IsOperand(op, Child(e, p[0]), p[1..]) && Get(op, e, p) == Get(op, Child(e, p[0]), p[1..]) && p == [p[0]] + p[1..]
            else p == [] && Get(op, e, p) == e
  {
  }

  lemma TwoOperands(op: Op, l: Expr, r: Expr, p: Path)
    requires !IsChain(op, l) && !IsChain(op, r) && IsOperand(op, Bin(op, l, r), p)
    ensures (p == [L] && Get(op, Bin(op, l, r), p) == l) || (p == [R] && Get(op, Bin(op, l, r), p) == r)
  {
    OperandBelow(op, Bin(op, l, r), p);
    OperandBelow(op, if p[0] == L then l else r, p[1..]);
  }

  lemma ContradictionOperands(a: Expr, b: Expr, p: Path)
    requires a.Sym? && b.Sym? && IsOperand(And, Contradiction(a, b), p)
    ensures p == [L] || p == [R, L] || p == [R, R]
    ensures Get(And, Contradiction(a, b), p) == if p == [L] then Bin(Or, a, b) else if p == [R, L] then Not(a) else Not(b)
  {
    var e := Contradiction(a, b);
    OperandBelow(And, e, p);
    if p[0] == L {
      OperandBelow(And, e.left, p[1..]);
    } else {
      TwoOperands(And, Not(a), Not(b), p[1..]);
      assert [R] + [L] == [R, L] && [R] + [R] == [R, R];
    }
  }

  lemma NothingJoins(a: Expr, b: Expr)
    requires a.Sym? && b.Sym? && a != b
    ensures Join(Or, a, b).None? && Join(And, Not(a), Not(b)).None?
    ensures forall y | y == Not(a) || y == Not(b) :: Join(And, Bin(Or, a, b), y).None? && Join(And, y, Bin(Or, a, b)).None?
  {
    assert !ExprEq(a, b) && !ExprEq(Not(a), Not(b));
  }

  lemma ContradictionJoined(a: Expr, b: Expr)
    requires a.Sym? && b.Sym? && a != b
    ensures Joined(And, Contradiction(a, b))
  {
    var e := Contradiction(a, b);
    NothingJoins(a, b);
    NothingJoins(b, a);
    SymbolsJoined(a, b);
    forall p, q | IsOperand(And, e, p) && IsOperand(And, e, q) && p != q ensures PairJoined(And, Get(And, e, p), Get(And, e, q)) {
      ContradictionOperands(a, b, p);
      ContradictionOperands(a, b, q);
    }
  }

  lemma SymbolsJoined(a: Expr, b: Expr)
    requires a.Sym? && b.Sym? && a != b
    ensures Joined(Or, Bin(Or, a, b))
  {
    var x := Bin(Or, a, b);
    NothingJoins(a, b);
    NothingJoins(b, a);
    forall p, q | IsOperand(Or, x, p) && IsOperand(Or, x, q) && p != q ensures PairJoined(Or, Get(Or, x, p), Get(Or, x, q)) {
      TwoOperands(Or, a, b, p);
      TwoOperands(Or, a, b, q);
    }
  }

  lemma Halves(op: Op, e: Expr)
    requires IsChain(op, e)
    ensures OnChain(op, e, [L]) && Get(op, e, [L]) == e.left
    ensures OnChain(op, e, [R]) && Get(op, e, [R]) == e.right
  {
    assert [L][1..] == [] && [R][1..] == [];
    assert OnChain(op, e.left, []) && OnChain(op, e.right, []);
  }

  lemma ContradictionCancels(a: Expr, b: Expr)
    requires a.Sym? && b.Sym? && a != b && !IsTriConstant(a.s) && !IsTriConstant(b.s)
    ensures OperandsClean(And, Contradiction(a, b)) && !Uncancelled(And, Contradiction(a, b))
  {
    var e := Contradiction(a, b);
    CancelsNegation(a, b);
    Halves(And, e);
    assert IsOperand(And, e, [L]) && OnChain(And, e, [R]) && [L] != [R];
    assert !PairUncancelled(And, Get(And, e, [L]), Get(And, e, [R]));
    forall p | IsOperand(And, e, p) && Get(And, e, p).Bin? ensures Uncancelled(Or, Get(And, e, p)) && Get(And, e, p).op == Or {
      ContradictionOperands(a, b, p);
      var x := Bin(Or, a, b);
      forall r | IsOperand(Or, x, r) ensures Get(Or, x, r).Sym? {
        TwoOperands(Or, a, b, r);
      }
    }
  }

  lemma CancelsNegation(a: Expr, b: Expr)
    requires a.Sym? && b.Sym? && a != b && !IsTriConstant(a.s) && !IsTriConstant(b.s)
    ensures Cancels(And, Bin(Or, a, b), Bin(And, Not(a), Not(b)))
  {
    var x, y := Bin(Or, a, b), Bin(And, Not(a), Not(b));
    NnfUnchanged(y);
    assert Transform(Not(x)) == y by {
      assert Transform(x) == x;
      assert PushNot(Or, a, b) == y;
    }
    var u := Sym(SymYes);
    assert ExprEq(a, a) && ExprEq(b, b) && !ExprEq(a, b) && !ExprEq(b, a);
    assert ExprEq(Not(a), Not(a)) && ExprEq(Not(b), Not(b)) && !ExprEq(Not(a), Not(b)) && !ExprEq(Not(b), Not(a));
    assert ExtractEq(And, None, Not(a), Not(a)) == Extraction(Some(Not(a)), u, u);
    assert ExtractEq(And, Some(Not(a)), u, Not(b)) == Extraction(Some(Not(a)), u, Not(b));
    var r1 := ExtractEq(And, None, Not(a), y);
    assert r1 == Extraction(Some(Not(a)), u, Bin(And, u, Not(b)));
    assert ExtractEq(And, Some(Not(a)), Not(b), u) == Extraction(Some(Not(a)), Not(b), u);
    assert ExtractEq(And, Some(Not(a)), Not(b), Not(b)).first == u;
    var r2 := ExtractEq(And, Some(Not(a)), Not(b), Bin(And, u, Not(b)));
    assert r2.first == u && r2.common.Some?;
    assert ExtractEq(And, None, y, y).first == Bin(And, u, u);
    assert EliminateYn(Bin(And, u, u)) == u;
  }

  lemma ContradictionDecided(a: Expr, b: Expr, v: Valuation)
    requires a.Sym? && b.Sym? && a != b && !IsTriConstant(a.s) && !IsTriConstant(b.s)
    ensures Value(Dups2(And, Contradiction(a, b), [], []).tree, v) == 0
  {
    var e := Contradiction(a, b);
    ContradictionCancels(a, b);
    Dups2Counts(And, e);
    Dups2Decides(And, e, [], [], v);
  }

  /** `(a || b) && (!a && !b)` where `a` is m and `b` is not y: the chain is m, but after a pass of
      the optimiser, in which nothing is joined, it is n. */
  lemma ContradictionChanges(a: Expr, b: Expr, v: Valuation)
    requires a.Sym? && b.Sym? && a != b && !IsTriConstant(a.s) && !IsTriConstant(b.s)
    requires Value(a, v) == 1 && Value(b, v) != 2
    ensures var e := Contradiction(a, b);
            && Dups1(And, e, [], []) == Rewrite(e, 0)
            && Value(e, v) == 1 && Value(Dups2(And, e, [], []).tree, v) == 0
  {
    var e := Contradiction(a, b);
    ContradictionJoined(a, b);
    Dups1Exact(And, e);
    Dups1Progress(And, e, [], []);
    assert Value(e.left, v) == 1 && Value(e.right, v) == 1;
    ContradictionDecided(a, b, v);
  }

  /** For instance `(A || B) && (!A && !B)` for tristate A and B that are both m. */
  lemma PassChangesM(v: Valuation)
    requires v.tris("A") == 1 && v.tris("B") == 1
    ensures var e := Contradiction(Sym(Config("A", STristate)), Sym(Config("B", STristate)));
            && Dups1(And, e, [], []) == Rewrite(e, 0)
            && Value(e, v) == 1 && Value(Dups2(And, e, [], []).tree, v) == 0
  {
    var a, b := Sym(Config("A", STristate)), Sym(Config("B", STristate));
    assert "A"[0] != "B"[0];
    assert a != b;
    ContradictionChanges(a, b, v);
  }
}

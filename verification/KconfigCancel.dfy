/** Cancelling an operand against its own negation elsewhere in the chain
    (`expr_eliminate_dups2`, scripts/kconfig/expr.c). */
module KconfigCancel {
  import opened KconfigExpr
  import opened KconfigEq
  import opened KconfigSlots
  import opened KconfigDups

  /** Every part of the negation of `x` also occurs in `y`: `(a || b)` against `!a && !b`. */
  predicate Cancels(op: Op, x: Expr, y: Expr) {
    ExtractCommon(op, Transform(Not(x)), y).first == Sym(Unit(op))
  }

  /** `expr_eliminate_dups2` on the slots `p` and `q` of the tree `e`.  Unlike the first traversal,
      it also holds an operand against whole subtrees of the chain. */
  function Dups2(op: Op, e: Expr, p: Path, q: Path): (r: Rewrite)
    requires OnChain(op, e, p) && OnChain(op, e, q)
    ensures ShapeOf(op, r.tree) == ShapeOf(op, e)
    ensures LayersUnder(op, r.tree) <= LayersUnder(op, e)
    decreases LayersUnder(op, e), Forks(ShapeOf(op, Get(op, e, p))) + Forks(ShapeOf(op, Get(op, e, q))), 1
  {
    if IsChain(op, Get(op, e, p)) then
      Descend(op, e, e, p, q);
      var a := Dups2(op, e, p + [L], q);
      Descend(op, e, a.tree, p, q);
      var b := Dups2(op, a.tree, p + [R], q);
      Rewrite(b.tree, a.count + b.count)
    else
      var a := BelowSecond(op, e, p, q);
      SameShape(op, e, a.tree, p);
      SameShape(op, e, a.tree, q);
      if p == q then a
      else
        var c := CancelPair(op, a.tree, p, q);
        Rewrite(c.tree, a.count + c.count)
  }

  /** The operand at `p` against the two halves of the chain at `q`. */
  function BelowSecond(op: Op, e: Expr, p: Path, q: Path): (r: Rewrite)
    requires IsOperand(op, e, p) && OnChain(op, e, q)
    ensures ShapeOf(op, r.tree) == ShapeOf(op, e)
    ensures LayersUnder(op, r.tree) <= LayersUnder(op, e)
    decreases LayersUnder(op, e), Forks(ShapeOf(op, Get(op, e, p))) + Forks(ShapeOf(op, Get(op, e, q))), 0
  {
    if IsChain(op, Get(op, e, q)) then
      Descend(op, e, e, q, p);
      var a := Dups2(op, e, p, q + [L]);
      Descend(op, e, a.tree, q, p);
      var b := Dups2(op, a.tree, p, q + [R]);
      Rewrite(b.tree, a.count + b.count)
    else
      Rewrite(e, 0)
  }

  /** The operand at `p`, first rewritten on its own, against whatever stands at `q`. */
  function CancelPair(op: Op, e: Expr, p: Path, q: Path): (r: Rewrite)
    requires IsOperand(op, e, p) && OnChain(op, e, q) && p != q
    ensures ShapeOf(op, r.tree) == ShapeOf(op, e)
    ensures LayersUnder(op, r.tree) <= LayersUnder(op, e)
    decreases LayersUnder(op, e), 0, 0
  {
    var x := Get(op, e, p);
    if !x.Bin? then Rewrite(e, 0)
    else
      LayersOfOperand(op, x);
      var n := Dups2(x.op, x, [], []);
      GetPut(op, e, p, n.tree);
      LayersPut(op, e, p, n.tree);
      var f := Put(op, e, p, n.tree);
      SameShape(op, e, f, q);
      if Cancels(op, n.tree, Get(op, f, q)) then
        GetPut(op, f, p, Sym(Zero(op)));
        LayersPut(op, f, p, Sym(Zero(op)));
        Rewrite(Put(op, f, p, Sym(Zero(op))), n.count + 1)
      else
        Rewrite(f, n.count)
  }

  // ----- meaning -----

  function ZeroValue(op: Op): Tristate {
    if op == And then 0 else 2
  }

  /** What is cancelled is at most the negation of `x`, so where `x` is y or n the two operands
      together have the value that decides the chain. */
  lemma CancelsMeansContradiction(op: Op, x: Expr, y: Expr, v: Valuation)
    requires Cancels(op, x, y)
    ensures Contradict(op, Value(x, v), Value(y, v))
  {
    NegatedValue(x, v);
    FactoredOut(op, Transform(Not(x)), y, v, Value(x, v), Value(y, v));
  }

  /** `b` adds nothing to the negation of `a`, so unless `a` is m the two together decide a chain. */
  predicate Contradict(op: Op, a: Tristate, b: Tristate) {
    Combine(op, 2 - a, b) == b && (a != 1 ==> Combine(op, a, b) == ZeroValue(op))
  }

  lemma NegatedValue(x: Expr, v: Valuation)
    ensures Value(Transform(Not(x)), v) == 2 - Value(x, v)
  {
    TransformKeepsValue(Not(x), v);
  }

  /** If all of `n` is a factor of `y`, then `y` is at most `n`, the negation of `a`. */
  lemma FactoredOut(op: Op, n: Expr, y: Expr, v: Valuation, a: Tristate, b: Tristate)
    requires ExtractCommon(op, n, y).first == Sym(Unit(op)) && Value(n, v) == 2 - a && Value(y, v) == b
    ensures Contradict(op, a, b)
  {
    var c, rest := Factor(op, n, y, v, 2 - a, b);
    NegationAbsorbs(op, a, c, b, rest);
  }

  lemma Factor(op: Op, n: Expr, y: Expr, v: Valuation, a: Tristate, b: Tristate) returns (c: Tristate, rest: Tristate)
    requires ExtractCommon(op, n, y).first == Sym(Unit(op)) && Value(n, v) == a && Value(y, v) == b
    ensures a == Combine(op, c, 2 - ZeroValue(op)) && b == Combine(op, c, rest)
  {
    ExtractCommonFactors(op, n, y, v);
    UnitValue(op, v);
    var r := ExtractCommon(op, n, y);
    c, rest := CommonValue(op, r.common, v), Value(r.second, v);
  }

  lemma UnitValue(op: Op, v: Valuation)
    ensures Value(Sym(Unit(op)), v) == 2 - ZeroValue(op)
  {
  }

  lemma NegationAbsorbs(op: Op, x: Tristate, c: Tristate, y: Tristate, rest: Tristate)
    requires 2 - x == Combine(op, c, 2 - ZeroValue(op)) && y == Combine(op, c, rest)
    ensures Contradict(op, x, y)
  {
  }

  /** Wherever the code cancels `x` against `y`, the two together have the value that replaces them
      if and only if they are not both m. */
  lemma CancelExact(op: Op, x: Expr, y: Expr, v: Valuation)
    requires Cancels(op, x, y)
    ensures Value(Bin(op, x, y), v) == Value(Sym(Zero(op)), v) <==> !(Value(x, v) == 1 && Value(y, v) == 1)
  {
    CancelsMeansContradiction(op, x, y, v);
    assert Value(Sym(Zero(op)), v) == ZeroValue(op);
  }

  lemma ValueAbsorbs(op: Op, e: Expr, p: Path, v: Valuation)
    requires OnChain(op, e, p)
    ensures Combine(op, Value(e, v), Value(Get(op, e, p), v)) == Value(e, v)
  {
    ValueGet(op, e, p, v);
  }

  /** A cancellation gives the whole chain the value that decides it, which it had already if and
      only if its value was not m. */
  lemma CancelDecides(op: Op, f: Expr, p: Path, q: Path, v: Valuation)
    requires OnChain(op, f, p) && OnChain(op, f, q) && Cancels(op, Get(op, f, p), Get(op, f, q))
    ensures Value(Put(op, f, p, Sym(Zero(op))), v) == ZeroValue(op)
    ensures Value(f, v) == ZeroValue(op) <==> Value(f, v) != 1
  {
    CancelsMeansContradiction(op, Get(op, f, p), Get(op, f, q), v);
    ValueAbsorbs(op, f, p, v);
    ValueAbsorbs(op, f, q, v);
    ValuePut(op, f, p, Sym(Zero(op)), v);
    assert Value(Sym(Zero(op)), v) == ZeroValue(op);
    Decided(op, Value(f, v), Value(Get(op, f, p), v), Value(Get(op, f, q), v));
  }

  lemma Decided(op: Op, f: Tristate, x: Tristate, y: Tristate)
    requires Combine(op, f, x) == f && Combine(op, f, y) == f && Contradict(op, x, y)
    ensures f == ZeroValue(op) <==> f != 1
  {
  }

  // ----- what the traversal keeps -----

  /** Only the value m may change. */
  ghost predicate KeepsDefinite(e: Expr, f: Expr, v: Valuation) {
    (Value(e, v) != 1 ==> Value(f, v) == Value(e, v)) && (MFree(e, v) ==> MFree(f, v))
  }

  lemma OperandKeepsDefinite(op: Op, e: Expr, p: Path, x: Expr, v: Valuation)
    requires OnChain(op, e, p) && KeepsDefinite(Get(op, e, p), x, v)
    ensures KeepsDefinite(e, Put(op, e, p, x), v)
  {
    ValueGet(op, e, p, v);
    ValuePut(op, e, p, x, v);
    if MFree(e, v) {
      MFreePut(op, e, p, x, v);
    }
  }

  lemma ZeroKeeps(op: Op, f: Expr, p: Path, q: Path, v: Valuation)
    requires OnChain(op, f, p) && OnChain(op, f, q) && Cancels(op, Get(op, f, p), Get(op, f, q))
    ensures KeepsDefinite(f, Put(op, f, p, Sym(Zero(op))), v)
  {
    CancelDecides(op, f, p, q, v);
    if MFree(f, v) {
      MFreePut(op, f, p, Sym(Zero(op)), v);
    }
  }

  lemma {:induction false} CancelPairKeeps(op: Op, e: Expr, p: Path, q: Path, v: Valuation)
    requires IsOperand(op, e, p) && OnChain(op, e, q) && p != q
    ensures KeepsDefinite(e, CancelPair(op, e, p, q).tree, v)
    decreases LayersUnder(op, e), 0, 0
  {
    var x := Get(op, e, p);
    if x.Bin? {
      LayersOfOperand(op, x);
      var n := Dups2(x.op, x, [], []);
      Dups2Keeps(x.op, x, [], [], v);
      OperandKeepsDefinite(op, e, p, n.tree, v);
      GetPut(op, e, p, n.tree);
      var f := Put(op, e, p, n.tree);
      SameShape(op, e, f, q);
      if Cancels(op, n.tree, Get(op, f, q)) {
        ZeroKeeps(op, f, p, q, v);
      }
    }
  }

  /** The second traversal keeps every value but m, whatever the values of the symbols. */
  lemma {:induction false} Dups2Keeps(op: Op, e: Expr, p: Path, q: Path, v: Valuation)
    requires OnChain(op, e, p) && OnChain(op, e, q)
    ensures KeepsDefinite(e, Dups2(op, e, p, q).tree, v)
    decreases LayersUnder(op, e), Forks(ShapeOf(op, Get(op, e, p))) + Forks(ShapeOf(op, Get(op, e, q))), 1
  {
    if IsChain(op, Get(op, e, p)) {
      Descend(op, e, e, p, q);
      var a := Dups2(op, e, p + [L], q);
      Descend(op, e, a.tree, p, q);
      Dups2Keeps(op, e, p + [L], q, v);
      Dups2Keeps(op, a.tree, p + [R], q, v);
    } else {
      var a := BelowSecond(op, e, p, q);
      BelowSecondKeeps(op, e, p, q, v);
      SameShape(op, e, a.tree, p);
      SameShape(op, e, a.tree, q);
      if p != q {
        CancelPairKeeps(op, a.tree, p, q, v);
      }
    }
  }

  lemma {:induction false} BelowSecondKeeps(op: Op, e: Expr, p: Path, q: Path, v: Valuation)
    requires IsOperand(op, e, p) && OnChain(op, e, q)
    ensures KeepsDefinite(e, BelowSecond(op, e, p, q).tree, v)
    decreases LayersUnder(op, e), Forks(ShapeOf(op, Get(op, e, p))) + Forks(ShapeOf(op, Get(op, e, q))), 0
  {
    if IsChain(op, Get(op, e, q)) {
      Descend(op, e, e, q, p);
      var a := Dups2(op, e, p, q + [L]);
      Descend(op, e, a.tree, q, p);
      Dups2Keeps(op, e, p, q + [L], v);
      Dups2Keeps(op, a.tree, p, q + [R], v);
    }
  }

  // ----- progress -----

  lemma {:induction false} CancelPairProgress(op: Op, e: Expr, p: Path, q: Path)
    requires IsOperand(op, e, p) && OnChain(op, e, q) && p != q
    ensures Progress(e, CancelPair(op, e, p, q))
    decreases LayersUnder(op, e), 0, 0
  {
    var x := Get(op, e, p);
    if x.Bin? {
      LayersOfOperand(op, x);
      var n := Dups2(x.op, x, [], []);
      Dups2Progress(x.op, x, [], []);
      OperandProgress(op, e, p, n);
      GetPut(op, e, p, n.tree);
      var f := Put(op, e, p, n.tree);
      SameShape(op, e, f, q);
      if Cancels(op, n.tree, Get(op, f, q)) {
        ZeroShrinks(op, f, p, q);
      }
    }
  }

  lemma ZeroShrinks(op: Op, f: Expr, p: Path, q: Path)
    requires IsOperand(op, f, p) && OnChain(op, f, q) && p != q
    ensures var g := Put(op, f, p, Sym(Zero(op))); Size(g) <= Size(f) && HasYn(g) && (Nnf(f) ==> Nnf(g))
  {
    var z := Sym(Zero(op));
    SizePut(op, f, p, z);
    SizePositive(Get(op, f, p));
    GetPut(op, f, p, z);
    HasYnBelow(op, Put(op, f, p, z), p);
    if Nnf(f) {
      NnfPut(op, f, p, z);
    }
  }

  /** The second traversal never loses count of a cancellation. */
  lemma {:induction false} Dups2Progress(op: Op, e: Expr, p: Path, q: Path)
    requires OnChain(op, e, p) && OnChain(op, e, q)
    ensures Progress(e, Dups2(op, e, p, q))
    decreases LayersUnder(op, e), Forks(ShapeOf(op, Get(op, e, p))) + Forks(ShapeOf(op, Get(op, e, q))), 1
  {
    if IsChain(op, Get(op, e, p)) {
      Descend(op, e, e, p, q);
      var a := Dups2(op, e, p + [L], q);
      Descend(op, e, a.tree, p, q);
      Dups2Progress(op, e, p + [L], q);
      Dups2Progress(op, a.tree, p + [R], q);
    } else {
      var a := BelowSecond(op, e, p, q);
      BelowSecondProgress(op, e, p, q);
      SameShape(op, e, a.tree, p);
      SameShape(op, e, a.tree, q);
      if p != q {
        CancelPairProgress(op, a.tree, p, q);
      }
    }
  }

  lemma {:induction false} BelowSecondProgress(op: Op, e: Expr, p: Path, q: Path)
    requires IsOperand(op, e, p) && OnChain(op, e, q)
    ensures Progress(e, BelowSecond(op, e, p, q))
    decreases LayersUnder(op, e), Forks(ShapeOf(op, Get(op, e, p))) + Forks(ShapeOf(op, Get(op, e, q))), 0
  {
    if IsChain(op, Get(op, e, q)) {
      Descend(op, e, e, q, p);
      var a := Dups2(op, e, p, q + [L]);
      Descend(op, e, a.tree, q, p);
      Dups2Progress(op, e, p, q + [L]);
      Dups2Progress(op, a.tree, p, q + [R]);
    }
  }

  // ----- completeness -----

  /** No operand of the chain is cancelled by any other part of the chain, nor inside an operand. */
  ghost predicate Uncancelled(op: Op, e: Expr)
    decreases LayersUnder(op, e)
  {
    forall p, q | IsOperand(op, e, p) && OnChain(op, e, q) && p != q ::
      PairUncancelled(op, Get(op, e, p), Get(op, e, q))
  }

  ghost predicate PairUncancelled(op: Op, x: Expr, y: Expr)
    requires !IsChain(op, x)
    decreases LayersUnder(op, x), 0
  {
    x.Bin? ==> !Cancels(op, x, y) && (LayersOfOperand(op, x); Uncancelled(x.op, x))
  }

  /** A traversal that counts nothing has found nothing to cancel. */
  lemma {:induction false} Dups2Complete(op: Op, e: Expr, p: Path, q: Path)
    requires OnChain(op, e, p) && OnChain(op, e, q)
    requires Dups2(op, e, p, q).count == 0
    ensures forall p', q' | p <= p' && q <= q' && IsOperand(op, e, p') && OnChain(op, e, q') && p' != q' ::
              PairUncancelled(op, Get(op, e, p'), Get(op, e, q'))
    decreases LayersUnder(op, e), 1, Forks(ShapeOf(op, Get(op, e, p))) + Forks(ShapeOf(op, Get(op, e, q))), 1
  {
    if IsChain(op, Get(op, e, p)) {
      Descend(op, e, e, p, q);
      Dups2Progress(op, e, p + [L], q);
      Dups2Complete(op, e, p + [L], q);
      Dups2Complete(op, e, p + [R], q);
      forall p' | p <= p' && IsOperand(op, e, p') ensures p + [L] <= p' || p + [R] <= p' {
        StepTowards(op, e, p, p');
      }
    } else {
      BelowSecondProgress(op, e, p, q);
      if p != q {
        CancelPairComplete(op, e, p, q);
      }
      BelowSecondComplete(op, e, p, q);
      forall p' | p <= p' && IsOperand(op, e, p') ensures p' == p {
        StepTowards(op, e, p, p');
      }
    }
  }

  lemma {:induction false} BelowSecondComplete(op: Op, e: Expr, p: Path, q: Path)
    requires IsOperand(op, e, p) && OnChain(op, e, q)
    requires BelowSecond(op, e, p, q).count == 0
    ensures forall q' | q <= q' && q' != q && OnChain(op, e, q') && p != q' ::
              PairUncancelled(op, Get(op, e, p), Get(op, e, q'))
    decreases LayersUnder(op, e), 1, Forks(ShapeOf(op, Get(op, e, p))) + Forks(ShapeOf(op, Get(op, e, q))), 0
  {
    if IsChain(op, Get(op, e, q)) {
      Descend(op, e, e, q, p);
      Dups2Progress(op, e, p, q + [L]);
      Dups2Complete(op, e, p, q + [L]);
      Dups2Complete(op, e, p, q + [R]);
    }
    forall q' | q <= q' && q' != q && OnChain(op, e, q')
      ensures IsChain(op, Get(op, e, q)) && (q + [L] <= q' || q + [R] <= q')
    {
      StepTowardsNode(op, e, q, q');
    }
  }

  lemma CancelPairComplete(op: Op, e: Expr, p: Path, q: Path)
    requires IsOperand(op, e, p) && OnChain(op, e, q) && p != q
    requires CancelPair(op, e, p, q).count == 0
    ensures PairUncancelled(op, Get(op, e, p), Get(op, e, q))
    decreases LayersUnder(op, e), 0
  {
    var x := Get(op, e, p);
    PutSame(op, e, p);
    if x.Bin? {
      LayersOfOperand(op, x);
      Dups2Progress(x.op, x, [], []);
      Dups2Complete(x.op, x, [], []);
    }
  }

  /** No operand at or below `p` is cancelled by any part of the chain at or below `q`. */
  ghost predicate PairsUncancelled(op: Op, e: Expr, p: Path, q: Path) {
    forall p', q' | p <= p' && q <= q' && IsOperand(op, e, p') && OnChain(op, e, q') && p' != q' ::
      PairUncancelled(op, Get(op, e, p'), Get(op, e, q'))
  }

  lemma PairsUncancelledBelow(op: Op, e: Expr, p: Path, q: Path, p': Path, q': Path)
    requires PairsUncancelled(op, e, p, q) && p <= p' && q <= q'
    ensures PairsUncancelled(op, e, p', q')
  {
  }

  /** Conversely, where nothing can be cancelled the traversal counts nothing. */
  lemma {:induction false} Dups2Idle(op: Op, e: Expr, p: Path, q: Path)
    requires OnChain(op, e, p) && OnChain(op, e, q) && PairsUncancelled(op, e, p, q)
    ensures Dups2(op, e, p, q).count == 0
    decreases LayersUnder(op, e), Forks(ShapeOf(op, Get(op, e, p))) + Forks(ShapeOf(op, Get(op, e, q))), 2
  {
    if IsChain(op, Get(op, e, p)) {
      Descend(op, e, e, p, q);
      PairsUncancelledBelow(op, e, p, q, p + [L], q);
      PairsUncancelledBelow(op, e, p, q, p + [R], q);
      Dups2Idle(op, e, p + [L], q);
      Dups2Progress(op, e, p + [L], q);
      Dups2Idle(op, e, p + [R], q);
    } else {
      OperandIdle(op, e, p, q);
    }
  }

  lemma {:induction false} OperandIdle(op: Op, e: Expr, p: Path, q: Path)
    requires IsOperand(op, e, p) && OnChain(op, e, q) && PairsUncancelled(op, e, p, q)
    ensures Dups2(op, e, p, q).count == 0
    decreases LayersUnder(op, e), Forks(ShapeOf(op, Get(op, e, p))) + Forks(ShapeOf(op, Get(op, e, q))), 1
  {
    BelowSecondIdle(op, e, p, q);
    BelowSecondProgress(op, e, p, q);
    if p != q {
      assert PairUncancelled(op, Get(op, e, p), Get(op, e, q));
      CancelPairIdle(op, e, p, q);
    }
  }

  lemma {:induction false} BelowSecondIdle(op: Op, e: Expr, p: Path, q: Path)
    requires IsOperand(op, e, p) && OnChain(op, e, q) && PairsUncancelled(op, e, p, q)
    ensures BelowSecond(op, e, p, q).count == 0
    decreases LayersUnder(op, e), Forks(ShapeOf(op, Get(op, e, p))) + Forks(ShapeOf(op, Get(op, e, q))), 0
  {
    if IsChain(op, Get(op, e, q)) {
      Descend(op, e, e, q, p);
      PairsUncancelledBelow(op, e, p, q, p, q + [L]);
      PairsUncancelledBelow(op, e, p, q, p, q + [R]);
      Dups2Idle(op, e, p, q + [L]);
      Dups2Progress(op, e, p, q + [L]);
      Dups2Idle(op, e, p, q + [R]);
    }
  }

  lemma CancelPairIdle(op: Op, e: Expr, p: Path, q: Path)
    requires IsOperand(op, e, p) && OnChain(op, e, q) && p != q
    requires PairUncancelled(op, Get(op, e, p), Get(op, e, q))
    ensures CancelPair(op, e, p, q).count == 0
    decreases LayersUnder(op, e), 0, 0
  {
    var x := Get(op, e, p);
    PutSame(op, e, p);
    if x.Bin? {
      LayersOfOperand(op, x);
      assert PairsUncancelled(x.op, x, [], []);
      Dups2Idle(x.op, x, [], []);
      Dups2Progress(x.op, x, [], []);
    }
  }

  /** The second traversal counts nothing if and only if there is nothing to cancel. */
  lemma Dups2Counts(op: Op, e: Expr)
    ensures Dups2(op, e, [], []).count == 0 <==> Uncancelled(op, e)
  {
    if Dups2(op, e, [], []).count == 0 {
      Dups2Complete(op, e, [], []);
    } else if Uncancelled(op, e) {
      assert PairsUncancelled(op, e, [], []);
      Dups2Idle(op, e, [], []);
    }
  }
}

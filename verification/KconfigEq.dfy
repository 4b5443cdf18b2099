/** Structural comparison of AND/OR chains up to reordering, cancellation of common operands and
    extraction of the common factor (scripts/kconfig/expr.c). */
module KconfigEq {
  import opened KconfigExpr
  import opened Options

  datatype Pair = Pair(first: Expr, second: Expr)

  /** `__expr_eliminate_eq`: compares every operand of the first chain with every operand of the
      second, and replaces two equal ones by the unit of the chain on both sides. */
  function CancelEq(op: Op, e1: Expr, e2: Expr): (r: Pair)
    ensures Size(r.first) <= Size(e1) && Size(r.second) <= Size(e2)
    ensures IsChain(op, e1) ==> IsChain(op, r.first)
    ensures IsChain(op, e2) ==> IsChain(op, r.second)
    decreases Size(e1) + Size(e2), if IsChain(op, e1) || IsChain(op, e2) then 0 else 3
  {
    SizePositive(e1);
    SizePositive(e2);
    if IsChain(op, e1) then
      SizePositive(e1.left);
      SizePositive(e1.right);
      var a := CancelEq(op, e1.left, e2);
      var b := CancelEq(op, e1.right, a.second);
      Pair(Bin(op, a.first, b.first), b.second)
    else if IsChain(op, e2) then
      SizePositive(e2.left);
      SizePositive(e2.right);
      var a := CancelEq(op, e1, e2.left);
      var b := CancelEq(op, a.first, e2.right);
      Pair(b.first, Bin(op, a.second, b.second))
    else if e1 == e2 && IsYn(e1) then Pair(e1, e2)
    else if ExprEq(e1, e2) then Pair(Sym(Unit(op)), Sym(Unit(op)))
    else Pair(e1, e2)
  }

  /** `expr_eliminate_eq`: cancels along the first chain, then along the second if it is of the
      other kind, then drops the constants. */
  function EliminateEq(e1: Expr, e2: Expr): (r: Pair)
    decreases Size(e1) + Size(e2), 1
  {
    var a := CancelChains(e1, e2);
    Pair(EliminateYn(a.first), EliminateYn(a.second))
  }

  function CancelChains(e1: Expr, e2: Expr): (r: Pair)
    ensures Size(r.first) <= Size(e1) && Size(r.second) <= Size(e2)
    decreases Size(e1) + Size(e2), 1, 0
  {
    var a := if e1.Bin? then CancelEq(e1.op, e1, e2) else Pair(e1, e2);
    if a.second.Bin? && !IsChain(a.second.op, a.first)
    then CancelEq(a.second.op, a.first, a.second)
    else a
  }

  /** `expr_eq` */
  predicate ExprEq(e1: Expr, e2: Expr)
    decreases Size(e1) + Size(e2), 2
  {
    match (e1, e2)
    case (Sym(a), Sym(b)) => a == b
    case (Cmp(_, _, _), Cmp(_, _, _)) => e1 == e2
    case (Not(a), Not(b)) => ExprEq(a, b)
    case (Bin(op1, _, _), Bin(op2, _, _)) =>
      op1 == op2 &&
      var r := EliminateEq(e1, e2);
      r.first.Sym? && r.first == r.second
    case _ => false
  }

  // ----- soundness -----

  /** Cancelling removes one and the same factor from both expressions. */
  lemma {:induction false} CancelEqFactors(op: Op, e1: Expr, e2: Expr, v: Valuation) returns (c: Tristate)
    ensures Value(e1, v) == Combine(op, c, Value(CancelEq(op, e1, e2).first, v))
    ensures Value(e2, v) == Combine(op, c, Value(CancelEq(op, e1, e2).second, v))
    decreases Size(e1) + Size(e2), if IsChain(op, e1) || IsChain(op, e2) then 0 else 3
  {
    if IsChain(op, e1) {
      SizePositive(e1.left);
      SizePositive(e1.right);
      var a := CancelEq(op, e1.left, e2);
      var c1 := CancelEqFactors(op, e1.left, e2, v);
      var c2 := CancelEqFactors(op, e1.right, a.second, v);
      var b := CancelEq(op, e1.right, a.second);
      c := Combine(op, c1, c2);
      CombineRegroups(op, c1, Value(a.first, v), c2, Value(b.first, v));
      CombineAssociates(op, c1, c2, Value(b.second, v));
    } else if IsChain(op, e2) {
      SizePositive(e2.left);
      SizePositive(e2.right);
      var a := CancelEq(op, e1, e2.left);
      var c1 := CancelEqFactors(op, e1, e2.left, v);
      var c2 := CancelEqFactors(op, a.first, e2.right, v);
      var b := CancelEq(op, a.first, e2.right);
      c := Combine(op, c1, c2);
      CombineAssociates(op, c1, c2, Value(b.first, v));
      CombineRegroups(op, c1, Value(a.second, v), c2, Value(b.second, v));
    } else if !(e1 == e2 && IsYn(e1)) && ExprEq(e1, e2) {
      ExprEqSound(e1, e2, v);
      c := Value(e1, v);
    } else {
      c := if op == And then 2 else 0;
    }
  }

  /** Expressions that `expr_eq` accepts have the same value under every valuation. */
  lemma {:induction false} ExprEqSound(e1: Expr, e2: Expr, v: Valuation)
    requires ExprEq(e1, e2)
    ensures Value(e1, v) == Value(e2, v)
    decreases Size(e1) + Size(e2), 2
  {
    match (e1, e2)
    case (Not(a), Not(b)) => ExprEqSound(a, b, v);
    case (Bin(op, _, _), Bin(_, _, _)) =>
      var c := CancelEqFactors(op, e1, e2, v);
      var a := CancelEq(op, e1, e2);
      assert CancelChains(e1, e2) == a;
      EliminateYnKeepsValue(a.first, v);
      EliminateYnKeepsValue(a.second, v);
    case _ =>
  }

  lemma CancelEqReflectsOrder(op: Op, e1: Expr, e2: Expr, v: Valuation)
    requires var a := CancelEq(op, e1, e2); Value(a.first, v) <= Value(a.second, v)
    ensures Value(e1, v) <= Value(e2, v)
  {
    var c := CancelEqFactors(op, e1, e2, v);
  }

  lemma CancelChainsReflectsOrder(d1: Expr, d2: Expr, v: Valuation)
    requires var b := CancelChains(d1, d2); Value(b.first, v) <= Value(b.second, v)
    ensures Value(d1, v) <= Value(d2, v)
  {
    var a := if d1.Bin? then CancelEq(d1.op, d1, d2) else Pair(d1, d2);
    if a.second.Bin? && !IsChain(a.second.op, a.first) {
      CancelEqReflectsOrder(a.second.op, a.first, a.second, v);
    }
    if d1.Bin? {
      CancelEqReflectsOrder(d1.op, d1, d2, v);
    }
  }

  /** If cancelling against `d1` leaves nothing of `d2`, then `d1` implies `d2` everywhere. */
  lemma EliminateEqImplies(d1: Expr, d2: Expr, v: Valuation)
    requires EliminateEq(d1, d2).second == Sym(SymYes)
    ensures Value(d1, v) <= Value(d2, v)
  {
    var b := CancelChains(d1, d2);
    EliminateYnKeepsValue(b.second, v);
    assert Value(Sym(SymYes), v) == 2;
    CancelChainsReflectsOrder(d1, d2, v);
  }

  // ----- expr_extract_eq -----

  /** The common operands found so far, and what is left of the two expressions. */
  datatype Extraction = Extraction(common: Option<Expr>, first: Expr, second: Expr)

  /** `expr_extract_eq`: moves every operand of the first chain that also occurs in the second
      into `common`, and replaces both occurrences by the unit of the chain. */
  function ExtractEq(op: Op, found: Option<Expr>, e1: Expr, e2: Expr): (r: Extraction)
    ensures Size(r.first) <= Size(e1) && Size(r.second) <= Size(e2)
    decreases Size(e1) + Size(e2)
  {
    SizePositive(e1);
    SizePositive(e2);
    if IsChain(op, e1) then
      SizePositive(e1.left);
      SizePositive(e1.right);
      var a := ExtractEq(op, found, e1.left, e2);
      var b := ExtractEq(op, a.common, e1.right, a.second);
      Extraction(b.common, Bin(op, a.first, b.first), b.second)
    else if IsChain(op, e2) then
      SizePositive(e2.left);
      SizePositive(e2.right);
      var a := ExtractEq(op, found, e1, e2.left);
      var b := ExtractEq(op, a.common, a.first, e2.right);
      Extraction(b.common, b.first, Bin(op, a.second, b.second))
    else if ExprEq(e1, e2) then
      Extraction(Some(if found.Some? then Bin(op, found.value, e1) else e1), Sym(Unit(op)), Sym(Unit(op)))
    else
      Extraction(found, e1, e2)
  }

  /** `expr_extract_eq_and` and `expr_extract_eq_or`: constants are dropped only when something
      was extracted. */
  function ExtractCommon(op: Op, e1: Expr, e2: Expr): Extraction {
    var x := ExtractEq(op, None, e1, e2);
    if x.common.Some? then Extraction(x.common, EliminateYn(x.first), EliminateYn(x.second)) else x
  }

  /** The value of the extracted operands; nothing extracted counts as the unit of the chain. */
  function CommonValue(op: Op, common: Option<Expr>, v: Valuation): Tristate {
    match common
    case None => if op == And then 2 else 0
    case Some(e) => Value(e, v)
  }

  lemma {:induction false} ExtractEqFactors(op: Op, found: Option<Expr>, e1: Expr, e2: Expr, v: Valuation)
    returns (c: Tristate)
    ensures var x := ExtractEq(op, found, e1, e2);
            && CommonValue(op, x.common, v) == Combine(op, CommonValue(op, found, v), c)
            && Value(e1, v) == Combine(op, c, Value(x.first, v))
            && Value(e2, v) == Combine(op, c, Value(x.second, v))
    decreases Size(e1) + Size(e2)
  {
    SizePositive(e1);
    SizePositive(e2);
    if IsChain(op, e1) {
      SizePositive(e1.left);
      SizePositive(e1.right);
      var a := ExtractEq(op, found, e1.left, e2);
      var b := ExtractEq(op, a.common, e1.right, a.second);
      var c1 := ExtractEqFactors(op, found, e1.left, e2, v);
      var c2 := ExtractEqFactors(op, a.common, e1.right, a.second, v);
      c := Combine(op, c1, c2);
      CombineRegroups(op, c1, Value(a.first, v), c2, Value(b.first, v));
      CombineAssociates(op, c1, c2, Value(b.second, v));
      CombineAssociates(op, CommonValue(op, found, v), c1, c2);
    } else if IsChain(op, e2) {
      SizePositive(e2.left);
      SizePositive(e2.right);
      var a := ExtractEq(op, found, e1, e2.left);
      var b := ExtractEq(op, a.common, a.first, e2.right);
      var c1 := ExtractEqFactors(op, found, e1, e2.left, v);
      var c2 := ExtractEqFactors(op, a.common, a.first, e2.right, v);
      c := Combine(op, c1, c2);
      CombineAssociates(op, c1, c2, Value(b.first, v));
      CombineRegroups(op, c1, Value(a.second, v), c2, Value(b.second, v));
      CombineAssociates(op, CommonValue(op, found, v), c1, c2);
    } else if ExprEq(e1, e2) {
      ExprEqSound(e1, e2, v);
      c := Value(e1, v);
    } else {
      c := if op == And then 2 else 0;
    }
  }

  /** What `expr_extract_eq_*` returns is a factor of both expressions: each is exactly the
      extracted part combined with what is left of it. */
  lemma {:induction false} ExtractCommonFactors(op: Op, e1: Expr, e2: Expr, v: Valuation)
    ensures var x := ExtractCommon(op, e1, e2);
            var c := CommonValue(op, x.common, v);
            && Value(e1, v) == Combine(op, c, Value(x.first, v))
            && Value(e2, v) == Combine(op, c, Value(x.second, v))
  {
    var c := ExtractEqFactors(op, None, e1, e2, v);
    var x := ExtractEq(op, None, e1, e2);
    EliminateYnKeepsValue(x.first, v);
    EliminateYnKeepsValue(x.second, v);
  }
}

/** What `expr_eq`, `expr_eliminate_eq` and `expr_extract_eq` (scripts/kconfig/expr.c) find: exactly
    the operands that two expressions share, whatever their order and grouping. */
module KconfigReorder {
  import opened KconfigExpr
  import opened KconfigEq
  import opened Options

  // ----- expressions up to reordering -----

  /** An expression without the order and the grouping of the operands of its chains. */
  datatype Form =
    | FSym(s: Symbol)
    | FCmp(rel: Rel, lhs: Symbol, rhs: Symbol)
    | FNot(f: Form)
    | FChain(op: Op, operands: multiset<Form>)

  function FormOf(e: Expr): Form
    decreases e, 0
  {
    match e
    case Sym(s) => FSym(s)
    case Cmp(rel, a, b) => FCmp(rel, a, b)
    case Not(a) => FNot(FormOf(a))
    case Bin(op, l, r) => FChain(op, Operands(op, l) + Operands(op, r))
  }

  function Operands(op: Op, e: Expr): multiset<Form>
    decreases e, 1
  {
    if IsChain(op, e) then Operands(op, e.left) + Operands(op, e.right) else multiset{FormOf(e)}
  }

  /** The two operands of a node may change places, and chains may be grouped in any way. */
  lemma Reordering(op: Op, a: Expr, b: Expr, c: Expr)
    ensures FormOf(Bin(op, a, b)) == FormOf(Bin(op, b, a))
    ensures FormOf(Bin(op, Bin(op, a, b), c)) == FormOf(Bin(op, a, Bin(op, b, c)))
  {
    var x, y, z := Operands(op, a), Operands(op, b), Operands(op, c);
    SumsReorder(x, y, z);
    assert Operands(op, Bin(op, a, b)) == x + y && Operands(op, Bin(op, b, c)) == y + z;
  }

  lemma SumsReorder<T>(x: multiset<T>, y: multiset<T>, z: multiset<T>)
    ensures x + y == y + x
    ensures (x + y) + z == x + (y + z)
  {
  }

  /** Neither y nor n is an operand anywhere. */
  predicate Plain(e: Expr) {
    match e
    case Not(a) => Plain(a)
    case Bin(_, l, r) => !IsYn(l) && !IsYn(r) && Plain(l) && Plain(r)
    case _ => true
  }

  // ----- chains in which some operands have been replaced by the unit -----

  predicate Tidy(op: Op, e: Expr) {
    if IsChain(op, e) then Tidy(op, e.left) && Tidy(op, e.right) else e == Sym(Unit(op)) || Plain(e)
  }

  /** The operands other than the unit. */
  function Live(op: Op, e: Expr): multiset<Form> {
    if IsChain(op, e) then Live(op, e.left) + Live(op, e.right)
    else if e == Sym(Unit(op)) then multiset{}
    else multiset{FormOf(e)}
  }

  ghost predicate Undecided(op: Op, e: Expr) {
    FSym(Zero(op)) !in Live(op, e)
  }

  lemma {:induction false} PlainIsTidy(op: Op, e: Expr)
    requires Plain(e)
    ensures Tidy(op, e)
    ensures !IsYn(e) ==> Live(op, e) == Operands(op, e) != multiset{} && Undecided(op, e)
  {
    if IsChain(op, e) {
      PlainIsTidy(op, e.left);
      PlainIsTidy(op, e.right);
    }
  }

  /** `r` has just the operands `live`: it is the unit if there are none. */
  predicate Has(op: Op, r: Expr, live: multiset<Form>) {
    if live == multiset{} then r == Sym(Unit(op)) else Plain(r) && !IsYn(r) && Live(op, r) == live
  }

  /** Constant elimination leaves the operands of a tidy chain and no others. */
  lemma {:induction false} EliminatedLive(op: Op, e: Expr)
    requires Tidy(op, e) && Undecided(op, e)
    ensures Has(op, EliminateYn(e), Live(op, e))
  {
    if IsChain(op, e) {
      EliminatedLive(op, e.left);
      EliminatedLive(op, e.right);
      SimplifiedLive(op, EliminateYn(e.left), EliminateYn(e.right), Live(op, e.left), Live(op, e.right));
    } else if e != Sym(Unit(op)) {
      PlainHasNone(e);
      EliminateYnShrinks(e);
    }
  }

  lemma SimplifiedLive(op: Op, l: Expr, r: Expr, a: multiset<Form>, b: multiset<Form>)
    requires Has(op, l, a) && Has(op, r, b)
    ensures Has(op, SimplifyBin(op, l, r), a + b)
  {
    NothingAdded(a, b);
    if a == multiset{} {
      assert SimplifyBin(op, l, r) == r;
    } else if b == multiset{} {
      assert SimplifyBin(op, l, r) == l;
    } else {
      assert SimplifyBin(op, l, r) == Bin(op, l, r);
      assert Live(op, Bin(op, l, r)) == a + b;
    }
  }

  lemma NothingAdded<T>(a: multiset<T>, b: multiset<T>)
    ensures a == multiset{} ==> a + b == b
    ensures b == multiset{} ==> a + b == a
    ensures a + b == multiset{} <==> a == multiset{} && b == multiset{}
  {
    if f :| f in a {
      assert f in a + b;
    }
    if f :| f in b {
      assert f in a + b;
    }
  }

  lemma {:induction false} PlainHasNone(e: Expr)
    requires Plain(e)
    ensures !HasYn(e)
  {
    match e
    case Bin(_, l, r) => PlainHasNone(l); PlainHasNone(r);
    case _ =>
  }

  // ----- expr_eq and expr_eliminate_eq -----

  /** `r` is what `e1` and `e2` leave of each other. */
  predicate Rest(op: Op, r: Pair, e1: Expr, e2: Expr) {
    && Tidy(op, r.first) && Live(op, r.first) == Live(op, e1) - Live(op, e2)
    && Tidy(op, r.second) && Live(op, r.second) == Live(op, e2) - Live(op, e1)
  }

  /** Cancelling takes from both chains what they share. */
  lemma {:induction false} CancelShared(op: Op, e1: Expr, e2: Expr)
    requires Tidy(op, e1) && Tidy(op, e2) && (Undecided(op, e1) || Undecided(op, e2))
    ensures Rest(op, CancelEq(op, e1, e2), e1, e2)
    decreases Size(e1) + Size(e2), if IsChain(op, e1) || IsChain(op, e2) then 0 else 3
  {
    SizePositive(e1);
    SizePositive(e2);
    if IsChain(op, e1) {
      SizePositive(e1.left);
      SizePositive(e1.right);
      var a := CancelEq(op, e1.left, e2);
      CancelShared(op, e1.left, e2);
      UndecidedRest(op, e1, e2, a.second);
      CancelShared(op, e1.right, a.second);
      RestFirst(op, e1, e2, a, CancelEq(op, e1.right, a.second));
    } else if IsChain(op, e2) {
      SizePositive(e2.left);
      SizePositive(e2.right);
      var a := CancelEq(op, e1, e2.left);
      CancelShared(op, e1, e2.left);
      UndecidedRest(op, e2, e1, a.first);
      CancelShared(op, a.first, e2.right);
      RestSecond(op, e1, e2, a, CancelEq(op, a.first, e2.right));
    } else {
      CancelLeaves(op, e1, e2);
    }
  }

  lemma UndecidedRest(op: Op, e: Expr, d: Expr, rest: Expr)
    requires IsChain(op, e) && Live(op, rest) == Live(op, d) - Live(op, e.left)
    requires Undecided(op, e) || Undecided(op, d)
    ensures Undecided(op, e.right) || Undecided(op, rest)
  {
  }

  lemma RestFirst(op: Op, e1: Expr, e2: Expr, a: Pair, b: Pair)
    requires IsChain(op, e1) && Rest(op, a, e1.left, e2) && Rest(op, b, e1.right, a.second)
    ensures Rest(op, Pair(Bin(op, a.first, b.first), b.second), e1, e2)
  {
    SharedInTurn(Live(op, e1.left), Live(op, e1.right), Live(op, e2));
  }

  lemma RestSecond(op: Op, e1: Expr, e2: Expr, a: Pair, b: Pair)
    requires IsChain(op, e2) && Rest(op, a, e1, e2.left) && Rest(op, b, a.first, e2.right)
    ensures Rest(op, Pair(b.first, Bin(op, a.second, b.second)), e1, e2)
  {
    SharedInTurn(Live(op, e2.left), Live(op, e2.right), Live(op, e1));
  }

  lemma CancelLeaves(op: Op, e1: Expr, e2: Expr)
    requires Tidy(op, e1) && Tidy(op, e2) && (Undecided(op, e1) || Undecided(op, e2))
    requires !IsChain(op, e1) && !IsChain(op, e2)
    ensures Rest(op, CancelEq(op, e1, e2), e1, e2)
    decreases Size(e1) + Size(e2), 2, 1
  {
    var u := Sym(Unit(op));
    if e1 == u || e2 == u {
      assert CancelEq(op, e1, e2) == Pair(e1, e2);
      LeavesRest(Live(op, e1), Live(op, e2));
    } else {
      var f, g := FormOf(e1), FormOf(e2);
      assert Live(op, e1) == multiset{f} && Live(op, e2) == multiset{g};
      ExprEqExact(e1, e2);
      SingleRest(f, g);
      assert CancelEq(op, e1, e2) == if f == g then Pair(u, u) else Pair(e1, e2);
    }
  }

  lemma LeavesRest<T>(a: multiset<T>, b: multiset<T>)
    ensures a == multiset{} || b == multiset{} ==> a - b == a && b - a == b
  {
  }

  lemma SingleRest<T>(f: T, g: T)
    ensures multiset{f} - multiset{g} == if f == g then multiset{} else multiset{f}
    ensures multiset{g} - multiset{f} == if f == g then multiset{} else multiset{g}
  {
  }

  lemma SharedInTurn<T>(l: multiset<T>, r: multiset<T>, e: multiset<T>)
    ensures (l - e) + (r - (e - l)) == (l + r) - e
    ensures (e - l) - r == e - (l + r)
  {
  }

  /** `expr_eq` accepts two expressions without y and n operands if and only if they are the same up
      to reordering. */
  lemma {:induction false} ExprEqExact(e1: Expr, e2: Expr)
    requires Plain(e1) && Plain(e2)
    ensures ExprEq(e1, e2) <==> FormOf(e1) == FormOf(e2)
    decreases Size(e1) + Size(e2), 2, 0
  {
    match (e1, e2)
    case (Not(a), Not(b)) => ExprEqExact(a, b);
    case (Bin(op1, _, _), Bin(op2, _, _)) =>
      if op1 == op2 {
        var a := CancelEq(op1, e1, e2);
        assert CancelChains(e1, e2) == a;
        PlainIsTidy(op1, e1);
        PlainIsTidy(op1, e2);
        CancelShared(op1, e1, e2);
        EliminatedLive(op1, a.first);
        EliminatedLive(op1, a.second);
        NothingShared(Operands(op1, e1), Operands(op1, e2));
      }
    case _ =>
  }

  /** What two multisets leave of each other is never the same, unless it is nothing. */
  lemma NothingShared<T>(a: multiset<T>, b: multiset<T>)
    ensures a - b == b - a <==> a == b
    ensures a == b ==> a - b == multiset{}
  {
    if a - b == b - a {
      forall x ensures a[x] == b[x] {
        assert (a - b)[x] == (b - a)[x];
      }
    }
  }

  // ----- when nothing is left of the second expression -----

  /** A single operand is left as it is or replaced by the unit, and constants are left alone. */
  lemma {:induction false} SingleSecond(op: Op, e1: Expr, e2: Expr)
    requires !IsChain(op, e2)
    ensures var r := CancelEq(op, e1, e2).second; r == e2 || (r == Sym(Unit(op)) && !IsYn(e2))
    decreases Size(e1)
  {
    if IsChain(op, e1) {
      SizePositive(e1.left);
      SizePositive(e1.right);
      SingleSecond(op, e1.left, e2);
      SingleSecond(op, e1.right, CancelEq(op, e1.left, e2).second);
    }
  }

  /** `r` is tidy and has no operands but those of `e`. */
  predicate Within(op: Op, r: Expr, e: Expr) {
    Tidy(op, r) && Live(op, r) <= Live(op, e)
  }

  lemma WithinThen(op: Op, r: Expr, m: Expr, e: Expr)
    requires Within(op, r, m) && Within(op, m, e)
    ensures Within(op, r, e)
  {
  }

  lemma WithinBoth(op: Op, l: Expr, r: Expr, l': Expr, r': Expr)
    requires Within(op, l', l) && Within(op, r', r)
    ensures Within(op, Bin(op, l', r'), Bin(op, l, r))
  {
  }

  lemma WithinSingle(op: Op, r: Expr, e: Expr)
    requires Tidy(op, e) && (r == e || r == Sym(Unit(op)))
    ensures Within(op, r, e)
  {
  }

  /** Whatever it is cancelled against, an expression never gains operands. */
  lemma {:induction false} SecondShrinks(op: Op, e1: Expr, e2: Expr)
    requires Tidy(op, e2)
    ensures Within(op, CancelEq(op, e1, e2).second, e2)
    decreases Size(e1) + Size(e2)
  {
    SizePositive(e1);
    SizePositive(e2);
    if IsChain(op, e1) {
      SizePositive(e1.left);
      SizePositive(e1.right);
      var a := CancelEq(op, e1.left, e2);
      SecondShrinks(op, e1.left, e2);
      SecondShrinks(op, e1.right, a.second);
      WithinThen(op, CancelEq(op, e1.right, a.second).second, a.second, e2);
    } else if IsChain(op, e2) {
      SizePositive(e2.left);
      SizePositive(e2.right);
      var a := CancelEq(op, e1, e2.left);
      SecondShrinks(op, e1, e2.left);
      SecondShrinks(op, a.first, e2.right);
      WithinBoth(op, e2.left, e2.right, a.second, CancelEq(op, a.first, e2.right).second);
    } else {
      SingleSecond(op, e1, e2);
      WithinSingle(op, CancelEq(op, e1, e2).second, e2);
    }
  }

  /** A single operand cancels at most one of the other chain. */
  lemma {:induction false} OneCancelled(op: Op, e1: Expr, e2: Expr)
    requires !IsChain(op, e1)
    ensures var r := CancelEq(op, e1, e2);
            r == Pair(e1, e2) || (r.first == Sym(Unit(op)) && |Live(op, r.second)| == |Live(op, e2)| - 1)
    ensures e1 == Sym(Unit(op)) ==> CancelEq(op, e1, e2) == Pair(e1, e2)
    decreases Size(e2)
  {
    if IsChain(op, e2) {
      SizePositive(e2.left);
      SizePositive(e2.right);
      OneCancelled(op, e1, e2.left);
      OneCancelled(op, CancelEq(op, e1, e2.left).first, e2.right);
    }
  }

  lemma {:induction false} OperandsCount(op: Op, e: Expr)
    ensures |Operands(op, e)| >= if IsChain(op, e) then 2 else 1
  {
    if IsChain(op, e) {
      OperandsCount(op, e.left);
      OperandsCount(op, e.right);
    }
  }

  /** What is left of a chain does not become y unless it is an AND that has lost all its operands. */
  lemma LeftOver(op: Op, d: Expr, e: Expr)
    requires Plain(e) && !IsYn(e)
    ensures var r := CancelEq(op, d, e).second;
            EliminateYn(r) == Sym(SymYes) <==> op == And && Live(op, r) == multiset{}
  {
    PlainIsTidy(op, e);
    SecondShrinks(op, d, e);
    EliminatedLive(op, CancelEq(op, d, e).second);
  }

  /** `expr_eliminate_eq` leaves y of the second expression if and only if it was y, or the first is
      an AND that has all its operands, each as often. */
  lemma EliminateEqExact(d1: Expr, d2: Expr)
    requires Plain(d1) && Plain(d2)
    ensures EliminateEq(d1, d2).second == Sym(SymYes)
            <==> d2 == Sym(SymYes) || (IsChain(And, d1) && Operands(And, d2) <= Operands(And, d1))
  {
    if IsYn(d2) {
      ConstantLeft(d1, d2);
    } else if IsChain(And, d1) {
      ConjunctionLeft(d1, d2);
    } else {
      OtherLeft(d1, d2);
    }
  }

  lemma ConstantLeft(d1: Expr, d2: Expr)
    requires Plain(d1) && IsYn(d2)
    ensures EliminateEq(d1, d2).second == d2
    ensures IsChain(And, d1) && d2 == Sym(SymNo) ==> !(Operands(And, d2) <= Operands(And, d1))
  {
    if d1.Bin? {
      SingleSecond(d1.op, d1, d2);
      PlainIsTidy(And, d1);
      if IsChain(And, d1) && d2 == Sym(SymNo) {
        assert FSym(SymNo) in Operands(And, d2);
      }
    }
  }

  lemma ConjunctionLeft(d1: Expr, d2: Expr)
    requires IsChain(And, d1) && Plain(d1) && Plain(d2) && !IsYn(d2)
    ensures EliminateEq(d1, d2).second == Sym(SymYes) <==> Operands(And, d2) <= Operands(And, d1)
  {
    ConjunctionCancelled(d1, d2);
    if !IsChain(And, d2) {
      var a := CancelEq(And, d1, d2);
      SingleSecond(And, d1, d2);
      if a.second == d2 && IsChain(Or, d2) {
        PlainHasNone(d2);
        EliminateYnShrinks(d2);
        LeftOver(Or, a.first, d2);
      }
    }
  }

  lemma ConjunctionCancelled(d1: Expr, d2: Expr)
    requires IsChain(And, d1) && Plain(d1) && Plain(d2) && !IsYn(d2)
    ensures EliminateYn(CancelEq(And, d1, d2).second) == Sym(SymYes) <==> Operands(And, d2) <= Operands(And, d1)
  {
    PlainIsTidy(And, d1);
    PlainIsTidy(And, d2);
    CancelShared(And, d1, d2);
    LeftOver(And, d1, d2);
    NoneLeft(Operands(And, d2), Operands(And, d1));
  }

  lemma NoneLeft<T>(a: multiset<T>, b: multiset<T>)
    ensures a - b == multiset{} <==> a <= b
  {
    if a - b == multiset{} {
      forall x ensures a[x] <= b[x] {
        assert (a - b)[x] == 0;
      }
    }
  }

  lemma OtherLeft(d1: Expr, d2: Expr)
    requires !IsChain(And, d1) && Plain(d2) && !IsYn(d2)
    ensures EliminateEq(d1, d2).second != Sym(SymYes)
  {
    if d1.Bin? {
      DisjunctionLeft(d1, d2);
    } else if d2.Bin? {
      LeftOver(d2.op, d1, d2);
      if d2.op == And {
        OtherLeftOfAnd(d1, d2);
      }
    }
  }

  lemma DisjunctionLeft(d1: Expr, d2: Expr)
    requires IsChain(Or, d1) && Plain(d2) && !IsYn(d2)
    ensures EliminateEq(d1, d2).second != Sym(SymYes)
  {
    var a := CancelEq(Or, d1, d2);
    LeftOver(Or, d1, d2);
    if !IsChain(Or, d2) {
      SingleSecond(Or, d1, d2);
      if a.second == d2 && IsChain(And, d2) {
        OtherLeftOfAnd(a.first, d2);
      }
    }
  }

  lemma OtherLeftOfAnd(d1: Expr, d2: Expr)
    requires !IsChain(And, d1) && IsChain(And, d2) && Plain(d2)
    ensures EliminateYn(CancelEq(And, d1, d2).second) != Sym(SymYes)
  {
    PlainIsTidy(And, d2);
    OperandsCount(And, d2);
    OneCancelled(And, d1, d2);
    LeftOver(And, d1, d2);
  }

  // ----- expr_extract_eq -----

  /** Extraction, like cancelling, takes from both chains what they share. */
  lemma {:induction false} ExtractShared(op: Op, found: Option<Expr>, e1: Expr, e2: Expr)
    requires Tidy(op, e1) && Tidy(op, e2)
    ensures var x := ExtractEq(op, found, e1, e2); Rest(op, Pair(x.first, x.second), e1, e2)
    decreases Size(e1) + Size(e2)
  {
    SizePositive(e1);
    SizePositive(e2);
    if IsChain(op, e1) {
      SizePositive(e1.left);
      SizePositive(e1.right);
      var a := ExtractEq(op, found, e1.left, e2);
      var b := ExtractEq(op, a.common, e1.right, a.second);
      ExtractShared(op, found, e1.left, e2);
      ExtractShared(op, a.common, e1.right, a.second);
      RestFirst(op, e1, e2, Pair(a.first, a.second), Pair(b.first, b.second));
    } else if IsChain(op, e2) {
      SizePositive(e2.left);
      SizePositive(e2.right);
      var a := ExtractEq(op, found, e1, e2.left);
      var b := ExtractEq(op, a.common, a.first, e2.right);
      ExtractShared(op, found, e1, e2.left);
      ExtractShared(op, a.common, a.first, e2.right);
      RestSecond(op, e1, e2, Pair(a.first, a.second), Pair(b.first, b.second));
    } else {
      ExtractLeaves(op, found, e1, e2);
    }
  }

  /** If nothing was extracted, nothing has changed. */
  lemma {:induction false} NothingExtracted(op: Op, found: Option<Expr>, e1: Expr, e2: Expr)
    ensures var x := ExtractEq(op, found, e1, e2); x.common.None? ==> found.None? && x.first == e1
    decreases Size(e1) + Size(e2)
  {
    SizePositive(e1);
    SizePositive(e2);
    if IsChain(op, e1) {
      SizePositive(e1.left);
      SizePositive(e1.right);
      var a := ExtractEq(op, found, e1.left, e2);
      NothingExtracted(op, found, e1.left, e2);
      NothingExtracted(op, a.common, e1.right, a.second);
    } else if IsChain(op, e2) {
      SizePositive(e2.left);
      SizePositive(e2.right);
      var a := ExtractEq(op, found, e1, e2.left);
      NothingExtracted(op, found, e1, e2.left);
      NothingExtracted(op, a.common, a.first, e2.right);
    }
  }

  lemma ExtractLeaves(op: Op, found: Option<Expr>, e1: Expr, e2: Expr)
    requires Tidy(op, e1) && Tidy(op, e2) && !IsChain(op, e1) && !IsChain(op, e2)
    ensures var x := ExtractEq(op, found, e1, e2); Rest(op, Pair(x.first, x.second), e1, e2)
  {
    var u := Sym(Unit(op));
    if e1 == u || e2 == u {
      var x := ExtractEq(op, found, e1, e2);
      assert Pair(x.first, x.second) == Pair(e1, e2);
      LeavesRest(Live(op, e1), Live(op, e2));
    } else {
      var f, g := FormOf(e1), FormOf(e2);
      assert Live(op, e1) == multiset{f} && Live(op, e2) == multiset{g};
      ExprEqExact(e1, e2);
      SingleRest(f, g);
      var x := ExtractEq(op, found, e1, e2);
      assert Pair(x.first, x.second) == if f == g then Pair(u, u) else Pair(e1, e2);
    }
  }

  /** Extraction leaves nothing of the first expression if and only if the second has all its
      operands, each as often. */
  lemma ExtractExact(op: Op, e1: Expr, e2: Expr)
    requires Plain(e1) && Plain(e2) && !IsYn(e1) && !IsYn(e2)
    ensures ExtractCommon(op, e1, e2).first == Sym(Unit(op)) <==> Operands(op, e1) <= Operands(op, e2)
  {
    var x := ExtractEq(op, None, e1, e2);
    NothingExtracted(op, None, e1, e2);
    ExtractRest(op, e1, e2);
    PlainIsTidy(op, e1);
    NoneLeft(Operands(op, e1), Operands(op, e2));
    EliminatedLive(op, x.first);
  }

  lemma ExtractRest(op: Op, e1: Expr, e2: Expr)
    requires Plain(e1) && Plain(e2) && !IsYn(e1) && !IsYn(e2)
    ensures var f := ExtractEq(op, None, e1, e2).first;
            Tidy(op, f) && Undecided(op, f) && Live(op, f) == Operands(op, e1) - Operands(op, e2)
  {
    PlainIsTidy(op, e1);
    PlainIsTidy(op, e2);
    ExtractShared(op, None, e1, e2);
  }

  // ----- operands y and n -----

  /** One operand against a chain of two. */
  lemma AgainstTwo(op: Op, x: Expr, l: Expr, r: Expr)
    requires !IsChain(op, x) && !IsChain(op, l) && !IsChain(op, r) && !IsYn(x)
    ensures var u := Sym(Unit(op));
            CancelEq(op, x, Bin(op, l, r)) == if ExprEq(x, l) then Pair(u, Bin(op, u, r))
                                              else if ExprEq(x, r) then Pair(u, Bin(op, l, u))
                                              else Pair(x, Bin(op, l, r))
  {
    OneCancelled(op, Sym(Unit(op)), r);
  }

  /** One chain of two against another of the same kind. */
  lemma TwoAgainstTwo(op: Op, l: Expr, r: Expr, e2: Expr, a: Pair, b: Pair)
    requires !IsChain(op, l) && !IsChain(op, r) && IsChain(op, e2)
    requires a == CancelEq(op, l, e2) && b == CancelEq(op, r, a.second)
    ensures ExprEq(Bin(op, l, r), e2) <==>
              var f, g := EliminateYn(Bin(op, a.first, b.first)), EliminateYn(b.second); f.Sym? && f == g
  {
    assert CancelChains(Bin(op, l, r), e2) == CancelEq(op, Bin(op, l, r), e2);
  }

  /** `a && y` stands for `a`, which `expr_eq` sees only if nothing else is left of the two
      expressions; so its equality is not transitive. */
  function Hidden(a: Expr): Expr {
    Bin(And, a, Sym(SymYes))
  }

  lemma HiddenEqualsItself(a: Expr)
    requires a.Sym? && !IsYn(a)
    ensures ExprEq(Hidden(a), Hidden(a))
  {
    var y := Sym(SymYes);
    AgainstTwo(And, a, a, y);
    OneCancelled(And, y, Bin(And, y, y));
    TwoAgainstTwo(And, a, y, Hidden(a), Pair(y, Bin(And, y, y)), Pair(y, Bin(And, y, y)));
  }

  lemma OneHidden(a: Expr, b: Expr)
    requires a.Sym? && b.Sym? && a != b && !IsYn(a) && !IsYn(b)
    ensures ExprEq(Bin(Or, Hidden(a), b), Bin(Or, a, b))
  {
    var n, ha, e := Sym(SymNo), Hidden(a), Bin(Or, a, b);
    AgainstTwo(Or, ha, a, b);
    AgainstTwo(Or, b, a, b);
    TwoAgainstTwo(Or, ha, b, e, Pair(ha, e), Pair(n, Bin(Or, a, n)));
    assert EliminateYn(ha) == a;
    assert EliminateYn(Bin(Or, ha, n)) == a && EliminateYn(Bin(Or, a, n)) == a;
  }

  lemma OneMoreHidden(a: Expr, b: Expr)
    requires a.Sym? && b.Sym? && a != b && !IsYn(a) && !IsYn(b)
    ensures ExprEq(Bin(Or, Hidden(a), Hidden(b)), Bin(Or, Hidden(a), b))
  {
    var n, ha, hb, e := Sym(SymNo), Hidden(a), Hidden(b), Bin(Or, Hidden(a), b);
    HiddenEqualsItself(a);
    AgainstTwo(Or, ha, ha, b);
    AgainstTwo(Or, hb, n, b);
    TwoAgainstTwo(Or, ha, hb, e, Pair(n, Bin(Or, n, b)), Pair(hb, Bin(Or, n, b)));
    assert EliminateYn(hb) == b;
    assert EliminateYn(Bin(Or, n, hb)) == b && EliminateYn(Bin(Or, n, b)) == b;
  }

  lemma BothHidden(a: Expr, b: Expr)
    requires a.Sym? && b.Sym? && a != b && !IsYn(a) && !IsYn(b)
    ensures !ExprEq(Bin(Or, a, b), Bin(Or, Hidden(a), Hidden(b)))
  {
    var ha, hb, e := Hidden(a), Hidden(b), Bin(Or, Hidden(a), Hidden(b));
    AgainstTwo(Or, a, ha, hb);
    AgainstTwo(Or, b, ha, hb);
    TwoAgainstTwo(Or, a, b, e, Pair(a, e), Pair(b, e));
    assert EliminateYn(Bin(Or, a, b)) == Bin(Or, a, b);
  }

  /** Three operands that are pairwise equal but for `z` and `y`, in two different orders: the first
      of them is paired with the one that should have been kept for the last. */
  lemma PairedGreedily(x: Expr, y: Expr, z: Expr)
    requires forall e | e == x || e == y || e == z :: !IsChain(And, e) && !IsYn(e)
    requires ExprEq(x, z) && ExprEq(y, x) && !ExprEq(z, y)
    ensures var u := Sym(SymYes);
            CancelEq(And, Bin(And, Bin(And, x, y), z), Bin(And, Bin(And, z, x), y))
            == Pair(Bin(And, Bin(And, u, u), z), Bin(And, Bin(And, u, u), y))
  {
    var u := Sym(SymYes);
    var e2, f2, g2 := Bin(And, Bin(And, z, x), y), Bin(And, Bin(And, u, x), y), Bin(And, Bin(And, u, u), y);
    AgainstTwo(And, x, z, x);
    OneCancelled(And, u, y);
    assert CancelEq(And, x, e2) == Pair(u, f2);
    AgainstTwo(And, y, u, x);
    assert CancelEq(And, y, f2) == Pair(u, g2);
    assert CancelEq(And, Bin(And, x, y), e2) == Pair(Bin(And, u, u), g2);
    AgainstTwo(And, z, u, u);
    assert CancelEq(And, z, g2) == Pair(z, g2);
  }

  /** With y as an operand somewhere `expr_eq` may miss that two expressions are the same up to
      reordering, since it pairs operands greedily. */
  lemma GreedyFails(a: Expr, b: Expr)
    requires a.Sym? && b.Sym? && a != b && !IsYn(a) && !IsYn(b)
    ensures var x, y, z := Bin(Or, Hidden(a), b), Bin(Or, Hidden(a), Hidden(b)), Bin(Or, a, b);
            var e1, e2 := Bin(And, Bin(And, x, y), z), Bin(And, Bin(And, z, x), y);
            FormOf(e1) == FormOf(e2) && !ExprEq(e1, e2)
  {
    var x, y, z := Bin(Or, Hidden(a), b), Bin(Or, Hidden(a), Hidden(b)), Bin(Or, a, b);
    OneHidden(a, b);
    OneMoreHidden(a, b);
    BothHidden(a, b);
    PairedGreedily(x, y, z);
    Rotated(x, y, z);
    LeftIsChain(x, y, z);
  }

  lemma Rotated(x: Expr, y: Expr, z: Expr)
    requires !IsChain(And, x) && !IsChain(And, y) && !IsChain(And, z)
    ensures FormOf(Bin(And, Bin(And, x, y), z)) == FormOf(Bin(And, Bin(And, z, x), y))
  {
    Reordering(And, Bin(And, x, y), z, z);
    Reordering(And, z, x, y);
  }

  lemma LeftIsChain(x: Expr, y: Expr, z: Expr)
    requires z.Bin? && !HasYn(z)
    requires var u := Sym(SymYes);
             CancelEq(And, Bin(And, Bin(And, x, y), z), Bin(And, Bin(And, z, x), y))
             == Pair(Bin(And, Bin(And, u, u), z), Bin(And, Bin(And, u, u), y))
    ensures !ExprEq(Bin(And, Bin(And, x, y), z), Bin(And, Bin(And, z, x), y))
  {
    var u, e1, e2 := Sym(SymYes), Bin(And, Bin(And, x, y), z), Bin(And, Bin(And, z, x), y);
    assert CancelChains(e1, e2) == CancelEq(And, e1, e2);
    EliminateYnShrinks(z);
    assert EliminateYn(Bin(And, u, u)) == u;
    assert EliminateYn(Bin(And, Bin(And, u, u), z)) == z;
  }
}

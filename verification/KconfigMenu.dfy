/** Dependency propagation and the re-parenting test of the menu (scripts/kconfig/menu.c), with
    the optimiser loop and the two rewrites they rely on (scripts/kconfig/expr.c). */
module KconfigMenu {
  import opened KconfigExpr
  import opened KconfigEq
  import opened KconfigReorder
  import opened KconfigDups
  import opened KconfigCancel
  import opened KconfigExact
  import opened KconfigSlots
  import opened Options

  // ----- expr_eliminate_dups -----

  /** Both traversals over an expression, which do nothing unless it is a chain. */
  function Pass(e: Expr): Rewrite {
    if !e.Bin? then Rewrite(e, 0)
    else
      var a := Dups1(e.op, e, [], []);
      var b := Dups2(e.op, a.tree, [], []);
      Rewrite(b.tree, a.count + b.count)
  }

  /** How many of its rewrites are cancellations. */
  function Cancellations(e: Expr): nat {
    if e.Bin? then Dups2(e.op, Dups1(e.op, e, [], []).tree, [], []).count else 0
  }

  /** No pair of operands can be joined or cancelled, at any depth. */
  ghost predicate Finished(e: Expr) {
    e.Bin? ==> Joined(e.op, e) && Uncancelled(e.op, e)
  }

  /** The pass cancels something on the chain itself. */
  ghost predicate PassFires(e: Expr) {
    e.Bin? && Fires(e.op, Dups1(e.op, e, [], []).tree, [], [])
  }

  /** Passes, and constant elimination after each that counts a rewrite.  `cancelled` is how many of
      the rewrites were cancellations.  Only the value m may ever change, and only by a cancellation;
      if the first pass cancels on the chain itself, m does change. */
  method EliminateDups(e0: Expr) returns (e: Expr, ghost cancelled: nat)
    ensures PassFires(e0) ==> forall v :: Value(e, v) == Value(e0, v) <==> Value(e0, v) != 1
    ensures forall v | Value(e0, v) != 1 :: Value(e, v) == Value(e0, v)
    ensures cancelled == 0 ==> Equiv(e, e0)
    ensures Size(e) <= Size(e0)
    ensures Nnf(e0) ==> Nnf(e)
    ensures forall v :: KeepsDefinite(e0, e, v)
    ensures Finished(e)
  {
    e, cancelled := e0, 0;
    while true
      invariant forall v :: KeepsDefinite(e0, e, v)
      invariant Onward(e0, e)
      invariant cancelled == 0 ==> Equiv(e, e0)
      invariant Size(e) <= Size(e0)
      invariant Nnf(e0) ==> Nnf(e)
      decreases Size(e)
    {
      ghost var was := e;
      var count := 0;
      if e.Bin? {
        var a := Dups1(e.op, e, [], []);
        var b := Dups2(e.op, a.tree, [], []);
        e, count, cancelled := b.tree, a.count + b.count, cancelled + b.count;
      }
      PassCorrect(was);
      if count == 0 {
        PassCounts(was);
        break;
      }
      EliminateYnShrinks(e);
      RoundKeeps(e0, was);
      RoundOnward(e0, was);
      e := EliminateYn(e);
    }
    OnwardExact(e0, e);
    forall v | Value(e0, v) != 1 ensures Value(e, v) == Value(e0, v) {
      assert KeepsDefinite(e0, e, v);
    }
  }

  /** One pass of both traversals. */
  lemma PassCorrect(e: Expr)
    ensures Progress(e, Pass(e))
    ensures forall v :: KeepsDefinite(e, Pass(e).tree, v)
    ensures Cancellations(e) == 0 ==> Equiv(Pass(e).tree, e)
  {
    if e.Bin? {
      Dups1Progress(e.op, e, [], []);
      Dups2Progress(e.op, Dups1(e.op, e, [], []).tree, [], []);
    }
    forall v
      ensures KeepsDefinite(e, Pass(e).tree, v)
      ensures Cancellations(e) == 0 ==> Value(Pass(e).tree, v) == Value(e, v)
    {
      PassKeeps(e, v);
    }
  }

  lemma PassKeeps(e: Expr, v: Valuation)
    ensures KeepsDefinite(e, Pass(e).tree, v)
    ensures Cancellations(e) == 0 ==> Value(Pass(e).tree, v) == Value(e, v)
  {
    if e.Bin? {
      var a := Dups1(e.op, e, [], []);
      Dups1Keeps(e.op, e, [], [], v);
      Dups2Keeps(e.op, a.tree, [], [], v);
      Dups2Progress(e.op, a.tree, [], []);
    }
  }

  /** A pass that cancels anything on the chain itself keeps the value if and only if that is not m;
      so does every pass that cancels, if nothing can be cancelled within an operand. */
  lemma PassExact(e: Expr, v: Valuation)
    requires e.Bin? && Cancellations(e) > 0
    requires PassFires(e) || OperandsClean(e.op, Dups1(e.op, e, [], []).tree)
    ensures Value(Pass(e).tree, v) == Value(e, v) <==> Value(e, v) != 1
  {
    var a := Dups1(e.op, e, [], []);
    Dups1Keeps(e.op, e, [], [], v);
    Dups2Exact(e.op, a.tree, v);
    Dups2Counts(e.op, a.tree);
  }

  /** The symbol m does not stand for its own value. */
  predicate WithoutM(e: Expr) {
    match e
    case Sym(s) => s != SymMod
    case Not(a) => WithoutM(a)
    case Bin(_, l, r) => WithoutM(l) && WithoutM(r)
    case Cmp(_, _, _) => true
  }

  lemma PassWrong(a: Symbol, b: Symbol, v: Valuation)
    requires a != b && !IsTriConstant(a) && !IsTriConstant(b) && TriOf(a, v) == 1 && TriOf(b, v) != 2
    ensures var e := Contradiction(Sym(a), Sym(b)); WithoutM(e) && Value(e, v) == 1 && Value(Pass(e).tree, v) == 0
  {
    var e := Contradiction(Sym(a), Sym(b));
    ContradictionChanges(Sym(a), Sym(b), v);
    assert WithoutM(e.left.left) && WithoutM(e.left.right);
    assert WithoutM(e.right.left) && WithoutM(e.right.right);
    assert WithoutM(e.left) && WithoutM(e.right);
  }

  /** Under which valuations a pass is right about every such expression: exactly those in which no
      tristate symbol is m. */
  lemma PassRight(v: Valuation)
    ensures (forall e | WithoutM(e) :: Value(Pass(e).tree, v) == Value(e, v)) <==> (forall name :: v.tris(name) != 1)
  {
    if name :| v.tris(name) == 1 {
      assert "?"[0] != "n"[0] && "?"[0] != "m"[0] && "?"[0] != "y"[0];
      PassWrong(Config(name, STristate), Constant("?"), v);
    } else {
      forall e | WithoutM(e) ensures Value(Pass(e).tree, v) == Value(e, v) {
        NoSymbolIsM(e, v);
        MFreeValue(e, v);
        PassKeeps(e, v);
      }
    }
  }

  lemma {:induction false} NoSymbolIsM(e: Expr, v: Valuation)
    requires WithoutM(e) && forall name :: v.tris(name) != 1
    ensures MFree(e, v)
  {
    match e
    case Not(a) => NoSymbolIsM(a, v);
    case Bin(_, l, r) => NoSymbolIsM(l, v); NoSymbolIsM(r, v);
    case _ =>
  }

  /** In a finished chain without y and n operands no two operands are the same up to reordering. */
  lemma FinishedDistinct(e: Expr, p: Path, q: Path)
    requires e.Bin? && Finished(e) && IsOperand(e.op, e, p) && IsOperand(e.op, e, q) && p != q
    requires Plain(Get(e.op, e, p)) && Plain(Get(e.op, e, q))
    ensures FormOf(Get(e.op, e, p)) != FormOf(Get(e.op, e, q))
  {
    var x, y := Get(e.op, e, p), Get(e.op, e, q);
    assert PairJoined(e.op, x, y);
    ExprEqExact(x, y);
    assert !ExprEq(x, y);
  }

  /** A pass counts nothing if and only if the expression is finished. */
  lemma PassCounts(e: Expr)
    ensures Pass(e).count == 0 <==> Finished(e)
  {
    if e.Bin? {
      Dups1Exact(e.op, e);
      Dups1Progress(e.op, e, [], []);
      Dups2Counts(e.op, e);
    }
  }

  /** Nothing has happened yet, or what the first pass left has been kept but for m. */
  ghost predicate Onward(e0: Expr, e: Expr) {
    e == e0 || forall v :: KeepsDefinite(Pass(e0).tree, e, v)
  }

  lemma RoundOnward(e0: Expr, e: Expr)
    requires Onward(e0, e)
    ensures Onward(e0, EliminateYn(Pass(e).tree))
  {
    var f := Pass(e).tree;
    forall v ensures KeepsDefinite(Pass(e0).tree, EliminateYn(f), v) {
      EliminateYnKeepsValue(f, v);
      PassKeeps(e, v);
      assert e != e0 ==> KeepsDefinite(Pass(e0).tree, e, v);
    }
  }

  lemma PassDecides(e: Expr, v: Valuation)
    requires PassFires(e)
    ensures Pass(e).count > 0 && Value(Pass(e).tree, v) != 1
    ensures Value(Pass(e).tree, v) == Value(e, v) <==> Value(e, v) != 1
  {
    var a := Dups1(e.op, e, [], []);
    Dups1Keeps(e.op, e, [], [], v);
    Dups2Decides(e.op, a.tree, [], [], v);
  }

  /** The value that decides the chain, once there, stays. */
  lemma OnwardExact(e0: Expr, e: Expr)
    requires Onward(e0, e) && Finished(e)
    ensures PassFires(e0) ==> forall v :: Value(e, v) == Value(e0, v) <==> Value(e0, v) != 1
  {
    if PassFires(e0) {
      PassCounts(e0);
      forall v ensures Value(e, v) == Value(e0, v) <==> Value(e0, v) != 1 {
        PassDecides(e0, v);
        PassKeeps(e0, v);
        assert KeepsDefinite(Pass(e0).tree, e, v);
      }
    }
  }

  /** A pass followed by constant elimination. */
  lemma RoundKeeps(e0: Expr, e: Expr)
    requires forall v :: KeepsDefinite(e0, e, v)
    ensures forall v :: KeepsDefinite(e0, EliminateYn(Pass(e).tree), v)
    ensures Equiv(Pass(e).tree, e0) ==> Equiv(EliminateYn(Pass(e).tree), e0)
    ensures Nnf(Pass(e).tree) ==> Nnf(EliminateYn(Pass(e).tree))
  {
    var f := Pass(e).tree;
    PassCorrect(e);
    forall v ensures Value(EliminateYn(f), v) == Value(f, v) && (MFree(f, v) ==> MFree(EliminateYn(f), v)) {
      EliminateYnKeepsValue(f, v);
    }
    forall v ensures KeepsDefinite(e0, EliminateYn(f), v) {
      assert KeepsDefinite(e0, e, v) && KeepsDefinite(e, f, v);
    }
    if Nnf(f) {
      EliminateYnIsNnf(f);
    }
  }

  // ----- expr_trans_compare -----

  /** `expr_trans_compare`: the expression `e = c` or `e != c` for one of the constants y, m, n. */
  function TransCompare(e: Expr, rel: Rel, c: Symbol): Expr
    requires IsTriConstant(c)
  {
    match e
    case Sym(s) => Cmp(rel, s, c)
    case Cmp(_, _, _) =>
      if c == SymMod then Sym(if rel == Equal then SymNo else SymYes)
      else if (c == SymYes) == (rel == Equal) then e
      else Not(e)
    case Not(a) => TransCompare(a, Flip(rel), c)
    case Bin(op, l, r) =>
      var x := if c == SymMod then e
               else Bin(if c == SymYes then op else Dual(op), TransCompare(l, Equal, c), TransCompare(r, Equal, c));
      if rel == Equal then x else Not(x)
  }

  /** The comparison `e rel c` itself. */
  function Comparison(e: Expr, rel: Rel, c: Symbol, v: Valuation): Tristate {
    Truth((Value(e, v) == TriOf(c, v)) == (rel == Equal))
  }

  /** What the rewrite takes for granted: a symbol's text is the name of its tristate, which is so
      for bool and tristate symbols and for y, m and n; and what is negated is not m. */
  predicate Definite(e: Expr, v: Valuation) {
    match e
    case Sym(s) => TextOf(s, v) == TriName(TriOf(s, v))
    case Cmp(_, _, _) => true
    case Not(a) => Definite(a, v) && Value(a, v) != 1
    case Bin(_, l, r) => Definite(l, v) && Definite(r, v)
  }

  /** The rewritten expression is y exactly when the comparison holds, and n otherwise. */
  lemma {:induction false} TransCompareCorrect(e: Expr, rel: Rel, c: Symbol, v: Valuation)
    requires IsTriConstant(c) && c != SymMod && Definite(e, v)
    ensures Value(TransCompare(e, rel, c), v) == Comparison(e, rel, c, v)
  {
    match e
    case Sym(s) =>
      assert c.name == TriName(TriOf(c, v));
      TriNameInjective(TriOf(s, v), TriOf(c, v));
    case Cmp(_, _, _) =>
    case Not(a) => TransCompareCorrect(a, Flip(rel), c, v);
    case Bin(op, l, r) =>
      TransCompareCorrect(l, Equal, c, v);
      TransCompareCorrect(r, Equal, c, v);
      CompareCombined(op, Value(l, v), Value(r, v), TriOf(c, v));
      assert TriOf(c, v) == (if c == SymYes then 2 else 0);
      var x := Bin(if c == SymYes then op else Dual(op), TransCompare(l, Equal, c), TransCompare(r, Equal, c));
      assert Value(x, v) == Truth(Value(e, v) == TriOf(c, v));
      assert TransCompare(e, rel, c) == if rel == Equal then x else Not(x);
  }

  lemma CompareCombined(op: Op, a: Tristate, b: Tristate, c: Tristate)
    requires c != 1
    ensures Truth(Combine(op, a, b) == c) == Combine(if c == 2 then op else Dual(op), Truth(a == c), Truth(b == c))
  {
  }

  /** Where the rewrite goes wrong: under NOT it is right if and only if the operand is not m. */
  lemma TransCompareNotExact(a: Expr, rel: Rel, c: Symbol, v: Valuation)
    requires IsTriConstant(c) && c != SymMod && Definite(a, v)
    ensures Value(TransCompare(Not(a), rel, c), v) == Comparison(Not(a), rel, c, v) <==> Value(a, v) != 1
  {
    TransCompareCorrect(a, Flip(rel), c, v);
  }

  /** `!A`, compared with n where A is m: the rewrite yields n although the comparison holds. */
  lemma TransCompareNotFails(v: Valuation)
    requires v.tris("A") == 1
    ensures var e := Not(Sym(Config("A", STristate)));
            Comparison(e, Unequal, SymNo, v) == 2 && Value(TransCompare(e, Unequal, SymNo), v) == 0
  {
    TransCompareNotExact(Sym(Config("A", STristate)), Unequal, SymNo, v);
  }

  /** Bool and tristate symbols can be compared with y, m and n; so can constants, but with n only
      if they are one of these three, since every other constant has the value n. */
  predicate Comparable(s: Symbol, c: Symbol) {
    TypeOf(s) in {SBoolean, STristate} || (s.Constant? && (c != SymNo || IsTriConstant(s)))
  }

  /** On a bare symbol the rewrite is right, under every valuation, if and only if the symbol's type
      makes it comparable. */
  lemma TransCompareSymExact(s: Symbol, rel: Rel, c: Symbol)
    requires IsTriConstant(c)
    ensures (forall v :: Value(TransCompare(Sym(s), rel, c), v) == Comparison(Sym(s), rel, c, v)) <==> Comparable(s, c)
  {
    if Comparable(s, c) {
      forall v ensures Value(TransCompare(Sym(s), rel, c), v) == Comparison(Sym(s), rel, c, v) {
        assert c.name == TriName(TriOf(c, v));
        TriNameInjective(TriOf(s, v), TriOf(c, v));
        TriNameInjective(1, 2);
      }
    } else {
      // A text that is the constant's exactly when the value is not.
      var text := if c == SymNo then "?" else c.name;
      var v := Valuation(_ => false, _ => 0, _ => text);
      assert "?"[0] != "n"[0];
      assert TextOf(s, v) == c.name <==> TriOf(s, v) != TriOf(c, v);
      assert Value(TransCompare(Sym(s), rel, c), v) != Comparison(Sym(s), rel, c, v);
    }
  }

  /** Compared with m, a comparison is handled rightly, but a chain is not compared at all: the result
      is right if and only if the chain is n. */
  lemma TransCompareModExact(e: Expr, rel: Rel, v: Valuation)
    requires e.Cmp? || e.Bin?
    ensures Value(TransCompare(e, rel, SymMod), v) == Comparison(e, rel, SymMod, v) <==> e.Cmp? || Value(e, v) == 0
  {
  }

  /** Every symbol that stands for its own value is bool, tristate or one of y, m and n. */
  predicate TriTyped(e: Expr) {
    match e
    case Sym(s) => TypeOf(s) in {SBoolean, STristate} || IsTriConstant(s)
    case Not(a) => TriTyped(a)
    case Bin(_, l, r) => TriTyped(l) && TriTyped(r)
    case Cmp(_, _, _) => true
  }

  /** Over such symbols the rewrite is right wherever none of them is m. */
  lemma {:induction false} MFreeIsDefinite(e: Expr, v: Valuation)
    requires TriTyped(e) && MFree(e, v)
    ensures Definite(e, v)
  {
    match e
    case Not(a) => MFreeIsDefinite(a, v); MFreeValue(a, v);
    case Bin(_, l, r) => MFreeIsDefinite(l, v); MFreeIsDefinite(r, v);
    case _ =>
  }

  /** The result compares and never relies on a symbol's own value, so the optimiser treats it exactly. */
  lemma {:induction false} TransCompareMFree(e: Expr, rel: Rel, c: Symbol, v: Valuation)
    requires IsTriConstant(c) && c != SymMod
    ensures MFree(TransCompare(e, rel, c), v)
  {
    match e
    case Not(a) => TransCompareMFree(a, Flip(rel), c, v);
    case Bin(_, l, r) =>
      TransCompareMFree(l, Equal, c, v);
      TransCompareMFree(r, Equal, c, v);
    case _ =>
  }

  // ----- expr_trans_bool -----

  /** `expr_trans_bool`: `FOO != n` becomes `FOO` for a tristate FOO. */
  function TransBool(e: Expr): Expr {
    match e
    case Bin(op, l, r) => Bin(op, TransBool(l), TransBool(r))
    case Not(a) => Not(TransBool(a))
    case Cmp(rel, a, b) => if rel == Unequal && TypeOf(a) == STristate && b == SymNo then Sym(a) else e
    case Sym(_) => e
  }

  /** In negation normal form the rewrite may turn y into m but never raises a value, and never
      turns n into anything else or anything else into n. */
  lemma {:induction false} TransBoolLowers(e: Expr, v: Valuation)
    requires Nnf(e)
    ensures Value(TransBool(e), v) <= Value(e, v)
    ensures Value(TransBool(e), v) == 0 <==> Value(e, v) == 0
  {
    match e
    case Bin(_, l, r) => TransBoolLowers(l, v); TransBoolLowers(r, v);
    case Cmp(rel, a, b) =>
      if TransBool(e) != e {
        assert b.name == TriName(0);
        TriNameInjective(TriOf(a, v), 0);
      }
    case _ =>
  }

  /** No tristate symbol is compared with `!= n` any more. */
  predicate WithoutTests(e: Expr) {
    match e
    case Bin(_, l, r) => WithoutTests(l) && WithoutTests(r)
    case Not(a) => WithoutTests(a)
    case Cmp(rel, a, b) => !(rel == Unequal && TypeOf(a) == STristate && b == SymNo)
    case Sym(_) => true
  }

  lemma {:induction false} TransBoolFixpoint(e: Expr)
    ensures WithoutTests(TransBool(e))
    ensures TransBool(e) == e <==> WithoutTests(e)
  {
    match e
    case Bin(_, l, r) => TransBoolFixpoint(l); TransBoolFixpoint(r);
    case Not(a) => TransBoolFixpoint(a);
    case _ =>
  }

  /** Outside negation normal form it can raise n to m: `!(a != n)` where a is m. */
  lemma TransBoolNeedsNnf(v: Valuation)
    requires v.tris("A") == 1
    ensures var e := Not(Cmp(Unequal, Config("A", STristate), SymNo));
            Value(e, v) == 0 && Value(TransBool(e), v) == 1
  {
    TriNameInjective(1, 0);
  }

  // ----- dependency propagation in menu_finalize -----

  /** An absent dependency counts as y. */
  function OptValue(e: Option<Expr>, v: Valuation): Tristate {
    match e
    case None => 2
    case Some(x) => Value(x, v)
  }

  /** `expr_alloc_and` */
  function AllocAnd(a: Option<Expr>, b: Option<Expr>): Option<Expr> {
    if a.None? then b else if b.None? then a else Some(Bin(And, a.value, b.value))
  }

  predicate OptMFree(e: Option<Expr>, v: Valuation) {
    e.Some? ==> MFree(e.value, v)
  }

  predicate OptNnf(e: Option<Expr>) {
    e.Some? ==> Nnf(e.value)
  }

  /** What a symbol that is not tristate makes of its visibility: m counts as y. */
  function Promote(t: Tristate): Tristate {
    if t == 1 then 2 else t
  }

  lemma AllocAndValue(a: Option<Expr>, b: Option<Expr>, v: Valuation)
    ensures OptValue(AllocAnd(a, b), v) == Combine(And, OptValue(a, v), OptValue(b, v))
  {
  }

  /** `actual` means what `ideal` does, but perhaps where that is m; everywhere if `exact`. */
  ghost predicate Follows(ideal: Option<Expr>, actual: Option<Expr>, exact: bool) {
    forall v | exact || OptValue(ideal, v) != 1 :: OptValue(actual, v) == OptValue(ideal, v)
  }

  /** The same for the visibility of a symbol that is not tristate, up to the promotion of m to y. */
  ghost predicate FollowsPromoted(ideal: Option<Expr>, actual: Option<Expr>, exact: bool) {
    forall v | exact || OptValue(ideal, v) != 1 ::
      Promote(OptValue(actual, v)) == Promote(OptValue(ideal, v)) && OptValue(actual, v) <= OptValue(ideal, v)
  }

  /** `b` can hold only where `a` does. */
  ghost predicate Gates(a: Option<Expr>, b: Option<Expr>) {
    forall v | OptValue(b, v) != 0 :: OptValue(a, v) != 0
  }

  /** What follows a conjunction can hold only where its first part does. */
  lemma ConjunctionGates(a: Option<Expr>, b: Option<Expr>, dep: Option<Expr>, exact: bool)
    requires Follows(AllocAnd(a, b), dep, exact) || FollowsPromoted(AllocAnd(a, b), dep, exact)
    ensures Gates(a, dep)
  {
    forall v | OptValue(a, v) == 0 ensures OptValue(AllocAnd(a, b), v) == 0 && OptValue(dep, v) == 0 {
      AllocAndValue(a, b, v);
    }
  }

  /** A conjunction with something that follows its ideal follows the conjunction with the ideal. */
  lemma FollowsAnd(ideal: Option<Expr>, inherited: Option<Expr>, own: Option<Expr>, dep: Option<Expr>, exact: bool)
    requires Follows(ideal, inherited, exact) && Follows(AllocAnd(inherited, own), dep, exact)
    ensures Follows(AllocAnd(ideal, own), dep, exact)
  {
    forall v | exact || OptValue(AllocAnd(ideal, own), v) != 1
      ensures OptValue(dep, v) == OptValue(AllocAnd(ideal, own), v)
    {
      AllocAndValue(ideal, own, v);
      AllocAndValue(inherited, own, v);
    }
  }

  lemma FollowsPromotedAnd(ideal: Option<Expr>, inherited: Option<Expr>, own: Option<Expr>, dep: Option<Expr>, exact: bool)
    requires Follows(ideal, inherited, exact) && FollowsPromoted(AllocAnd(inherited, own), dep, exact)
    ensures FollowsPromoted(AllocAnd(ideal, own), dep, exact)
  {
    forall v | exact || OptValue(AllocAnd(ideal, own), v) != 1
      ensures OptValue(AllocAnd(inherited, own), v) == OptValue(AllocAnd(ideal, own), v)
    {
      AllocAndValue(ideal, own, v);
      AllocAndValue(inherited, own, v);
    }
  }

  /** The inherited dependency and the entry's own one, conjoined and optimised. */
  method PropagateDep(inherited: Option<Expr>, own: Option<Expr>) returns (dep: Option<Expr>, ghost cancelled: nat)
    requires OptNnf(inherited)
    ensures OptNnf(dep)
    ensures Follows(AllocAnd(inherited, own), dep, cancelled == 0)
  {
    var t := if own.Some? then Some(Transform(own.value)) else None;
    var both := AllocAnd(inherited, t);
    if own.Some? {
      TransformIsNnf(own.value);
    }
    forall v ensures OptValue(both, v) == OptValue(AllocAnd(inherited, own), v) {
      if own.Some? {
        TransformKeepsValue(own.value, v);
      }
      AllocAndValue(inherited, t, v);
      AllocAndValue(inherited, own, v);
    }
    dep, cancelled := both, 0;
    if both.Some? {
      var e;
      e, cancelled := EliminateDups(both.value);
      dep := Some(e);
    }
  }

  lemma {:induction false} TransBoolIsNnf(e: Expr)
    requires Nnf(e)
    ensures Nnf(TransBool(e))
  {
    match e
    case Bin(_, l, r) => TransBoolIsNnf(l); TransBoolIsNnf(r);
    case _ =>
  }

  /** The visibility condition of a property; for a symbol that is not tristate it is also rewritten
      by `expr_trans_bool`, which the promotion of m to y makes harmless. */
  method PropagateVisibility(base: Option<Expr>, own: Option<Expr>, isTristate: bool)
    returns (dep: Option<Expr>, ghost cancelled: nat)
    requires OptNnf(base)
    ensures OptNnf(dep)
    ensures isTristate ==> Follows(AllocAnd(base, own), dep, cancelled == 0)
    ensures !isTristate ==> FollowsPromoted(AllocAnd(base, own), dep, cancelled == 0)
  {
    dep, cancelled := PropagateDep(base, own);
    if !isTristate && dep.Some? {
      forall v
        ensures Value(TransBool(dep.value), v) <= Value(dep.value, v)
        ensures Promote(Value(TransBool(dep.value), v)) == Promote(Value(dep.value, v))
      {
        TransBoolLowers(dep.value, v);
      }
      TransBoolIsNnf(dep.value);
      dep := Some(TransBool(dep.value));
    }
  }

  // ----- re-parenting in menu_finalize -----

  predicate OptDefinite(e: Option<Expr>, v: Valuation) {
    e.Some? ==> Definite(e.value, v)
  }

  /** `r` is y where `e` is not n, and n elsewhere. */
  ghost predicate NotNoOf(e: Option<Expr>, r: Expr) {
    forall v | OptDefinite(e, v) :: Value(r, v) == Truth(OptValue(e, v) != 0)
  }

  /** `e != n`, in negation normal form and optimised; an absent expression becomes `!n`. */
  method NotNo(e: Option<Expr>) returns (r: Expr)
    ensures NotNoOf(e, r) && Finished(r)
  {
    var c := if e.Some? then TransCompare(e.value, Unequal, SymNo) else Not(Sym(SymNo));
    forall v
      ensures MFree(Transform(c), v)
      ensures OptDefinite(e, v) ==> Value(Transform(c), v) == Truth(OptValue(e, v) != 0)
    {
      if e.Some? {
        TransCompareMFree(e.value, Unequal, SymNo, v);
        if OptDefinite(e, v) {
          TransCompareCorrect(e.value, Unequal, SymNo, v);
        }
      }
      TransformKeepsValue(c, v);
    }
    ghost var cancelled;
    r, cancelled := EliminateDups(Transform(c));
  }

  /** The answer of the test, given the two conditions `d != n` and `b != n` as prepared: it is yes
      exactly if the second is y, or the first is an AND that has all its operands. */
  ghost predicate Covers(d: Expr, b: Expr, yes: bool) {
    Plain(d) && Plain(b) ==> (yes <==> b == Sym(SymYes) || (IsChain(And, d) && Operands(And, b) <= Operands(And, d)))
  }

  ghost predicate Implication(base: Option<Expr>, dep: Expr, yes: bool) {
    exists d, b :: NotNoOf(Some(dep), d) && NotNoOf(base, b) && Finished(d) && Finished(b) && Covers(d, b, yes)
  }

  /** The test by which an entry with dependency `dep` is moved below the one with visibility
      `base`: it succeeds only if the dependency implies the visibility. */
  method ImpliedBy(base: Option<Expr>, dep: Expr) returns (yes: bool)
    ensures yes ==> forall v | OptDefinite(base, v) && Definite(dep, v) :: Value(dep, v) != 0 ==> OptValue(base, v) != 0
    ensures Implication(base, dep, yes)
  {
    var b := NotNo(base);
    var d := NotNo(Some(dep));
    yes := EliminateEq(d, b).second == Sym(SymYes);
    TestCovers(d, b);
    if yes {
      TestImplies(base, dep, d, b);
    }
  }

  lemma TestCovers(d: Expr, b: Expr)
    ensures Covers(d, b, EliminateEq(d, b).second == Sym(SymYes))
  {
    if Plain(d) && Plain(b) {
      EliminateEqExact(d, b);
    }
  }

  lemma TestImplies(base: Option<Expr>, dep: Expr, d: Expr, b: Expr)
    requires NotNoOf(Some(dep), d) && NotNoOf(base, b) && EliminateEq(d, b).second == Sym(SymYes)
    ensures forall v | OptDefinite(base, v) && Definite(dep, v) :: Value(dep, v) != 0 ==> OptValue(base, v) != 0
  {
    forall v | OptDefinite(base, v) && Definite(dep, v) ensures Value(dep, v) != 0 ==> OptValue(base, v) != 0 {
      EliminateEqImplies(d, b, v);
      assert Value(d, v) == Truth(OptValue(Some(dep), v) != 0);
      assert Value(b, v) == Truth(OptValue(base, v) != 0);
    }
  }
}

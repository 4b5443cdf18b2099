/** The optimiser's duplicate elimination (scripts/kconfig/expr.c): every pair of operands of a
    chain is offered to the join, and contradictory operands are cancelled, until nothing changes. */
module KconfigDups {
  import opened KconfigExpr
  import opened KconfigJoin
  import opened KconfigSlots

  /** The tree after a traversal, and by how much the traversal raised `trans_count`. */
  datatype Rewrite = Rewrite(tree: Expr, count: nat)

  // ----- expr_eliminate_dups1 -----

  /** Two different operands: the first becomes the unit of the chain and the second the join. */
  function MergePair(op: Op, e: Expr, p: Path, q: Path): (r: Rewrite)
    requires IsOperand(op, e, p) && IsOperand(op, e, q) && p != q
    ensures ShapeOf(op, r.tree) == ShapeOf(op, e)
    ensures LayersUnder(op, r.tree) <= LayersUnder(op, e)
  {
    var x, y := Get(op, e, p), Get(op, e, q);
    match Join(op, x, y)
    case None => Rewrite(e, 0)
    case Some(t) =>
      JoinIsSmall(op, x, y);
      var u := Sym(Unit(op));
      GetPut(op, e, p, u);
      GetPutOther(op, e, p, q, u);
      LayersPut(op, e, p, u);
      var f := Put(op, e, p, u);
      GetPut(op, f, q, t);
      LayersPut(op, f, q, t);
      Rewrite(Put(op, f, q, t), 1)
  }

  /** `expr_eliminate_dups1` on the slots `p` and `q` of the tree `e`. */
  function Dups1(op: Op, e: Expr, p: Path, q: Path): (r: Rewrite)
    requires OnChain(op, e, p) && OnChain(op, e, q)
    ensures ShapeOf(op, r.tree) == ShapeOf(op, e)
    ensures LayersUnder(op, r.tree) <= LayersUnder(op, e)
    decreases LayersUnder(op, e), Forks(ShapeOf(op, Get(op, e, p))) + Forks(ShapeOf(op, Get(op, e, q))), 2
  {
    var x := Get(op, e, p);
    if IsChain(op, x) then
      Descend(op, e, e, p, q);
      var a := Dups1(op, e, p + [L], q);
      Descend(op, e, a.tree, p, q);
      var b := Dups1(op, a.tree, p + [R], q);
      Rewrite(b.tree, a.count + b.count)
    else if IsChain(op, Get(op, e, q)) then
      Descend(op, e, e, q, p);
      var a := Dups1(op, e, p, q + [L]);
      Descend(op, e, a.tree, q, p);
      var b := Dups1(op, a.tree, p, q + [R]);
      Rewrite(b.tree, a.count + b.count)
    else if p == q then
      Rewrite(e, 0)
    else
      RewritePair(op, e, p, q)
  }

  /** Two different operands: the first is rewritten on its own, then both are offered to the join. */
  function RewritePair(op: Op, e: Expr, p: Path, q: Path): (r: Rewrite)
    requires IsOperand(op, e, p) && IsOperand(op, e, q) && p != q
    ensures ShapeOf(op, r.tree) == ShapeOf(op, e)
    ensures LayersUnder(op, r.tree) <= LayersUnder(op, e)
    decreases LayersUnder(op, e), 0, 1
  {
    var n := NestedDups1(op, Get(op, e, p));
    GetPut(op, e, p, n.tree);
    GetPutOther(op, e, p, q, n.tree);
    LayersPut(op, e, p, n.tree);
    var m := MergePair(op, Put(op, e, p, n.tree), p, q);
    Rewrite(m.tree, n.count + m.count)
  }

  /** An operand that is itself a chain, of the other kind, is first rewritten on its own. */
  function NestedDups1(op: Op, x: Expr): (r: Rewrite)
    requires !IsChain(op, x)
    ensures !IsChain(op, r.tree)
    ensures LayersUnder(op, r.tree) <= LayersUnder(op, x)
    decreases LayersUnder(op, x), 0, 0
  {
    if x.Bin? then LayersOfOperand(op, x); Dups1(x.op, x, [], []) else Rewrite(x, 0)
  }

  /** The traversal did not grow the tree, and if it counted a rewrite it left a constant to
      eliminate; otherwise it left the tree alone.  It also kept negation normal form. */
  ghost predicate Progress(e: Expr, r: Rewrite) {
    && Size(r.tree) <= Size(e)
    && (r.count == 0 ==> r.tree == e)
    && (r.count > 0 ==> HasYn(r.tree))
    && (Nnf(e) ==> Nnf(r.tree))
  }

  ghost predicate Keeps(e: Expr, f: Expr, v: Valuation) {
    Value(f, v) == Value(e, v) && (MFree(e, v) ==> MFree(f, v))
  }

  lemma MergePairProgress(op: Op, e: Expr, p: Path, q: Path)
    requires IsOperand(op, e, p) && IsOperand(op, e, q) && p != q
    ensures Progress(e, MergePair(op, e, p, q))
  {
    var x, y := Get(op, e, p), Get(op, e, q);
    if Join(op, x, y).Some? {
      var u, t := Sym(Unit(op)), Join(op, x, y).value;
      JoinIsSmall(op, x, y);
      GetPut(op, e, p, u);
      GetPutOther(op, e, p, q, u);
      var f := Put(op, e, p, u);
      SizePut(op, e, p, u);
      SizePut(op, f, q, t);
      SizePositive(x);
      SizePositive(y);
      GetPut(op, f, q, t);
      GetPutOther(op, f, q, p, t);
      HasYnBelow(op, Put(op, f, q, t), p);
      if Nnf(e) {
        NnfPut(op, e, p, u);
        NnfPut(op, e, q, u);
        JoinIsNnf(op, x, y);
        NnfPut(op, f, q, t);
      }
    }
  }

  lemma MergePairKeeps(op: Op, e: Expr, p: Path, q: Path, v: Valuation)
    requires IsOperand(op, e, p) && IsOperand(op, e, q) && p != q
    ensures Keeps(e, MergePair(op, e, p, q).tree, v)
  {
    var x, y := Get(op, e, p), Get(op, e, q);
    if Join(op, x, y).Some? {
      var u, t := Sym(Unit(op)), Join(op, x, y).value;
      JoinIsSmall(op, x, y);
      JoinKeepsValue(op, x, y, v);
      GetPutOther(op, e, p, q, u);
      ValuePutTwo(op, e, p, q, u, t, v);
      if MFree(e, v) {
        MFreePut(op, e, p, u, v);
        MFreePut(op, e, q, u, v);
        MFreePut(op, Put(op, e, p, u), q, t, v);
      }
    }
  }

  /** Rewriting one operand in place carries over to the whole chain. */
  lemma OperandProgress(op: Op, e: Expr, p: Path, r: Rewrite)
    requires OnChain(op, e, p) && Progress(Get(op, e, p), r)
    requires IsOperand(op, e, p) && !IsChain(op, r.tree)
    ensures Progress(e, Rewrite(Put(op, e, p, r.tree), r.count))
  {
    SizePut(op, e, p, r.tree);
    GetPut(op, e, p, r.tree);
    if r.count == 0 {
      PutSame(op, e, p);
    } else {
      HasYnBelow(op, Put(op, e, p, r.tree), p);
    }
    if Nnf(e) {
      NnfPut(op, e, p, r.tree);
    }
  }

  lemma OperandKeeps(op: Op, e: Expr, p: Path, x: Expr, v: Valuation)
    requires OnChain(op, e, p) && Keeps(Get(op, e, p), x, v)
    ensures Keeps(e, Put(op, e, p, x), v)
  {
    ValueGet(op, e, p, v);
    ValuePut(op, e, p, x, v);
    if MFree(e, v) {
      MFreePut(op, e, p, x, v);
    }
  }

  /** The first traversal never loses count of a rewrite. */
  lemma {:induction false} Dups1Progress(op: Op, e: Expr, p: Path, q: Path)
    requires OnChain(op, e, p) && OnChain(op, e, q)
    ensures Progress(e, Dups1(op, e, p, q))
    decreases LayersUnder(op, e), Forks(ShapeOf(op, Get(op, e, p))) + Forks(ShapeOf(op, Get(op, e, q))), 2
  {
    if IsChain(op, Get(op, e, p)) {
      Descend(op, e, e, p, q);
      var a := Dups1(op, e, p + [L], q);
      Descend(op, e, a.tree, p, q);
      Dups1Progress(op, e, p + [L], q);
      Dups1Progress(op, a.tree, p + [R], q);
    } else if IsChain(op, Get(op, e, q)) {
      Descend(op, e, e, q, p);
      var a := Dups1(op, e, p, q + [L]);
      Descend(op, e, a.tree, q, p);
      Dups1Progress(op, e, p, q + [L]);
      Dups1Progress(op, a.tree, p, q + [R]);
    } else if p != q {
      RewritePairProgress(op, e, p, q);
    }
  }

  lemma {:induction false} RewritePairProgress(op: Op, e: Expr, p: Path, q: Path)
    requires IsOperand(op, e, p) && IsOperand(op, e, q) && p != q
    ensures Progress(e, RewritePair(op, e, p, q))
    decreases LayersUnder(op, e), 0, 1
  {
    var x := Get(op, e, p);
    var n := NestedDups1(op, x);
    if x.Bin? {
      LayersOfOperand(op, x);
      Dups1Progress(x.op, x, [], []);
    }
    OperandProgress(op, e, p, n);
    GetPut(op, e, p, n.tree);
    GetPutOther(op, e, p, q, n.tree);
    MergePairProgress(op, Put(op, e, p, n.tree), p, q);
  }

  /** The first traversal keeps the value under every valuation. */
  lemma {:induction false} Dups1Keeps(op: Op, e: Expr, p: Path, q: Path, v: Valuation)
    requires OnChain(op, e, p) && OnChain(op, e, q)
    ensures Keeps(e, Dups1(op, e, p, q).tree, v)
    decreases LayersUnder(op, e), Forks(ShapeOf(op, Get(op, e, p))) + Forks(ShapeOf(op, Get(op, e, q))), 2
  {
    if IsChain(op, Get(op, e, p)) {
      Descend(op, e, e, p, q);
      var a := Dups1(op, e, p + [L], q);
      Descend(op, e, a.tree, p, q);
      Dups1Keeps(op, e, p + [L], q, v);
      Dups1Keeps(op, a.tree, p + [R], q, v);
    } else if IsChain(op, Get(op, e, q)) {
      Descend(op, e, e, q, p);
      var a := Dups1(op, e, p, q + [L]);
      Descend(op, e, a.tree, q, p);
      Dups1Keeps(op, e, p, q + [L], v);
      Dups1Keeps(op, a.tree, p, q + [R], v);
    } else if p != q {
      RewritePairKeeps(op, e, p, q, v);
    }
  }

  lemma {:induction false} RewritePairKeeps(op: Op, e: Expr, p: Path, q: Path, v: Valuation)
    requires IsOperand(op, e, p) && IsOperand(op, e, q) && p != q
    ensures Keeps(e, RewritePair(op, e, p, q).tree, v)
    decreases LayersUnder(op, e), 0, 1
  {
    var x := Get(op, e, p);
    var n := NestedDups1(op, x);
    if x.Bin? {
      LayersOfOperand(op, x);
      Dups1Keeps(x.op, x, [], [], v);
    }
    OperandKeeps(op, e, p, n.tree, v);
    GetPut(op, e, p, n.tree);
    GetPutOther(op, e, p, q, n.tree);
    MergePairKeeps(op, Put(op, e, p, n.tree), p, q, v);
  }

  /** No two operands of the chain can be joined, nor any two of a chain among its operands. */
  ghost predicate Joined(op: Op, e: Expr)
    decreases LayersUnder(op, e)
  {
    forall p, q | IsOperand(op, e, p) && IsOperand(op, e, q) && p != q :: PairJoined(op, Get(op, e, p), Get(op, e, q))
  }

  ghost predicate PairJoined(op: Op, x: Expr, y: Expr)
    requires !IsChain(op, x)
    decreases LayersUnder(op, x), 0
  {
    Join(op, x, y).None? && (x.Bin? ==> (LayersOfOperand(op, x); Joined(x.op, x)))
  }

  /** A traversal that counts nothing has found nothing to join. */
  lemma {:induction false} Dups1Complete(op: Op, e: Expr, p: Path, q: Path)
    requires OnChain(op, e, p) && OnChain(op, e, q)
    requires Dups1(op, e, p, q).count == 0
    ensures forall p', q' | p <= p' && q <= q' && IsOperand(op, e, p') && IsOperand(op, e, q') && p' != q' ::
              PairJoined(op, Get(op, e, p'), Get(op, e, q'))
    decreases LayersUnder(op, e), 1, Forks(ShapeOf(op, Get(op, e, p))) + Forks(ShapeOf(op, Get(op, e, q))), 1
  {
    if IsChain(op, Get(op, e, p)) {
      Descend(op, e, e, p, q);
      Dups1Progress(op, e, p + [L], q);
      Dups1Complete(op, e, p + [L], q);
      Dups1Complete(op, e, p + [R], q);
      forall p' | p <= p' && IsOperand(op, e, p') ensures p + [L] <= p' || p + [R] <= p' {
        StepTowards(op, e, p, p');
      }
    } else {
      BelowSecondJoined(op, e, p, q);
      forall p' | p <= p' && IsOperand(op, e, p') ensures p' == p {
        StepTowards(op, e, p, p');
      }
    }
  }

  /** The operand at `p` against everything at or below `q`. */
  lemma {:induction false} BelowSecondJoined(op: Op, e: Expr, p: Path, q: Path)
    requires IsOperand(op, e, p) && OnChain(op, e, q)
    requires Dups1(op, e, p, q).count == 0
    ensures forall q' | q <= q' && IsOperand(op, e, q') && p != q' :: PairJoined(op, Get(op, e, p), Get(op, e, q'))
    decreases LayersUnder(op, e), 1, Forks(ShapeOf(op, Get(op, e, p))) + Forks(ShapeOf(op, Get(op, e, q))), 0
  {
    if IsChain(op, Get(op, e, q)) {
      Descend(op, e, e, q, p);
      Dups1Progress(op, e, p, q + [L]);
      Dups1Complete(op, e, p, q + [L]);
      Dups1Complete(op, e, p, q + [R]);
    } else if p != q {
      OperandComplete(op, e, p, q);
    }
    forall q' | q <= q' && IsOperand(op, e, q')
      ensures if IsChain(op, Get(op, e, q)) then q + [L] <= q' || q + [R] <= q' else q' == q
    {
      StepTowards(op, e, q, q');
    }
  }

  lemma OperandComplete(op: Op, e: Expr, p: Path, q: Path)
    requires IsOperand(op, e, p) && IsOperand(op, e, q) && p != q
    requires RewritePair(op, e, p, q).count == 0
    ensures PairJoined(op, Get(op, e, p), Get(op, e, q))
    decreases LayersUnder(op, e), 0
  {
    var x := Get(op, e, p);
    PutSame(op, e, p);
    if x.Bin? {
      LayersOfOperand(op, x);
      Dups1Progress(x.op, x, [], []);
      Dups1Complete(x.op, x, [], []);
    }
  }

  /** No operand at or below `p` can be joined with another at or below `q`. */
  ghost predicate PairsJoined(op: Op, e: Expr, p: Path, q: Path) {
    forall p', q' | p <= p' && q <= q' && IsOperand(op, e, p') && IsOperand(op, e, q') && p' != q' ::
      PairJoined(op, Get(op, e, p'), Get(op, e, q'))
  }

  lemma PairsJoinedBelow(op: Op, e: Expr, p: Path, q: Path, p': Path, q': Path)
    requires PairsJoined(op, e, p, q) && p <= p' && q <= q'
    ensures PairsJoined(op, e, p', q')
  {
  }

  /** Conversely, where nothing can be joined the traversal counts nothing. */
  lemma {:induction false} Dups1Idle(op: Op, e: Expr, p: Path, q: Path)
    requires OnChain(op, e, p) && OnChain(op, e, q) && PairsJoined(op, e, p, q)
    ensures Dups1(op, e, p, q).count == 0
    decreases LayersUnder(op, e), Forks(ShapeOf(op, Get(op, e, p))) + Forks(ShapeOf(op, Get(op, e, q))), 2
  {
    if IsChain(op, Get(op, e, p)) {
      Descend(op, e, e, p, q);
      PairsJoinedBelow(op, e, p, q, p + [L], q);
      PairsJoinedBelow(op, e, p, q, p + [R], q);
      Dups1Idle(op, e, p + [L], q);
      Dups1Progress(op, e, p + [L], q);
      Dups1Idle(op, e, p + [R], q);
    } else {
      BelowSecondIdle(op, e, p, q);
    }
  }

  lemma {:induction false} BelowSecondIdle(op: Op, e: Expr, p: Path, q: Path)
    requires IsOperand(op, e, p) && OnChain(op, e, q) && PairsJoined(op, e, p, q)
    ensures Dups1(op, e, p, q).count == 0
    decreases LayersUnder(op, e), Forks(ShapeOf(op, Get(op, e, p))) + Forks(ShapeOf(op, Get(op, e, q))), 1
  {
    if IsChain(op, Get(op, e, q)) {
      Descend(op, e, e, q, p);
      PairsJoinedBelow(op, e, p, q, p, q + [L]);
      PairsJoinedBelow(op, e, p, q, p, q + [R]);
      Dups1Idle(op, e, p, q + [L]);
      Dups1Progress(op, e, p, q + [L]);
      Dups1Idle(op, e, p, q + [R]);
    } else if p != q {
      assert PairJoined(op, Get(op, e, p), Get(op, e, q));
      OperandIdle(op, e, p, q);
    }
  }

  lemma OperandIdle(op: Op, e: Expr, p: Path, q: Path)
    requires IsOperand(op, e, p) && IsOperand(op, e, q) && p != q
    requires PairJoined(op, Get(op, e, p), Get(op, e, q))
    ensures RewritePair(op, e, p, q).count == 0
    decreases LayersUnder(op, e), 0, 0
  {
    var x := Get(op, e, p);
    PutSame(op, e, p);
    if x.Bin? {
      LayersOfOperand(op, x);
      assert PairsJoined(x.op, x, [], []);
      Dups1Idle(x.op, x, [], []);
      Dups1Progress(x.op, x, [], []);
    }
  }

  /** The first traversal counts nothing if and only if there is nothing to join. */
  lemma Dups1Exact(op: Op, e: Expr)
    ensures Dups1(op, e, [], []).count == 0 <==> Joined(op, e)
  {
    if Dups1(op, e, [], []).count == 0 {
      Dups1Complete(op, e, [], []);
    } else if Joined(op, e) {
      assert PairsJoined(op, e, [], []);
      Dups1Idle(op, e, [], []);
    }
  }
}

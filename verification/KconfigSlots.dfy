/** The operands of an AND/OR chain (scripts/kconfig/expr.c).  The source names an operand
    by the address of the pointer to it; here such a slot is a path from the root, and two slots
    hold the same node exactly when their paths are equal. */
module KconfigSlots {
  import opened KconfigExpr

  /** How often AND and OR alternate, from the root down.  A merge may lengthen a path but never
      adds an alternation. */
  function Layers(e: Expr): nat
    decreases e, 0
  {
    match e
    case Bin(op, l, r) => Max(LayersUnder(op, l), LayersUnder(op, r))
    case _ => 0
  }

  function LayersUnder(op: Op, e: Expr): nat
    decreases e, 1
  {
    if IsChain(op, e) then Max(LayersUnder(op, e.left), LayersUnder(op, e.right)) else 1 + Layers(e)
  }

  lemma LayersOfOperand(op: Op, x: Expr)
    requires x.Bin? && !IsChain(op, x)
    ensures LayersUnder(x.op, x) < LayersUnder(op, x)
  {
  }

  // ----- slots of a chain -----

  datatype Dir = L | R

  type Path = seq<Dir>

  function Child(e: Expr, d: Dir): Expr
    requires e.Bin?
  {
    if d == L then e.left else e.right
  }

  function WithChild(e: Expr, d: Dir, x: Expr): Expr
    requires e.Bin?
  {
    if d == L then e.(left := x) else e.(right := x)
  }

  /** `p` leads through nodes of kind `op` only. */
  predicate OnChain(op: Op, e: Expr, p: Path) {
    p == [] || (IsChain(op, e) && OnChain(op, Child(e, p[0]), p[1..]))
  }

  function Get(op: Op, e: Expr, p: Path): (x: Expr)
    requires OnChain(op, e, p)
    ensures LayersUnder(op, x) <= LayersUnder(op, e)
  {
    if p == [] then e else Get(op, Child(e, p[0]), p[1..])
  }

  function Put(op: Op, e: Expr, p: Path, x: Expr): Expr
    requires OnChain(op, e, p)
  {
    if p == [] then x else WithChild(e, p[0], Put(op, Child(e, p[0]), p[1..], x))
  }

  /** The slots the traversals end at: operands of the chain. */
  predicate IsOperand(op: Op, e: Expr, p: Path) {
    OnChain(op, e, p) && !IsChain(op, Get(op, e, p))
  }

  /** The chain alone, without its operands. */
  datatype Shape = Tip | Fork(left: Shape, right: Shape)

  function ShapeOf(op: Op, e: Expr): Shape {
    if IsChain(op, e) then Fork(ShapeOf(op, e.left), ShapeOf(op, e.right)) else Tip
  }

  function Forks(s: Shape): nat {
    match s
    case Tip => 0
    case Fork(l, r) => 1 + Forks(l) + Forks(r)
  }

  lemma {:induction false} GetChild(op: Op, e: Expr, p: Path, d: Dir)
    requires OnChain(op, e, p) && IsChain(op, Get(op, e, p))
    ensures OnChain(op, e, p + [d]) && Get(op, e, p + [d]) == Child(Get(op, e, p), d)
  {
    if p == [] {
      assert (p + [d])[1..] == [];
    } else {
      assert (p + [d])[1..] == p[1..] + [d];
      GetChild(op, Child(e, p[0]), p[1..], d);
    }
  }

  /** A slot is found again, over a node of the same kind, in every tree with the same chain. */
  lemma {:induction false} SameShape(op: Op, e: Expr, f: Expr, p: Path)
    requires ShapeOf(op, e) == ShapeOf(op, f) && OnChain(op, e, p)
    ensures OnChain(op, f, p)
    ensures ShapeOf(op, Get(op, e, p)) == ShapeOf(op, Get(op, f, p))
  {
    if p != [] {
      SameShape(op, Child(e, p[0]), Child(f, p[0]), p[1..]);
    }
  }

  /** Stepping from a chain node to its two children, the second time in a tree `f` that the first
      step may have changed; `q` is any other slot. */
  lemma Descend(op: Op, e: Expr, f: Expr, p: Path, q: Path)
    requires OnChain(op, e, p) && IsChain(op, Get(op, e, p)) && OnChain(op, e, q)
    requires ShapeOf(op, e) == ShapeOf(op, f)
    ensures OnChain(op, e, p + [L]) && OnChain(op, f, p + [R]) && OnChain(op, f, q)
    ensures Forks(ShapeOf(op, Get(op, e, p + [L]))) < Forks(ShapeOf(op, Get(op, e, p)))
    ensures Forks(ShapeOf(op, Get(op, f, p + [R]))) < Forks(ShapeOf(op, Get(op, e, p)))
    ensures ShapeOf(op, Get(op, f, q)) == ShapeOf(op, Get(op, e, q))
  {
    GetChild(op, e, p, L);
    SameShape(op, e, f, p);
    SameShape(op, e, f, q);
    GetChild(op, f, p, R);
  }

  /** Every slot below another one is that slot itself or below one of its node's children. */
  lemma {:induction false} StepTowardsNode(op: Op, e: Expr, p: Path, q: Path)
    requires OnChain(op, e, p) && OnChain(op, e, q) && p <= q
    ensures q == p || (IsChain(op, Get(op, e, p)) && (p + [L] <= q || p + [R] <= q))
  {
    if p == [] {
      assert q != [] ==> q[0] == L || q[0] == R;
    } else {
      StepTowardsNode(op, Child(e, p[0]), p[1..], q[1..]);
      assert p == [p[0]] + p[1..] && q == [q[0]] + q[1..];
    }
  }

  lemma StepTowards(op: Op, e: Expr, p: Path, q: Path)
    requires OnChain(op, e, p) && IsOperand(op, e, q) && p <= q
    ensures if IsChain(op, Get(op, e, p)) then p + [L] <= q || p + [R] <= q else q == p
  {
    StepTowardsNode(op, e, p, q);
  }

  // ----- writing to an operand -----

  lemma {:induction false} GetPut(op: Op, e: Expr, p: Path, x: Expr)
    requires IsOperand(op, e, p) && !IsChain(op, x)
    ensures ShapeOf(op, Put(op, e, p, x)) == ShapeOf(op, e)
    ensures IsOperand(op, Put(op, e, p, x), p) && Get(op, Put(op, e, p, x), p) == x
  {
    if p != [] {
      GetPut(op, Child(e, p[0]), p[1..], x);
    }
  }

  lemma {:induction false} GetPutOther(op: Op, e: Expr, p: Path, q: Path, x: Expr)
    requires IsOperand(op, e, p) && IsOperand(op, e, q) && p != q && !IsChain(op, x)
    ensures IsOperand(op, Put(op, e, p, x), q) && Get(op, Put(op, e, p, x), q) == Get(op, e, q)
  {
    if p != [] && q != [] && p[0] == q[0] {
      assert p == [p[0]] + p[1..] && q == [q[0]] + q[1..];
      GetPutOther(op, Child(e, p[0]), p[1..], q[1..], x);
    }
  }

  lemma {:induction false} PutSame(op: Op, e: Expr, p: Path)
    requires OnChain(op, e, p)
    ensures Put(op, e, p, Get(op, e, p)) == e
  {
    if p != [] {
      PutSame(op, Child(e, p[0]), p[1..]);
    }
  }

  lemma {:induction false} SizePut(op: Op, e: Expr, p: Path, x: Expr)
    requires OnChain(op, e, p)
    ensures Size(Put(op, e, p, x)) == Size(e) - Size(Get(op, e, p)) + Size(x)
  {
    if p != [] {
      SizePut(op, Child(e, p[0]), p[1..], x);
    }
  }

  lemma {:induction false} LayersPut(op: Op, e: Expr, p: Path, x: Expr)
    requires OnChain(op, e, p)
    ensures LayersUnder(op, Put(op, e, p, x)) <= Max(LayersUnder(op, e), LayersUnder(op, x))
  {
    if p != [] {
      LayersPut(op, Child(e, p[0]), p[1..], x);
    }
  }

  lemma {:induction false} MFreePut(op: Op, e: Expr, p: Path, x: Expr, v: Valuation)
    requires OnChain(op, e, p) && MFree(e, v)
    ensures MFree(Get(op, e, p), v)
    ensures MFree(x, v) ==> MFree(Put(op, e, p, x), v)
  {
    if p != [] {
      MFreePut(op, Child(e, p[0]), p[1..], x, v);
    }
  }

  lemma {:induction false} NnfPut(op: Op, e: Expr, p: Path, x: Expr)
    requires OnChain(op, e, p) && Nnf(e)
    ensures Nnf(Get(op, e, p))
    ensures Nnf(x) ==> Nnf(Put(op, e, p, x))
  {
    if p != [] {
      NnfPut(op, Child(e, p[0]), p[1..], x);
    }
  }

  lemma {:induction false} HasYnBelow(op: Op, e: Expr, p: Path)
    requires OnChain(op, e, p)
    requires HasYn(Get(op, e, p)) || (p != [] && IsYn(Get(op, e, p)))
    ensures HasYn(e)
  {
    if p != [] && p[1..] != [] {
      HasYnBelow(op, Child(e, p[0]), p[1..]);
    }
  }

  // ----- the value of a chain -----

  /** The value of all operands but the one at `p`. */
  ghost function Rest(op: Op, e: Expr, p: Path, v: Valuation): Tristate
    requires OnChain(op, e, p)
  {
    if p == [] then (if op == And then 2 else 0)
    else Combine(op, Value(Child(e, if p[0] == L then R else L), v), Rest(op, Child(e, p[0]), p[1..], v))
  }

  lemma {:induction false} ValuePut(op: Op, e: Expr, p: Path, x: Expr, v: Valuation)
    requires OnChain(op, e, p)
    ensures Value(Put(op, e, p, x), v) == Combine(op, Rest(op, e, p, v), Value(x, v))
  {
    if p != [] {
      ValuePut(op, Child(e, p[0]), p[1..], x, v);
    }
  }

  lemma {:induction false} ValueGet(op: Op, e: Expr, p: Path, v: Valuation)
    requires OnChain(op, e, p)
    ensures Value(e, v) == Combine(op, Rest(op, e, p, v), Value(Get(op, e, p), v))
  {
    if p != [] {
      ValueGet(op, Child(e, p[0]), p[1..], v);
    }
  }

  /** The value of a chain in terms of two operands in different halves of it. */
  lemma ValueApart(op: Op, e: Expr, p: Path, q: Path, v: Valuation)
    requires p != [] && q != [] && p[0] != q[0] && OnChain(op, e, p) && OnChain(op, e, q)
    ensures Value(e, v)
         == Combine(op, Combine(op, Rest(op, Child(e, p[0]), p[1..], v), Rest(op, Child(e, q[0]), q[1..], v)),
                    Combine(op, Value(Get(op, e, p), v), Value(Get(op, e, q), v)))
  {
    var a, b := Child(e, p[0]), Child(e, q[0]);
    ValueGet(op, a, p[1..], v);
    ValueGet(op, b, q[1..], v);
    CombineRegroups(op, Rest(op, a, p[1..], v), Value(Get(op, e, p), v), Rest(op, b, q[1..], v), Value(Get(op, e, q), v));
    assert Value(e, v) == Combine(op, Value(a, v), Value(b, v));
  }

  lemma ValuePutApart(op: Op, e: Expr, p: Path, q: Path, x: Expr, y: Expr, v: Valuation)
    requires p != [] && q != [] && p[0] != q[0] && OnChain(op, e, p) && OnChain(op, e, q)
    ensures OnChain(op, Put(op, e, p, x), q)
    ensures Value(Put(op, Put(op, e, p, x), q, y), v)
         == Combine(op, Combine(op, Rest(op, Child(e, p[0]), p[1..], v), Rest(op, Child(e, q[0]), q[1..], v)),
                    Combine(op, Value(x, v), Value(y, v)))
  {
    var a, b := Child(e, p[0]), Child(e, q[0]);
    ValuePut(op, a, p[1..], x, v);
    ValuePut(op, b, q[1..], y, v);
    CombineRegroups(op, Rest(op, a, p[1..], v), Value(x, v), Rest(op, b, q[1..], v), Value(y, v));
    var f := Put(op, Put(op, e, p, x), q, y);
    assert Value(f, v) == Combine(op, Value(Child(f, p[0]), v), Value(Child(f, q[0]), v));
  }

  /** Two operands may be replaced by any two that have the same value together. */
  lemma {:induction false} ValuePutTwo(op: Op, e: Expr, p: Path, q: Path, x: Expr, y: Expr, v: Valuation)
    requires IsOperand(op, e, p) && IsOperand(op, e, q) && p != q
    requires !IsChain(op, x)
    requires Combine(op, Value(x, v), Value(y, v))
          == Combine(op, Value(Get(op, e, p), v), Value(Get(op, e, q), v))
    ensures IsOperand(op, Put(op, e, p, x), q)
    ensures Value(Put(op, Put(op, e, p, x), q, y), v) == Value(e, v)
  {
    GetPutOther(op, e, p, q, x);
    assert p != [] && q != [];
    if p[0] == q[0] {
      assert p == [p[0]] + p[1..] && q == [q[0]] + q[1..];
      ValuePutTwo(op, Child(e, p[0]), p[1..], q[1..], x, y, v);
    } else {
      ValueApart(op, e, p, q, v);
      ValuePutApart(op, e, p, q, x, y, v);
    }
  }
}

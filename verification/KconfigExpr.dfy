/** The three-valued expression language of Kconfig (scripts/kconfig/expr.h, expr.c):
    its data model, its value under a valuation, constant elimination and negation push-down. */
module KconfigExpr {

  // ----- symbols and expressions -----

  datatype SymType = SUnknown | SBoolean | STristate | SInt | SHex | SString

  /** A symbol is looked up by its name and by whether it is a constant, so those identify it. */
  datatype Symbol = Constant(name: string) | Config(name: string, symType: SymType)

  const SymNo := Constant("n")
  const SymMod := Constant("m")
  const SymYes := Constant("y")

  function TypeOf(s: Symbol): SymType {
    match s
    case Constant(_) => SUnknown
    case Config(_, t) => t
  }

  datatype Op = And | Or
  datatype Rel = Equal | Unequal

  /** `Bin` stands for E_AND and E_OR, `Cmp` for E_EQUAL and E_UNEQUAL. */
  datatype Expr =
    | Sym(s: Symbol)
    | Not(e: Expr)
    | Bin(op: Op, left: Expr, right: Expr)
    | Cmp(rel: Rel, lhs: Symbol, rhs: Symbol)

  predicate IsChain(op: Op, e: Expr) {
    e.Bin? && e.op == op
  }

  function Dual(op: Op): Op {
    if op == And then Or else And
  }

  function Flip(rel: Rel): Rel {
    if rel == Equal then Unequal else Equal
  }

  /** The constant that leaves a chain unchanged: y for AND, n for OR. */
  function Unit(op: Op): Symbol {
    if op == And then SymYes else SymNo
  }

  /** The constant that decides a chain: n for AND, y for OR. */
  function Zero(op: Op): Symbol {
    if op == And then SymNo else SymYes
  }

  // ----- values -----

  /** n < m < y */
  type Tristate = t: int | 0 <= t <= 2

  function Combine(op: Op, a: Tristate, b: Tristate): Tristate {
    match op
    case And => if a < b then a else b
    case Or => if a > b then a else b
  }

  lemma CombineAssociates(op: Op, a: Tristate, b: Tristate, c: Tristate)
    ensures Combine(op, a, Combine(op, b, c)) == Combine(op, Combine(op, a, b), c)
  {
  }

  lemma CombineRegroups(op: Op, a: Tristate, x: Tristate, b: Tristate, y: Tristate)
    ensures Combine(op, Combine(op, a, x), Combine(op, b, y)) == Combine(op, Combine(op, a, b), Combine(op, x, y))
  {
  }

  function Truth(b: bool): Tristate {
    if b then 2 else 0
  }

  function TriName(t: Tristate): string {
    if t == 0 then "n" else if t == 1 then "m" else "y"
  }

  /** What the user and the environment chose.  A boolean symbol is n or y, a tristate symbol n, m
      or y, and every other configuration symbol has some text and the tristate n. */
  datatype Valuation = Valuation(bools: string -> bool, tris: string -> Tristate, texts: Symbol -> string)

  function TriOf(s: Symbol, v: Valuation): Tristate {
    match s
    case Constant(name) => if name == "y" then 2 else if name == "m" then 1 else 0
    case Config(name, SBoolean) => Truth(v.bools(name))
    case Config(name, STristate) => v.tris(name)
    case Config(_, _) => 0
  }

  function TextOf(s: Symbol, v: Valuation): string {
    if s.Constant? then s.name
    else if s.symType in {SBoolean, STristate} then TriName(TriOf(s, v))
    else v.texts(s)
  }

  function Value(e: Expr, v: Valuation): Tristate {
    match e
    case Sym(s) => TriOf(s, v)
    case Not(a) => 2 - Value(a, v)
    case Bin(op, l, r) => Combine(op, Value(l, v), Value(r, v))
    case Cmp(rel, a, b) => Truth((TextOf(a, v) == TextOf(b, v)) == (rel == Equal))
  }

  ghost predicate Equiv(a: Expr, b: Expr) {
    forall v :: Value(a, v) == Value(b, v)
  }

  /** No symbol that stands for its own value has the value m.  Comparisons may test for m freely. */
  predicate MFree(e: Expr, v: Valuation) {
    match e
    case Sym(s) => TriOf(s, v) != 1
    case Not(a) => MFree(a, v)
    case Bin(_, l, r) => MFree(l, v) && MFree(r, v)
    case Cmp(_, _, _) => true
  }

  lemma {:induction false} MFreeValue(e: Expr, v: Valuation)
    requires MFree(e, v)
    ensures Value(e, v) != 1
  {
    match e
    case Sym(_) =>
    case Not(a) => MFreeValue(a, v);
    case Bin(_, l, r) => MFreeValue(l, v); MFreeValue(r, v);
    case Cmp(_, _, _) =>
  }

  lemma TriNameInjective(s: Tristate, t: Tristate)
    ensures TriName(s) == TriName(t) <==> s == t
  {
    assert "n"[0] != "m"[0] && "m"[0] != "y"[0] && "n"[0] != "y"[0];
  }

  // ----- sizes -----

  function Size(e: Expr): nat {
    match e
    case Sym(_) => 1
    case Not(a) => 1 + Size(a)
    case Bin(_, l, r) => 1 + Size(l) + Size(r)
    case Cmp(_, _, _) => 1
  }

  function Max(a: nat, b: nat): nat {
    if a > b then a else b
  }

  function Height(e: Expr): nat {
    match e
    case Sym(_) => 1
    case Not(a) => 1 + Height(a)
    case Bin(_, l, r) => 1 + Max(Height(l), Height(r))
    case Cmp(_, _, _) => 1
  }

  lemma {:induction false} SizePositive(e: Expr)
    ensures Size(e) >= 1
  {
    match e
    case Bin(_, l, _) => SizePositive(l);
    case _ =>
  }

  // ----- expr_eliminate_yn -----

  function SimplifyBin(op: Op, l: Expr, r: Expr): Expr {
    if l == Sym(Zero(op)) then Sym(Zero(op))
    else if l == Sym(Unit(op)) then r
    else if r == Sym(Zero(op)) then Sym(Zero(op))
    else if r == Sym(Unit(op)) then l
    else Bin(op, l, r)
  }

  function EliminateYn(e: Expr): Expr {
    match e
    case Bin(op, l, r) => SimplifyBin(op, EliminateYn(l), EliminateYn(r))
    case _ => e
  }

  predicate IsYn(e: Expr) {
    e == Sym(SymYes) || e == Sym(SymNo)
  }

  /** Some AND/OR node, reached through AND/OR nodes only, has y or n as an operand. */
  predicate HasYn(e: Expr) {
    e.Bin? && (IsYn(e.left) || IsYn(e.right) || HasYn(e.left) || HasYn(e.right))
  }

  lemma {:induction false} EliminateYnKeepsValue(e: Expr, v: Valuation)
    ensures Value(EliminateYn(e), v) == Value(e, v)
    ensures MFree(e, v) ==> MFree(EliminateYn(e), v)
  {
    match e
    case Bin(_, l, r) => EliminateYnKeepsValue(l, v); EliminateYnKeepsValue(r, v);
    case _ =>
  }

  /** Constant elimination leaves no y or n to eliminate, and shrinks every expression that had one. */
  lemma {:induction false} EliminateYnShrinks(e: Expr)
    ensures !HasYn(EliminateYn(e))
    ensures Size(EliminateYn(e)) <= Size(e)
    ensures HasYn(e) ==> Size(EliminateYn(e)) < Size(e)
    ensures !HasYn(e) ==> EliminateYn(e) == e
  {
    match e
    case Bin(_, l, r) =>
      EliminateYnShrinks(l);
      EliminateYnShrinks(r);
      SizePositive(l);
      SizePositive(r);
    case _ =>
  }

  // ----- expr_transform -----

  predicate IsTriConstant(s: Symbol) {
    s == SymYes || s == SymMod || s == SymNo
  }

  /** An upper bound on the rewriting work left: NOT doubles, so pushing it inwards lets it fall. */
  function Weight(e: Expr): nat
    ensures Weight(e) >= 1
  {
    match e
    case Sym(_) => 1
    case Not(a) => 2 * Weight(a)
    case Bin(_, l, r) => 1 + Weight(l) + Weight(r)
    case Cmp(_, _, _) => 2
  }

  function TransformCmp(rel: Rel, a: Symbol, b: Symbol): Expr {
    if TypeOf(a) != SBoolean then Cmp(rel, a, b)
    else if b == SymNo then (if rel == Equal then Not(Sym(a)) else Sym(a))
    else if b == SymMod then Sym(if rel == Equal then SymNo else SymYes)
    else if b == SymYes then (if rel == Equal then Sym(a) else Not(Sym(a)))
    else Cmp(rel, a, b)
  }

  function NegateConstant(s: Symbol): Expr {
    if s == SymYes then Sym(SymNo)
    else if s == SymMod then Sym(SymMod)
    else if s == SymNo then Sym(SymYes)
    else Not(Sym(s))
  }

  /** De Morgan: the negation of `Bin(op, l, r)`, one step inwards. */
  function PushNot(op: Op, l: Expr, r: Expr): (n: Expr)
    ensures Weight(n) < Weight(Not(Bin(op, l, r)))
    ensures forall v :: MFree(n, v) == MFree(Bin(op, l, r), v)
  {
    assert Weight(Not(l)) == 2 * Weight(l) && Weight(Not(r)) == 2 * Weight(r);
    assert forall v :: MFree(Not(l), v) == MFree(l, v) && MFree(Not(r), v) == MFree(r, v);
    Bin(Dual(op), Not(l), Not(r))
  }

  function Transform(e: Expr): (r: Expr)
    ensures Weight(r) <= Weight(e)
    decreases Weight(e)
  {
    match e
    case Sym(_) => e
    case Bin(op, l, r) => Bin(op, Transform(l), Transform(r))
    case Cmp(rel, a, b) => TransformCmp(rel, a, b)
    case Not(a) =>
      match Transform(a)
      case Not(b) => Transform(b)
      case Cmp(rel, x, y) => Cmp(Flip(rel), x, y)
      case Bin(op, l, r) => Transform(PushNot(op, l, r))
      case Sym(s) => NegateConstant(s)
  }

  /** Negation normal form: NOT stands only over a symbol other than y, m and n, and no boolean
      symbol is compared with one of those three. */
  predicate Nnf(e: Expr) {
    match e
    case Sym(_) => true
    case Not(a) => a.Sym? && !IsTriConstant(a.s)
    case Bin(_, l, r) => Nnf(l) && Nnf(r)
    case Cmp(_, a, b) => TypeOf(a) == SBoolean ==> !IsTriConstant(b)
  }

  lemma TransformCmpKeepsValue(rel: Rel, a: Symbol, b: Symbol, v: Valuation)
    ensures Value(TransformCmp(rel, a, b), v) == Value(Cmp(rel, a, b), v)
    ensures MFree(TransformCmp(rel, a, b), v)
    ensures Nnf(TransformCmp(rel, a, b))
  {
    if TypeOf(a) == SBoolean && IsTriConstant(b) {
      assert b == Constant(TriName(TriOf(b, v)));
      TriNameInjective(TriOf(a, v), TriOf(b, v));
    }
  }

  /** Negation push-down keeps the value under every valuation. */
  lemma {:induction false} TransformKeepsValue(e: Expr, v: Valuation)
    ensures Value(Transform(e), v) == Value(e, v)
    ensures MFree(e, v) ==> MFree(Transform(e), v)
    decreases Weight(e)
  {
    match e
    case Sym(_) =>
    case Bin(_, l, r) =>
      TransformKeepsValue(l, v);
      TransformKeepsValue(r, v);
    case Cmp(rel, a, b) => TransformCmpKeepsValue(rel, a, b, v);
    case Not(a) =>
      TransformKeepsValue(a, v);
      match Transform(a)
      case Not(b) => TransformKeepsValue(b, v);
      case Bin(op, l, r) => TransformKeepsValue(PushNot(op, l, r), v);
      case _ =>
  }

  /** The result is in negation normal form. */
  lemma {:induction false} TransformIsNnf(e: Expr)
    ensures Nnf(Transform(e))
    decreases Weight(e)
  {
    match e
    case Sym(_) =>
    case Bin(_, l, r) =>
      TransformIsNnf(l);
      TransformIsNnf(r);
    case Cmp(_, _, _) =>
    case Not(a) =>
      TransformIsNnf(a);
      match Transform(a)
      case Not(b) => TransformIsNnf(b);
      case Bin(op, l, r) => TransformIsNnf(PushNot(op, l, r));
      case _ =>
  }

  /** Transform changes nothing exactly when its argument is already in negation normal form. */
  lemma {:induction false} TransformFixpoint(e: Expr)
    ensures Transform(e) == e <==> Nnf(e)
  {
    TransformIsNnf(e);
    if Nnf(e) {
      NnfUnchanged(e);
    }
  }

  lemma {:induction false} EliminateYnIsNnf(e: Expr)
    requires Nnf(e)
    ensures Nnf(EliminateYn(e))
  {
    match e
    case Bin(_, l, r) => EliminateYnIsNnf(l); EliminateYnIsNnf(r);
    case _ =>
  }

  lemma {:induction false} NnfUnchanged(e: Expr)
    requires Nnf(e)
    ensures Transform(e) == e
  {
    match e
    case Bin(_, l, r) => NnfUnchanged(l); NnfUnchanged(r);
    case _ =>
  }
}

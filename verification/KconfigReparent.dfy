/** `menu_finalize` (scripts/kconfig/menu.c): it propagates the dependencies of blocks to their
    entries and moves entries below the entry they depend on. */
module KconfigReparent {
  import opened KconfigExpr
  import opened KconfigDeps
  import opened KconfigMenu
  import opened KconfigSlots
  import opened Options

  /** An entry with its submenu.  `isBlock` tells the submenus written in the Kconfig file from the
      ones that re-parenting creates. */
  datatype Menu = Menu(sym: Option<Symbol>, hasPrompt: bool, visible: Option<Expr>, dep: Option<Expr>,
                       isBlock: bool, list: seq<Menu>)

  /** What an entry hangs on: the visibility of its prompt, or its dependency if it has no prompt. */
  function Condition(m: Menu): Option<Expr> {
    if m.hasPrompt then m.visible else m.dep
  }

  function PromptVisibility(m: Menu): Option<Expr> {
    if m.hasPrompt then m.visible else None
  }

  // ----- expr_contains_symbol and expr_depends_symbol -----

  predicate ContainsSymbol(e: Expr, s: Symbol) {
    match e
    case Bin(_, l, r) => ContainsSymbol(l, s) || ContainsSymbol(r, s)
    case Sym(a) => a == s
    case Cmp(_, a, b) => a == s || b == s
    case Not(a) => ContainsSymbol(a, s)
  }

  predicate DependsSymbol(e: Expr, s: Symbol) {
    match e
    case Bin(And, l, r) => DependsSymbol(l, s) || DependsSymbol(r, s)
    case Sym(a) => a == s
    case Cmp(Equal, a, b) => a == s && (b == SymYes || b == SymMod)
    case Cmp(Unequal, a, b) => a == s && b == SymNo
    case _ => false
  }

  /** An expression that depends on a bool or tristate symbol is n wherever the symbol is n. */
  lemma {:induction false} DependsSymbolImplies(e: Expr, s: Symbol, v: Valuation)
    requires DependsSymbol(e, s) && TypeOf(s) in {SBoolean, STristate}
    ensures Value(e, v) != 0 ==> TriOf(s, v) != 0
  {
    match e
    case Bin(And, l, r) =>
      if DependsSymbol(l, s) {
        DependsSymbolImplies(l, s, v);
      } else {
        DependsSymbolImplies(r, s, v);
      }
    case Cmp(_, a, b) =>
      assert b.name == TriName(TriOf(b, v));
      TriNameInjective(TriOf(a, v), TriOf(b, v));
    case _ =>
  }

  lemma {:induction false} DependsContains(e: Expr, s: Symbol)
    ensures DependsSymbol(e, s) ==> ContainsSymbol(e, s)
  {
    match e
    case Bin(_, l, r) => DependsContains(l, s); DependsContains(r, s);
    case _ =>
  }

  lemma {:induction false} ContainsExact(e: Expr, s: Symbol)
    ensures ContainsSymbol(e, s) <==> s in ExprSymbols(e)
  {
    match e
    case Not(a) => ContainsExact(a, s);
    case Bin(_, l, r) => ContainsExact(l, s); ContainsExact(r, s);
    case _ =>
  }

  /** The symbol itself, and the comparisons that fail where it is n. */
  function Literals(s: Symbol): set<Expr> {
    {Sym(s), Cmp(Equal, s, SymYes), Cmp(Equal, s, SymMod), Cmp(Unequal, s, SymNo)}
  }

  /** An expression depends on a symbol if and only if one of these is an operand of its AND chain. */
  lemma {:induction false} DependsExact(e: Expr, s: Symbol)
    ensures DependsSymbol(e, s) <==> exists p :: IsOperand(And, e, p) && Get(And, e, p) in Literals(s)
  {
    if IsChain(And, e) {
      DependsExact(e.left, s);
      DependsExact(e.right, s);
      if DependsSymbol(e.left, s) {
        var p :| IsOperand(And, e.left, p) && Get(And, e.left, p) in Literals(s);
        OperandOfHalf(e, L, p);
      } else if DependsSymbol(e.right, s) {
        var p :| IsOperand(And, e.right, p) && Get(And, e.right, p) in Literals(s);
        OperandOfHalf(e, R, p);
      }
      if p :| IsOperand(And, e, p) && Get(And, e, p) in Literals(s) {
        assert p != [] && IsOperand(And, Child(e, p[0]), p[1..]);
      }
    } else {
      assert IsOperand(And, e, []);
    }
  }

  lemma OperandOfHalf(e: Expr, d: Dir, p: Path)
    requires IsChain(And, e) && IsOperand(And, Child(e, d), p)
    ensures IsOperand(And, e, [d] + p) && Get(And, e, [d] + p) == Get(And, Child(e, d), p)
  {
    assert ([d] + p)[1..] == p;
  }

  /** And these are the right ones: of the symbol and its comparisons with y, m and n they are those
      that are n wherever a bool or tristate symbol is n. */
  lemma LiteralsExact(s: Symbol, e: Expr)
    requires TypeOf(s) in {SBoolean, STristate}
    requires e == Sym(s) || (e.Cmp? && e.lhs == s && IsTriConstant(e.rhs))
    ensures e in Literals(s) <==> forall v | TriOf(s, v) == 0 :: Value(e, v) == 0
  {
    if e.Cmp? {
      var w := Valuation(_ => false, _ => 0, _ => "");
      assert TriOf(s, w) == 0;
      forall v | TriOf(s, v) == 0 ensures Value(e, v) == Truth((e.rhs == SymNo) == (e.rel == Equal)) {
        assert e.rhs.name == TriName(TriOf(e.rhs, v));
        TriNameInjective(0, TriOf(e.rhs, v));
      }
    }
  }

  /** `c` may stand below `m`: its condition depends on the symbol of `m`, or it implies that the
      prompt of `m` is visible. */
  ghost predicate Justified(m: Menu, c: Menu) {
    && m.sym.Some?
    && Condition(c).Some?
    && (|| DependsSymbol(Condition(c).value, m.sym.value)
        || forall v | OptDefinite(PromptVisibility(m), v) && Definite(Condition(c).value, v) ::
             Value(Condition(c).value, v) != 0 ==> OptValue(PromptVisibility(m), v) != 0)
  }

  /** The tests of the loop over the following entries: the entry mentions the symbol, and depends on
      it or implies the visibility of the prompt as far as the code can tell. */
  ghost predicate Passes(m: Menu, c: Menu)
    requires m.sym.Some?
  {
    var s, dep := m.sym.value, Condition(c);
    && dep.Some? && s in ExprSymbols(dep.value)
    && (DependsSymbol(dep.value, s) || Implication(PromptVisibility(m), dep.value, true))
  }

  ghost predicate Fails(m: Menu, c: Menu)
    requires m.sym.Some?
  {
    var s, dep := m.sym.value, Condition(c);
    || dep.None? || s !in ExprSymbols(dep.value)
    || (!DependsSymbol(dep.value, s) && Implication(PromptVisibility(m), dep.value, false))
  }

  /** Either way, the entry's condition can hold only where the symbol is set or its prompt visible. */
  lemma JustifiedMeaning(m: Menu, c: Menu, v: Valuation)
    requires Justified(m, c) && TypeOf(m.sym.value) in {SBoolean, STristate}
    requires OptDefinite(PromptVisibility(m), v) && OptDefinite(Condition(c), v)
    requires OptValue(Condition(c), v) != 0
    ensures TriOf(m.sym.value, v) != 0 || OptValue(PromptVisibility(m), v) != 0
  {
    if DependsSymbol(Condition(c).value, m.sym.value) {
      DependsSymbolImplies(Condition(c).value, m.sym.value, v);
    }
  }

  // ----- menus as sequences of entries -----

  /** The entries in the order of the file: each entry before its submenu. */
  function Entries(ms: seq<Menu>): seq<Menu> {
    if ms == [] then [] else [ms[0].(list := [])] + Entries(ms[0].list) + Entries(ms[1..])
  }

  lemma {:induction false} EntriesAppend(a: seq<Menu>, b: seq<Menu>)
    ensures Entries(a + b) == Entries(a) + Entries(b)
  {
    if a == [] {
      assert a + b == b;
    } else {
      assert (a + b)[1..] == a[1..] + b;
      EntriesAppend(a[1..], b);
    }
  }

  /** Before re-parenting, exactly the blocks have a submenu, and they have no symbol. */
  predicate AsParsed(ms: seq<Menu>) {
    forall m | m in ms :: m.isBlock == (m.list != []) && (m.isBlock ==> m.sym.None?) && AsParsed(m.list)
  }

  /** `c` belongs into the submenu of `h`: in a block it can be active only where the block is. */
  ghost predicate Hangs(h: Menu, c: Menu) {
    if h.isBlock then Gates(Condition(h), Condition(c)) else Justified(h, c)
  }

  ghost function Bare(ms: seq<Menu>): set<Menu> {
    set m | m in ms :: m.(list := [])
  }

  /** `c` hangs on `m` itself, or on an entry without a title among `others`, whose submenu has been
      merged into that of `m`. */
  ghost predicate Placed(m: Menu, others: set<Menu>, c: Menu) {
    Hangs(m, c) || exists h | h in others :: !h.hasPrompt && Hangs(h, c)
  }

  /** Every entry of the submenu of `m` belongs there, and has a title if it has a submenu. */
  ghost predicate InPlace(m: Menu) {
    forall c | c in m.list :: Placed(m, Bare(m.list), c) && (c.list == [] || c.hasPrompt)
  }

  /** Afterwards this holds at every depth. */
  ghost predicate Parented(ms: seq<Menu>) {
    forall m | m in ms :: InPlace(m) && Parented(m.list)
  }

  lemma MoveAcross<T>(a: seq<T>, b: seq<T>, c: seq<T>, d: seq<T>)
    requires b == c + d
    ensures a + b == (a + c) + d
  {
  }

  lemma HeadThen<T>(s: seq<T>, a: seq<T>, b: seq<T>)
    requires s != [] && s[1..] == a + b
    ensures s == [s[0]] + a + b
  {
  }

  /** The entries of an entry followed by a list. */
  lemma EntriesThen(m: Menu, ms: seq<Menu>)
    ensures Entries([m] + ms) == [m.(list := [])] + (Entries(m.list) + Entries(ms))
  {
    assert ([m] + ms)[1..] == ms;
    assert Entries([m] + ms) == [m.(list := [])] + Entries(m.list) + Entries(ms);
  }

  lemma AppendNothing<T>(a: seq<T>, b: seq<T>)
    requires b == []
    ensures a + b == a && b + a == a
  {
  }

  lemma EntriesOne(m: Menu)
    ensures Entries([m]) == [m.(list := [])] + Entries(m.list)
  {
    assert [m][1..] == [];
    assert Entries([m]) == [m.(list := [])] + Entries(m.list) + Entries([]);
  }

  lemma EntriesSplit(ms: seq<Menu>)
    requires ms != []
    ensures Entries(ms) == Entries([ms[0]]) + Entries(ms[1..])
  {
    assert ms == [ms[0]] + ms[1..];
    EntriesAppend([ms[0]], ms[1..]);
  }

  // ----- what propagation means -----

  /** The symbol-less entries, and those of tristate symbols, take part in m. */
  predicate TristateEntry(m: Menu) {
    m.sym.None? || TypeOf(m.sym.value) == STristate
  }

  /** The conjunction of what the entry inherits with its own dependency, and of both with the
      condition of its prompt, as they stand. */
  function Conjoined(inherited: Option<Expr>, m: Menu): Menu {
    var dep := AllocAnd(inherited, m.dep);
    m.(dep := dep, visible := if m.hasPrompt then AllocAnd(dep, m.visible) else m.visible)
  }

  /** The reference: every entry conjoins the conditions of all blocks around it with its own. */
  function Naive(inherited: Option<Expr>, ms: seq<Menu>): seq<Menu>
    decreases ms
  {
    if ms == [] then [] else [NaiveEntry(inherited, ms[0])] + Naive(inherited, ms[1..])
  }

  function NaiveEntry(inherited: Option<Expr>, m: Menu): Menu
    decreases m
  {
    var n := Conjoined(inherited, m);
    n.(list := Naive(Condition(n), m.list))
  }

  /** `r` is the entry `n` of the reference with equivalent conditions: equal wherever the reference
      is not m, and everywhere if `exact`; the prompt of a symbol that is not tristate up to the
      promotion of m to y. */
  ghost predicate Propagated(n: Menu, r: Menu, exact: bool) {
    && r.sym == n.sym && r.hasPrompt == n.hasPrompt && r.isBlock == n.isBlock
    && Follows(n.dep, r.dep, exact)
    && if !n.hasPrompt then r.visible == n.visible
       else if TristateEntry(n) then Follows(n.visible, r.visible, exact)
       else FollowsPromoted(n.visible, r.visible, exact)
  }

  ghost predicate AllPropagated(ns: seq<Menu>, rs: seq<Menu>, exact: bool) {
    |ns| == |rs| && (ns == [] || (Propagated(ns[0], rs[0], exact) && AllPropagated(ns[1..], rs[1..], exact)))
  }

  /** Where nothing is promised for m, less is promised. */
  lemma PropagatedWeakly(n: Menu, r: Menu, exact: bool, less: bool)
    requires Propagated(n, r, exact) && (less ==> exact)
    ensures Propagated(n, r, less)
  {
  }

  lemma {:induction false} AllPropagatedWeakly(a: seq<Menu>, b: seq<Menu>, exact: bool, less: bool)
    requires AllPropagated(a, b, exact) && (less ==> exact)
    ensures AllPropagated(a, b, less)
    decreases |a|
  {
    if a != [] {
      PropagatedWeakly(a[0], b[0], exact, less);
      AllPropagatedWeakly(a[1..], b[1..], exact, less);
    }
  }

  lemma {:induction false} AllPropagatedAppend(a: seq<Menu>, b: seq<Menu>, c: seq<Menu>, d: seq<Menu>, exact: bool)
    requires AllPropagated(a, b, exact) && AllPropagated(c, d, exact)
    ensures AllPropagated(a + c, b + d, exact)
    decreases |a|
  {
    if a == [] {
      assert a + c == c && b + d == d;
    } else {
      AllPropagatedAppend(a[1..], b[1..], c, d, exact);
      assert (a + c)[1..] == a[1..] + c && (b + d)[1..] == b[1..] + d;
    }
  }

  lemma AllPropagatedConcat(a: seq<Menu>, b: seq<Menu>, c: seq<Menu>, d: seq<Menu>, e1: bool, e2: bool, exact: bool)
    requires AllPropagated(a, b, e1) && AllPropagated(c, d, e2) && (exact ==> e1 && e2)
    ensures AllPropagated(a + c, b + d, exact)
  {
    AllPropagatedWeakly(a, b, e1, exact);
    AllPropagatedWeakly(c, d, e2, exact);
    AllPropagatedAppend(a, b, c, d, exact);
  }

  /** The entry that a path of positions leads to, each position in the list of the entry before. */
  predicate OnPath(ms: seq<Menu>, path: seq<nat>)
    decreases |path|
  {
    path != [] && path[0] < |ms| && (|path| == 1 || OnPath(ms[path[0]].list, path[1..]))
  }

  function At(ms: seq<Menu>, path: seq<nat>): Menu
    requires OnPath(ms, path)
    decreases |path|
  {
    if |path| == 1 then ms[path[0]] else At(ms[path[0]].list, path[1..])
  }

  /** What an entry as written asks for. */
  function Asks(m: Menu, v: Valuation): Tristate {
    if m.hasPrompt then Combine(And, OptValue(m.dep, v), OptValue(m.visible, v)) else OptValue(m.dep, v)
  }

  /** The least of what all entries on the path ask for. */
  function PathAsks(ms: seq<Menu>, path: seq<nat>, v: Valuation): Tristate
    requires OnPath(ms, path)
    decreases |path|
  {
    var own := Asks(ms[path[0]], v);
    if |path| == 1 then own else Combine(And, own, PathAsks(ms[path[0]].list, path[1..], v))
  }

  lemma {:induction false} NaiveAt(inherited: Option<Expr>, ms: seq<Menu>, i: nat)
    requires i < |ms|
    ensures |Naive(inherited, ms)| == |ms| && Naive(inherited, ms)[i] == NaiveEntry(inherited, ms[i])
    decreases |ms|
  {
    if i > 0 {
      NaiveAt(inherited, ms[1..], i - 1);
    } else if |ms| > 1 {
      NaiveAt(inherited, ms[1..], 0);
    }
  }

  /** In the reference every entry has, under every valuation, the least of what the entries on its
      path ask for and of what the whole list inherits; its own dependency counts without its prompt. */
  lemma {:induction false} NaiveMeans(inherited: Option<Expr>, ms: seq<Menu>, path: seq<nat>, v: Valuation)
    requires OnPath(ms, path)
    ensures OnPath(Naive(inherited, ms), path)
    ensures var n, m := At(Naive(inherited, ms), path), At(ms, path);
            && n.sym == m.sym && n.hasPrompt == m.hasPrompt && n.isBlock == m.isBlock
            && OptValue(Condition(n), v) == Combine(And, OptValue(inherited, v), PathAsks(ms, path, v))
            && (n.hasPrompt ==> OptValue(n.visible, v) == Combine(And, OptValue(n.dep, v), OptValue(m.visible, v)))
            && (n.hasPrompt && |path| == 1 ==> OptValue(n.dep, v) == Combine(And, OptValue(inherited, v), OptValue(m.dep, v)))
    decreases |path|
  {
    var m := ms[path[0]];
    NaiveAt(inherited, ms, path[0]);
    ConjoinedMeans(inherited, m, v);
    if |path| > 1 {
      var down := Condition(Conjoined(inherited, m));
      NaiveMeans(down, m.list, path[1..], v);
      CombineAssociates(And, OptValue(inherited, v), Asks(m, v), PathAsks(m.list, path[1..], v));
    }
  }

  lemma ConjoinedMeans(inherited: Option<Expr>, m: Menu, v: Valuation)
    ensures var n := Conjoined(inherited, m);
            && OptValue(n.dep, v) == Combine(And, OptValue(inherited, v), OptValue(m.dep, v))
            && OptValue(Condition(n), v) == Combine(And, OptValue(inherited, v), Asks(m, v))
            && (m.hasPrompt ==> OptValue(n.visible, v) == Combine(And, OptValue(n.dep, v), OptValue(m.visible, v)))
  {
    AllocAndValue(inherited, m.dep, v);
    AllocAndValue(AllocAnd(inherited, m.dep), m.visible, v);
  }

  // ----- the propagation loop -----

  ghost predicate MenuNnf(m: Menu) {
    OptNnf(m.dep) && (m.hasPrompt ==> OptNnf(m.visible))
  }

  /** `p` is the entry `n` of the reference, its own conditions propagated, its list not yet. */
  ghost predicate ReadyOne(n: Menu, p: Menu, exact: bool) {
    Propagated(n, p, exact) && n.list == Naive(Condition(n), p.list) && MenuNnf(p)
  }

  ghost predicate Ready(ns: seq<Menu>, ps: seq<Menu>, exact: bool) {
    |ns| == |ps| && (ns == [] || (ReadyOne(ns[0], ps[0], exact) && Ready(ns[1..], ps[1..], exact)))
  }

  /** The visibility of the entry's prompt, given its dependency. */
  method PropagatePrompt(dep: Option<Expr>, m: Menu, ghost ideal: Option<Expr>, ghost exact: bool)
    returns (visible: Option<Expr>, ghost cancelled: nat)
    requires OptNnf(dep) && Follows(ideal, dep, exact)
    ensures OptNnf(visible) && Gates(dep, visible)
    ensures if TristateEntry(m) then Follows(AllocAnd(ideal, m.visible), visible, exact && cancelled == 0)
            else FollowsPromoted(AllocAnd(ideal, m.visible), visible, exact && cancelled == 0)
  {
    visible, cancelled := PropagateVisibility(dep, m.visible, TristateEntry(m));
    ConjunctionGates(dep, m.visible, visible, cancelled == 0);
    if TristateEntry(m) {
      FollowsAnd(ideal, dep, m.visible, visible, exact && cancelled == 0);
    } else {
      FollowsPromotedAnd(ideal, dep, m.visible, visible, exact && cancelled == 0);
    }
  }

  /** One iteration; `ideal` is what the entry should inherit. */
  method PropagateEntry(inherited: Option<Expr>, m: Menu, ghost ideal: Option<Expr>, ghost exact: bool)
    returns (p: Menu, ghost cancelled: nat)
    requires OptNnf(inherited) && Follows(ideal, inherited, exact)
    ensures p.list == m.list && p.isBlock == m.isBlock && p.sym == m.sym && Gates(inherited, Condition(p))
    ensures ReadyOne(NaiveEntry(ideal, m), p, exact && cancelled == 0)
  {
    var dep;
    dep, cancelled := PropagateDep(inherited, m.dep);
    FollowsAnd(ideal, inherited, m.dep, dep, exact && cancelled == 0);
    ConjunctionGates(inherited, m.dep, dep, cancelled == 0);
    p := m.(dep := dep);
    if m.hasPrompt {
      var visible;
      ghost var more;
      visible, more := PropagatePrompt(dep, m, AllocAnd(ideal, m.dep), exact && cancelled == 0);
      cancelled := cancelled + more;
      p := p.(visible := visible);
    }
  }

  /** The loop over the entries of one list. */
  method PropagateLevel(inherited: Option<Expr>, ms: seq<Menu>, ghost ideal: Option<Expr>, ghost exact: bool)
    returns (ps: seq<Menu>, ghost cancelled: nat)
    requires OptNnf(inherited) && Follows(ideal, inherited, exact) && AsParsed(ms)
    ensures Ready(Naive(ideal, ms), ps, exact && cancelled == 0)
    ensures AsParsed(ps) && |Entries(ps)| == |Entries(ms)|
    ensures forall p | p in ps :: Gates(inherited, Condition(p))
  {
    ps, cancelled := [], 0;
    var rest := ms;
    ghost var ns, todo := [], Naive(ideal, ms);
    while rest != []
      invariant Naive(ideal, ms) == ns + todo && todo == Naive(ideal, rest)
      invariant Ready(ns, ps, exact && cancelled == 0)
      invariant forall p | p in ps :: Gates(inherited, Condition(p))
      invariant AsParsed(ps) && AsParsed(rest) && |Entries(ps)| + |Entries(rest)| == |Entries(ms)|
      decreases |rest|
    {
      var p;
      ghost var more, was, n := 0, exact && cancelled == 0, NaiveEntry(ideal, rest[0]);
      p, more := PropagateEntry(inherited, rest[0], ideal, exact);
      cancelled := cancelled + more;
      ReadyMore(ns, ps, n, p, was, exact && more == 0, exact && cancelled == 0);
      NextEntry(ps, rest, p);
      MoveAcross(ns, todo, [n], Naive(ideal, rest[1..]));
      ps, rest, ns, todo := ps + [p], rest[1..], ns + [n], Naive(ideal, rest[1..]);
    }
    AppendNothing(ns, todo);
  }

  /** `p` differs from the next entry in its conditions only. */
  lemma NextEntry(ps: seq<Menu>, rest: seq<Menu>, p: Menu)
    requires rest != [] && AsParsed(ps) && AsParsed(rest)
    requires p.list == rest[0].list && p.isBlock == rest[0].isBlock && p.sym == rest[0].sym
    ensures AsParsed(ps + [p]) && AsParsed(rest[1..])
    ensures |Entries(ps + [p])| + |Entries(rest[1..])| == |Entries(ps)| + |Entries(rest)|
  {
    assert rest[0] in rest;
    EntriesAppend(ps, [p]);
    EntriesSplit(rest);
    EntriesOne(p);
    EntriesOne(rest[0]);
  }

  lemma {:induction false} ReadyMore(ns: seq<Menu>, ps: seq<Menu>, n: Menu, p: Menu, e1: bool, e2: bool, exact: bool)
    requires Ready(ns, ps, e1) && ReadyOne(n, p, e2) && (exact ==> e1 && e2)
    ensures Ready(ns + [n], ps + [p], exact)
    decreases |ns|
  {
    if ns == [] {
      PropagatedWeakly(n, p, e2, exact);
    } else {
      PropagatedWeakly(ns[0], ps[0], e1, exact);
      ReadyMore(ns[1..], ps[1..], n, p, e1, e2, exact);
      assert (ns + [n])[1..] == ns[1..] + [n] && (ps + [p])[1..] == ps[1..] + [p];
    }
  }

  // ----- menu_finalize -----

  lemma ParentedOne(m: Menu)
    requires InPlace(m) && Parented(m.list)
    ensures Parented([m])
  {
  }

  /** What hangs where does not depend on submenus. */
  lemma HangsBare(h: Menu, h': Menu, c: Menu, c': Menu)
    requires h.(list := []) == h'.(list := []) && c.(list := []) == c'.(list := [])
    ensures Hangs(h, c) == Hangs(h', c')
  {
    assert Condition(h) == Condition(h.(list := [])) && Condition(c) == Condition(c.(list := []));
    assert Condition(h') == Condition(h) && Condition(c') == Condition(c);
    assert PromptVisibility(h) == PromptVisibility(h.(list := []));
  }

  // ----- merging submenus without a title -----

  /** An entry without a title gives up its submenu, which follows it instead; `m` is the entry
      whose submenu this is. */
  method Merge(ms: seq<Menu>, ghost m: Menu) returns (r: seq<Menu>)
    requires Parented(ms) && forall c | c in ms :: Hangs(m, c)
    ensures Entries(r) == Entries(ms)
    ensures forall c | c in r :: Placed(m, Bare(r), c)
    ensures Parented(r)
    ensures forall c | c in r :: c.list == [] || c.hasPrompt
  {
    r := [];
    var rest := ms;
    while rest != []
      invariant Entries(r) + Entries(rest) == Entries(ms)
      invariant forall c | c in r || c in rest :: Placed(m, Bare(r) + Bare(rest), c)
      invariant Parented(r) && Parented(rest)
      invariant forall c | c in r :: c.list == [] || c.hasPrompt
      decreases |Entries(rest)|
    {
      var c := rest[0];
      assert rest == [c] + rest[1..];
      KeptEntries(r, c, rest[1..]);
      if c.list != [] && !c.hasPrompt {
        MergedEntries(r, c, rest[1..]);
        MergeStep(r, c, rest[1..], m);
        r, rest := r + [c.(list := [])], c.list + rest[1..];
      } else {
        KeepStep(r, c, rest[1..], m);
        r, rest := r + [c], rest[1..];
      }
    }
  }

  /** The loop invariant carries over from `r` and `rest` to `r'` and `rest'`. */
  ghost predicate StepKeeps(r: seq<Menu>, rest: seq<Menu>, r': seq<Menu>, rest': seq<Menu>, m: Menu) {
    && Entries(r') + Entries(rest') == Entries(r) + Entries(rest)
    && (forall c | c in r' || c in rest' :: Placed(m, Bare(r') + Bare(rest'), c))
    && Parented(r') && Parented(rest')
  }

  lemma BareConcat(a: seq<Menu>, b: seq<Menu>)
    ensures Bare(a + b) == Bare(a) + Bare(b)
  {
  }

  lemma PlacedAmong(m: Menu, s: set<Menu>, t: set<Menu>, c: Menu)
    requires Placed(m, s, c) && s <= t
    ensures Placed(m, t, c)
  {
  }

  lemma ParentedConcat(a: seq<Menu>, b: seq<Menu>)
    ensures Parented(a + b) <==> Parented(a) && Parented(b)
  {
    assert forall m | m in a :: m in a + b;
    assert forall m | m in b :: m in a + b;
  }

  lemma KeptEntries(r: seq<Menu>, x: Menu, tail: seq<Menu>)
    ensures Entries(r + [x]) + Entries(tail) == Entries(r) + Entries([x] + tail)
    ensures |Entries(tail)| < |Entries([x] + tail)|
  {
    EntriesAppend(r, [x]);
    EntriesAppend([x], tail);
    EntriesOne(x);
    MoveAcross(Entries(r), Entries([x] + tail), Entries([x]), Entries(tail));
  }

  lemma MergedEntries(r: seq<Menu>, x: Menu, tail: seq<Menu>)
    ensures Entries(r + [x.(list := [])]) + Entries(x.list + tail) == Entries(r) + Entries([x] + tail)
    ensures |Entries(x.list + tail)| < |Entries([x] + tail)|
  {
    var x' := x.(list := []);
    EntriesAppend(r, [x']);
    EntriesAppend(x.list, tail);
    EntriesThen(x, tail);
    EntriesOne(x');
    AppendNothing([x'], Entries([]));
    MoveAcross(Entries(r), Entries([x] + tail), [x'], Entries(x.list) + Entries(tail));
  }

  /** The next entry keeps its submenu. */
  lemma KeepStep(r: seq<Menu>, x: Menu, tail: seq<Menu>, m: Menu)
    requires Parented(r) && Parented([x] + tail)
    requires forall c | c in r || c in [x] + tail :: Placed(m, Bare(r) + Bare([x] + tail), c)
    ensures StepKeeps(r, [x] + tail, r + [x], tail, m)
  {
    KeptEntries(r, x, tail);
    ParentedConcat([x], tail);
    ParentedConcat(r, [x]);
    BareConcat(r, [x]);
    BareConcat([x], tail);
    assert Bare(r) + Bare([x] + tail) == Bare(r + [x]) + Bare(tail);
  }

  /** The next entry, which has no title, gives its submenu up. */
  lemma MergeStep(r: seq<Menu>, x: Menu, tail: seq<Menu>, m: Menu)
    requires Parented(r) && Parented([x] + tail) && !x.hasPrompt
    requires forall c | c in r || c in [x] + tail :: Placed(m, Bare(r) + Bare([x] + tail), c)
    ensures StepKeeps(r, [x] + tail, r + [x.(list := [])], x.list + tail, m)
  {
    MergedEntries(r, x, tail);
    ParentedConcat([x], tail);
    assert x in [x];
    ParentedConcat(x.list, tail);
    ParentedOne(x.(list := []));
    ParentedConcat(r, [x.(list := [])]);
    MergedPlaced(r, x, tail, m);
  }

  lemma MergedPlaced(r: seq<Menu>, x: Menu, tail: seq<Menu>, m: Menu)
    requires !x.hasPrompt && forall c | c in r || c in [x] + tail :: Placed(m, Bare(r) + Bare([x] + tail), c)
    requires forall c | c in x.list :: Placed(x, Bare(x.list), c)
    ensures var x' := x.(list := []);
            forall c | c in r + [x'] || c in x.list + tail :: Placed(m, Bare(r + [x']) + Bare(x.list + tail), c)
  {
    var x' := x.(list := []);
    var s, t := Bare(r) + Bare([x] + tail), Bare(r + [x']) + Bare(x.list + tail);
    BareConcat(r, [x']);
    BareConcat([x], tail);
    BareConcat(x.list, tail);
    assert x' in Bare([x']) && Bare([x]) == Bare([x']) && s <= t;
    forall c | c in r + [x'] || c in x.list + tail ensures Placed(m, t, c) {
      if c in r || c in tail {
        PlacedAmong(m, s, t, c);
      } else if c in x.list {
        HangsBare(x, x', c, c);
      } else {
        PlacedBare(m, s, x, x');
        PlacedAmong(m, s, t, c);
      }
    }
  }

  lemma PlacedBare(m: Menu, s: set<Menu>, c: Menu, c': Menu)
    requires Placed(m, s, c) && c.(list := []) == c'.(list := [])
    ensures Placed(m, s, c')
  {
    HangsBare(m, m, c, c');
    forall h | h in s ensures Hangs(h, c) == Hangs(h, c') {
      HangsBare(h, h, c, c');
    }
  }

  lemma PropagatedAlone(n: Menu, r: Menu, exact: bool)
    requires Propagated(n, r, exact)
    ensures AllPropagated([n], [r], exact)
  {
    assert [n][1..] == [] && [r][1..] == [];
  }

  /** The finalized entry `r`, with the reference entries `n` and `ns` that went into it. */
  lemma PropagatedOne(n: Menu, ns: seq<Menu>, r: Menu, e1: bool, e2: bool, exact: bool)
    requires Propagated(n, r, e1) && AllPropagated(Entries(n.list) + Entries(ns), Entries(r.list), e2) && (exact ==> e1 && e2)
    ensures AllPropagated(Entries([n] + ns), Entries([r]), exact)
  {
    EntriesThen(n, ns);
    EntriesOne(r);
    var a, b := n.(list := []), r.(list := []);
    PropagatedAlone(a, b, e1);
    AllPropagatedConcat([a], [b], Entries(n.list) + Entries(ns), Entries(r.list), e1, e2, exact);
  }

  /** One finalized entry more. */
  lemma FinalizedMore(done: seq<Menu>, n: Menu, used: seq<Menu>, r: seq<Menu>, m: Menu, e1: bool, e2: bool, exact: bool)
    requires AllPropagated(Entries(done), Entries(r), e1) && Parented(r) && Parented([m])
    requires AllPropagated(Entries([n] + used), Entries([m]), e2) && (exact ==> e1 && e2)
    ensures AllPropagated(Entries(done + ([n] + used)), Entries(r + [m]), exact) && Parented(r + [m])
  {
    EntriesAppend(done, [n] + used);
    EntriesAppend(r, [m]);
    AllPropagatedConcat(Entries(done), Entries(r), Entries([n] + used), Entries([m]), e1, e2, exact);
    assert m in [m];
  }

  /** All of them can be active only where the list they stand in can. */
  ghost predicate AllGated(inherited: Option<Expr>, ms: seq<Menu>) {
    forall c | c in ms :: Gates(inherited, Condition(c))
  }

  lemma GatedMore(inherited: Option<Expr>, r: seq<Menu>, ms: seq<Menu>, m: Menu, rest: seq<Menu>)
    requires AllGated(inherited, r) && AllGated(inherited, ms)
    requires ms != [] && m.(list := []) == ms[0].(list := []) && forall c | c in rest :: c in ms
    ensures AllGated(inherited, r + [m]) && AllGated(inherited, rest)
  {
    SameCondition(ms[0], m);
    assert ms[0] in ms;
  }

  /** Propagates `inherited` to the entries of one list, then finalizes them in order; each takes away
      those it adopts.  No entry is lost, added or moved past another; each ends up with conditions
      equivalent to those of the reference, and each adopted one is justified. */
  method FinalizeList(inherited: Option<Expr>, ms: seq<Menu>, ghost ideal: Option<Expr>, ghost exact: bool)
    returns (r: seq<Menu>, ghost cancelled: nat)
    requires OptNnf(inherited) && Follows(ideal, inherited, exact) && AsParsed(ms)
    ensures AllPropagated(Entries(Naive(ideal, ms)), Entries(r), exact && cancelled == 0)
    ensures Parented(r) && AllGated(inherited, r)
    decreases |Entries(ms)|, 2
  {
    var rest;
    rest, cancelled := PropagateLevel(inherited, ms, ideal, exact);
    ghost var ns, done, was := Naive(ideal, ms), [], exact && cancelled == 0;
    r := [];
    while rest != []
      invariant Naive(ideal, ms) == done + ns && Ready(ns, rest, was) && AsParsed(rest)
      invariant (exact && cancelled == 0 ==> was) && |Entries(rest)| <= |Entries(ms)|
      invariant Parented(r) && AllPropagated(Entries(done), Entries(r), exact && cancelled == 0)
      invariant AllGated(inherited, r) && AllGated(inherited, rest)
      decreases |Entries(rest)|
    {
      ghost var before, used, todo, more := exact && cancelled == 0, [], [], 0;
      var m;
      ghost var n, now := ns[0], rest;
      m, rest, used, todo, more := FinalizeNext(rest, ns, was);
      cancelled := cancelled + more;
      FinalizedMore(done, n, used, r, m, before, was && more == 0, exact && cancelled == 0);
      GatedMore(inherited, r, now, m, rest);
      MoveAcross(done, ns, [n] + used, todo);
      r, done, ns := r + [m], done + ([n] + used), todo;
    }
    AppendNothing(done, ns);
  }

  /** Finalizes the first entry of a list; `used` are the reference entries of those it adopts. */
  method FinalizeNext(ms: seq<Menu>, ghost ns: seq<Menu>, ghost exact: bool)
    returns (r: Menu, rest: seq<Menu>, ghost used: seq<Menu>, ghost todo: seq<Menu>, ghost cancelled: nat)
    requires ms != [] && AsParsed(ms) && Ready(ns, ms, exact)
    ensures ns == [ns[0]] + used + todo && Ready(todo, rest, exact) && AsParsed(rest)
    ensures |Entries(rest)| < |Entries(ms)| && forall c | c in rest :: c in ms
    ensures AllPropagated(Entries([ns[0]] + used), Entries([r]), exact && cancelled == 0)
    ensures r.(list := []) == ms[0].(list := []) && Parented([r])
    decreases |Entries(ms)|, 1
  {
    EntriesSplit(ms);
    EntriesOne(ms[0]);
    assert ms[0] in ms;
    r, rest, used, todo, cancelled := Finalize(ms[0], ms[1..], ns[0], ns[1..], exact);
    HeadThen(ns, used, todo);
  }

  /** Finalizes `m`, whose own conditions have been propagated.  A block finalizes its own list; any
      other entry with a symbol adopts the entries that follow it for as long as they mention the
      symbol and either depend on it or imply the visibility of its prompt. */
  method Finalize(m: Menu, rest: seq<Menu>, ghost n: Menu, ghost ns: seq<Menu>, ghost exact: bool)
    returns (r: Menu, rest': seq<Menu>, ghost used: seq<Menu>, ghost todo: seq<Menu>, ghost cancelled: nat)
    requires AsParsed([m]) && AsParsed(rest) && ReadyOne(n, m, exact) && Ready(ns, rest, exact)
    ensures ns == used + todo && Ready(todo, rest', exact) && AsParsed(rest')
    ensures |Entries(rest')| <= |Entries(rest)| && forall c | c in rest' :: c in rest
    ensures AllPropagated(Entries([n] + used), Entries([r]), exact && cancelled == 0)
    ensures r.(list := []) == m.(list := []) && Parented([r])
    ensures !m.isBlock && m.sym.Some? && rest' != [] && Condition(rest'[0]).Some? ==>
              !DependsSymbol(Condition(rest'[0]).value, m.sym.value)
    ensures !m.isBlock && m.sym.Some? && rest' != [] ==> Fails(m, rest'[0])
    decreases |Entries([m])| + |Entries(rest)|, 0
  {
    assert m in [m];
    EntriesOne(m);
    used, todo, cancelled := [], ns, 0;
    var list;
    if m.list != [] {
      list, cancelled := FinalizeList(Condition(m), m.list, Condition(n), exact);
      rest' := rest;
    } else if m.sym.Some? {
      list, rest', used, todo, cancelled := Adopt(m, rest, ns, exact);
    } else {
      list, rest' := [], rest;
    }
    AppendNothing(Entries(if m.list != [] then n.list else used), Entries(if m.list != [] then used else n.list));
    r := WithSubmenu(m, list);
    PropagatedOne(n, used, r, exact, exact && cancelled == 0, exact && cancelled == 0);
  }

  /** Gives `m` its finished submenu. */
  method WithSubmenu(m: Menu, list: seq<Menu>) returns (r: Menu)
    requires Parented(list) && forall c | c in list :: Hangs(m, c)
    ensures r.(list := []) == m.(list := []) && Parented([r]) && Entries(r.list) == Entries(list)
  {
    var merged := Merge(list, m);
    r := m.(list := merged);
    forall c | c in merged ensures Placed(r, Bare(merged), c) {
      HangsBare(m, r, c, c);
    }
    ParentedOne(r);
  }

  /** The loop over the following entries. */
  method Adopt(m: Menu, rest: seq<Menu>, ghost ns: seq<Menu>, ghost exact: bool)
    returns (children: seq<Menu>, rest': seq<Menu>, ghost used: seq<Menu>, ghost todo: seq<Menu>, ghost cancelled: nat)
    requires AsParsed(rest) && m.sym.Some? && Ready(ns, rest, exact)
    ensures ns == used + todo && Ready(todo, rest', exact) && AsParsed(rest')
    ensures |Entries(rest')| <= |Entries(rest)| && forall c | c in rest' :: c in rest
    ensures AllPropagated(Entries(used), Entries(children), exact && cancelled == 0)
    ensures Parented(children)
    ensures forall c | c in children :: Justified(m, c)
    ensures rest' != [] && Condition(rest'[0]).Some? ==> !DependsSymbol(Condition(rest'[0]).value, m.sym.value)
    ensures rest' != [] ==> Fails(m, rest'[0])
    decreases |Entries(rest)|, 2
  {
    children, rest', used, todo, cancelled := [], rest, [], ns, 0;
    while rest' != []
      invariant ns == used + todo && Ready(todo, rest', exact) && AsParsed(rest')
      invariant |Entries(rest')| <= |Entries(rest)| && forall c | c in rest' :: c in rest
      invariant Parented(children) && AllPropagated(Entries(used), Entries(children), exact && cancelled == 0)
      invariant forall c | c in children :: Justified(m, c)
      decreases |Entries(rest')|
    {
      var belongs := Belongs(m, rest'[0]);
      if !belongs {
        break;
      }
      ghost var before, more, also, left := exact && cancelled == 0, 0, [], [];
      var c;
      ghost var first, n := rest'[0], todo[0];
      c, rest', also, left, more := FinalizeNext(rest', todo, exact);
      cancelled := cancelled + more;
      FinalizedMore(used, n, also, children, c, before, exact && more == 0, exact && cancelled == 0);
      HangsBare(m, m, first, c);
      MoveAcross(used, todo, [n] + also, left);
      children, used, todo := children + [c], used + ([n] + also), left;
    }
  }

  /** The tests on one following entry. */
  method Belongs(m: Menu, c: Menu) returns (yes: bool)
    requires m.sym.Some?
    ensures yes ==> Justified(m, c)
    ensures if yes then Passes(m, c) else Fails(m, c)
    ensures !yes && Condition(c).Some? ==> !DependsSymbol(Condition(c).value, m.sym.value)
  {
    var s, dep := m.sym.value, Condition(c);
    if dep.None? {
      return false;
    }
    ContainsExact(dep.value, s);
    if !ContainsSymbol(dep.value, s) {
      DependsContains(dep.value, s);
      return false;
    }
    if DependsSymbol(dep.value, s) {
      return true;
    }
    yes := ImpliedBy(PromptVisibility(m), dep.value);
  }

  lemma SameCondition(a: Menu, c: Menu)
    requires a.(list := []) == c.(list := [])
    ensures Condition(a) == Condition(c)
  {
    assert a.(list := []).visible == a.visible && a.(list := []).dep == a.dep;
  }

  /** `menu_finalize` of the root menu, which has no condition of its own: the menu means what the
      reference makes of it, and exactly so if the optimiser cancelled nothing. */
  method FinalizeRoot(root: Menu) returns (r: Menu, ghost cancelled: nat)
    requires AsParsed(root.list) && root.isBlock && Condition(root).None?
    ensures AllPropagated(Entries(Naive(None, root.list)), Entries(r.list), cancelled == 0)
    ensures r.(list := []) == root.(list := []) && Parented([r])
  {
    var list;
    list, cancelled := FinalizeList(None, root.list, None, true);
    r := WithSubmenu(root, list);
  }
}

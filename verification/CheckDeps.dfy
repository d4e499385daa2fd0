/** The search for recursive dependencies: depth first, with CHECK on the symbols
    of the current path and CHECKED on all symbols seen (sym_check_deps,
    sym_check_expr_deps). */
module CheckDeps {
  import opened Wrappers
  import opened ExprTree
  import opened Symbols

  type Graph = Symbol -> set<Symbol>

  ghost predicate IsPath(g: Graph, p: seq<Symbol>) {
    forall i {:trigger g(p[i])} :: 0 <= i < |p| - 1 ==> p[i+1] in g(p[i])
  }

  ghost predicate IsCycle(g: Graph, p: seq<Symbol>) {
    |p| >= 2 && p[0] == p[|p|-1] && IsPath(g, p)
  }

  ghost predicate HasCycle(g: Graph) {
    exists p :: IsCycle(g, p)
  }

  ghost function GraphOf(defs: map<Symbol, Def>): Graph {
    s => Deps(defs, s)
  }

  lemma {:induction false} RankFalls(g: Graph, rank: Rank, p: seq<Symbol>)
    requires forall s, d :: d in g(s) ==> rank(d) < rank(s)
    requires |p| >= 2 && IsPath(g, p)
    ensures rank(p[|p|-1]) < rank(p[0])
  {
    assert p[1] in g(p[0]);
    if |p| > 2 {
      var q := p[1..];
      forall i | 0 <= i < |q| - 1 ensures q[i+1] in g(q[i]) { assert g(p[i+1]) == g(q[i]); }
      RankFalls(g, rank, q);
    }
  }

  lemma RankedNoCycle(defs: map<Symbol, Def>, rank: Rank)
    requires Ranked(defs, rank)
    ensures !HasCycle(GraphOf(defs))
  {
    var g := GraphOf(defs);
    forall p | |p| >= 2 && IsPath(g, p) ensures p[0] != p[|p|-1] { RankFalls(g, rank, p); }
  }

  /** The current path, last symbol first. */
  datatype Path = Start | Step(last: Symbol, before: Path)

  ghost function Elems(p: Path): set<Symbol> {
    match p
    case Start => {}
    case Step(s, q) => {s} + Elems(q)
  }

  /** Each symbol of the path is a new one, and a dependency of the symbol before it. */
  ghost predicate Follows(g: Graph, p: Path) {
    p.Step? ==> Follows(g, p.before) && p.last !in Elems(p.before) && Next(g, p.before, p.last)
  }

  ghost predicate Next(g: Graph, p: Path, s: Symbol) {
    p.Step? ==> s in g(p.last)
  }

  ghost predicate Closed(g: Graph, all: set<Symbol>) {
    forall s | s in all :: g(s) <= all
  }

  /** Symbols in the order in which they were finished, latest first: each after all
      it depends on. */
  ghost predicate Topological(g: Graph, order: Path) {
    order.Step? ==>
      && Topological(g, order.before)
      && order.last !in Elems(order.before) && g(order.last) <= Elems(order.before)
  }

  /** What was seen is finished or on the path. */
  ghost predicate Finished(g: Graph, check: set<Symbol>, checked: set<Symbol>, order: Path) {
    checked == Elems(order) + check && Elems(order) !! check && Topological(g, order)
  }

  ghost predicate Inv(g: Graph, all: set<Symbol>, check: set<Symbol>, checked: set<Symbol>, reported: bool,
                      path: Path, order: Path)
  {
    && check <= checked <= all
    && check == Elems(path) && Follows(g, path)
    && (reported ==> HasCycle(g))
    && (!reported ==> Finished(g, check, checked, order))
  }

  lemma {:induction false} PathTo(g: Graph, path: Path, s: Symbol) returns (p: seq<Symbol>)
    requires Follows(g, path) && s in Elems(path)
    ensures p != [] && p[0] == s && p[|p|-1] == path.last && IsPath(g, p)
  {
    if path.last == s {
      p := [s];
    } else {
      var q := PathTo(g, path.before, s);
      p := q + [path.last];
      forall i | 0 <= i < |p| - 1 ensures p[i+1] in g(p[i]) {
        if i < |q| - 1 { assert q[i+1] in g(q[i]); }
      }
    }
  }

  /** Coming back to a symbol of the path closes a cycle. */
  lemma CloseCycle(g: Graph, path: Path, s: Symbol)
    requires Follows(g, path) && s in Elems(path) && Next(g, path, s)
    ensures HasCycle(g)
  {
    var q := PathTo(g, path, s);
    var p := q + [s];
    forall i | 0 <= i < |p| - 1 ensures p[i+1] in g(p[i]) {
      if i < |q| - 1 { assert q[i+1] in g(q[i]); }
    }
    assert IsCycle(g, p);
  }

  lemma Enter(g: Graph, all: set<Symbol>, check: set<Symbol>, checked: set<Symbol>, reported: bool,
              path: Path, order: Path, s: Symbol)
    requires Inv(g, all, check, checked, reported, path, order) && Next(g, path, s) && s in all && s !in checked
    ensures Inv(g, all, check + {s}, checked + {s}, reported, Step(s, path), order)
  {
  }

  lemma Leave(g: Graph, all: set<Symbol>, check: set<Symbol>, checked: set<Symbol>, reported: bool,
              path: Path, order: Path, s: Symbol)
    requires Inv(g, all, check, checked, reported, path, order) && path.Step? && path.last == s
    requires !reported ==> g(s) <= Elems(order)
    ensures Inv(g, all, check - {s}, checked, reported, path.before, Step(s, order))
  {
    assert check - {s} == Elems(path.before);
  }

  class Checker {
    const defs: map<Symbol, Def>
    var check: set<Symbol>
    var checked: set<Symbol>
    var reported: bool
    ghost const all: set<Symbol>
    ghost const g: Graph
    ghost var path: Path
    ghost var order: Path

    ghost predicate Valid()
      reads this
    {
      && Closed(g, all) && (forall s {:trigger Deps(defs, s)} :: g(s) == Deps(defs, s))
      && Inv(g, all, check, checked, reported, path, order)
    }

    twostate predicate Kept()
      reads this
    {
      path == old(path) && check == old(check) && old(checked) <= checked && (old(reported) ==> reported)
      && (!reported ==> old(Elems(order)) <= Elems(order))
    }

    constructor (d: map<Symbol, Def>, ghost symbols: set<Symbol>)
      requires Closed(GraphOf(d), symbols)
      ensures Valid() && defs == d && all == symbols && g == GraphOf(d)
      ensures check == {} && checked == {} && !reported
    {
      defs, all, g := d, symbols, GraphOf(d);
      check, checked, reported, path, order := {}, {}, false, Start, Start;
    }

    method CheckExpr(e: Expr) returns (r: Option<Symbol>)
      requires Valid() && SymsOf(e) <= all && forall s | s in SymsOf(e) :: Next(g, path, s)
      modifies this
      ensures Valid() && Kept()
      ensures r.Some? ==> reported && r.value in check
      ensures !reported ==> SymsOf(e) <= Elems(order)
      decreases all - checked, 2, e
    {
      match e
      case Bin(_, l, x) =>
        r := CheckExpr(l);
        if r.None? { r := CheckExpr(x); }
      case Not(x) =>
        r := CheckExpr(x);
      case Cmp(_, a, b) =>
        r := CheckTwo(a, b);
      case Sym(s) =>
        r := Check(s);
    }

    method CheckTwo(a: Symbol, b: Symbol) returns (r: Option<Symbol>)
      requires Valid() && a in all && b in all && Next(g, path, a) && Next(g, path, b)
      modifies this
      ensures Valid() && Kept()
      ensures r.Some? ==> reported && r.value in check
      ensures !reported ==> a in Elems(order) && b in Elems(order)
      decreases all - checked, 1
    {
      r := Check(a);
      if r.None? { r := Check(b); }
    }

    method Check(s: Symbol) returns (r: Option<Symbol>)
      requires Valid() && s in all && Next(g, path, s)
      modifies this
      ensures Valid() && Kept()
      ensures r.Some? ==> reported && r.value in check
      ensures !reported ==> s in Elems(order)
      decreases all - checked, 0
    {
      if s in check {
        CloseCycle(g, path, s);
        reported := true;
        return Some(s);
      }
      if s in checked {
        return None;
      }
      Enter(g, all, check, checked, reported, path, order, s);
      check, checked, path := check + {s}, checked + {s}, Step(s, path);
      r := CheckDef(s);
      if r == Some(s) {
        r := None;
      }
      Leave(g, all, check, checked, reported, path, order, s);
      check, path, order := check - {s}, path.before, Step(s, order);
    }

    /** Reverse dependency, conditions and defaults of one symbol. */
    method CheckDef(s: Symbol) returns (r: Option<Symbol>)
      requires Valid() && s in all && path.Step? && path.last == s
      modifies this
      ensures Valid() && Kept()
      ensures r.Some? ==> reported && r.value in check
      ensures !reported ==> g(s) <= Elems(order)
      decreases all - checked, 5
    {
      var def := DefOf(defs, s);
      DepsOf(defs, s);
      assert g(s) == Deps(defs, s);
      r := CheckOpt(def.revDep, s);
      if r.Some? {
        return;
      }
      for i := 0 to |def.props|
        invariant Valid() && Kept() && r.None?
        invariant !reported ==> OptSyms(def.revDep) + PropsSyms(def.props[..i]) <= Elems(order)
      {
        assert def.props[i] in def.props;
        PropsSymsStep(def.props, i);
        r := CheckProp(def.props[i], s);
        if r.Some? {
          return;
        }
      }
      assert def.props[..|def.props|] == def.props;
    }

    method CheckProp(p: Prop, s: Symbol) returns (r: Option<Symbol>)
      requires Valid() && s in all && path.Step? && path.last == s
      requires PropSyms(p) <= g(s)
      modifies this
      ensures Valid() && Kept()
      ensures r.Some? ==> reported && r.value in check
      ensures !reported ==> PropSyms(p) <= Elems(order)
      decreases all - checked, 4
    {
      if p.ptype.ChoiceProp? || p.ptype.SelectProp? {
        return None;
      }
      r := CheckOpt(p.visible, s);
      if r.None? && p.ptype.DefaultProp? {
        r := CheckOpt(p.expr, s);
      }
    }

    method CheckOpt(e: Option<Expr>, s: Symbol) returns (r: Option<Symbol>)
      requires Valid() && s in all && path.Step? && path.last == s
      requires OptSyms(e) <= g(s)
      modifies this
      ensures Valid() && Kept()
      ensures r.Some? ==> reported && r.value in check
      ensures !reported ==> OptSyms(e) <= Elems(order)
      decreases all - checked, 3
    {
      r := None;
      if e.Some? { r := CheckExpr(e.value); }
    }
  }

  // ----- all symbols -----

  /** Every call returns without a symbol: the symbol a cycle was found at is dropped
      again when the search is back at it. */
  method CheckEach(c: Checker, symbols: seq<Symbol>)
    requires c.Valid() && c.path == Start && forall s | s in symbols :: s in c.all
    modifies c
    ensures c.Valid() && c.path == Start
    ensures !c.reported ==> forall s | s in symbols :: s in Elems(c.order)
  {
    for i := 0 to |symbols|
      invariant c.Valid() && c.path == Start
      invariant !c.reported ==> forall k | 0 <= k < i :: symbols[k] in Elems(c.order)
    {
      var r := c.Check(symbols[i]);
      assert r.None?;
    }
  }

  function Length(p: Path): nat {
    if p.Step? then 1 + Length(p.before) else 0
  }

  /** The place of a symbol in the order of completion; 0 when it is not there. */
  function Place(order: Path, s: Symbol): nat {
    match order
    case Start => 0
    case Step(x, o) => if x == s then Length(order) else Place(o, s)
  }

  lemma {:induction false} PlaceBound(order: Path, s: Symbol)
    ensures Place(order, s) <= Length(order)
    ensures s in Elems(order) ==> Place(order, s) > 0
  {
    if order.Step? { PlaceBound(order.before, s); }
  }

  lemma {:induction false} PlaceRanks(g: Graph, order: Path, s: Symbol, d: Symbol)
    requires Topological(g, order) && s in Elems(order) && d in g(s)
    ensures Place(order, d) < Place(order, s)
  {
    if order.last == s {
      PlaceBound(order.before, d);
    } else {
      PlaceRanks(g, order.before, s, d);
      if order.last == d {
        DepsEarlier(g, order.before, s);
      }
    }
  }

  lemma {:induction false} DepsEarlier(g: Graph, order: Path, s: Symbol)
    requires Topological(g, order) && s in Elems(order)
    ensures g(s) <= Elems(order)
  {
    if order.last != s { DepsEarlier(g, order.before, s); }
  }

  /** All symbols of a configuration: what is defined and what is mentioned. */
  ghost predicate Complete(defs: map<Symbol, Def>, symbols: seq<Symbol>) {
    && (forall s | s in defs :: s in symbols && s.Config?)
    && (forall s, d | s in symbols && d in Deps(defs, s) :: d in symbols || !d.Config?)
  }

  lemma Undefined(defs: map<Symbol, Def>, s: Symbol)
    requires s !in defs
    ensures Deps(defs, s) == {}
  {
  }

  ghost function Mentioned(defs: map<Symbol, Def>, symbols: seq<Symbol>): set<Symbol> {
    (set s | s in symbols) + (set s, d | s in symbols && d in Deps(defs, s) :: d)
  }

  lemma MentionedClosed(defs: map<Symbol, Def>, symbols: seq<Symbol>)
    requires Complete(defs, symbols)
    ensures Closed(GraphOf(defs), Mentioned(defs, symbols))
  {
    var all := Mentioned(defs, symbols);
    forall s | s in all ensures GraphOf(defs)(s) <= all {
      if s !in symbols { Undefined(defs, s); }
    }
  }

  lemma OrderRanks(defs: map<Symbol, Def>, symbols: seq<Symbol>, order: Path)
    requires Complete(defs, symbols) && Topological(GraphOf(defs), order)
    requires forall s | s in symbols :: s in Elems(order)
    ensures Ranked(defs, s => Place(order, s))
  {
    forall s, d | d in Deps(defs, s) ensures Place(order, d) < Place(order, s) {
      if s !in defs { Undefined(defs, s); }
      PlaceRanks(GraphOf(defs), order, s, d);
    }
  }

  /** A recursive dependency is reported exactly when there is one; otherwise the
      symbols can be ranked, which is what plain evaluation needs. */
  method CheckAll(defs: map<Symbol, Def>, symbols: seq<Symbol>) returns (reported: bool, ghost rank: Rank)
    requires Complete(defs, symbols)
    ensures reported <==> HasCycle(GraphOf(defs))
    ensures !reported ==> Ranked(defs, rank)
  {
    MentionedClosed(defs, symbols);
    var c := new Checker(defs, Mentioned(defs, symbols));
    CheckEach(c, symbols);
    reported := c.reported;
    ghost var order := c.order;
    rank := s => Place(order, s);
    if !reported {
      OrderRanks(defs, symbols, order);
      RankedNoCycle(defs, rank);
    }
  }
}

/** Symbol definitions and the value they prescribe: visibility, reverse
    dependency, user value and defaults (symbol.c). */
module Symbols {
  import opened Wrappers
  import opened Tristate
  import opened ExprTree

  datatype PropType = PromptProp | CommentProp | MenuProp | DefaultProp | ChoiceProp | SelectProp | RangeProp

  /** `text` says whether the property carries a prompt text. */
  datatype Prop = Prop(ptype: PropType, text: bool, visible: Option<Expr>, expr: Option<Expr>)

  datatype Def = Def(props: seq<Prop>, revDep: Option<Expr>)

  datatype UserValue = UserValue(tri: Tri, text: string)

  datatype Conf = Conf(defs: map<Symbol, Def>, user: map<Symbol, UserValue>, modules: Tri)

  datatype Value = Value(text: string, tri: Tri)

  function DefOf(defs: map<Symbol, Def>, s: Symbol): Def {
    if s in defs then defs[s] else Def([], None)
  }

  // ----- the value of one symbol, given the values of the others -----

  /** The declared type, except that without modules a tristate is a boolean. */
  predicate ActsBoolean(s: Symbol, modules: Tri) {
    s.HasKind(Boolean) || (s.HasKind(TristateKind) && modules == NO)
  }

  /** The best visibility of any prompt. */
  function PromptMax(props: seq<Prop>, env: Env): Tri {
    if props == [] then NO
    else
      var last := props[|props|-1];
      var rest := PromptMax(props[..|props|-1], env);
      if last.text then Apply(Disj, rest, OptVal(last.visible, env)) else rest
  }

  function Visibility(c: Conf, s: Symbol, env: Env): Tri {
    var tri := PromptMax(DefOf(c.defs, s).props, env);
    if tri == MOD && (!s.HasKind(TristateKind) || c.modules == NO) then YES else tri
  }

  function Reverse(c: Conf, s: Symbol, env: Env): Tri {
    var rev := DefOf(c.defs, s).revDep;
    var tri := if rev.Some? then Val(rev.value, env) else NO;
    if tri == MOD && ActsBoolean(s, c.modules) then YES else tri
  }

  /** The first default whose condition holds. */
  function Default(props: seq<Prop>, env: Env): Option<Prop> {
    if props == [] then None
    else if props[0].ptype.DefaultProp? && OptVal(props[0].visible, env) != NO then Some(props[0])
    else Default(props[1..], env)
  }

  lemma PromptMaxStep(props: seq<Prop>, i: nat, env: Env)
    requires i < |props|
    ensures PromptMax(props[..i+1], env) ==
            if props[i].text then Apply(Disj, PromptMax(props[..i], env), OptVal(props[i].visible, env))
            else PromptMax(props[..i], env)
  {
    assert props[..i+1][..i] == props[..i];
  }

  lemma DefaultStep(props: seq<Prop>, i: nat, env: Env)
    requires i < |props|
    ensures Default(props[i..], env) ==
            if props[i].ptype.DefaultProp? && OptVal(props[i].visible, env) != NO then Some(props[i])
            else Default(props[i+1..], env)
  {
    assert props[i..][1..] == props[i+1..];
  }

  /** The tristate a default prescribes; n without one. */
  function DefaultTri(props: seq<Prop>, env: Env): Tri {
    var d := Default(props, env);
    if d.Some? then OptVal(d.value.expr, env) else NO
  }

  /** A wish between visibility and reverse dependency, or the default when neither
      is set; m is not for booleans. */
  function Clamp(wish: Tri, vis: Tri, rev: Tri, dflt: Tri, isBool: bool): Tri {
    var tri := if Apply(Disj, vis, rev) != NO then Apply(Disj, Apply(Conj, wish, vis), rev) else dflt;
    if tri == MOD && isBool then YES else tri
  }

  function ComputeTri(c: Conf, s: Symbol, env: Env): Tri {
    var dflt := DefaultTri(DefOf(c.defs, s).props, env);
    Clamp(if s in c.user then c.user[s].tri else dflt, Visibility(c, s, env), Reverse(c, s, env), dflt,
          ActsBoolean(s, c.modules))
  }

  function ComputeText(c: Conf, s: Symbol, env: Env): string {
    if Visibility(c, s, env) != NO && s in c.user then c.user[s].text
    else DefaultText(DefOf(c.defs, s).props, env)
  }

  /** The text a default prescribes, which must name a symbol. */
  function DefaultText(props: seq<Prop>, env: Env): string {
    var d := Default(props, env);
    if d.Some? && d.value.expr.Some? && d.value.expr.value.Sym? then RawText(d.value.expr.value.sym, env) else ""
  }

  /** The text stored for a symbol; a boolean or tristate always stores "n" there. */
  function RawText(s: Symbol, env: Env): string {
    if s.TriValued() then "n" else SymText(s, env)
  }

  function Compute(c: Conf, s: Symbol, env: Env): Value {
    match s
    case YesSym => Value("y", YES)
    case ModSym => Value("m", MOD)
    case NoSym => Value("n", NO)
    case Const(text) => Value(text, NO)
    case Config(name, kind) =>
      if s.TriValued() then Value("n", ComputeTri(c, s, env))
      else if kind == Unknown then Value(name, NO)
      else Value(ComputeText(c, s, env), NO)
  }

  // ----- dependencies -----

  function SymsOf(e: Expr): set<Symbol> {
    match e
    case Sym(s) => {s}
    case Cmp(_, a, b) => {a, b}
    case Not(x) => SymsOf(x)
    case Bin(_, l, r) => SymsOf(l) + SymsOf(r)
  }

  function OptSyms(e: Option<Expr>): set<Symbol> {
    if e.Some? then SymsOf(e.value) else {}
  }

  /** What the dependency check follows from one property. */
  function PropSyms(p: Prop): set<Symbol> {
    if p.ptype.ChoiceProp? || p.ptype.SelectProp? then {}
    else OptSyms(p.visible) + if p.ptype.DefaultProp? then OptSyms(p.expr) else {}
  }

  function PropsSyms(props: seq<Prop>): set<Symbol> {
    if props == [] then {} else PropSyms(props[0]) + PropsSyms(props[1..])
  }

  lemma {:induction false} PropsSymsStep(props: seq<Prop>, i: nat)
    requires i < |props|
    ensures PropsSyms(props[..i+1]) == PropsSyms(props[..i]) + PropSyms(props[i])
  {
    if i == 0 {
      assert props[..1][1..] == [];
    } else {
      PropsSymsStep(props[1..], i - 1);
      assert props[..i+1][1..] == props[1..][..i] && props[..i][1..] == props[1..][..i-1];
    }
  }

  function Deps(defs: map<Symbol, Def>, s: Symbol): set<Symbol> {
    OptSyms(DefOf(defs, s).revDep) + PropsSyms(DefOf(defs, s).props)
  }

  lemma DepsOf(defs: map<Symbol, Def>, s: Symbol)
    ensures OptSyms(DefOf(defs, s).revDep) <= Deps(defs, s)
    ensures forall p | p in DefOf(defs, s).props :: PropSyms(p) <= Deps(defs, s)
  {
    forall p | p in DefOf(defs, s).props ensures PropSyms(p) <= Deps(defs, s) { PropIn(DefOf(defs, s).props, p); }
  }

  /** Only prompts, comments and menus carry a text. */
  predicate TextsOnPrompts(defs: map<Symbol, Def>) {
    forall s | s in defs :: forall p | p in defs[s].props :: p.text ==> !p.ptype.ChoiceProp? && !p.ptype.SelectProp?
  }

  type Rank = Symbol -> nat

  /** Every symbol ranks above what it depends on: the graph has no cycle. */
  ghost predicate Ranked(defs: map<Symbol, Def>, rank: Rank) {
    forall s, d :: d in Deps(defs, s) ==> rank(d) < rank(s)
  }

  ghost predicate AgreeOn(syms: set<Symbol>, e1: Env, e2: Env) {
    forall s | s in syms :: e1.tri(s) == e2.tri(s) && e1.text(s) == e2.text(s)
  }

  lemma {:induction false} ValAgrees(e: Expr, e1: Env, e2: Env)
    requires AgreeOn(SymsOf(e), e1, e2)
    ensures Val(e, e1) == Val(e, e2)
  {
    match e
    case Not(x) => ValAgrees(x, e1, e2);
    case Bin(_, l, r) =>
      ValAgrees(l, e1, e2);
      ValAgrees(r, e1, e2);
    case Sym(s) => assert s in SymsOf(e);
    case Cmp(_, a, b) => assert a in SymsOf(e) && b in SymsOf(e);
  }

  lemma OptValAgrees(e: Option<Expr>, e1: Env, e2: Env)
    requires AgreeOn(OptSyms(e), e1, e2)
    ensures OptVal(e, e1) == OptVal(e, e2)
  {
    if e.Some? { ValAgrees(e.value, e1, e2); }
  }

  lemma PropBelow(defs: map<Symbol, Def>, rank: Rank, s: Symbol, p: Prop)
    requires Ranked(defs, rank) && p in DefOf(defs, s).props
    ensures forall d | d in PropSyms(p) :: rank(d) < rank(s)
  {
    PropIn(DefOf(defs, s).props, p);
    forall d | d in PropSyms(p) ensures rank(d) < rank(s) { assert d in Deps(defs, s); }
  }

  lemma {:induction false} PropIn(props: seq<Prop>, p: Prop)
    requires p in props
    ensures PropSyms(p) <= PropsSyms(props)
  {
    if p != props[0] { PropIn(props[1..], p); }
  }

  lemma {:induction false} PromptMaxAgrees(props: seq<Prop>, all: seq<Prop>, e1: Env, e2: Env)
    requires forall p | p in props :: p in all && (p.text ==> !p.ptype.ChoiceProp? && !p.ptype.SelectProp?)
    requires AgreeOn(PropsSyms(all), e1, e2)
    ensures PromptMax(props, e1) == PromptMax(props, e2)
  {
    if props != [] {
      var last := props[|props|-1];
      PromptMaxAgrees(props[..|props|-1], all, e1, e2);
      PropIn(all, last);
      if last.text { OptValAgrees(last.visible, e1, e2); }
    }
  }

  lemma {:induction false} DefaultAgrees(props: seq<Prop>, e1: Env, e2: Env)
    requires AgreeOn(PropsSyms(props), e1, e2)
    ensures Default(props, e1) == Default(props, e2)
    ensures var d := Default(props, e1); d.Some? ==> d.value.ptype.DefaultProp? && d.value in props
    ensures DefaultTri(props, e1) == DefaultTri(props, e2)
  {
    if props != [] {
      DefaultAgrees(props[1..], e1, e2);
      if props[0].ptype.DefaultProp? {
        OptValAgrees(props[0].visible, e1, e2);
        OptValAgrees(props[0].expr, e1, e2);
      }
    }
  }

  /** The value of a symbol depends on its dependencies only. */
  lemma ComputeAgrees(c: Conf, s: Symbol, e1: Env, e2: Env)
    requires TextsOnPrompts(c.defs) && AgreeOn(Deps(c.defs, s), e1, e2)
    ensures Compute(c, s, e1) == Compute(c, s, e2)
    ensures Visibility(c, s, e1) == Visibility(c, s, e2) && Reverse(c, s, e1) == Reverse(c, s, e2)
  {
    var def := DefOf(c.defs, s);
    PromptMaxAgrees(def.props, def.props, e1, e2);
    DefaultAgrees(def.props, e1, e2);
    if def.revDep.Some? { ValAgrees(def.revDep.value, e1, e2); }
    var d := Default(def.props, e1);
    if d.Some? && d.value.expr.Some? && d.value.expr.value.Sym? {
      PropIn(def.props, d.value);
      assert d.value.expr.value.sym in Deps(c.defs, s);
    }
  }

  // ----- the values of all symbols -----

  ghost function EnvOf(v: Symbol -> Value): Env {
    Env(s => v(s).tri, s => v(s).text)
  }

  /** Plain recursive evaluation: compute every dependency again, cache nothing. */
  ghost function Eval(c: Conf, rank: Rank, s: Symbol): Value
    decreases rank(s)
  {
    Compute(c, s, Env(t => if rank(t) < rank(s) then Eval(c, rank, t).tri else NO,
                      t => if rank(t) < rank(s) then Eval(c, rank, t).text else ""))
  }

  ghost function EvalEnv(c: Conf, rank: Rank): Env {
    Env(s => Eval(c, rank, s).tri, s => Eval(c, rank, s).text)
  }

  /** `v` gives every symbol the value its definition prescribes. */
  ghost predicate Solves(c: Conf, v: Symbol -> Value) {
    forall s :: v(s) == Compute(c, s, EnvOf(v))
  }

  /** Without cycles the recursive evaluation is a solution ... */
  lemma EvalSolves(c: Conf, rank: Rank, s: Symbol)
    requires TextsOnPrompts(c.defs) && Ranked(c.defs, rank)
    ensures Eval(c, rank, s) == Compute(c, s, EvalEnv(c, rank))
  {
    var below := Env(t => if rank(t) < rank(s) then Eval(c, rank, t).tri else NO,
                     t => if rank(t) < rank(s) then Eval(c, rank, t).text else "");
    assert Eval(c, rank, s) == Compute(c, s, below);
    ComputeAgrees(c, s, below, EvalEnv(c, rank));
  }

  /** ... and the only one. */
  lemma {:induction false} SolutionUnique(c: Conf, rank: Rank, v: Symbol -> Value, s: Symbol)
    requires TextsOnPrompts(c.defs) && Ranked(c.defs, rank) && Solves(c, v)
    ensures v(s) == Eval(c, rank, s)
    decreases rank(s)
  {
    forall t | t in Deps(c.defs, s) ensures v(t) == Eval(c, rank, t) {
      SolutionUnique(c, rank, v, t);
    }
    EvalSolves(c, rank, s);
    ComputeAgrees(c, s, EnvOf(v), EvalEnv(c, rank));
  }

  /** Every configuration is well typed for the expression rewriters. */
  lemma EvalWellTyped(c: Conf, rank: Rank)
    ensures WellTyped(EvalEnv(c, rank))
  {
    forall s: Symbol | s.HasKind(Boolean) ensures Eval(c, rank, s).tri != MOD { }
  }

  /** In every configuration a boolean is n or y, and a visible or selected symbol lies
      between its reverse dependency and the larger of visibility and reverse dependency. */
  lemma EvalBounds(c: Conf, rank: Rank, s: Symbol)
    requires TextsOnPrompts(c.defs) && Ranked(c.defs, rank) && s.TriValued()
    ensures ActsBoolean(s, c.modules) ==> Eval(c, rank, s).tri != MOD
    ensures var vis, rev := Visibility(c, s, EvalEnv(c, rank)), Reverse(c, s, EvalEnv(c, rank));
            Apply(Disj, vis, rev) != NO ==> rev <= Eval(c, rank, s).tri <= Apply(Disj, vis, rev)
  {
    EvalSolves(c, rank, s);
  }

  // ----- changing a user value -----

  function WithUser(c: Conf, s: Symbol, u: UserValue): Conf {
    c.(user := c.user[s := u])
  }

  /** sym_tristate_within_range, for a symbol with this visibility and reverse dependency. */
  predicate WithinRange(s: Symbol, modules: Tri, vis: Tri, rev: Tri, val: Tri) {
    && vis != NO && s.TriValued()
    && !(ActsBoolean(s, modules) && val == MOD)
    && vis > rev
    && rev <= val <= vis
  }

  lemma ComputeOther(c: Conf, s: Symbol, u: UserValue, t: Symbol, env: Env)
    ensures t != s ==> Compute(WithUser(c, s, u), t, env) == Compute(c, t, env)
    ensures Visibility(WithUser(c, s, u), t, env) == Visibility(c, t, env)
    ensures Reverse(WithUser(c, s, u), t, env) == Reverse(c, t, env)
  {
  }

  /** A change at `s` is not seen by any other symbol of rank up to that of `s`. */
  lemma {:induction false} UserChangeFrame(c: Conf, rank: Rank, s: Symbol, u: UserValue, t: Symbol)
    requires TextsOnPrompts(c.defs) && Ranked(c.defs, rank)
    requires t != s && rank(t) <= rank(s)
    ensures Eval(WithUser(c, s, u), rank, t) == Eval(c, rank, t)
    decreases rank(t)
  {
    var c' := WithUser(c, s, u);
    forall d | d in Deps(c.defs, t) ensures Eval(c', rank, d) == Eval(c, rank, d) {
      UserChangeFrame(c, rank, s, u, d);
    }
    EvalSolves(c, rank, t);
    EvalSolves(c', rank, t);
    ComputeOther(c, s, u, t, EvalEnv(c', rank));
    ComputeAgrees(c, t, EvalEnv(c, rank), EvalEnv(c', rank));
  }

  lemma UserChangeHere(c: Conf, rank: Rank, s: Symbol, u: UserValue)
    requires TextsOnPrompts(c.defs) && Ranked(c.defs, rank)
    ensures Eval(WithUser(c, s, u), rank, s) == Compute(WithUser(c, s, u), s, EvalEnv(c, rank))
  {
    var c' := WithUser(c, s, u);
    forall d | d in Deps(c.defs, s) ensures Eval(c', rank, d) == Eval(c, rank, d) {
      UserChangeFrame(c, rank, s, u, d);
    }
    EvalSolves(c', rank, s);
    ComputeAgrees(c', s, EvalEnv(c, rank), EvalEnv(c', rank));
  }

  /** Clamping returns a wish unchanged exactly when it is in range or what another
      wish was clamped to. */
  lemma ClampExact(s: Symbol, modules: Tri, prev: Tri, val: Tri, vis: Tri, rev: Tri, dflt: Tri)
    requires s.TriValued()
    requires ActsBoolean(s, modules) ==> vis != MOD && rev != MOD
    ensures var b := ActsBoolean(s, modules);
            Clamp(val, vis, rev, dflt, b) == val <==>
            (val == Clamp(prev, vis, rev, dflt, b) || WithinRange(s, modules, vis, rev, val))
  {
  }

  /** A new user value takes effect exactly when it is the present value or within
      the range that the source accepts. */
  lemma UserValueTakesEffect(c: Conf, rank: Rank, s: Symbol, u: UserValue)
    requires TextsOnPrompts(c.defs) && Ranked(c.defs, rank) && s.TriValued()
    ensures var env := EvalEnv(c, rank);
            Eval(WithUser(c, s, u), rank, s).tri == u.tri <==>
            (u.tri == Eval(c, rank, s).tri ||
             WithinRange(s, c.modules, Visibility(c, s, env), Reverse(c, s, env), u.tri))
  {
    UserChangeHere(c, rank, s, u);
    EvalSolves(c, rank, s);
    var env := EvalEnv(c, rank);
    ComputeOther(c, s, u, s, env);
    var dflt := DefaultTri(DefOf(c.defs, s).props, env);
    ClampExact(s, c.modules, if s in c.user then c.user[s].tri else dflt, u.tri,
               Visibility(c, s, env), Reverse(c, s, env), dflt);
  }

  /** Storing the present value as user value changes no symbol at all, so nothing
      needs to be calculated again. */
  lemma {:induction false} SameUserValue(c: Conf, rank: Rank, s: Symbol, u: UserValue, t: Symbol)
    requires TextsOnPrompts(c.defs) && Ranked(c.defs, rank) && s.TriValued()
    requires u.tri == Eval(c, rank, s).tri
    ensures Eval(WithUser(c, s, u), rank, t) == Eval(c, rank, t)
    decreases rank(t)
  {
    var c' := WithUser(c, s, u);
    if t == s {
      UserChangeHere(c, rank, s, u);
      UserValueTakesEffect(c, rank, s, u);
      EvalSolves(c, rank, s);
    } else {
      forall d | d in Deps(c.defs, t) ensures Eval(c', rank, d) == Eval(c, rank, d) {
        SameUserValue(c, rank, s, u, d);
      }
      EvalSolves(c, rank, t);
      EvalSolves(c', rank, t);
      ComputeOther(c, s, u, t, EvalEnv(c', rank));
      ComputeAgrees(c, t, EvalEnv(c, rank), EvalEnv(c', rank));
    }
  }
}

/** What menu entries are, what they inherit and when they nest (menu.c:254-312). */
module MenuRules {
  import opened Wrappers
  import opened Tristate
  import opened ExprTree
  import opened Normalize
  import opened Dups
  import opened Compare
  import opened DupsNormal
  import opened MenuTree

  datatype Prompt = Prompt(visible: Option<Expr>, text: bool)

  /** The other properties that an entry gives its symbol, with the condition of each. */
  datatype Clause = Default(value: Expr, visible: Option<Expr>) | Select(target: Symbol, visible: Option<Expr>)

  datatype Info = Info(sym: Option<Symbol>, prompt: Option<Prompt>, clauses: seq<Clause>, dep: Option<Expr>)

  // ----- dependencies -----

  /** expr_alloc_and: a missing operand is left out. */
  function AllocAnd(a: Option<Expr>, b: Option<Expr>): Option<Expr> {
    if a.None? then b else if b.None? then a else Some(Bin(Conj, a.value, b.value))
  }

  /** Combine an inherited condition with an own one and simplify. */
  function Inherit(outer: Option<Expr>, own: Option<Expr>): Option<Expr> {
    var e := AllocAnd(outer, if own.Some? then Some(Transform(own.value)) else None);
    if e.Some? then Some(EliminateDups(e.value)) else None
  }

  /** The condition a menu passes on to its entries. */
  function Passed(i: Info): Option<Expr> {
    if i.prompt.Some? then i.prompt.value.visible else i.dep
  }

  /** The condition of one property, given the condition of its entry. */
  function Narrow(sym: Option<Symbol>, dep: Option<Expr>, visible: Option<Expr>): Option<Expr> {
    var vis := Inherit(dep, visible);
    if vis.Some? && sym.Some? && !sym.value.HasKind(TristateKind) then Some(TransBool(vis.value)) else vis
  }

  function NarrowAll(sym: Option<Symbol>, dep: Option<Expr>, clauses: seq<Clause>): (r: seq<Clause>)
    ensures |r| == |clauses|
  {
    if clauses == [] then []
    else [clauses[0].(visible := Narrow(sym, dep, clauses[0].visible))] + NarrowAll(sym, dep, clauses[1..])
  }

  function WithOuter(outer: Option<Expr>, i: Info): Info {
    var dep := Inherit(outer, i.dep);
    var prompt := if i.prompt.None? then None
                  else Some(i.prompt.value.(visible := Narrow(i.sym, dep, i.prompt.value.visible)));
    i.(dep := dep, prompt := prompt, clauses := NarrowAll(i.sym, dep, i.clauses))
  }

  /** Inherited conditions are conjunctions, up to simplification. */
  lemma InheritRefines(outer: Option<Expr>, own: Option<Expr>, env: Env)
    requires WellTyped(env)
    ensures Refines(Apply(Conj, OptVal(outer, env), OptVal(own, env)), OptVal(Inherit(outer, own), env))
  {
    if own.Some? { TransformExact(own.value, env); }
    var e := AllocAnd(outer, if own.Some? then Some(Transform(own.value)) else None);
    if e.Some? { EliminateDupsRefines(e.value, env); }
  }

  /** The entry `m` is taken in by its predecessor `p`. */
  predicate Takes(p: Info, m: Info) {
    p.sym.Some? && Nests(p.sym.value, if p.prompt.Some? then p.prompt.value.visible else None, Passed(m))
  }

  predicate Promptless(i: Info) {
    i.prompt.None? || !i.prompt.value.text
  }

  const MENU_RULES: Rules<Info> :=
    Rules((p: Info, i: Info) => WithOuter(Passed(p), i), (p: Info, m: Info) => Takes(p, m), (i: Info) => Promptless(i))

  // ----- conditions stay in normal form -----

  predicate NormalOpt(e: Option<Expr>) {
    e.Some? ==> Normal(e.value)
  }

  predicate Normed(i: Info) {
    && NormalOpt(i.dep) && (i.prompt.Some? ==> NormalOpt(i.prompt.value.visible))
    && NormalClauses(i.clauses)
  }

  predicate NormalClauses(clauses: seq<Clause>) {
    clauses != [] ==> NormalOpt(clauses[0].visible) && NormalClauses(clauses[1..])
  }

  lemma InheritNormal(outer: Option<Expr>, own: Option<Expr>)
    requires NormalOpt(outer)
    ensures NormalOpt(Inherit(outer, own))
  {
    if own.Some? { TransformNormal(own.value); }
    var e := AllocAnd(outer, if own.Some? then Some(Transform(own.value)) else None);
    if e.Some? { EliminateDupsNormal(e.value); }
  }

  lemma NarrowNormal(sym: Option<Symbol>, dep: Option<Expr>, visible: Option<Expr>)
    requires NormalOpt(dep)
    ensures NormalOpt(Narrow(sym, dep, visible))
  {
    InheritNormal(dep, visible);
    var vis := Inherit(dep, visible);
    if vis.Some? { TransBoolNormal(vis.value); }
  }

  lemma {:induction false} NarrowAllNormal(sym: Option<Symbol>, dep: Option<Expr>, clauses: seq<Clause>)
    requires NormalOpt(dep)
    ensures NormalClauses(NarrowAll(sym, dep, clauses))
  {
    if clauses != [] {
      NarrowNormal(sym, dep, clauses[0].visible);
      NarrowAllNormal(sym, dep, clauses[1..]);
    }
  }

  lemma WithOuterNormal(outer: Option<Expr>, i: Info)
    requires NormalOpt(outer)
    ensures Normed(WithOuter(outer, i))
  {
    InheritNormal(outer, i.dep);
    var dep := Inherit(outer, i.dep);
    if i.prompt.Some? { NarrowNormal(i.sym, dep, i.prompt.value.visible); }
    NarrowAllNormal(i.sym, dep, i.clauses);
  }

  /** After menu_finalize every condition in the tree is in normal form, so that no
      visibility was changed by the step from comparisons to symbols. */
  lemma FinalizedNormal(root: Tree<Info>)
    requires Normed(root.info)
    ensures All(i => Normed(i), Finalize(MENU_RULES, root, Nil).0.kids)
  {
    forall i: Info, j: Info | Normed(i) ensures Normed(MENU_RULES.pass(i, j)) {
      WithOuterNormal(Passed(i), j);
    }
    FinalizeAllHave(MENU_RULES, (i: Info) => Normed(i), root, Nil);
  }

  // ----- what an entry shows -----

  /** The entry is shown: its prompt, or without one its dependency, is not n. */
  predicate Shown(i: Info, env: Env) {
    OptVal(Passed(i), env) != NO
  }

  lemma InheritShown(outer: Option<Expr>, own: Option<Expr>, env: Env)
    requires WellTyped(env)
    ensures OptVal(Inherit(outer, own), env) != NO ==> OptVal(outer, env) != NO && OptVal(own, env) != NO
    ensures OptVal(outer, env) == YES && OptVal(own, env) == YES ==> OptVal(Inherit(outer, own), env) == YES
  {
    InheritRefines(outer, own, env);
  }

  /** A property counts only while its entry and its own condition do, and it does so
      whenever both are y. */
  lemma NarrowShown(sym: Option<Symbol>, dep: Option<Expr>, visible: Option<Expr>, env: Env)
    requires WellTyped(env) && NormalOpt(dep)
    ensures var v := OptVal(Narrow(sym, dep, visible), env);
            && (v != NO ==> OptVal(dep, env) != NO && OptVal(visible, env) != NO)
            && (OptVal(dep, env) == OptVal(visible, env) == YES ==> v != NO)
  {
    InheritShown(dep, visible, env);
    InheritNormal(dep, visible);
    var vis := Inherit(dep, visible);
    if vis.Some? { TransBoolPromoted(vis.value, env); }
  }

  /** An entry is shown only while its menu and its own conditions are, and it is shown
      whenever all of them are y. */
  lemma WithOuterShown(outer: Option<Expr>, i: Info, env: Env)
    requires WellTyped(env) && NormalOpt(outer)
    ensures Shown(WithOuter(outer, i), env) ==>
              OptVal(outer, env) != NO && OptVal(i.dep, env) != NO && Own(i, env) != NO
    ensures OptVal(outer, env) == OptVal(i.dep, env) == Own(i, env) == YES ==> Shown(WithOuter(outer, i), env)
  {
    InheritShown(outer, i.dep, env);
    InheritNormal(outer, i.dep);
    if i.prompt.Some? { NarrowShown(i.sym, Inherit(outer, i.dep), i.prompt.value.visible, env); }
  }

  /** The same for its other properties. */
  lemma {:induction false} ClausesShown(outer: Option<Expr>, i: Info, env: Env, k: nat)
    requires WellTyped(env) && NormalOpt(outer) && k < |i.clauses|
    ensures var c, v := i.clauses[k], OptVal(WithOuter(outer, i).clauses[k].visible, env);
            && WithOuter(outer, i).clauses[k] == c.(visible := WithOuter(outer, i).clauses[k].visible)
            && (v != NO ==> OptVal(outer, env) != NO && OptVal(i.dep, env) != NO && OptVal(c.visible, env) != NO)
            && (OptVal(outer, env) == OptVal(i.dep, env) == OptVal(c.visible, env) == YES ==> v != NO)
  {
    var dep := Inherit(outer, i.dep);
    InheritShown(outer, i.dep, env);
    InheritNormal(outer, i.dep);
    NarrowAllAt(i.sym, dep, i.clauses, k);
    NarrowShown(i.sym, dep, i.clauses[k].visible, env);
  }

  lemma {:induction false} NarrowAllAt(sym: Option<Symbol>, dep: Option<Expr>, clauses: seq<Clause>, k: nat)
    requires k < |clauses|
    ensures NarrowAll(sym, dep, clauses)[k] == clauses[k].(visible := Narrow(sym, dep, clauses[k].visible))
  {
    if k > 0 { NarrowAllAt(sym, dep, clauses[1..], k - 1); }
  }

  /** The condition of the prompt itself. */
  function Own(i: Info, env: Env): Tri {
    if i.prompt.Some? then OptVal(i.prompt.value.visible, env) else YES
  }

  // ----- the whole tree -----

  /** An entry that is shown has a root that is. */
  predicate Under(root: Info, i: Info, env: Env) {
    Normed(i) && (Shown(i, env) ==> Shown(root, env))
  }

  /** Nothing in the finished tree is shown while the root is not. */
  lemma FinalizedShown(root: Tree<Info>, env: Env)
    requires WellTyped(env) && Normed(root.info)
    ensures All((i: Info) => Under(root.info, i, env), Finalize(MENU_RULES, root, Nil).0.kids)
  {
    var p := (i: Info) => Under(root.info, i, env);
    forall i: Info, j: Info | p(i) ensures p(MENU_RULES.pass(i, j)) {
      WithOuterNormal(Passed(i), j);
      WithOuterShown(Passed(i), j, env);
    }
    FinalizeAllHave(MENU_RULES, p, root, Nil);
  }

  // ----- what an entry keeps -----

  /** The properties without their conditions: default values and select targets. */
  function Bare(clauses: seq<Clause>): seq<Clause> {
    if clauses == [] then [] else [clauses[0].(visible := None)] + Bare(clauses[1..])
  }

  lemma {:induction false} NarrowBare(sym: Option<Symbol>, dep: Option<Expr>, clauses: seq<Clause>)
    ensures Bare(NarrowAll(sym, dep, clauses)) == Bare(clauses)
  {
    if clauses != [] { NarrowBare(sym, dep, clauses[1..]); }
  }

  /** What menus do not change about an entry: its symbol, whether it has a prompt with a
      text, and what its other properties are. */
  function Identity(i: Info): (Option<Symbol>, bool, seq<Clause>) {
    (i.sym, Promptless(i), Bare(i.clauses))
  }

  /** The entries stay in the order of the files, whatever menu_finalize nests. */
  lemma FinalizedOrder(root: Tree<Info>, rest: Forest<Info>)
    ensures var (t, left) := Finalize(MENU_RULES, root, rest);
            Tags(Identity, t.kids, Tags(Identity, left, [])) == Tags(Identity, root.kids, Tags(Identity, rest, []))
  {
    forall i: Info, j: Info ensures Identity(MENU_RULES.pass(i, j)) == Identity(j) {
      NarrowBare(j.sym, Inherit(Passed(i), j.dep), j.clauses);
    }
    FinalizeTags(MENU_RULES, Identity, root, rest, []);
  }

  // ----- reverse dependencies -----

  /** expr_alloc_or: a missing operand is left out. */
  function AllocOr(a: Option<Expr>, b: Option<Expr>): Option<Expr> {
    if a.None? then b else if b.None? then a else Some(Bin(Disj, a.value, b.value))
  }

  /** A missing reverse dependency counts as n. */
  function RevVal(e: Option<Expr>, env: Env): Tri {
    if e.None? then NO else Val(e.value, env)
  }

  /** The clauses of one entry that select `target` are added to its reverse dependency. */
  function AddSelects(rev: Option<Expr>, target: Symbol, sym: Symbol, clauses: seq<Clause>): Option<Expr>
    decreases clauses
  {
    if clauses == [] then rev
    else
      var c := clauses[0];
      var rev' := if c.Select? && c.target == target then AllocOr(rev, AllocAnd(Some(Sym(sym)), c.visible)) else rev;
      AddSelects(rev', target, sym, clauses[1..])
  }

  /** And those of all entries, in the order in which menus pass their conditions down. */
  function Collect(rev: Option<Expr>, target: Symbol, infos: seq<Info>): Option<Expr>
    decreases infos
  {
    if infos == [] then rev
    else
      var i := infos[0];
      Collect(if i.sym.Some? then AddSelects(rev, target, i.sym.value, i.clauses) else rev, target, infos[1..])
  }

  predicate SelectTo(c: Clause, target: Symbol, sym: Symbol, env: Env, v: Tri) {
    c.Select? && c.target == target && Apply(Conj, SymTri(sym, env), OptVal(c.visible, env)) >= v
  }

  /** One of the clauses selects `target` and gives it at least `v`. */
  predicate SelectsTo(clauses: seq<Clause>, target: Symbol, sym: Symbol, env: Env, v: Tri) {
    clauses != [] && (SelectTo(clauses[0], target, sym, env, v) || SelectsTo(clauses[1..], target, sym, env, v))
  }

  predicate Selects(i: Info, target: Symbol, env: Env, v: Tri) {
    i.sym.Some? && SelectsTo(i.clauses, target, i.sym.value, env, v)
  }

  lemma {:induction false} AddSelectsVal(rev: Option<Expr>, target: Symbol, sym: Symbol,
                                         clauses: seq<Clause>, env: Env, v: Tri)
    requires v > NO
    ensures RevVal(AddSelects(rev, target, sym, clauses), env) >= v <==>
              RevVal(rev, env) >= v || SelectsTo(clauses, target, sym, env, v)
    decreases clauses
  {
    if clauses != [] {
      var c := clauses[0];
      var one := AllocAnd(Some(Sym(sym)), c.visible);
      assert RevVal(one, env) == Apply(Conj, SymTri(sym, env), OptVal(c.visible, env)) by {
        assert Val(Sym(sym), env) == SymTri(sym, env);
      }
      var rev' := if c.Select? && c.target == target then AllocOr(rev, one) else rev;
      AddSelectsVal(rev', target, sym, clauses[1..], env, v);
    }
  }

  lemma {:induction false} CollectVal(rev: Option<Expr>, target: Symbol, infos: seq<Info>, env: Env, v: Tri)
    requires v > NO
    ensures RevVal(Collect(rev, target, infos), env) >= v <==>
              RevVal(rev, env) >= v || SomeOf((i: Info) => Selects(i, target, env, v), infos)
    decreases infos
  {
    if infos != [] {
      var i := infos[0];
      var rev' := if i.sym.Some? then AddSelects(rev, target, i.sym.value, i.clauses) else rev;
      if i.sym.Some? { AddSelectsVal(rev, target, i.sym.value, i.clauses, env, v); }
      CollectVal(rev', target, infos[1..], env, v);
    }
  }

  /** After menu_finalize the reverse dependency of a symbol has at least the value `v` exactly
      when it had before, or some entry of the finished tree selects the symbol to `v`. */
  lemma FinalizedSelects(root: Tree<Info>, rev: Option<Expr>, target: Symbol, env: Env, v: Tri)
    requires v > NO
    ensures RevVal(Collect(rev, target, Visits(MENU_RULES, root, Nil)), env) >= v <==>
              RevVal(rev, env) >= v
              || SomeIn((i: Info) => Selects(i, target, env, v), Finalize(MENU_RULES, root, Nil).0.kids)
  {
    var p := (i: Info) => Selects(i, target, env, v);
    CollectVal(rev, target, Visits(MENU_RULES, root, Nil), env, v);
    FinalizeSome(MENU_RULES, p, root, Nil);
    assert Finalize(MENU_RULES, root, Nil).1 == Nil;
  }
}

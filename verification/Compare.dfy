/** Comparisons turned into expressions and back (expr_trans_bool,
    expr_trans_compare), and the tests by which menu_finalize nests an entry
    below its predecessor (expr_contains_symbol, expr_depends_symbol,
    menu.c:282-301). */
module Compare {
  import opened Wrappers
  import opened Tristate
  import opened ExprTree
  import opened Normalize
  import opened ExprEq
  import opened Dups

  // ----- expr_trans_bool -----

  /** FOO!=n becomes FOO for a tristate FOO. */
  function TransBool(e: Expr): Expr {
    match e
    case Bin(op, l, r) => Bin(op, TransBool(l), TransBool(r))
    case Not(x) => Not(TransBool(x))
    case Cmp(rel, a, b) =>
      if rel.Unequal? && a.HasKind(TristateKind) && b == NoSym then Sym(a) else e
    case Sym(_) => e
  }

  /** The rewrite may only blur a value to m. */
  lemma {:induction false} TransBoolBlurs(e: Expr, env: Env)
    ensures Refines(Val(TransBool(e), env), Val(e, env))
  {
    match e
    case Bin(op, l, r) =>
      TransBoolBlurs(l, env);
      TransBoolBlurs(r, env);
      RefinesApply(op, Val(TransBool(l), env), Val(l, env), Val(TransBool(r), env));
      RefinesApply(op, Val(TransBool(r), env), Val(r, env), Val(l, env));
      Commute(op, Val(TransBool(l), env), Val(TransBool(r), env));
      Commute(op, Val(l, env), Val(r, env));
      Commute(op, Val(l, env), Val(TransBool(r), env));
    case Not(x) => TransBoolBlurs(x, env);
    case Cmp(_, a, b) => TextsDiffer(a, YesSym, ModSym, env);
    case Sym(_) =>
  }

  /** On a normal form the blur is what the visibility of a boolean symbol promotes
      to y anyway, so no visibility changes. */
  lemma {:induction false} TransBoolPromoted(e: Expr, env: Env)
    requires Normal(e)
    ensures Promote(Val(TransBool(e), env)) == Promote(Val(e, env))
  {
    match e
    case Bin(_, l, r) =>
      TransBoolPromoted(l, env);
      TransBoolPromoted(r, env);
    case Cmp(_, a, b) => TextsDiffer(a, YesSym, ModSym, env);
    case _ =>
  }

  /** Outside the normal form a visibility can change: !(FOO!=n) with FOO = m. */
  lemma TransBoolNeedsNormal(f: Symbol, env: Env)
    requires f.HasKind(TristateKind) && env.tri(f) == MOD
    ensures var e := Not(Cmp(Unequal, f, NoSym));
            Promote(Val(TransBool(e), env)) == YES && Promote(Val(e, env)) == NO
  {
    TextsDiffer(f, YesSym, ModSym, env);
    assert Val(Sym(f), env) == MOD;
    assert CmpVal(Unequal, f, NoSym, env) == YES;
  }

  // ----- expr_trans_compare -----

  function TransCompare(e: Expr, rel: Rel, sym: Symbol): Expr
    requires sym.YesSym? || sym.ModSym? || sym.NoSym?
  {
    match e
    case Bin(op, l, r) =>
      var b := if sym.ModSym? then e
               else Bin(if sym.YesSym? then op else Dual(op), TransCompare(l, Equal, sym), TransCompare(r, Equal, sym));
      if rel.Unequal? then Not(b) else b
    case Not(x) => TransCompare(x, Flip(rel), sym)
    case Cmp(_, _, _) =>
      if sym.ModSym? then Sym(if rel.Equal? then NoSym else YesSym)
      else if rel.Equal? == sym.YesSym? then e else Not(e)
    case Sym(s) => Cmp(rel, s, sym)
  }

  /** A missing expression is y. */
  function TransCompareOpt(e: Option<Expr>, rel: Rel, sym: Symbol): Expr
    requires sym.YesSym? || sym.ModSym? || sym.NoSym?
  {
    match e
    case Some(x) => TransCompare(x, rel, sym)
    case None => if rel.Unequal? then Not(Sym(sym)) else Sym(sym)
  }

  /** Bare symbols are boolean, tristate or one of y, m, n. */
  predicate BareTyped(e: Expr) {
    match e
    case Sym(s) => s.TriValued() || s.YesSym? || s.ModSym? || s.NoSym?
    case Cmp(_, _, _) => true
    case Not(x) => BareTyped(x)
    case Bin(_, l, r) => BareTyped(l) && BareTyped(r)
  }

  /** How a comparison with y or n reads a value: m is as good as y when the question is
      whether it is n, and as good as n when the question is whether it is y. */
  function Cut(v: Tri, sym: Symbol): Tri {
    if v != MOD then v else if sym.YesSym? then NO else YES
  }

  /** The value of an expression whose bare symbols are read that way. */
  function Read(e: Expr, sym: Symbol, env: Env): (v: Tri)
    ensures v != MOD
  {
    match e
    case Sym(s) => Cut(SymTri(s, env), sym)
    case Cmp(rel, a, b) => CmpVal(rel, a, b, env)
    case Not(x) => Negate(Read(x, sym, env))
    case Bin(op, l, r) => Apply(op, Read(l, sym, env), Read(r, sym, env))
  }

  function Holds(rel: Rel, v: Tri, sym: Symbol, env: Env): Tri {
    Truth((v == SymTri(sym, env)) == rel.Equal?)
  }

  /** The comparison of a bare symbol. */
  lemma CompareSymbol(s: Symbol, rel: Rel, sym: Symbol, env: Env)
    requires sym.YesSym? || sym.ModSym? || sym.NoSym?
    requires BareTyped(Sym(s))
    ensures CmpVal(rel, s, sym, env) == Holds(rel, SymTri(s, env), sym, env)
  {
    TextsDiffer(s, YesSym, ModSym, env);
    TextsDiffer(s, YesSym, NoSym, env);
    TextsDiffer(s, ModSym, NoSym, env);
  }

  /** A conjunction is y when both operands are, and n when one is. */
  lemma HoldsApply(op: Op, a: Tri, b: Tri, sym: Symbol, env: Env)
    requires (sym.YesSym? || sym.NoSym?) && a != MOD && b != MOD
    ensures Apply(if sym.YesSym? then op else Dual(op), Holds(Equal, a, sym, env), Holds(Equal, b, sym, env))
         == Holds(Equal, Apply(op, a, b), sym, env)
  {
  }

  /** What a comparison with y or n computes in every environment. */
  lemma {:induction false} TransCompareReads(e: Expr, rel: Rel, sym: Symbol, env: Env)
    requires sym.YesSym? || sym.NoSym?
    requires BareTyped(e)
    ensures Val(TransCompare(e, rel, sym), env) == Holds(rel, Read(e, sym, env), sym, env)
  {
    match e
    case Bin(op, l, r) =>
      TransCompareReads(l, Equal, sym, env);
      TransCompareReads(r, Equal, sym, env);
      HoldsApply(op, Read(l, sym, env), Read(r, sym, env), sym, env);
      assert Read(e, sym, env) == Apply(op, Read(l, sym, env), Read(r, sym, env));
    case Not(x) => TransCompareReads(x, Flip(rel), sym, env);
    case Cmp(_, _, _) =>
    case Sym(s) => CompareSymbol(s, rel, sym, env);
  }

  /** Reading settles what is m and changes nothing else. */
  lemma {:induction false} ReadRefines(e: Expr, sym: Symbol, env: Env)
    ensures Refines(Val(e, env), Read(e, sym, env))
  {
    match e
    case Bin(_, l, r) =>
      ReadRefines(l, sym, env);
      ReadRefines(r, sym, env);
    case Not(x) => ReadRefines(x, sym, env);
    case _ =>
  }

  /** The comparison is right for every value but m, and for m exactly when the expression
      reads as a bare m would. */
  lemma TransCompareExact(e: Expr, rel: Rel, sym: Symbol, env: Env)
    requires sym.YesSym? || sym.NoSym?
    requires BareTyped(e)
    ensures Val(TransCompare(e, rel, sym), env) == Holds(rel, Val(e, env), sym, env)
            <==> Val(e, env) != MOD || Read(e, sym, env) == Cut(MOD, sym)
    ensures Settled(e, env) ==> Val(TransCompare(e, rel, sym), env) == Holds(rel, Val(e, env), sym, env)
  {
    TransCompareReads(e, rel, sym, env);
    ReadRefines(e, sym, env);
    if Settled(e, env) { ReadSettled(e, sym, env); }
  }

  /** No negated operand is m. */
  predicate Settled(e: Expr, env: Env) {
    match e
    case Not(x) => Val(x, env) != MOD && Settled(x, env)
    case Bin(_, l, r) => Settled(l, env) && Settled(r, env)
    case _ => true
  }

  lemma {:induction false} ReadSettled(e: Expr, sym: Symbol, env: Env)
    requires Settled(e, env)
    ensures Read(e, sym, env) == Cut(Val(e, env), sym)
  {
    match e
    case Bin(_, l, r) =>
      ReadSettled(l, sym, env);
      ReadSettled(r, sym, env);
    case Not(x) => ReadSettled(x, sym, env);
    case _ =>
  }

  /** A negation is compared correctly exactly when its operand is not m. */
  lemma TransCompareNot(x: Expr, rel: Rel, sym: Symbol, env: Env)
    requires sym.YesSym? || sym.NoSym?
    requires BareTyped(x) && Settled(x, env)
    ensures Val(TransCompare(Not(x), rel, sym), env) == Holds(rel, Val(Not(x), env), sym, env)
            <==> Val(x, env) != MOD
  {
    ReadSettled(x, sym, env);
    TransCompareExact(Not(x), rel, sym, env);
  }

  /** !f with f = m is m, yet the comparison says that it is n and that it is y. */
  lemma TransCompareMisled(f: Symbol, env: Env)
    requires f.HasKind(TristateKind) && env.tri(f) == MOD
    ensures Val(Not(Sym(f)), env) == MOD
    ensures Val(TransCompare(Not(Sym(f)), Equal, NoSym), env) == YES
    ensures Val(TransCompare(Not(Sym(f)), Equal, YesSym), env) == YES
  {
    assert Val(Sym(f), env) == MOD;
    CompareSymbol(f, Unequal, NoSym, env);
    CompareSymbol(f, Unequal, YesSym, env);
  }

  /** Compared with m, bare symbols and comparisons are answered correctly, and the negation
      of one of them is always answered wrongly. */
  lemma TransCompareMod(e: Expr, rel: Rel, env: Env)
    requires BareTyped(e) && (e.Sym? || e.Cmp?)
    ensures Val(TransCompare(e, rel, ModSym), env) == Holds(rel, Val(e, env), ModSym, env)
    ensures Val(TransCompare(Not(e), rel, ModSym), env) != Holds(rel, Val(Not(e), env), ModSym, env)
  {
    if e.Sym? {
      CompareSymbol(e.sym, rel, ModSym, env);
      CompareSymbol(e.sym, Flip(rel), ModSym, env);
    }
  }

  // ----- nesting below the predecessor -----

  predicate ContainsSymbol(dep: Expr, sym: Symbol) {
    match dep
    case Bin(_, l, r) => ContainsSymbol(l, sym) || ContainsSymbol(r, sym)
    case Not(x) => ContainsSymbol(x, sym)
    case Cmp(_, a, b) => a == sym || b == sym
    case Sym(s) => s == sym
  }

  predicate DependsSymbol(dep: Expr, sym: Symbol) {
    match dep
    case Bin(Conj, l, r) => DependsSymbol(l, sym) || DependsSymbol(r, sym)
    case Sym(s) => s == sym
    case Cmp(Equal, a, b) => a == sym && (b == YesSym || b == ModSym)
    case Cmp(Unequal, a, b) => a == sym && b == NoSym
    case _ => false
  }

  /** What menu_finalize compares: the condition "dep is not n", simplified. */
  function Visible(dep: Option<Expr>): Expr {
    EliminateDups(Transform(TransCompareOpt(dep, Unequal, NoSym)))
  }

  /** An entry with dependency `dep` is nested below the entry of `sym`, whose prompt
      depends on `base`. */
  predicate Nests(sym: Symbol, base: Option<Expr>, dep: Option<Expr>) {
    && dep.Some? && ContainsSymbol(dep.value, sym)
    && (DependsSymbol(dep.value, sym) || EliminateEq(Visible(dep), Visible(base)).1 == Sym(YesSym))
  }

  /** The value of an optional condition as "is it n?" reads it. */
  function ReadOpt(dep: Option<Expr>, env: Env): Tri {
    if dep.None? then YES else Read(dep.value, NoSym, env)
  }

  predicate TypedOpt(dep: Option<Expr>) {
    dep.Some? ==> BareTyped(dep.value)
  }

  /** The simplified condition says how the dependency reads, and whether it is not n
      unless it is an m that reads as n. */
  lemma VisibleExact(dep: Option<Expr>, env: Env)
    requires WellTyped(env) && TypedOpt(dep)
    ensures Val(Visible(dep), env) == ReadOpt(dep, env)
    ensures Val(Visible(dep), env) == Truth(OptVal(dep, env) != NO)
            <==> OptVal(dep, env) != MOD || ReadOpt(dep, env) == YES
    ensures (dep.Some? ==> Settled(dep.value, env)) ==> Val(Visible(dep), env) == Truth(OptVal(dep, env) != NO)
  {
    var c := TransCompareOpt(dep, Unequal, NoSym);
    if dep.Some? {
      TransCompareReads(dep.value, Unequal, NoSym, env);
      ReadRefines(dep.value, NoSym, env);
      if Settled(dep.value, env) { ReadSettled(dep.value, NoSym, env); }
    } else {
      assert Val(Sym(NoSym), env) == NO;
    }
    TransformExact(c, env);
    EliminateDupsRefines(Transform(c), env);
  }

  lemma {:induction false} DependsSymbolImplies(dep: Expr, sym: Symbol, env: Env)
    requires DependsSymbol(dep, sym) && sym.TriValued()
    requires Val(dep, env) != NO || Read(dep, NoSym, env) != NO
    ensures SymTri(sym, env) != NO
  {
    match dep
    case Bin(_, l, r) =>
      if DependsSymbol(l, sym) { DependsSymbolImplies(l, sym, env); } else { DependsSymbolImplies(r, sym, env); }
    case Cmp(_, a, b) => TextsDiffer(sym, YesSym, ModSym, env);
    case _ =>
  }

  /** A nested entry reads as visible only while its parent is set or reads as visible. */
  lemma NestsReads(sym: Symbol, base: Option<Expr>, dep: Option<Expr>, env: Env)
    requires Nests(sym, base, dep) && sym.TriValued() && WellTyped(env)
    requires TypedOpt(dep) && TypedOpt(base) && ReadOpt(dep, env) == YES
    ensures SymTri(sym, env) != NO || ReadOpt(base, env) == YES
  {
    if DependsSymbol(dep.value, sym) {
      DependsSymbolImplies(dep.value, sym, env);
    } else {
      VisibleExact(dep, env);
      VisibleExact(base, env);
      EliminateEqImplies(Visible(dep), Visible(base), env);
    }
  }

  /** A nested entry is visible only while its parent is set or visible, unless it is m, its
      condition reads as n, and the parent is neither. An entry that is y is no exception. */
  lemma NestsExact(sym: Symbol, base: Option<Expr>, dep: Option<Expr>, env: Env)
    requires Nests(sym, base, dep) && sym.TriValued() && WellTyped(env) && TypedOpt(dep) && TypedOpt(base)
    ensures var parent := SymTri(sym, env) != NO || OptVal(base, env) != NO;
            && (OptVal(dep, env) == YES ==> parent)
            && (OptVal(dep, env) == MOD && ReadOpt(dep, env) == YES ==> parent)
            && ((OptVal(dep, env) != NO ==> parent) <==> OptVal(dep, env) != MOD || parent)
            && (!parent ==> (OptVal(dep, env) != NO <==> OptVal(dep, env) == MOD))
  {
    ReadRefines(dep.value, NoSym, env);
    if base.Some? { ReadRefines(base.value, NoSym, env); }
    if ReadOpt(dep, env) == YES { NestsReads(sym, base, dep, env); }
  }
}

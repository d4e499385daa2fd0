/** An entry that menu_finalize nests below one that is neither set nor visible while the
    nested entry is visible: a negated m is read as n. */
module NestLoss {
  import opened Wrappers
  import opened Tristate
  import opened ExprTree
  import opened Normalize
  import opened ExprEq
  import opened Dups
  import opened DupsLoss
  import opened Compare

  /** !G && !F */
  function Nested(f: Symbol, g: Symbol): Expr {
    Bin(Conj, Not(Sym(g)), Not(Sym(f)))
  }

  /** What "is it not n?" makes of that: G=n && F=n. */
  lemma NestedVisible(f: Symbol, g: Symbol)
    requires f.HasKind(TristateKind) && g.HasKind(TristateKind) && f != g
    ensures Visible(Some(Nested(f, g))) == Bin(Conj, Cmp(Equal, g, NoSym), Cmp(Equal, f, NoSym))
  {
    var a, b := Cmp(Equal, g, NoSym), Cmp(Equal, f, NoSym);
    var d := Bin(Disj, Cmp(Unequal, g, NoSym), Cmp(Unequal, f, NoSym));
    assert TransCompare(Nested(f, g), Unequal, NoSym) == Not(d) by {
      assert TransCompare(Not(Sym(g)), Equal, NoSym) == TransCompare(Sym(g), Unequal, NoSym);
      assert TransCompare(Not(Sym(f)), Equal, NoSym) == TransCompare(Sym(f), Unequal, NoSym);
    }
    assert Transform(Not(d)) == Bin(Conj, a, b) by {
      TransformFixesNormal(d);
      assert Transform(Not(d.left)) == a && Transform(Not(d.right)) == b;
      assert Transform(DeMorgan(Disj, d.left, d.right)) == Bin(Conj, a, b);
    }
    PairQuiet(Conj, a, b);
    assert Round(Bin(Conj, a, b)) == (Bin(Conj, a, b), 0);
  }

  /** Below an entry of F whose prompt depends on G=n, with G = m and F = n. */
  lemma NestsMisled(f: Symbol, g: Symbol, env: Env)
    requires f.HasKind(TristateKind) && g.HasKind(TristateKind) && f != g
    requires env.tri(f) == NO && env.tri(g) == MOD
    ensures var base, dep := Some(Cmp(Equal, g, NoSym)), Some(Nested(f, g));
            && Nests(f, base, dep) && TypedOpt(dep) && TypedOpt(base)
            && OptVal(dep, env) == MOD && ReadOpt(dep, env) == NO
            && OptVal(base, env) == NO && SymTri(f, env) == NO
  {
    var a, b := Cmp(Equal, g, NoSym), Cmp(Equal, f, NoSym);
    NestedVisible(f, g);
    assert Visible(Some(a)) == a;
    assert Cancel(Conj, a, a) == (Sym(YesSym), Sym(YesSym));
    assert Cancel(Conj, b, Sym(YesSym)) == (b, Sym(YesSym));
    assert Cancel(Conj, Bin(Conj, a, b), a).1 == Sym(YesSym);
    assert EliminateEq(Bin(Conj, a, b), a).1 == Sym(YesSym);
    NestedVal(f, g, env);
    CompareSymbol(g, Equal, NoSym, env);
  }

  lemma NestedVal(f: Symbol, g: Symbol, env: Env)
    requires f.HasKind(TristateKind) && g.HasKind(TristateKind) && env.tri(f) == NO && env.tri(g) == MOD
    ensures Val(Nested(f, g), env) == MOD && Read(Nested(f, g), NoSym, env) == NO && SymTri(f, env) == NO
  {
    assert Val(Sym(g), env) == MOD && Val(Sym(f), env) == NO;
    assert Read(Sym(g), NoSym, env) == YES && Read(Not(Sym(g)), NoSym, env) == NO;
    assert Val(Not(Sym(g)), env) == MOD && Val(Not(Sym(f)), env) == YES;
  }
}

/** Where the removal of duplicates is exact, and an input on which it is not. */
module DupsLoss {
  import opened Wrappers
  import opened Tristate
  import opened ExprTree
  import opened Normalize
  import opened ExprEq
  import opened Joins
  import opened Spine
  import opened Dups

  /** No bare symbol of `e` is m. */
  predicate MFree(e: Expr, env: Env) {
    match e
    case Sym(s) => SymTri(s, env) != MOD
    case Cmp(_, _, _) => true
    case Not(x) => MFree(x, env)
    case Bin(_, l, r) => MFree(l, env) && MFree(r, env)
  }

  lemma {:induction false} MFreeValue(e: Expr, env: Env)
    requires MFree(e, env)
    ensures Val(e, env) != MOD
  {
    match e
    case Not(x) => MFreeValue(x, env);
    case Bin(_, l, r) =>
      MFreeValue(l, env);
      MFreeValue(r, env);
    case _ =>
  }

  /** Without m the whole loop is exact. */
  lemma EliminateDupsMFree(e: Expr, env: Env)
    requires WellTyped(env) && MFree(e, env)
    ensures Val(EliminateDups(e), env) == Val(e, env)
  {
    MFreeValue(e, env);
    EliminateDupsRefines(e, env);
  }

  /** (F || G) && (!F && !G) */
  function Clash(f: Symbol, g: Symbol): Expr {
    Bin(Conj, Bin(Disj, Sym(f), Sym(g)), Bin(Conj, Not(Sym(f)), Not(Sym(g))))
  }

  lemma ClashPaths(f: Symbol, g: Symbol)
    ensures var e := Clash(f, g);
            && IsLeaf(Conj, e, [L]) && At(Conj, e, [L]) == e.left
            && OnSpine(Conj, e, [R]) && At(Conj, e, [R]) == e.right
            && IsLeaf(Conj, e, [R, L]) && At(Conj, e, [R, L]) == Not(Sym(f))
            && IsLeaf(Conj, e, [R, R]) && At(Conj, e, [R, R]) == Not(Sym(g))
    ensures [] + [L] == [L] && [] + [R] == [R]
    ensures [R] + [L] == [R, L] && [R] + [R] == [R, R]
  {
    assert [R, L][1..] == [L] && [R, R][1..] == [R];
  }

  /** The operands of F || G are neither joined nor contradictory. */
  lemma InnerQuiet(f: Symbol, g: Symbol)
    requires f.HasKind(TristateKind) && g.HasKind(TristateKind) && f != g
    ensures var p := Bin(Disj, Sym(f), Sym(g));
            Dups1(Disj, p, [], []) == (p, 0) && Dups2(Disj, p, [], []) == (p, 0)
  {
    PairQuiet(Disj, Sym(f), Sym(g));
  }

  /** Two simple operands that do not join are left alone. */
  lemma PairQuiet(op: Op, a: Expr, b: Expr)
    requires !a.Bin? && !b.Bin? && Joined(op, a, b).None? && Joined(op, b, a).None?
    ensures var p := Bin(op, a, b);
            Dups1(op, p, [], []) == (p, 0) && Dups2(op, p, [], []) == (p, 0)
  {
    var p := Bin(op, a, b);
    assert [] + [L] == [L] && [] + [R] == [R];
    assert Dups1(op, p, [L], [R]) == (p, 0);
    assert Dups1(op, p, [R], [L]) == (p, 0);
    assert Dups1(op, p, [L], []) == (p, 0);
    assert Dups1(op, p, [R], []) == (p, 0);
    SymbolQuiet(op, p, [L], []);
    SymbolQuiet(op, p, [R], []);
  }

  /** The second phase only looks at && and || operands. */
  lemma {:induction false} SymbolQuiet(op: Op, x: Expr, s: Path, t: Path)
    requires IsLeaf(op, x, s) && !At(op, x, s).Bin? && OnSpine(op, x, t)
    ensures Dups2(op, x, s, t) == (x, 0)
    decreases SkeletonSize(op, At(op, x, t))
  {
    if At(op, x, t).Is(op) {
      Extend(op, x, t, L); Extend(op, x, t, R);
      SymbolQuiet(op, x, s, t + [L]);
      SymbolQuiet(op, x, s, t + [R]);
    }
  }

  lemma ClashPairs(f: Symbol, g: Symbol, s: Path, t: Path)
    requires f.HasKind(TristateKind) && g.HasKind(TristateKind) && f != g
    requires s in {[L], [R, L], [R, R]} && t in {[L], [R, L], [R, R]}
    ensures var e := Clash(f, g); OnSpine(Conj, e, s) && OnSpine(Conj, e, t) && Dups1(Conj, e, s, t) == (e, 0)
  {
    var e := Clash(f, g);
    ClashPaths(f, g);
    InnerQuiet(f, g);
    PutLeaf(Conj, e, s, At(Conj, e, s));
    if s != t {
      assert !Eq(Sym(f), Sym(g)) && !Eq(Sym(g), Sym(f));
      assert Joined(Conj, At(Conj, e, s), At(Conj, e, t)).None?;
    }
  }

  /** Nothing is joined in the first phase. */
  lemma ClashDups1(f: Symbol, g: Symbol)
    requires f.HasKind(TristateKind) && g.HasKind(TristateKind) && f != g
    ensures Dups1(Conj, Clash(f, g), [], []) == (Clash(f, g), 0)
  {
    var e := Clash(f, g);
    ClashPaths(f, g);
    forall s | s in {[L], [R, L], [R, R]}
      ensures OnSpine(Conj, e, s) && Dups1(Conj, e, s, []) == (e, 0)
    {
      ClashPairs(f, g, s, [L]);
      ClashPairs(f, g, s, [R, L]);
      ClashPairs(f, g, s, [R, R]);
      assert Dups1(Conj, e, s, [R]) == (e, 0);
    }
    assert Dups1(Conj, e, [R, L], []) == (e, 0);
    assert Dups1(Conj, e, [R, R], []) == (e, 0);
    assert Dups1(Conj, e, [R], []) == (e, 0);
    assert Dups1(Conj, e, [L], []) == (e, 0);
  }

  /** !F && !G, the negation of F || G, is found next to it. */
  lemma ClashContradicts(f: Symbol, g: Symbol)
    requires f.HasKind(TristateKind) && g.HasKind(TristateKind) && f != g
    ensures Contradicts(Conj, Bin(Disj, Sym(f), Sym(g)), Bin(Conj, Not(Sym(f)), Not(Sym(g))))
  {
    var nf, ng := Not(Sym(f)), Not(Sym(g));
    var n := Bin(Conj, nf, ng);
    var y := UnitExpr(Conj);
    assert Transform(Not(Bin(Disj, Sym(f), Sym(g)))) == n by {
      assert DeMorgan(Disj, Sym(f), Sym(g)) == n;
      TransformFixesNormal(n);
      TransformFixesNormal(Bin(Disj, Sym(f), Sym(g)));
    }
    assert Eq(Sym(f), Sym(f)) && Eq(Sym(g), Sym(g)) && !Eq(Sym(g), Sym(f));
    assert Extract(Conj, None, nf, n) == (Some(nf), y, Bin(Conj, y, ng)) by {
      assert Extract(Conj, None, nf, nf) == (Some(nf), y, y);
      assert Extract(Conj, Some(nf), y, ng) == (Some(nf), y, ng);
    }
    assert Extract(Conj, Some(nf), ng, Bin(Conj, y, ng)) == (Some(n), y, Bin(Conj, y, y)) by {
      assert Extract(Conj, Some(nf), ng, y) == (Some(nf), ng, y);
      assert Extract(Conj, Some(nf), ng, ng) == (Some(n), y, y);
    }
    assert Extract(Conj, None, n, n) == (Some(n), Bin(Conj, y, y), Bin(Conj, y, y));
  }

  function Cleared(f: Symbol, g: Symbol): Expr {
    Bin(Conj, Sym(NoSym), Clash(f, g).right)
  }

  lemma ClearedQuiet(f: Symbol, g: Symbol, t: Path)
    requires t in {[L], [R], [R, L], [R, R], []}
    ensures OnSpine(Conj, Cleared(f, g), t) && Dups2(Conj, Cleared(f, g), [L], t) == (Cleared(f, g), 0)
    ensures OnSpine(Conj, Clash(f, g), t)
  {
    ClashPaths(f, g);
    SymbolQuiet(Conj, Cleared(f, g), [L], t);
  }

  /** Comparing F || G with another operand leaves it alone or replaces it by n. */
  lemma ClashLeaf(f: Symbol, g: Symbol, t: Path)
    requires f.HasKind(TristateKind) && g.HasKind(TristateKind) && f != g
    requires t in {[R], [R, L], [R, R], []}
    ensures OnSpine(Conj, Clash(f, g), t)
    ensures Dups2Leaf(Conj, Clash(f, g), [L], t).0 in {Clash(f, g), Cleared(f, g)}
    ensures t == [R] ==> Dups2Leaf(Conj, Clash(f, g), [L], t).0 == Cleared(f, g)
  {
    var e := Clash(f, g);
    ClashPaths(f, g);
    ClearedQuiet(f, g, t);
    InnerQuiet(f, g);
    PutLeaf(Conj, e, [L], e.left);
    assert Put(Conj, e, [L], Sym(NoSym)) == Cleared(f, g);
    if t == [R] { ClashContradicts(f, g); }
  }

  lemma ClashMeets(f: Symbol, g: Symbol)
    requires f.HasKind(TristateKind) && g.HasKind(TristateKind) && f != g
    ensures OnSpine(Conj, Clash(f, g), [L])
    ensures Dups2(Conj, Clash(f, g), [L], []).0 == Cleared(f, g)
  {
    var e, q := Clash(f, g), Cleared(f, g);
    ClashPaths(f, g);
    assert Dups2(Conj, e, [L], [R, L]).0 in {e, q} by { ClashLeaf(f, g, [R, L]); ClearedQuiet(f, g, [R, L]); }
    assert Dups2(Conj, e, [L], [R, R]).0 in {e, q} by { ClashLeaf(f, g, [R, R]); ClearedQuiet(f, g, [R, R]); }
    assert Dups2Below(Conj, e, [L], [R]).0 in {e, q} by { ClearedQuiet(f, g, [R, R]); }
    assert Dups2(Conj, e, [L], [R]).0 == q by {
      ClashLeaf(f, g, [R]);
      ClearedQuiet(f, g, [R]);
    }
    assert Dups2(Conj, e, [L], [L]) == (e, 0);
    assert Dups2Below(Conj, e, [L], []).0 == q;
    ClearedQuiet(f, g, []);
  }

  /** The second phase replaces F || G by n. */
  lemma ClashDups2(f: Symbol, g: Symbol)
    requires f.HasKind(TristateKind) && g.HasKind(TristateKind) && f != g
    ensures Dups2(Conj, Clash(f, g), [], []).0 == Cleared(f, g)
    ensures Dups2(Conj, Clash(f, g), [], []).1 > 0
  {
    var e, q := Clash(f, g), Cleared(f, g);
    ClashPaths(f, g);
    ClashMeets(f, g);
    SymbolQuiet(Conj, q, [R, L], []);
    SymbolQuiet(Conj, q, [R, R], []);
    assert Dups2(Conj, q, [R], []) == (q, 0);
  }

  /** A value m is not always kept: here it becomes n. */
  lemma EliminateDupsLosesM(f: Symbol, g: Symbol, env: Env)
    requires f.HasKind(TristateKind) && g.HasKind(TristateKind) && f != g
    requires env.tri(f) == MOD && env.tri(g) == NO
    ensures Val(Clash(f, g), env) == MOD
    ensures EliminateDups(Clash(f, g)) == Sym(NoSym) && Val(Sym(NoSym), env) == NO
  {
    var e := Clash(f, g);
    ClashDups1(f, g);
    ClashDups2(f, g);
    var q := Cleared(f, g);
    assert Val(e.left, env) == MOD && Val(e.right, env) == MOD by {
      assert Val(Sym(f), env) == MOD && Val(Sym(g), env) == NO;
      assert Val(Not(Sym(f)), env) == MOD && Val(Not(Sym(g)), env) == YES;
    }
    assert Round(e).0 == q;
    assert EliminateYN(q) == Sym(NoSym);
    assert EliminateDups(Sym(NoSym)) == Sym(NoSym);
  }
}

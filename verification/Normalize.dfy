/** Constant folding and negation normal form (expr_eliminate_yn, expr_transform). */
module Normalize {
  import opened Tristate
  import opened ExprTree

  // ----- expr_eliminate_yn -----

  /** A y or n below an && or || that constant folding would remove. */
  predicate HasYN(e: Expr) {
    e.Bin? && (e.left.IsYN() || e.right.IsYN() || HasYN(e.left) || HasYN(e.right))
  }

  /** Fold one && or || node whose operands are already folded. */
  function FoldNode(op: Op, l: Expr, r: Expr): Expr {
    if l == ZeroExpr(op) then ZeroExpr(op)
    else if l == UnitExpr(op) then r
    else if r == ZeroExpr(op) then ZeroExpr(op)
    else if r == UnitExpr(op) then l
    else Bin(op, l, r)
  }

  function EliminateYN(e: Expr): (r: Expr)
    ensures !HasYN(r)
    ensures Size(r) <= Size(e)
    ensures HasYN(e) ==> Size(r) < Size(e)
    ensures !HasYN(e) ==> r == e
  {
    match e
    case Bin(op, l, r) => FoldNode(op, EliminateYN(l), EliminateYN(r))
    case _ => e
  }

  lemma FoldNodeExact(op: Op, l: Expr, r: Expr, env: Env)
    ensures Val(FoldNode(op, l, r), env) == Apply(op, Val(l, env), Val(r, env))
  {
    var v, w := Val(l, env), Val(r, env);
    ConstantVal(op, env);
    UnitZero(op, v);
    UnitZero(op, w);
    if l == ZeroExpr(op) || (l != UnitExpr(op) && r == ZeroExpr(op)) {
      assert FoldNode(op, l, r) == ZeroExpr(op);
    } else if l == UnitExpr(op) {
      assert FoldNode(op, l, r) == r;
    } else if r == UnitExpr(op) {
      assert FoldNode(op, l, r) == l;
    } else {
      assert FoldNode(op, l, r) == Bin(op, l, r);
    }
  }

  lemma ConstantVal(op: Op, env: Env)
    ensures Val(UnitExpr(op), env) == Unit(op) && Val(ZeroExpr(op), env) == Zero(op)
  {
    assert SymTri(YesSym, env) == YES && SymTri(NoSym, env) == NO;
  }

  lemma {:induction false} EliminateYNExact(e: Expr, env: Env)
    ensures Val(EliminateYN(e), env) == Val(e, env)
  {
    match e
    case Bin(op, l, r) =>
      EliminateYNExact(l, env);
      EliminateYNExact(r, env);
      FoldNodeExact(op, EliminateYN(l), EliminateYN(r), env);
    case _ =>
  }

  // ----- expr_transform -----

  /** Termination measure of the normal form: pushing a negation through an && or
      || makes the tree larger, but not this weight. */
  function Weight(e: Expr): nat
    ensures Weight(e) >= 1
  {
    match e
    case Sym(_) => 1
    case Cmp(_, _, _) => 2
    case Not(x) => 2 * Weight(x)
    case Bin(_, l, r) => 1 + Weight(l) + Weight(r)
  }

  function Dual(op: Op): Op {
    if op.Conj? then Disj else Conj
  }

  function DeMorgan(op: Op, a: Expr, b: Expr): (r: Expr)
    ensures Weight(r) < 2 * Weight(Bin(op, a, b))
    ensures forall env :: Val(r, env) == Negate(Val(Bin(op, a, b), env))
  {
    assert Weight(Not(a)) == 2 * Weight(a) && Weight(Not(b)) == 2 * Weight(b);
    Bin(Dual(op), Not(a), Not(b))
  }

  /** A boolean symbol compared with a built-in constant is the symbol, its negation
      or a constant. */
  function TransformCmp(rel: Rel, a: Symbol, b: Symbol): Expr {
    if !a.HasKind(Boolean) then Cmp(rel, a, b)
    else if b == NoSym then if rel.Equal? then Not(Sym(a)) else Sym(a)
    else if b == ModSym then Sym(if rel.Equal? then NoSym else YesSym)
    else if b == YesSym then if rel.Equal? then Sym(a) else Not(Sym(a))
    else Cmp(rel, a, b)
  }

  /** The normal form, re-entering on its own result as the source does. */
  function Transform(e: Expr): (r: Expr)
    ensures Weight(r) <= Weight(e)
    decreases Weight(e)
  {
    match e
    case Sym(_) => e
    case Cmp(rel, a, b) => TransformCmp(rel, a, b)
    case Bin(op, l, r) => Bin(op, Transform(l), Transform(r))
    case Not(x) =>
      var y := Transform(x);
      match y
      case Not(z) => Transform(z)
      case Cmp(rel, a, b) => Cmp(Flip(rel), a, b)
      case Bin(op, a, b) => Transform(DeMorgan(op, a, b))
      case Sym(YesSym) => Sym(NoSym)
      case Sym(ModSym) => Sym(ModSym)
      case Sym(NoSym) => Sym(YesSym)
      case Sym(_) => Not(y)
  }

  /** Negation only directly on a symbol other than y, m, n, and no boolean symbol
      compared with one of these. */
  predicate Normal(e: Expr) {
    match e
    case Sym(_) => true
    case Cmp(_, a, b) => !(a.HasKind(Boolean) && (b.YesSym? || b.ModSym? || b.NoSym?))
    case Not(x) => x.Sym? && !x.sym.YesSym? && !x.sym.ModSym? && !x.sym.NoSym?
    case Bin(_, l, r) => Normal(l) && Normal(r)
  }

  lemma {:induction false} TransformFixesNormal(e: Expr)
    requires Normal(e)
    ensures Transform(e) == e
  {
    match e
    case Bin(op, l, r) =>
      TransformFixesNormal(l);
      TransformFixesNormal(r);
    case _ =>
  }

  lemma {:induction false} TransformNormal(e: Expr)
    ensures Normal(Transform(e))
    decreases Weight(e)
  {
    match e
    case Sym(_) =>
    case Cmp(_, _, _) =>
    case Bin(_, l, r) =>
      TransformNormal(l);
      TransformNormal(r);
    case Not(x) =>
      TransformNormal(x);
      match Transform(x)
      case Not(z) => TransformNormal(z);
      case Bin(op, a, b) => TransformNormal(DeMorgan(op, a, b));
      case _ =>
  }

  /** Being in normal form is exactly being left alone by the transformation. */
  lemma TransformIdempotent(e: Expr)
    ensures Transform(Transform(e)) == Transform(e)
    ensures Normal(e) <==> Transform(e) == e
  {
    TransformNormal(e);
    TransformFixesNormal(Transform(e));
    if Normal(e) { TransformFixesNormal(e); }
  }

  lemma TransformCmpExact(rel: Rel, a: Symbol, b: Symbol, env: Env)
    requires WellTyped(env)
    ensures Val(TransformCmp(rel, a, b), env) == CmpVal(rel, a, b, env)
  {
    TextsDiffer(a, YesSym, ModSym, env);
  }

  lemma {:induction false} TransformExact(e: Expr, env: Env)
    requires WellTyped(env)
    ensures Val(Transform(e), env) == Val(e, env)
    decreases Weight(e)
  {
    match e
    case Sym(_) =>
    case Cmp(rel, a, b) => TransformCmpExact(rel, a, b, env);
    case Bin(_, l, r) =>
      TransformExact(l, env);
      TransformExact(r, env);
    case Not(x) =>
      TransformExact(x, env);
      match Transform(x)
      case Not(z) => TransformExact(z, env);
      case Bin(op, a, b) => TransformExact(DeMorgan(op, a, b), env);
      case _ =>
  }
}

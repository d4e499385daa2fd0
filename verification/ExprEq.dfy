/** Equality of expressions up to the order of && and || operands, by cancelling
    common operands (__expr_eliminate_eq, expr_eliminate_eq, expr_eq), and the
    extraction of the common part of two expressions (expr_extract_eq). */
module ExprEq {
  import opened Wrappers
  import opened Tristate
  import opened ExprTree
  import opened Normalize

  // ----- expr_eq and its mutual recursion with cancellation -----

  predicate Eq(a: Expr, b: Expr)
    decreases Size(a) + Size(b), 2
  {
    match (a, b)
    case (Sym(s), Sym(t)) => s == t
    case (Cmp(_, _, _), Cmp(_, _, _)) => a == b
    case (Not(x), Not(y)) => Eq(x, y)
    case (Bin(o, _, _), Bin(p, _, _)) =>
      o == p &&
      var (x, y) := EliminateEq(a, b);
      x.Sym? && y.Sym? && x.sym == y.sym
    case _ => false
  }

  /** Replace every pair of equal operands of the two `op` chains by the unit of `op`. */
  function Cancel(op: Op, a: Expr, b: Expr): (r: (Expr, Expr))
    ensures Size(r.0) <= Size(a) && Size(r.1) <= Size(b)
    ensures Blanked(op, a, r.0) && Blanked(op, b, r.1)
    decreases Size(a) + Size(b), if a.Is(op) || b.Is(op) then 0 else 3
  {
    if a.Is(op) then
      var (l, b1) := Cancel(op, a.left, b);
      var (r, b2) := Cancel(op, a.right, b1);
      BlankedTrans(op, b, b1, b2);
      (Bin(op, l, r), b2)
    else if b.Is(op) then
      var (a1, l) := Cancel(op, a, b.left);
      var (a2, r) := Cancel(op, a1, b.right);
      (a2, Bin(op, l, r))
    else if a == b && a.IsYN() then (a, b)
    else if Eq(a, b) then (UnitExpr(op), UnitExpr(op))
    else (a, b)
  }

  function EliminateEq(a: Expr, b: Expr): (r: (Expr, Expr))
    ensures Size(r.0) <= Size(a) && Size(r.1) <= Size(b)
    decreases Size(a) + Size(b), 1
  {
    var (a1, b1) := if a.Bin? then Cancel(a.op, a, b) else (a, b);
    var (a2, b2) := if b1.Bin? && !a1.Is(b1.op) then Cancel(b1.op, a1, b1) else (a1, b1);
    (EliminateYN(a2), EliminateYN(b2))
  }

  /** `b` is `a` with some operands of its `op` chain replaced by the unit. */
  predicate Blanked(op: Op, a: Expr, b: Expr) {
    if a.Is(op) then b.Is(op) && Blanked(op, a.left, b.left) && Blanked(op, a.right, b.right)
    else b == a || b == UnitExpr(op)
  }

  lemma {:induction false} BlankedTrans(op: Op, a: Expr, b: Expr, c: Expr)
    requires Blanked(op, a, b) && Blanked(op, b, c)
    ensures Blanked(op, a, c)
  {
    if a.Is(op) {
      BlankedTrans(op, a.left, b.left, c.left);
      BlankedTrans(op, a.right, b.right, c.right);
    }
  }

  /** Whatever was cancelled had one value `c`, common to both sides. */
  lemma {:induction false} CancelSound(op: Op, a: Expr, b: Expr, env: Env) returns (c: Tri)
    ensures var (x, y) := Cancel(op, a, b);
            Val(a, env) == Apply(op, Val(x, env), c) && Val(b, env) == Apply(op, Val(y, env), c)
    decreases Size(a) + Size(b), if a.Is(op) || b.Is(op) then 0 else 3
  {
    c := Unit(op);
    if a.Is(op) {
      var (l, b1) := Cancel(op, a.left, b);
      var c1 := CancelSound(op, a.left, b, env);
      var (r, b2) := Cancel(op, a.right, b1);
      var c2 := CancelSound(op, a.right, b1, env);
      c := Apply(op, c1, c2);
      Regroup(op, Val(l, env), c1, Val(r, env), c2);
      Regroup(op, Val(b2, env), c2, c1, c1);
      assert Cancel(op, a, b) == (Bin(op, l, r), b2);
    } else if b.Is(op) {
      var (a1, l) := Cancel(op, a, b.left);
      var c1 := CancelSound(op, a, b.left, env);
      var (a2, r) := Cancel(op, a1, b.right);
      var c2 := CancelSound(op, a1, b.right, env);
      c := Apply(op, c1, c2);
      Regroup(op, Val(l, env), c1, Val(r, env), c2);
      Regroup(op, Val(a2, env), c2, c1, c1);
      assert Cancel(op, a, b) == (a2, Bin(op, l, r));
    } else if !(a == b && a.IsYN()) && Eq(a, b) {
      EqSound(a, b, env);
      c := Val(a, env);
    }
  }

  /** Expressions that compare equal have one value, in every environment. */
  lemma {:induction false} EqSound(a: Expr, b: Expr, env: Env)
    requires Eq(a, b)
    ensures Val(a, env) == Val(b, env)
    decreases Size(a) + Size(b), 2
  {
    match (a, b)
    case (Not(x), Not(y)) => EqSound(x, y, env);
    case (Bin(o, _, _), Bin(_, _, _)) =>
      var c := CancelSound(o, a, b, env);
      var (a1, b1) := Cancel(o, a, b);
      EliminateYNExact(a1, env);
      EliminateYNExact(b1, env);
    case _ =>
  }

  /** An implication between what cancellation leaves holds between the whole. */
  lemma CancelImplies(op: Op, a: Expr, b: Expr, env: Env)
    requires var (a1, b1) := Cancel(op, a, b); Val(a1, env) <= Val(b1, env)
    ensures Val(a, env) <= Val(b, env)
  {
    var c := CancelSound(op, a, b, env);
    var (a1, b1) := Cancel(op, a, b);
    Monotone(op, Val(a1, env), Val(b1, env), c);
  }

  /** When cancellation leaves nothing of the second expression, the first implies it. */
  lemma EliminateEqImplies(a: Expr, b: Expr, env: Env)
    requires EliminateEq(a, b).1 == Sym(YesSym)
    ensures Val(a, env) <= Val(b, env)
  {
    var (a1, b1) := if a.Bin? then Cancel(a.op, a, b) else (a, b);
    var (a2, b2) := if b1.Bin? && !a1.Is(b1.op) then Cancel(b1.op, a1, b1) else (a1, b1);
    EliminateYNExact(b2, env);
    if b1.Bin? && !a1.Is(b1.op) { CancelImplies(b1.op, a1, b1, env); }
    if a.Bin? { CancelImplies(a.op, a, b, env); }
  }

  // ----- expr_extract_eq, expr_extract_eq_and, expr_extract_eq_or -----

  function Extract(op: Op, acc: Option<Expr>, a: Expr, b: Expr): (r: (Option<Expr>, Expr, Expr))
    ensures Blanked(op, a, r.1) && Blanked(op, b, r.2)
    ensures acc.Some? ==> r.0.Some?
    ensures r.0.None? ==> r.1 == a && r.2 == b
    decreases Size(a) + Size(b)
  {
    if a.Is(op) then
      var (acc1, l, b1) := Extract(op, acc, a.left, b);
      BlankedSize(op, b, b1);
      var (acc2, r, b2) := Extract(op, acc1, a.right, b1);
      BlankedTrans(op, b, b1, b2);
      (acc2, Bin(op, l, r), b2)
    else if b.Is(op) then
      var (acc1, a1, l) := Extract(op, acc, a, b.left);
      BlankedSize(op, a, a1);
      var (acc2, a2, r) := Extract(op, acc1, a1, b.right);
      (acc2, a2, Bin(op, l, r))
    else if Eq(a, b) then
      (Some(if acc.Some? then Bin(op, acc.value, a) else a), UnitExpr(op), UnitExpr(op))
    else (acc, a, b)
  }

  function ExtractEq(op: Op, a: Expr, b: Expr): (Option<Expr>, Expr, Expr) {
    var (common, x, y) := Extract(op, None, a, b);
    if common.Some? then (common, EliminateYN(x), EliminateYN(y)) else (common, x, y)
  }

  lemma {:induction false} BlankedSize(op: Op, a: Expr, b: Expr)
    requires Blanked(op, a, b)
    ensures Size(b) <= Size(a)
  {
    if a.Is(op) {
      BlankedSize(op, a.left, b.left);
      BlankedSize(op, a.right, b.right);
    }
  }

  function CommonVal(op: Op, common: Option<Expr>, env: Env): Tri {
    if common.Some? then Val(common.value, env) else Unit(op)
  }

  lemma ExtractNode(op: Op, acc: Option<Expr>, acc1: Option<Expr>, acc2: Option<Expr>,
                    a: Expr, l: Expr, r: Expr, env: Env)
    requires a.Is(op)
    requires Apply(op, CommonVal(op, acc1, env), Val(l, env)) == Apply(op, CommonVal(op, acc, env), Val(a.left, env))
    requires Apply(op, CommonVal(op, acc2, env), Val(r, env)) == Apply(op, CommonVal(op, acc1, env), Val(a.right, env))
    ensures Apply(op, CommonVal(op, acc2, env), Val(Bin(op, l, r), env))
         == Apply(op, CommonVal(op, acc, env), Val(a, env))
  {
    var v, v1, v2 := CommonVal(op, acc, env), CommonVal(op, acc1, env), CommonVal(op, acc2, env);
    Swap(op, v2, Val(l, env), Val(r, env));
    Swap(op, v1, Val(l, env), Val(a.right, env));
    Swap(op, v1, Val(a.right, env), Val(l, env));
    Swap(op, v, Val(a.left, env), Val(a.right, env));
  }

  lemma {:induction false} ExtractSound(op: Op, acc: Option<Expr>, a: Expr, b: Expr, env: Env)
    ensures var (common, x, y) := Extract(op, acc, a, b);
            var v, w := CommonVal(op, acc, env), CommonVal(op, common, env);
            && Apply(op, w, Val(x, env)) == Apply(op, v, Val(a, env))
            && Apply(op, w, Val(y, env)) == Apply(op, v, Val(b, env))
    decreases Size(a) + Size(b)
  {
    if a.Is(op) {
      var (acc1, l, b1) := Extract(op, acc, a.left, b);
      BlankedSize(op, b, b1);
      ExtractSound(op, acc, a.left, b, env);
      ExtractSound(op, acc1, a.right, b1, env);
      var (acc2, r, b2) := Extract(op, acc1, a.right, b1);
      ExtractNode(op, acc, acc1, acc2, a, l, r, env);
      assert Extract(op, acc, a, b) == (acc2, Bin(op, l, r), b2);
    } else if b.Is(op) {
      var (acc1, a1, l) := Extract(op, acc, a, b.left);
      BlankedSize(op, a, a1);
      ExtractSound(op, acc, a, b.left, env);
      ExtractSound(op, acc1, a1, b.right, env);
      var (acc2, a2, r) := Extract(op, acc1, a1, b.right);
      ExtractNode(op, acc, acc1, acc2, b, l, r, env);
      assert Extract(op, acc, a, b) == (acc2, a2, Bin(op, l, r));
    } else if Eq(a, b) {
      EqSound(a, b, env);
    }
  }

  /** The common part combined with each remainder is the original expression. */
  lemma ExtractEqExact(op: Op, a: Expr, b: Expr, env: Env)
    ensures var (common, x, y) := ExtractEq(op, a, b);
            var w := CommonVal(op, common, env);
            && Val(a, env) == Apply(op, w, Val(x, env))
            && Val(b, env) == Apply(op, w, Val(y, env))
  {
    ExtractSound(op, None, a, b, env);
    UnitZero(op, Val(a, env));
    UnitZero(op, Val(b, env));
    var (common, x, y) := Extract(op, None, a, b);
    if common.Some? {
      EliminateYNExact(x, env);
      EliminateYNExact(y, env);
      assert ExtractEq(op, a, b) == (common, EliminateYN(x), EliminateYN(y));
    } else {
      assert ExtractEq(op, a, b) == (common, x, y);
    }
  }

  /** No operand of `a` equals an operand of `b`, units apart. */
  predicate NothingCommon(op: Op, a: Expr, b: Expr)
    decreases Size(a) + Size(b)
  {
    if a.Is(op) then NothingCommon(op, a.left, b) && NothingCommon(op, a.right, b)
    else if b.Is(op) then NothingCommon(op, a, b.left) && NothingCommon(op, a, b.right)
    else Eq(a, b) ==> a == UnitExpr(op) && b == UnitExpr(op)
  }

  lemma {:induction false} NothingCommonBlanked(op: Op, a: Expr, b: Expr, a': Expr, b': Expr)
    requires NothingCommon(op, a, b) && Blanked(op, a, a') && Blanked(op, b, b')
    ensures NothingCommon(op, a', b')
    decreases Size(a) + Size(b)
  {
    if a.Is(op) {
      NothingCommonBlanked(op, a.left, b, a'.left, b');
      NothingCommonBlanked(op, a.right, b, a'.right, b');
    } else if b.Is(op) {
      NothingCommonBlanked(op, a, b.left, a', b'.left);
      NothingCommonBlanked(op, a, b.right, a', b'.right);
    }
  }

  lemma {:induction false} BlankedRefl(op: Op, a: Expr)
    ensures Blanked(op, a, a)
  {
    if a.Is(op) {
      BlankedRefl(op, a.left);
      BlankedRefl(op, a.right);
    }
  }

  /** Extraction is maximal: the remainders have no operand in common. */
  lemma {:induction false} ExtractMaximal(op: Op, acc: Option<Expr>, a: Expr, b: Expr)
    ensures var (_, x, y) := Extract(op, acc, a, b); NothingCommon(op, x, y)
    decreases Size(a) + Size(b)
  {
    if a.Is(op) {
      var (acc1, l, b1) := Extract(op, acc, a.left, b);
      BlankedSize(op, b, b1);
      var (_, r, b2) := Extract(op, acc1, a.right, b1);
      ExtractMaximal(op, acc, a.left, b);
      ExtractMaximal(op, acc1, a.right, b1);
      BlankedRefl(op, l);
      NothingCommonBlanked(op, l, b1, l, b2);
    } else if b.Is(op) {
      var (acc1, a1, l) := Extract(op, acc, a, b.left);
      BlankedSize(op, a, a1);
      var (_, a2, r) := Extract(op, acc1, a1, b.right);
      ExtractMaximal(op, acc, a, b.left);
      ExtractMaximal(op, acc1, a1, b.right);
      BlankedRefl(op, l);
      NothingCommonBlanked(op, a1, l, a2, l);
    }
  }
}

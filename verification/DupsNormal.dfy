/** The rewriters keep normal forms: what expr_transform has established is still
    there when menu_finalize hands a condition on. */
module DupsNormal {
  import opened Tristate
  import opened ExprTree
  import opened Normalize
  import opened Joins
  import opened Spine
  import opened Dups
  import opened Compare

  lemma {:induction false} EliminateYNNormal(e: Expr)
    requires Normal(e)
    ensures Normal(EliminateYN(e))
  {
    if e.Bin? {
      EliminateYNNormal(e.left);
      EliminateYNNormal(e.right);
    }
  }

  lemma JoinedNormal(op: Op, a: Expr, b: Expr)
    requires Normal(a) && Normal(b) && Joined(op, a, b).Some?
    ensures Normal(Joined(op, a, b).value)
  {
  }

  lemma {:induction false} AtNormal(op: Op, x: Expr, s: Path)
    requires OnSpine(op, x, s) && Normal(x)
    ensures Normal(At(op, x, s))
    decreases |s|
  {
    if s != [] { AtNormal(op, Spine.Child(x, s[0]), s[1..]); }
  }

  lemma {:induction false} PutNormal(op: Op, x: Expr, s: Path, y: Expr)
    requires OnSpine(op, x, s) && Normal(x) && Normal(y)
    ensures Normal(Put(op, x, s, y))
    decreases |s|
  {
    if s != [] { PutNormal(op, Spine.Child(x, s[0]), s[1..], y); }
  }

  lemma {:induction false} Dups1Normal(op: Op, x: Expr, s: Path, t: Path)
    requires OnSpine(op, x, s) && OnSpine(op, x, t) && Normal(x)
    ensures Normal(Dups1(op, x, s, t).0)
    decreases Size(x), SkeletonSize(op, At(op, x, s)) + SkeletonSize(op, At(op, x, t))
  {
    var a, b := At(op, x, s), At(op, x, t);
    if a.Is(op) {
      Extend(op, x, s, L); Extend(op, x, s, R);
      var x1 := Dups1(op, x, s + [L], t).0;
      Moved(op, x, x1, s + [R], t);
      Dups1Normal(op, x, s + [L], t);
      Dups1Normal(op, x1, s + [R], t);
    } else if b.Is(op) {
      Extend(op, x, t, L); Extend(op, x, t, R);
      var x1 := Dups1(op, x, s, t + [L]).0;
      Moved(op, x, x1, s, t + [R]);
      Dups1Normal(op, x, s, t + [L]);
      Dups1Normal(op, x1, s, t + [R]);
    } else if s != t {
      Dups1LeafNormal(op, x, s, t);
    }
  }

  lemma {:induction false} Dups1LeafNormal(op: Op, x: Expr, s: Path, t: Path)
    requires IsLeaf(op, x, s) && IsLeaf(op, x, t) && s != t && Normal(x)
    ensures Normal(Dups1(op, x, s, t).0)
    decreases Size(x), 0, 0
  {
    var a, b := At(op, x, s), At(op, x, t);
    AtNormal(op, x, s);
    AtNormal(op, x, t);
    PutLeaf(op, x, s, a);
    var (a', n) := if a.Bin? then Dups1(a.op, a, [], []) else (a, 0);
    if a.Bin? { Dups1Normal(a.op, a, [], []); }
    PutLeaf(op, x, s, a');
    PutNormal(op, x, s, a');
    match Joined(op, a', b)
    case None =>
    case Some(j) =>
      JoinStep(op, x, s, t, a', j);
      JoinedNormal(op, a', b);
      PutNormal(op, x, s, UnitExpr(op));
      PutNormal(op, Put(op, x, s, UnitExpr(op)), t, j);
  }

  lemma {:induction false} Dups2Normal(op: Op, x: Expr, s: Path, t: Path)
    requires OnSpine(op, x, s) && OnSpine(op, x, t) && Normal(x)
    ensures Normal(Dups2(op, x, s, t).0)
    decreases Size(x), SkeletonSize(op, At(op, x, s)) + SkeletonSize(op, At(op, x, t)), 1
  {
    if At(op, x, s).Is(op) {
      Extend(op, x, s, L); Extend(op, x, s, R);
      var x1 := Dups2(op, x, s + [L], t).0;
      Moved(op, x, x1, s + [R], t);
      Dups2Normal(op, x, s + [L], t);
      Dups2Normal(op, x1, s + [R], t);
    } else {
      Dups2BelowNormal(op, x, s, t);
      if s != t {
        var x2 := Dups2Below(op, x, s, t).0;
        Moved(op, x, x2, s, t);
        Dups2LeafNormal(op, x2, s, t);
      }
    }
  }

  lemma {:induction false} Dups2BelowNormal(op: Op, x: Expr, s: Path, t: Path)
    requires IsLeaf(op, x, s) && OnSpine(op, x, t) && Normal(x)
    ensures Normal(Dups2Below(op, x, s, t).0)
    decreases Size(x), SkeletonSize(op, At(op, x, s)) + SkeletonSize(op, At(op, x, t)), 0
  {
    if At(op, x, t).Is(op) {
      Extend(op, x, t, L); Extend(op, x, t, R);
      var x1 := Dups2(op, x, s, t + [L]).0;
      Moved(op, x, x1, s, t + [R]);
      Dups2Normal(op, x, s, t + [L]);
      Dups2Normal(op, x1, s, t + [R]);
    }
  }

  lemma {:induction false} Dups2LeafNormal(op: Op, x: Expr, s: Path, t: Path)
    requires IsLeaf(op, x, s) && OnSpine(op, x, t) && s != t && Normal(x)
    ensures Normal(Dups2Leaf(op, x, s, t).0)
    decreases Size(x), 0, 0
  {
    var a := At(op, x, s);
    LeavesApart(op, x, s, t);
    AtNormal(op, x, s);
    PutLeaf(op, x, s, a);
    if a.Bin? {
      var a' := Dups2(a.op, a, [], []).0;
      Dups2Normal(a.op, a, [], []);
      PutNormal(op, x, s, a');
      PutNormal(op, x, s, ZeroExpr(op));
    }
  }

  lemma {:induction false} EliminateDupsNormal(e: Expr)
    requires Normal(e)
    ensures Normal(EliminateDups(e))
    decreases Size(e)
  {
    var (y, n) := Round(e);
    if e.Bin? {
      Dups1Normal(e.op, e, [], []);
      Dups2Normal(e.op, Dups1(e.op, e, [], []).0, [], []);
    }
    if n != 0 {
      EliminateYNNormal(y);
      EliminateDupsNormal(EliminateYN(y));
    }
  }

  lemma {:induction false} TransBoolNormal(e: Expr)
    requires Normal(e)
    ensures Normal(TransBool(e))
  {
    if e.Bin? {
      TransBoolNormal(e.left);
      TransBoolNormal(e.right);
    }
  }
}

/** Removal of repeated and contradictory operands
    (expr_eliminate_dups1, expr_eliminate_dups2, expr_eliminate_dups). */
module Dups {
  import opened Wrappers
  import opened Tristate
  import opened ExprTree
  import opened Normalize
  import opened ExprEq
  import opened Joins
  import opened Spine

  // ----- expr_eliminate_dups1 -----

  /** Join every pair of different operands below the two positions; the second
      component counts the rewrites. */
  function Dups1(op: Op, x: Expr, s: Path, t: Path): (r: (Expr, nat))
    requires OnSpine(op, x, s) && OnSpine(op, x, t)
    ensures SameSkeleton(op, x, r.0) && Size(r.0) <= Size(x)
    ensures r.1 > 0 ==> HasYN(r.0)
    ensures r.1 == 0 ==> r.0 == x
    decreases Size(x), SkeletonSize(op, At(op, x, s)) + SkeletonSize(op, At(op, x, t))
  {
    var a, b := At(op, x, s), At(op, x, t);
    if a.Is(op) then
      Extend(op, x, s, L); Extend(op, x, s, R);
      var (x1, n1) := Dups1(op, x, s + [L], t);
      Moved(op, x, x1, s + [R], t);
      var (x2, n2) := Dups1(op, x1, s + [R], t);
      SameSkeletonTrans(op, x, x1, x2);
      (x2, n1 + n2)
    else if b.Is(op) then
      Extend(op, x, t, L); Extend(op, x, t, R);
      var (x1, n1) := Dups1(op, x, s, t + [L]);
      Moved(op, x, x1, s, t + [R]);
      var (x2, n2) := Dups1(op, x1, s, t + [R]);
      SameSkeletonTrans(op, x, x1, x2);
      (x2, n1 + n2)
    else if s == t then
      SameSkeletonRefl(op, x);
      (x, 0)
    else
      PutLeaf(op, x, s, a);
      var (a', n) := if a.Bin? then Dups1(a.op, a, [], []) else (a, 0);
      PutLeaf(op, x, s, a');
      var x1 := Put(op, x, s, a');
      match Joined(op, a', b)
      case None => (x1, n)
      case Some(j) =>
        JoinStep(op, x, s, t, a', j);
        (Put(op, Put(op, x, s, UnitExpr(op)), t, j), n + 1)
  }

  /** Positions survive a rewrite that keeps the skeleton. */
  lemma Moved(op: Op, x: Expr, y: Expr, s: Path, t: Path)
    requires SameSkeleton(op, x, y) && OnSpine(op, x, s) && OnSpine(op, x, t)
    ensures OnSpine(op, y, s) && OnSpine(op, y, t)
    ensures SkeletonSize(op, At(op, y, s)) == SkeletonSize(op, At(op, x, s))
    ensures SkeletonSize(op, At(op, y, t)) == SkeletonSize(op, At(op, x, t))
    ensures At(op, y, s).Is(op) == At(op, x, s).Is(op) && At(op, y, t).Is(op) == At(op, x, t).Is(op)
  {
    SameSkeletonAt(op, x, y, s);
    SameSkeletonAt(op, x, y, t);
    SameSkeletonSize(op, At(op, x, s), At(op, y, s));
    SameSkeletonSize(op, At(op, x, t), At(op, y, t));
  }

  /** Writing the unit over one operand and the join over the other. */
  lemma JoinStep(op: Op, x: Expr, s: Path, t: Path, a: Expr, j: Expr)
    requires IsLeaf(op, x, s) && IsLeaf(op, x, t) && s != t
    requires !a.Is(op) && Size(a) <= Size(At(op, x, s))
    requires Joined(op, a, At(op, x, t)) == Some(j)
    ensures OnSpine(op, Put(op, x, s, UnitExpr(op)), t)
    ensures var y := Put(op, Put(op, x, s, UnitExpr(op)), t, j);
            SameSkeleton(op, x, y) && Size(y) <= Size(x) && HasYN(y)
  {
    var x1 := Put(op, x, s, UnitExpr(op));
    PutLeaf(op, x, s, UnitExpr(op));
    PutAt(op, x, s, t, UnitExpr(op));
    PutAt(op, x, s, s, UnitExpr(op));
    var y := Put(op, x1, t, j);
    PutLeaf(op, x1, t, j);
    SameSkeletonTrans(op, x, x1, y);
    PutAt(op, x1, t, s, j);
    PutLeaf(op, y, s, UnitExpr(op));
  }

  /** The first phase keeps the value in every well-typed environment. */
  lemma {:induction false} Dups1Exact(op: Op, x: Expr, s: Path, t: Path, env: Env)
    requires OnSpine(op, x, s) && OnSpine(op, x, t) && WellTyped(env)
    ensures Val(Dups1(op, x, s, t).0, env) == Val(x, env)
    decreases Size(x), SkeletonSize(op, At(op, x, s)) + SkeletonSize(op, At(op, x, t))
  {
    var a, b := At(op, x, s), At(op, x, t);
    if a.Is(op) {
      Extend(op, x, s, L); Extend(op, x, s, R);
      var x1 := Dups1(op, x, s + [L], t).0;
      Moved(op, x, x1, s + [R], t);
      Dups1Exact(op, x, s + [L], t, env);
      Dups1Exact(op, x1, s + [R], t, env);
    } else if b.Is(op) {
      Extend(op, x, t, L); Extend(op, x, t, R);
      var x1 := Dups1(op, x, s, t + [L]).0;
      Moved(op, x, x1, s, t + [R]);
      Dups1Exact(op, x, s, t + [L], env);
      Dups1Exact(op, x1, s, t + [R], env);
    } else if s != t {
      PutLeaf(op, x, s, a);
      var (a', n) := if a.Bin? then Dups1(a.op, a, [], []) else (a, 0);
      if a.Bin? { Dups1Exact(a.op, a, [], [], env); }
      LeafExact(op, x, s, t, a', env);
    }
  }

  /** An operand is replaced by one of its value, or two of them by their join. */
  lemma LeafExact(op: Op, x: Expr, s: Path, t: Path, a: Expr, env: Env)
    requires IsLeaf(op, x, s) && IsLeaf(op, x, t) && s != t && WellTyped(env)
    requires !a.Is(op) && Size(a) <= Size(At(op, x, s)) && Val(a, env) == Val(At(op, x, s), env)
    ensures Val(Put(op, x, s, a), env) == Val(x, env)
    ensures var b := At(op, x, t);
            Joined(op, a, b).Some? ==>
              && OnSpine(op, Put(op, x, s, UnitExpr(op)), t)
              && Val(Put(op, Put(op, x, s, UnitExpr(op)), t, Joined(op, a, b).value), env) == Val(x, env)
  {
    var b := At(op, x, t);
    PutVal(op, x, s, a, env);
    if Joined(op, a, b).Some? {
      var j := Joined(op, a, b).value;
      JoinStep(op, x, s, t, a, j);
      JoinedExact(op, a, b, env);
      PutTwo(op, x, s, t, UnitExpr(op), j, env);
    }
  }

  // ----- expr_eliminate_dups2 -----

  /** The second position contradicts the operand at the first: the negation of the
      operand, in normal form, is made of operands found at `t`. */
  predicate Contradicts(op: Op, a: Expr, b: Expr) {
    ExtractEq(op, Transform(Not(a)), b).1 == UnitExpr(op)
  }

  /** The source falls through after descending into the second position, so an
      operand is also compared with every chain it is part of. */
  function Dups2(op: Op, x: Expr, s: Path, t: Path): (r: (Expr, nat))
    requires OnSpine(op, x, s) && OnSpine(op, x, t)
    ensures SameSkeleton(op, x, r.0) && Size(r.0) <= Size(x)
    ensures r.1 > 0 ==> HasYN(r.0)
    ensures r.1 == 0 ==> r.0 == x
    decreases Size(x), SkeletonSize(op, At(op, x, s)) + SkeletonSize(op, At(op, x, t)), 1
  {
    var a, b := At(op, x, s), At(op, x, t);
    if a.Is(op) then
      Extend(op, x, s, L); Extend(op, x, s, R);
      var (x1, n1) := Dups2(op, x, s + [L], t);
      Moved(op, x, x1, s + [R], t);
      var (x2, n2) := Dups2(op, x1, s + [R], t);
      SameSkeletonTrans(op, x, x1, x2);
      (x2, n1 + n2)
    else
      var (x2, n) := Dups2Below(op, x, s, t);
      if s == t then (x2, n)
      else
        Moved(op, x, x2, s, t);
        var (x3, m) := Dups2Leaf(op, x2, s, t);
        SameSkeletonTrans(op, x, x2, x3);
        (x3, n + m)
  }

  /** The two calls for the operands of the second position. */
  function Dups2Below(op: Op, x: Expr, s: Path, t: Path): (r: (Expr, nat))
    requires IsLeaf(op, x, s) && OnSpine(op, x, t)
    ensures SameSkeleton(op, x, r.0) && Size(r.0) <= Size(x)
    ensures r.1 > 0 ==> HasYN(r.0)
    ensures r.1 == 0 ==> r.0 == x
    decreases Size(x), SkeletonSize(op, At(op, x, s)) + SkeletonSize(op, At(op, x, t)), 0
  {
    if At(op, x, t).Is(op) then
      Extend(op, x, t, L); Extend(op, x, t, R);
      var (x1, n1) := Dups2(op, x, s, t + [L]);
      Moved(op, x, x1, s, t + [R]);
      var (x2, n2) := Dups2(op, x1, s, t + [R]);
      SameSkeletonTrans(op, x, x1, x2);
      (x2, n1 + n2)
    else
      SameSkeletonRefl(op, x);
      (x, 0)
  }

  /** Rewrite the operand at `s` itself, then replace it when it is contradicted. */
  function Dups2Leaf(op: Op, x: Expr, s: Path, t: Path): (r: (Expr, nat))
    requires IsLeaf(op, x, s) && OnSpine(op, x, t) && s != t
    ensures SameSkeleton(op, x, r.0) && Size(r.0) <= Size(x)
    ensures r.1 > 0 ==> HasYN(r.0)
    ensures r.1 == 0 ==> r.0 == x
    decreases Size(x), 0, 0
  {
    var a := At(op, x, s);
    LeavesApart(op, x, s, t);
    PutLeaf(op, x, s, a);
    if !a.Bin? then (x, 0)
    else
      var (a', n) := Dups2(a.op, a, [], []);
      PutLeaf(op, x, s, a');
      var x1 := Put(op, x, s, a');
      SameSkeletonAt(op, x, x1, t);
      if Contradicts(op, a', At(op, x1, t)) then
        PutLeaf(op, x, s, ZeroExpr(op));
        (Put(op, x, s, ZeroExpr(op)), n + 1)
      else (x1, n)
  }

  lemma RefinesApply(op: Op, a: Tri, b: Tri, c: Tri)
    requires Refines(a, b)
    ensures Refines(Apply(op, a, c), Apply(op, b, c))
  {
  }

  lemma ContradictionValue(op: Op, x: Tri, a: Tri, b: Tri, w: Tri, p: Tri, q: Tri, y: Tri)
    requires x == Apply(op, a, p) && x == Apply(op, b, q)
    requires Negate(a) == Apply(op, w, Unit(op)) && b == Apply(op, w, y)
    ensures x == Zero(op) || x == MOD
  {
  }

  /** Replacing a contradicted operand settles the chain at n (or y): the value is
      kept exactly when it was not m. */
  lemma ContradictionExact(op: Op, x: Expr, s: Path, t: Path, env: Env)
    requires OnSpine(op, x, s) && OnSpine(op, x, t) && WellTyped(env)
    requires Contradicts(op, At(op, x, s), At(op, x, t))
    ensures Val(Put(op, x, s, ZeroExpr(op)), env) == Val(x, env) <==> Val(x, env) != MOD
  {
    var a, b := At(op, x, s), At(op, x, t);
    PutVal(op, x, s, ZeroExpr(op), env);
    PutVal(op, x, t, b, env);
    ExtractEqExact(op, Transform(Not(a)), b, env);
    TransformExact(Not(a), env);
    var (common, _, y) := ExtractEq(op, Transform(Not(a)), b);
    ContradictionValue(op, Val(x, env), Val(a, env), Val(b, env), CommonVal(op, common, env),
                       Rest(op, x, s, env), Rest(op, x, t, env), Val(y, env));
  }

  lemma {:induction false} Dups2Refines(op: Op, x: Expr, s: Path, t: Path, env: Env)
    requires OnSpine(op, x, s) && OnSpine(op, x, t) && WellTyped(env)
    ensures Refines(Val(x, env), Val(Dups2(op, x, s, t).0, env))
    decreases Size(x), SkeletonSize(op, At(op, x, s)) + SkeletonSize(op, At(op, x, t)), 1
  {
    if At(op, x, s).Is(op) {
      Extend(op, x, s, L); Extend(op, x, s, R);
      var x1 := Dups2(op, x, s + [L], t).0;
      Moved(op, x, x1, s + [R], t);
      Dups2Refines(op, x, s + [L], t, env);
      Dups2Refines(op, x1, s + [R], t, env);
    } else {
      Dups2BelowRefines(op, x, s, t, env);
      if s != t {
        var x2 := Dups2Below(op, x, s, t).0;
        Moved(op, x, x2, s, t);
        Dups2LeafRefines(op, x2, s, t, env);
      }
    }
  }

  lemma {:induction false} Dups2BelowRefines(op: Op, x: Expr, s: Path, t: Path, env: Env)
    requires IsLeaf(op, x, s) && OnSpine(op, x, t) && WellTyped(env)
    ensures Refines(Val(x, env), Val(Dups2Below(op, x, s, t).0, env))
    decreases Size(x), SkeletonSize(op, At(op, x, s)) + SkeletonSize(op, At(op, x, t)), 0
  {
    if At(op, x, t).Is(op) {
      Extend(op, x, t, L); Extend(op, x, t, R);
      var x1 := Dups2(op, x, s, t + [L]).0;
      Moved(op, x, x1, s, t + [R]);
      Dups2Refines(op, x, s, t + [L], env);
      Dups2Refines(op, x1, s, t + [R], env);
    }
  }

  lemma {:induction false} Dups2LeafRefines(op: Op, x: Expr, s: Path, t: Path, env: Env)
    requires IsLeaf(op, x, s) && OnSpine(op, x, t) && s != t && WellTyped(env)
    ensures Refines(Val(x, env), Val(Dups2Leaf(op, x, s, t).0, env))
    decreases Size(x), 0, 0
  {
    var a := At(op, x, s);
    LeavesApart(op, x, s, t);
    PutLeaf(op, x, s, a);
    if a.Bin? {
      var a' := Dups2(a.op, a, [], []).0;
      Dups2Refines(a.op, a, [], [], env);
      PutLeaf(op, x, s, a');
      PutRefines(op, x, s, a', env);
      var x1 := Put(op, x, s, a');
      SameSkeletonAt(op, x, x1, t);
      if Contradicts(op, a', At(op, x1, t)) { BlankRefines(op, x, s, t, a', env); }
    }
  }

  /** Refining an operand refines the whole. */
  lemma PutRefines(op: Op, x: Expr, s: Path, y: Expr, env: Env)
    requires OnSpine(op, x, s) && Refines(Val(At(op, x, s), env), Val(y, env))
    ensures Refines(Val(x, env), Val(Put(op, x, s, y), env))
  {
    PutVal(op, x, s, y, env);
    RefinesApply(op, Val(At(op, x, s), env), Val(y, env), Rest(op, x, s, env));
  }

  /** And so does blanking it when it is contradicted. */
  lemma BlankRefines(op: Op, x: Expr, s: Path, t: Path, y: Expr, env: Env)
    requires IsLeaf(op, x, s) && !y.Is(op) && WellTyped(env)
    requires var x1 := Put(op, x, s, y);
             OnSpine(op, x1, t) && Contradicts(op, y, At(op, x1, t)) && Refines(Val(x, env), Val(x1, env))
    ensures Refines(Val(x, env), Val(Put(op, x, s, ZeroExpr(op)), env))
  {
    var x1 := Put(op, x, s, y);
    PutLeaf(op, x, s, y);
    PutAt(op, x, s, s, y);
    ContradictionExact(op, x1, s, t, env);
    PutVal(op, x, s, ZeroExpr(op), env);
    PutVal(op, x1, s, ZeroExpr(op), env);
    PutVal(op, x, s, y, env);
  }

  // ----- expr_eliminate_dups -----

  /** One turn of the loop: both passes, and the number of changes they count. */
  function Round(e: Expr): (r: (Expr, nat))
    ensures r.1 > 0 ==> HasYN(r.0) && Size(EliminateYN(r.0)) < Size(e)
    ensures r.1 == 0 ==> r.0 == e
  {
    if e.Bin? then
      var (x, n) := Dups1(e.op, e, [], []);
      var (y, m) := Dups2(e.op, x, [], []);
      (y, n + m)
    else (e, 0)
  }

  function EliminateDups(e: Expr): (r: Expr)
    ensures Round(r) == (r, 0)
    ensures Size(r) <= Size(e)
    decreases Size(e)
  {
    var (x, n) := Round(e);
    if n == 0 then x else EliminateDups(EliminateYN(x))
  }

  /** One turn of the loop keeps every value but m, and when it counts a change, folding
      the constants leaves a smaller expression of the same value. */
  lemma RoundRefines(e: Expr, env: Env)
    requires WellTyped(env)
    ensures var (x, n) := Round(e);
            && Refines(Val(e, env), Val(x, env))
            && (n == 0 ==> x == e)
            && (n > 0 ==> Size(EliminateYN(x)) < Size(e) && Val(EliminateYN(x), env) == Val(x, env))
  {
    if e.Bin? {
      Dups1Exact(e.op, e, [], [], env);
      Dups2Refines(e.op, Dups1(e.op, e, [], []).0, [], [], env);
    }
    EliminateYNExact(Round(e).0, env);
  }

  /** The whole loop keeps every value but m, in every well-typed environment. */
  lemma {:induction false} EliminateDupsRefines(e: Expr, env: Env)
    requires WellTyped(env)
    ensures Refines(Val(e, env), Val(EliminateDups(e), env))
    decreases Size(e)
  {
    RoundRefines(e, env);
    var (x, n) := Round(e);
    if n != 0 { EliminateDupsRefines(EliminateYN(x), env); }
  }

  method EliminateDupsLoop(start: Expr) returns (e: Expr)
    ensures e == EliminateDups(start)
  {
    e := start;
    while true
      invariant EliminateDups(e) == EliminateDups(start)
      decreases Size(e)
    {
      var (x, transCount) := Round(e);
      if transCount == 0 {
        break;
      }
      e := EliminateYN(x);
    }
  }
}

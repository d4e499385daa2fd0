/** What the removal of duplicates leaves behind: nothing that either phase could
    still rewrite, at any depth. */
module DupsComplete {
  import opened Tristate
  import opened ExprTree
  import opened Joins
  import opened Spine
  import opened Dups

  lemma {:induction false} InnerNode(op: Op, x: Expr, s: Path, u: Path)
    requires OnSpine(op, x, u) && s <= u
    ensures OnSpine(op, x, s)
    ensures s != u ==> At(op, x, s).Is(op) && OnSpine(op, x, s + [u[|s|]]) && s + [u[|s|]] <= u
    decreases |s|
  {
    if s != [] {
      assert s[1..] <= u[1..];
      InnerNode(op, Child(x, s[0]), s[1..], u[1..]);
    }
    if s != u { Extend(op, x, s, u[|s|]); }
  }

  /** Neither phase has anything left to do on this pair of positions. */
  predicate Quiet1(op: Op, x: Expr, u: Path, v: Path)
    requires IsLeaf(op, x, u) && IsLeaf(op, x, v)
  {
    var a, b := At(op, x, u), At(op, x, v);
    Joined(op, a, b).None? && (a.Bin? ==> Dups1(a.op, a, [], []).1 == 0)
  }

  predicate Quiet2(op: Op, x: Expr, u: Path, v: Path)
    requires IsLeaf(op, x, u) && OnSpine(op, x, v)
  {
    var a, b := At(op, x, u), At(op, x, v);
    a.Bin? ==> Dups2(a.op, a, [], []).1 == 0 && !Contradicts(op, a, b)
  }

  /** A pass that changes nothing changes nothing on the way down. */
  lemma Dups1Zero(op: Op, x: Expr, s: Path, t: Path)
    requires OnSpine(op, x, s) && OnSpine(op, x, t) && Dups1(op, x, s, t).1 == 0
    ensures At(op, x, s).Is(op) ==>
              && OnSpine(op, x, s + [L]) && Dups1(op, x, s + [L], t).1 == 0
              && OnSpine(op, x, s + [R]) && Dups1(op, x, s + [R], t).1 == 0
    ensures !At(op, x, s).Is(op) && At(op, x, t).Is(op) ==>
              && OnSpine(op, x, t + [L]) && Dups1(op, x, s, t + [L]).1 == 0
              && OnSpine(op, x, t + [R]) && Dups1(op, x, s, t + [R]).1 == 0
  {
    if At(op, x, s).Is(op) {
      Extend(op, x, s, L); Extend(op, x, s, R);
      Moved(op, x, Dups1(op, x, s + [L], t).0, s + [R], t);
    } else if At(op, x, t).Is(op) {
      Extend(op, x, t, L); Extend(op, x, t, R);
      Moved(op, x, Dups1(op, x, s, t + [L]).0, s, t + [R]);
    }
  }

  lemma Dups1Leaf(op: Op, x: Expr, u: Path, v: Path)
    requires u != v && IsLeaf(op, x, u) && IsLeaf(op, x, v) && Dups1(op, x, u, v).1 == 0
    ensures Quiet1(op, x, u, v)
  {
  }

  /** Down the second path, once the first has reached its operand. */
  lemma {:induction false} Dups1Right(op: Op, x: Expr, u: Path, t: Path, v: Path)
    requires t <= v && u != v && IsLeaf(op, x, u) && IsLeaf(op, x, v) && OnSpine(op, x, t)
    requires Dups1(op, x, u, t).1 == 0
    ensures Quiet1(op, x, u, v)
    decreases |v| - |t|
  {
    if t == v {
      Dups1Leaf(op, x, u, v);
    } else {
      InnerNode(op, x, t, v);
      Dups1Zero(op, x, u, t);
      if v[|t|].L? { Dups1Right(op, x, u, t + [L], v); } else { Dups1Right(op, x, u, t + [R], v); }
    }
  }

  lemma {:induction false} Dups1Quiet(op: Op, x: Expr, s: Path, t: Path, u: Path, v: Path)
    requires s <= u && t <= v && u != v && IsLeaf(op, x, u) && IsLeaf(op, x, v)
    requires OnSpine(op, x, s) && OnSpine(op, x, t)
    requires Dups1(op, x, s, t).1 == 0
    ensures Quiet1(op, x, u, v)
    decreases |u| - |s|
  {
    if s == u {
      Dups1Right(op, x, u, t, v);
    } else {
      InnerNode(op, x, s, u);
      Dups1Zero(op, x, s, t);
      if u[|s|].L? { Dups1Quiet(op, x, s + [L], t, u, v); } else { Dups1Quiet(op, x, s + [R], t, u, v); }
    }
  }

  lemma Dups2Zero(op: Op, x: Expr, s: Path, t: Path)
    requires OnSpine(op, x, s) && OnSpine(op, x, t) && Dups2(op, x, s, t).1 == 0
    ensures At(op, x, s).Is(op) ==>
              && OnSpine(op, x, s + [L]) && Dups2(op, x, s + [L], t).1 == 0
              && OnSpine(op, x, s + [R]) && Dups2(op, x, s + [R], t).1 == 0
    ensures !At(op, x, s).Is(op) && At(op, x, t).Is(op) ==>
              && OnSpine(op, x, t + [L]) && Dups2(op, x, s, t + [L]).1 == 0
              && OnSpine(op, x, t + [R]) && Dups2(op, x, s, t + [R]).1 == 0
    ensures !At(op, x, s).Is(op) && s != t ==> Dups2Leaf(op, x, s, t).1 == 0
  {
    if At(op, x, s).Is(op) {
      Extend(op, x, s, L); Extend(op, x, s, R);
      Moved(op, x, Dups2(op, x, s + [L], t).0, s + [R], t);
    } else if At(op, x, t).Is(op) {
      Extend(op, x, t, L); Extend(op, x, t, R);
      Moved(op, x, Dups2(op, x, s, t + [L]).0, s, t + [R]);
    }
  }

  lemma Dups2LeafZero(op: Op, x: Expr, s: Path, t: Path)
    requires IsLeaf(op, x, s) && OnSpine(op, x, t) && s != t && Dups2Leaf(op, x, s, t).1 == 0
    ensures Quiet2(op, x, s, t)
  {
    PutLeaf(op, x, s, At(op, x, s));
  }

  lemma {:induction false} Dups2QuietBelow(op: Op, x: Expr, s: Path, t: Path, v: Path)
    requires t <= v && s != v && IsLeaf(op, x, s) && OnSpine(op, x, t) && OnSpine(op, x, v)
    requires Dups2(op, x, s, t).1 == 0
    ensures Quiet2(op, x, s, v)
    decreases |v| - |t|
  {
    InnerNode(op, x, t, v);
    Dups2Zero(op, x, s, t);
    if t == v {
      Dups2LeafZero(op, x, s, t);
    } else if v[|t|].L? {
      Dups2QuietBelow(op, x, s, t + [L], v);
    } else {
      Dups2QuietBelow(op, x, s, t + [R], v);
    }
  }

  lemma {:induction false} Dups2Quiet(op: Op, x: Expr, s: Path, t: Path, u: Path, v: Path)
    requires s <= u && t <= v && u != v && IsLeaf(op, x, u) && OnSpine(op, x, v)
    requires OnSpine(op, x, s) && OnSpine(op, x, t)
    requires Dups2(op, x, s, t).1 == 0
    ensures Quiet2(op, x, u, v)
    decreases |u| - |s|
  {
    InnerNode(op, x, s, u);
    Dups2Zero(op, x, s, t);
    if s == u {
      Dups2QuietBelow(op, x, s, t, v);
    } else if u[|s|].L? {
      Dups2Quiet(op, x, s + [L], t, u, v);
    } else {
      Dups2Quiet(op, x, s + [R], t, u, v);
    }
  }

  /** In the result no two operands of a chain can be joined and none is contradicted
      by the chain it stands in or by a part of it. */
  lemma EliminateDupsComplete(e: Expr, u: Path, v: Path)
    requires var r := EliminateDups(e);
             r.Bin? && IsLeaf(r.op, r, u) && OnSpine(r.op, r, v) && u != v
    ensures var r := EliminateDups(e); Quiet2(r.op, r, u, v)
    ensures var r := EliminateDups(e); IsLeaf(r.op, r, v) ==> Quiet1(r.op, r, u, v)
  {
    var r := EliminateDups(e);
    assert Round(r) == (r, 0);
    Dups2Quiet(r.op, r, [], [], u, v);
    if IsLeaf(r.op, r, v) { Dups1Quiet(r.op, r, [], [], u, v); }
  }
}

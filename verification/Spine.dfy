/** Positions in the chain of one operator. The rewriters pass two pointers into
    the same tree, one often inside the subtree of the other; a pointer is
    modelled as the path from the root of the chain, and a write through it as
    `Put`. */
module Spine {
  import opened Tristate
  import opened ExprTree
  import opened Normalize

  datatype Dir = L | R

  type Path = seq<Dir>

  function Child(e: Expr, d: Dir): Expr
    requires e.Bin?
  {
    if d.L? then e.left else e.right
  }

  /** `s` leads from the root of `x` through `op` nodes only. */
  predicate OnSpine(op: Op, x: Expr, s: Path)
    decreases |s|
  {
    s == [] || (x.Is(op) && OnSpine(op, Child(x, s[0]), s[1..]))
  }

  function At(op: Op, x: Expr, s: Path): Expr
    requires OnSpine(op, x, s)
    decreases |s|
  {
    if s == [] then x else At(op, Child(x, s[0]), s[1..])
  }

  function Put(op: Op, x: Expr, s: Path, y: Expr): Expr
    requires OnSpine(op, x, s)
    decreases |s|
  {
    if s == [] then y
    else if s[0].L? then Bin(op, Put(op, x.left, s[1..], y), x.right)
    else Bin(op, x.left, Put(op, x.right, s[1..], y))
  }

  /** An operand of the chain: a position whose node is not an `op` node itself. */
  predicate IsLeaf(op: Op, x: Expr, s: Path) {
    OnSpine(op, x, s) && !At(op, x, s).Is(op)
  }

  /** The two trees have the same `op` nodes. */
  predicate SameSkeleton(op: Op, x: Expr, y: Expr) {
    x.Is(op) == y.Is(op) &&
    (x.Is(op) ==> SameSkeleton(op, x.left, y.left) && SameSkeleton(op, x.right, y.right))
  }

  function SkeletonSize(op: Op, x: Expr): nat {
    if x.Is(op) then 1 + SkeletonSize(op, x.left) + SkeletonSize(op, x.right) else 0
  }

  lemma {:induction false} Extend(op: Op, x: Expr, s: Path, d: Dir)
    requires OnSpine(op, x, s) && At(op, x, s).Is(op)
    ensures OnSpine(op, x, s + [d]) && At(op, x, s + [d]) == Child(At(op, x, s), d)
    ensures SkeletonSize(op, At(op, x, s + [d])) < SkeletonSize(op, At(op, x, s))
    decreases |s|
  {
    if s == [] {
      assert s + [d] == [d] && [d][1..] == [];
      assert At(op, x, [d]) == At(op, Child(x, d), []);
    } else {
      assert (s + [d])[0] == s[0] && (s + [d])[1..] == s[1..] + [d];
      Extend(op, Child(x, s[0]), s[1..], d);
    }
  }

  lemma {:induction false} SameSkeletonAt(op: Op, x: Expr, y: Expr, s: Path)
    requires SameSkeleton(op, x, y) && OnSpine(op, x, s)
    ensures OnSpine(op, y, s) && SameSkeleton(op, At(op, x, s), At(op, y, s))
    decreases |s|
  {
    if s != [] { SameSkeletonAt(op, Child(x, s[0]), Child(y, s[0]), s[1..]); }
  }

  lemma {:induction false} SameSkeletonSize(op: Op, x: Expr, y: Expr)
    requires SameSkeleton(op, x, y)
    ensures SkeletonSize(op, x) == SkeletonSize(op, y)
  {
    if x.Is(op) {
      SameSkeletonSize(op, x.left, y.left);
      SameSkeletonSize(op, x.right, y.right);
    }
  }

  lemma {:induction false} SameSkeletonRefl(op: Op, x: Expr)
    ensures SameSkeleton(op, x, x)
  {
    if x.Is(op) {
      SameSkeletonRefl(op, x.left);
      SameSkeletonRefl(op, x.right);
    }
  }

  lemma {:induction false} SameSkeletonTrans(op: Op, x: Expr, y: Expr, z: Expr)
    requires SameSkeleton(op, x, y) && SameSkeleton(op, y, z)
    ensures SameSkeleton(op, x, z)
  {
    if x.Is(op) {
      SameSkeletonTrans(op, x.left, y.left, z.left);
      SameSkeletonTrans(op, x.right, y.right, z.right);
    }
  }

  /** Writing an operand over an operand. */
  lemma {:induction false} PutLeaf(op: Op, x: Expr, s: Path, y: Expr)
    requires IsLeaf(op, x, s) && !y.Is(op)
    ensures SameSkeleton(op, x, Put(op, x, s, y))
    ensures Size(Put(op, x, s, y)) == Size(x) - Size(At(op, x, s)) + Size(y)
    ensures s != [] ==> Size(At(op, x, s)) < Size(x)
    ensures s != [] && (y.IsYN() || HasYN(y)) ==> HasYN(Put(op, x, s, y))
    ensures y == At(op, x, s) ==> Put(op, x, s, y) == x
    decreases |s|
  {
    if s != [] {
      PutLeaf(op, Child(x, s[0]), s[1..], y);
      SameSkeletonRefl(op, x.left);
      SameSkeletonRefl(op, x.right);
      if s[1..] == [] { assert Put(op, Child(x, s[0]), s[1..], y) == y; }
    }
  }

  /** A write is seen at its own position and at no other operand. */
  lemma {:induction false} PutAt(op: Op, x: Expr, s: Path, t: Path, y: Expr)
    requires IsLeaf(op, x, s) && IsLeaf(op, x, t) && !y.Is(op)
    ensures IsLeaf(op, Put(op, x, s, y), t)
    ensures At(op, Put(op, x, s, y), t) == if s == t then y else At(op, x, t)
    decreases |s|
  {
    if s != [] {
      assert t != [] ;
      if s[0] == t[0] {
        PutAt(op, Child(x, s[0]), s[1..], t[1..], y);
        assert s == [s[0]] + s[1..] && t == [t[0]] + t[1..];
      }
    } else {
      assert t == [];
    }
  }

  /** Two different operands, neither of them the whole chain. */
  lemma LeavesApart(op: Op, x: Expr, s: Path, t: Path)
    requires IsLeaf(op, x, s) && OnSpine(op, x, t) && s != t
    ensures s != []
  {
  }

  // ----- values along a chain -----

  /** The value of all operands of the chain but the one at `s`. */
  function Rest(op: Op, x: Expr, s: Path, env: Env): Tri
    requires OnSpine(op, x, s)
    decreases |s|
  {
    if s == [] then Unit(op)
    else Apply(op, Val(if s[0].L? then x.right else x.left, env), Rest(op, Child(x, s[0]), s[1..], env))
  }

  lemma {:induction false} PutVal(op: Op, x: Expr, s: Path, y: Expr, env: Env)
    requires OnSpine(op, x, s)
    ensures Val(Put(op, x, s, y), env) == Apply(op, Val(y, env), Rest(op, x, s, env))
    ensures Val(x, env) == Apply(op, Val(At(op, x, s), env), Rest(op, x, s, env))
    decreases |s|
  {
    if s != [] {
      var c := Child(x, s[0]);
      PutVal(op, c, s[1..], y, env);
      var o := Val(if s[0].L? then x.right else x.left, env);
      Swap(op, Val(y, env), o, Rest(op, c, s[1..], env));
      Swap(op, Val(At(op, x, s), env), o, Rest(op, c, s[1..], env));
      assert Val(Put(op, x, s, y), env) == Apply(op, Val(Put(op, c, s[1..], y), env), o);
      assert Val(x, env) == Apply(op, Val(c, env), o);
    }
  }

  /** Rewriting two operands whose combined value stays the same. */
  lemma {:induction false} PutTwo(op: Op, x: Expr, s: Path, t: Path, y: Expr, z: Expr, env: Env)
    requires IsLeaf(op, x, s) && IsLeaf(op, x, t) && s != t && !y.Is(op)
    requires Apply(op, Val(y, env), Val(z, env)) == Apply(op, Val(At(op, x, s), env), Val(At(op, x, t), env))
    ensures OnSpine(op, Put(op, x, s, y), t)
    ensures Val(Put(op, Put(op, x, s, y), t, z), env) == Val(x, env)
    decreases |s|
  {
    PutAt(op, x, s, t, y);
    var (s', t') := (s[1..], t[1..]);
    var (c, d) := (Child(x, s[0]), Child(x, t[0]));
    if s[0] == t[0] {
      assert s == [s[0]] + s' && t == [t[0]] + t';
      PutTwo(op, c, s', t', y, z, env);
    } else {
      PutVal(op, c, s', y, env);
      PutVal(op, d, t', z, env);
      var (u, v) := (Rest(op, c, s', env), Rest(op, d, t', env));
      Regroup(op, Val(y, env), u, Val(z, env), v);
      Regroup(op, Val(At(op, x, s), env), u, Val(At(op, x, t), env), v);
      Commute(op, Val(c, env), Val(d, env));
      Commute(op, Val(Put(op, c, s', y), env), Val(Put(op, d, t', z), env));
    }
  }
}

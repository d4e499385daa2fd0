/** Joining two operands of a chain into one (expr_join_or, expr_join_and). */
module Joins {
  import opened Wrappers
  import opened Tristate
  import opened ExprTree
  import opened ExprEq

  /** The symbol the first operand is about; a negated comparison counts. */
  function FirstSubject(e: Expr): Option<Symbol> {
    match e
    case Sym(s) => Some(s)
    case Cmp(_, s, _) => Some(s)
    case Not(Sym(s)) => Some(s)
    case Not(Cmp(_, s, _)) => Some(s)
    case _ => None
  }

  /** The symbol the second operand is about; only a negated symbol counts. */
  function SecondSubject(e: Expr): Option<Symbol> {
    match e
    case Not(Cmp(_, _, _)) => None
    case _ => FirstSubject(e)
  }

  /** One of the two is `a` and the other is `b`. */
  predicate Pair<T(==)>(x: T, y: T, a: T, b: T) {
    (x == a && y == b) || (x == b && y == a)
  }

  /** The constant other than two distinct built-in ones. */
  function Third(x: Symbol, y: Symbol): Option<Symbol> {
    if Pair(x, y, YesSym, ModSym) then Some(NoSym)
    else if Pair(x, y, YesSym, NoSym) then Some(ModSym)
    else if Pair(x, y, ModSym, NoSym) then Some(YesSym)
    else None
  }

  function JoinOr(a: Expr, b: Expr): (r: Option<Expr>)
    ensures r.Some? ==> Size(r.value) <= Size(a) && (r.value.Is(Disj) ==> r.value == a)
  {
    if Eq(a, b) then Some(a)
    else
      var s := FirstSubject(a);
      if !(s.Some? && SecondSubject(b) == s && s.value.TriValued()) then None
      else if s.value.HasKind(TristateKind) && a.Cmp? && b.Cmp? && a.rel.Equal? && b.rel.Equal?
              && Third(a.rhs, b.rhs).Some? then
        Some(Cmp(Unequal, s.value, Third(a.rhs, b.rhs).value))
      else if s.value.HasKind(Boolean) && Pair(a, b, Sym(s.value), Not(Sym(s.value))) then
        Some(Sym(YesSym))
      else None
  }

  function JoinAnd(a: Expr, b: Expr): (r: Option<Expr>)
    ensures r.Some? ==> Size(r.value) <= Size(a) && (r.value.Is(Conj) ==> r.value == a)
  {
    if Eq(a, b) then Some(a)
    else
      var o := FirstSubject(a);
      if !(o.Some? && SecondSubject(b) == o && o.value.TriValued()) then None
      else
        var s := o.value;
        if Pair(a, b, Sym(s), Cmp(Equal, s, YesSym)) then Some(Cmp(Equal, s, YesSym))
        else if Pair(a, b, Sym(s), Cmp(Unequal, s, NoSym)) then Some(Sym(s))
        else if Pair(a, b, Sym(s), Cmp(Unequal, s, ModSym)) then Some(Cmp(Equal, s, YesSym))
        else if !s.HasKind(TristateKind) || !a.Cmp? || !b.Cmp? then None
        else if a.rel.Equal? && b.rel.Unequal? && a.rhs.IsConst() && b.rhs.IsConst() then
          Some(if a.rhs != b.rhs then Cmp(Equal, s, a.rhs) else Sym(NoSym))
        else if a.rel.Unequal? && b.rel.Equal? && a.rhs.IsConst() && b.rhs.IsConst() then
          Some(if a.rhs != b.rhs then Cmp(Equal, s, b.rhs) else Sym(NoSym))
        else if a.rel.Unequal? && b.rel.Unequal? && Third(a.rhs, b.rhs).Some? then
          Some(Cmp(Equal, s, Third(a.rhs, b.rhs).value))
        else None
  }

  function Joined(op: Op, a: Expr, b: Expr): (r: Option<Expr>)
    ensures r.Some? ==> Size(r.value) <= Size(a) && (r.value.Is(op) ==> r.value == a)
  {
    if op.Conj? then JoinAnd(a, b) else JoinOr(a, b)
  }

  lemma JoinOrExact(a: Expr, b: Expr, env: Env)
    requires WellTyped(env) && JoinOr(a, b).Some?
    ensures Val(JoinOr(a, b).value, env) == Apply(Disj, Val(a, env), Val(b, env))
  {
    if Eq(a, b) {
      EqSound(a, b, env);
    } else {
      var s := FirstSubject(a).value;
      TextsDiffer(s, YesSym, ModSym, env);
    }
  }

  lemma JoinAndExact(a: Expr, b: Expr, env: Env)
    requires WellTyped(env) && JoinAnd(a, b).Some?
    ensures Val(JoinAnd(a, b).value, env) == Apply(Conj, Val(a, env), Val(b, env))
  {
    if Eq(a, b) {
      EqSound(a, b, env);
    } else {
      var s := FirstSubject(a).value;
      TextsDiffer(s, YesSym, ModSym, env);
      if a.Cmp? && b.Cmp? && a.rhs.IsConst() && b.rhs.IsConst() {
        TextsDiffer(s, a.rhs, b.rhs, env);
      }
    }
  }

  /** A join stands for both operands, in every well-typed environment. */
  lemma JoinedExact(op: Op, a: Expr, b: Expr, env: Env)
    requires WellTyped(env) && Joined(op, a, b).Some?
    ensures Val(Joined(op, a, b).value, env) == Apply(op, Val(a, env), Val(b, env))
  {
    if op.Conj? { JoinAndExact(a, b, env); } else { JoinOrExact(a, b, env); }
  }
}

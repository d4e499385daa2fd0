/** Symbols, dependency expressions and their value (expr.h, expr_calc_value). */
module ExprTree {
  import opened Wrappers
  import opened Tristate

  datatype Kind = Unknown | Boolean | TristateKind | IntKind | HexKind | StringKind

  /** The name of a quoted constant; "y", "m" and "n" always denote the three
      built-in constants instead. */
  type Literal = s: string | s != "y" && s != "m" && s != "n" witness ""

  datatype Symbol =
    | YesSym
    | ModSym
    | NoSym
    | Const(text: Literal)
    | Config(name: string, kind: Kind)
  {
    predicate IsConst() {
      !Config?
    }

    predicate HasKind(k: Kind) {
      Config? && kind == k
    }

    predicate TriValued() {
      HasKind(Boolean) || HasKind(TristateKind)
    }
  }

  datatype Rel = Equal | Unequal

  function Flip(rel: Rel): Rel {
    if rel == Equal then Unequal else Equal
  }

  datatype Expr =
    | Sym(sym: Symbol)
    | Cmp(rel: Rel, lhs: Symbol, rhs: Symbol)
    | Not(arg: Expr)
    | Bin(op: Op, left: Expr, right: Expr)
  {
    predicate Is(o: Op) {
      Bin? && op == o
    }

    /** A bare y or n. */
    predicate IsYN() {
      this == Sym(YesSym) || this == Sym(NoSym)
    }
  }

  /** The constant that an operator absorbs, and the one that decides it. */
  function UnitExpr(op: Op): Expr {
    Sym(if op.Conj? then YesSym else NoSym)
  }

  function ZeroExpr(op: Op): Expr {
    Sym(if op.Conj? then NoSym else YesSym)
  }

  function Size(e: Expr): nat
    ensures Size(e) >= 1
  {
    match e
    case Sym(_) => 1
    case Cmp(_, _, _) => 1
    case Not(x) => 1 + Size(x)
    case Bin(_, l, r) => 1 + Size(l) + Size(r)
  }

  /** The current value of every configuration symbol. */
  datatype Env = Env(tri: Symbol -> Tri, text: Symbol -> string)

  /** A boolean symbol is never m. */
  ghost predicate WellTyped(env: Env) {
    forall s: Symbol :: s.HasKind(Boolean) ==> env.tri(s) != MOD
  }

  function SymTri(s: Symbol, env: Env): Tri {
    match s
    case YesSym => YES
    case ModSym => MOD
    case NoSym => NO
    case Const(_) => NO
    case Config(_, _) => if s.TriValued() then env.tri(s) else NO
  }

  function TriText(t: Tri): string {
    if t == NO then "n" else if t == MOD then "m" else "y"
  }

  function SymText(s: Symbol, env: Env): string {
    match s
    case YesSym => "y"
    case ModSym => "m"
    case NoSym => "n"
    case Const(text) => text
    case Config(name, kind) =>
      if s.TriValued() then TriText(env.tri(s))
      else if kind == Unknown then name
      else env.text(s)
  }

  function CmpVal(rel: Rel, a: Symbol, b: Symbol, env: Env): Tri {
    Truth((SymText(a, env) == SymText(b, env)) == rel.Equal?)
  }

  function Val(e: Expr, env: Env): Tri {
    match e
    case Sym(s) => SymTri(s, env)
    case Cmp(rel, a, b) => CmpVal(rel, a, b, env)
    case Not(x) => Negate(Val(x, env))
    case Bin(op, l, r) => Apply(op, Val(l, env), Val(r, env))
  }

  /** A missing expression counts as y. */
  function OptVal(e: Option<Expr>, env: Env): Tri {
    if e.None? then YES else Val(e.value, env)
  }

  /** The texts of constants and of tristate values never collide. */
  lemma TextsDiffer(s: Symbol, c: Symbol, d: Symbol, env: Env)
    requires c.IsConst() && d.IsConst()
    ensures SymText(c, env) == SymText(d, env) <==> c == d
    ensures s.TriValued() ==> (SymText(s, env) == "y" <==> env.tri(s) == YES)
    ensures s.TriValued() ==> (SymText(s, env) == "m" <==> env.tri(s) == MOD)
    ensures s.TriValued() ==> (SymText(s, env) == "n" <==> env.tri(s) == NO)
  {
    assert "y"[0] == 'y' && "m"[0] == 'm' && "n"[0] == 'n';
  }
}

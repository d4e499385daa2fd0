/** Printing expressions (expr_compare_type, expr_print) and parsing them back
    with the shift-reduce parser of the expression grammar: %left ||, %left &&,
    %left = !=, %nonassoc !. */
module Syntax {
  import opened Wrappers
  import opened Tristate
  import opened ExprTree

  // ----- expr_print -----

  datatype Token =
    | Word(sym: Symbol)
    | Rel(rel: Rel)
    | Infix(op: Op)
    | Bang
    | Open
    | Close

  datatype ExprType = ENone | EOr | EAnd | ENot | EEqual | EUnequal | EChoice | ESymbol

  function TypeOf(e: Expr): ExprType {
    match e
    case Sym(_) => ESymbol
    case Cmp(rel, _, _) => if rel.Equal? then EEqual else EUnequal
    case Not(_) => ENot
    case Bin(op, _, _) => OpType(op)
  }

  function OpType(op: Op): ExprType {
    if op.Conj? then EAnd else EOr
  }

  /** The cases fall through, from the tightest type to the loosest. */
  function CompareType(t1: ExprType, t2: ExprType): int {
    if t1 == t2 then 0
    else if (t1.EEqual? || t1.EUnequal?) && t2.ENot? then 1
    else if (t1.EEqual? || t1.EUnequal? || t1.ENot?) && t2.EAnd? then 1
    else if (t1.EEqual? || t1.EUnequal? || t1.ENot? || t1.EAnd?) && t2.EOr? then 1
    else if (t1.EEqual? || t1.EUnequal? || t1.ENot? || t1.EAnd? || t1.EOr?) && t2.EChoice? then 1
    else if !t1.ESymbol? && !t1.ENone? && t2.ENone? then 1
    else -1
  }

  function Body(e: Expr): seq<Token>
    decreases e, 0
  {
    match e
    case Sym(s) => [Word(s)]
    case Cmp(rel, a, b) => [Word(a), Rel(rel), Word(b)]
    case Not(x) => [Bang] + Print(x, ENot)
    case Bin(op, l, r) => Print(l, OpType(op)) + [Infix(op)] + Print(r, OpType(op))
  }

  function Print(e: Expr, prev: ExprType): seq<Token>
    decreases e, 1
  {
    if CompareType(prev, TypeOf(e)) > 0 then [Open] + Body(e) + [Close] else Body(e)
  }

  // ----- the parser -----

  datatype Item = Value(e: Expr) | Tok(t: Token)

  type Stack = seq<Item>

  function Push(st: Stack, n: nat, e: Expr): Stack
    requires n <= |st|
  {
    st[..|st| - n] + [Value(e)]
  }

  /** The reduction that is due before the next token is shifted, if any. */
  function Reduce(st: Stack, next: Option<Token>): Option<Stack> {
    var n := |st|;
    if n >= 1 && st[n-1].Tok? && st[n-1].t.Word? then
      if n >= 3 && st[n-2].Tok? && st[n-2].t.Rel? && st[n-3].Tok? && st[n-3].t.Word? then
        Some(Push(st, 3, Cmp(st[n-2].t.rel, st[n-3].t.sym, st[n-1].t.sym)))
      else if next.Some? && next.value.Rel? then None
      else Some(Push(st, 1, Sym(st[n-1].t.sym)))
    else if n >= 3 && st[n-1] == Tok(Close) && st[n-2].Value? && st[n-3] == Tok(Open) then
      Some(Push(st, 3, st[n-2].e))
    else if n >= 2 && st[n-1].Value? && st[n-2] == Tok(Bang) then
      Some(Push(st, 2, Not(st[n-1].e)))
    else if n >= 3 && st[n-1].Value? && st[n-2].Tok? && st[n-2].t.Infix? && st[n-3].Value? then
      if st[n-2].t.op.Disj? && next == Some(Infix(Conj)) then None
      else Some(Push(st, 3, Bin(st[n-2].t.op, st[n-3].e, st[n-1].e)))
    else None
  }

  predicate CanShift(st: Stack, t: Token) {
    var n := |st|;
    if n == 0 then t.Word? || t.Bang? || t.Open?
    else if st[n-1].Value? then t.Infix? || (t.Close? && n >= 2 && st[n-2] == Tok(Open))
    else match st[n-1].t
      case Word(_) => t.Rel?
      case Rel(_) => t.Word?
      case Close => false
      case _ => t.Word? || t.Bang? || t.Open?
  }

  /** Height of the stack, with a symbol on top not yet counted as an expression. */
  function Height(st: Stack): nat {
    |st| + if st != [] && st[|st|-1].Tok? && st[|st|-1].t.Word? then 1 else 0
  }

  function Peek(toks: seq<Token>): Option<Token> {
    if toks == [] then None else Some(toks[0])
  }

  function Run(st: Stack, toks: seq<Token>): Option<Expr>
    decreases |toks|, Height(st)
  {
    match Reduce(st, Peek(toks))
    case Some(st') => Run(st', toks)
    case None =>
      if toks == [] then
        if |st| == 1 && st[0].Value? then Some(st[0].e) else None
      else if CanShift(st, toks[0]) then Run(st + [Tok(toks[0])], toks[1..])
      else None
  }

  function Parse(toks: seq<Token>): Option<Expr> {
    Run([], toks)
  }

  method ParseLoop(input: seq<Token>) returns (r: Option<Expr>)
    ensures r == Parse(input)
  {
    var st: Stack, toks := [], input;
    while true
      invariant Run(st, toks) == Parse(input)
      decreases |toks|, Height(st)
    {
      var next := Reduce(st, Peek(toks));
      if next.Some? {
        st := next.value;
      } else if toks != [] && CanShift(st, toks[0]) {
        st, toks := st + [Tok(toks[0])], toks[1..];
      } else {
        return if toks == [] && |st| == 1 && st[0].Value? then Some(st[0].e) else None;
      }
    }
  }

  // ----- round trip -----

  /** Chains regrouped to the left, the grouping the grammar chooses. */
  function Reassoc(e: Expr): Expr
    decreases e, 0
  {
    match e
    case Not(x) => Not(Reassoc(x))
    case Bin(op, l, r) => Append(op, Reassoc(l), r)
    case _ => e
  }

  /** The chain `acc` followed by the operands of `e`. */
  function Append(op: Op, acc: Expr, e: Expr): Expr
    decreases e, 1
  {
    if e.Is(op) then Append(op, Append(op, acc, e.left), e.right) else Bin(op, acc, Reassoc(e))
  }

  lemma {:induction false} ReassocVal(e: Expr, env: Env)
    ensures Val(Reassoc(e), env) == Val(e, env)
    decreases e, 0
  {
    match e
    case Not(x) => ReassocVal(x, env);
    case Bin(op, l, r) =>
      ReassocVal(l, env);
      AppendVal(op, Reassoc(l), r, env);
    case _ =>
  }

  lemma {:induction false} AppendVal(op: Op, acc: Expr, e: Expr, env: Env)
    ensures Val(Append(op, acc, e), env) == Apply(op, Val(acc, env), Val(e, env))
    decreases e, 1
  {
    if e.Is(op) {
      AppendVal(op, acc, e.left, env);
      AppendVal(op, Append(op, acc, e.left), e.right, env);
      Swap(op, Val(acc, env), Val(e.left, env), Val(e.right, env));
    } else {
      ReassocVal(e, env);
    }
  }

  /** No chain has a chain of its own operator as right operand. */
  predicate LeftGrouped(e: Expr) {
    match e
    case Not(x) => LeftGrouped(x)
    case Bin(op, l, r) => LeftGrouped(l) && LeftGrouped(r) && !r.Is(op)
    case _ => true
  }

  lemma {:induction false} ReassocLeftGrouped(e: Expr)
    ensures LeftGrouped(Reassoc(e))
    ensures forall op :: Reassoc(e).Is(op) == e.Is(op)
    decreases e, 0
  {
    match e
    case Not(x) => ReassocLeftGrouped(x);
    case Bin(op, l, r) =>
      ReassocLeftGrouped(l);
      AppendLeftGrouped(op, Reassoc(l), r);
    case _ =>
  }

  lemma {:induction false} AppendLeftGrouped(op: Op, acc: Expr, e: Expr)
    requires LeftGrouped(acc)
    ensures LeftGrouped(Append(op, acc, e)) && Append(op, acc, e).Is(op)
    decreases e, 1
  {
    if e.Is(op) {
      AppendLeftGrouped(op, acc, e.left);
      AppendLeftGrouped(op, Append(op, acc, e.left), e.right);
    } else {
      ReassocLeftGrouped(e);
    }
  }

  lemma {:induction false} ReassocFixes(e: Expr)
    requires LeftGrouped(e)
    ensures Reassoc(e) == e
  {
    match e
    case Not(x) => ReassocFixes(x);
    case Bin(op, l, r) =>
      ReassocFixes(l);
      ReassocFixes(r);
    case _ =>
  }

  /** An operand comes next. */
  predicate WantsOperand(st: Stack) {
    st == [] || st[|st|-1] == Tok(Open) || st[|st|-1] == Tok(Bang) ||
    (st[|st|-1].Tok? && st[|st|-1].t.Infix?)
  }

  /** A whole `op` chain comes next: nothing as tight as `op` is pending. */
  predicate WantsChain(st: Stack, op: Op) {
    st == [] || st[|st|-1] == Tok(Open) || (op.Conj? && st[|st|-1] == Tok(Infix(Disj)))
  }

  /** What may follow an operand of an `op` chain. */
  predicate Follows(op: Op, toks: seq<Token>) {
    toks == [] || toks[0] == Close || toks[0] == Infix(Disj) || (op.Conj? && toks[0] == Infix(Conj))
  }

  lemma Shift(st: Stack, t: Token, rest: seq<Token>)
    requires Reduce(st, Some(t)).None? && CanShift(st, t)
    ensures Run(st, [t] + rest) == Run(st + [Tok(t)], rest)
  {
    assert ([t] + rest)[1..] == rest;
  }

  lemma Reduced(st: Stack, n: nat, e: Expr, tail: Stack, rest: seq<Token>)
    requires |tail| == n && Reduce(st + tail, Peek(rest)) == Some(Push(st + tail, n, e))
    ensures Run(st + tail, rest) == Run(st + [Value(e)], rest)
  {
    assert (st + tail)[..|st|] == st;
  }

  lemma ShiftCmp(rel: Rel, a: Symbol, b: Symbol, st: Stack, rest: seq<Token>)
    requires WantsOperand(st)
    ensures Run(st, [Word(a), Rel(rel), Word(b)] + rest)
         == Run(st + [Tok(Word(a))] + [Tok(Rel(rel))] + [Tok(Word(b))], rest)
  {
    assert [Word(a), Rel(rel), Word(b)] + rest == [Word(a)] + ([Rel(rel)] + ([Word(b)] + rest));
    Shift(st, Word(a), [Rel(rel)] + ([Word(b)] + rest));
    Shift(st + [Tok(Word(a))], Rel(rel), [Word(b)] + rest);
    Shift(st + [Tok(Word(a))] + [Tok(Rel(rel))], Word(b), rest);
  }

  lemma ParseCmp(rel: Rel, a: Symbol, b: Symbol, st: Stack, rest: seq<Token>)
    requires WantsOperand(st) && Follows(Conj, rest)
    ensures Run(st, [Word(a), Rel(rel), Word(b)] + rest) == Run(st + [Value(Cmp(rel, a, b))], rest)
  {
    ShiftCmp(rel, a, b, st, rest);
    var tail := [Tok(Word(a)), Tok(Rel(rel)), Tok(Word(b))];
    assert st + [Tok(Word(a))] + [Tok(Rel(rel))] + [Tok(Word(b))] == st + tail;
    Reduced(st, 3, Cmp(rel, a, b), tail, rest);
  }

  lemma ShiftInfix(op: Op, e: Expr, st: Stack, rest: seq<Token>)
    requires WantsChain(st, op)
    ensures Run(st + [Value(e)], [Infix(op)] + rest) == Run(st + [Value(e)] + [Tok(Infix(op))], rest)
  {
    Shift(st + [Value(e)], Infix(op), rest);
  }

  lemma PrintChain(op: Op, e: Expr, rest: seq<Token>)
    requires e.Is(op)
    ensures Print(e, OpType(op)) + rest
         == Print(e.left, OpType(op)) + ([Infix(op)] + (Print(e.right, OpType(op)) + rest))
  {
  }

  lemma ParseWord(s: Symbol, st: Stack, rest: seq<Token>)
    requires WantsOperand(st) && Follows(Conj, rest)
    ensures Run(st, [Word(s)] + rest) == Run(st + [Value(Sym(s))], rest)
  {
    Shift(st, Word(s), rest);
    Reduced(st, 1, Sym(s), [Tok(Word(s))], rest);
  }

  lemma ParseNot(e: Expr, st: Stack, rest: seq<Token>)
    ensures Run(st + [Tok(Bang)] + [Value(e)], rest) == Run(st + [Value(Not(e))], rest)
  {
    var tail := [Tok(Bang), Value(e)];
    assert st + [Tok(Bang)] + [Value(e)] == st + tail;
    Reduced(st, 2, Not(e), tail, rest);
  }

  lemma ShiftOperand(st: Stack, t: Token, rest: seq<Token>)
    requires WantsOperand(st) && (t.Bang? || t.Open?)
    ensures Run(st, [t] + rest) == Run(st + [Tok(t)], rest) && WantsOperand(st + [Tok(t)])
  {
    Shift(st, t, rest);
  }

  lemma ParseClose(e: Expr, st: Stack, rest: seq<Token>)
    ensures Run(st + [Tok(Open)] + [Value(e)], [Close] + rest) == Run(st + [Value(e)], rest)
  {
    Shift(st + [Tok(Open)] + [Value(e)], Close, rest);
    var tail := [Tok(Open), Value(e), Tok(Close)];
    assert st + [Tok(Open)] + [Value(e)] + [Tok(Close)] == st + tail;
    Reduced(st, 3, e, tail, rest);
  }

  lemma {:induction false} ParseUnary(e: Expr, st: Stack, rest: seq<Token>)
    requires WantsOperand(st) && Follows(Conj, rest)
    ensures Run(st, Print(e, ENot) + rest) == Run(st + [Value(Reassoc(e))], rest)
    decreases e, 3
  {
    match e
    case Sym(s) => ParseWord(s, st, rest);
    case Cmp(rel, a, b) => ParseCmp(rel, a, b, st, rest);
    case Not(x) =>
      assert Print(e, ENot) + rest == [Bang] + (Print(x, ENot) + rest);
      ShiftOperand(st, Bang, Print(x, ENot) + rest);
      ParseUnary(x, st + [Tok(Bang)], rest);
      ParseNot(Reassoc(x), st, rest);
    case Bin(_, _, _) =>
      assert Print(e, ENot) + rest == [Open] + (Body(e) + ([Close] + rest));
      ShiftOperand(st, Open, Body(e) + ([Close] + rest));
      ParseChain(Disj, e, st + [Tok(Open)], [Close] + rest);
      ParseClose(Reassoc(e), st, rest);
  }

  /** How an operand of an `op` chain is printed. */
  lemma PrintOperand(op: Op, e: Expr)
    requires !e.Is(op)
    ensures Print(e, OpType(op)) == Print(e, if op.Conj? || !e.Is(Conj) then ENot else OpType(Conj))
  {
  }

  /** One operand of an `op` chain. */
  lemma {:induction false} ParseOperand(op: Op, e: Expr, st: Stack, rest: seq<Token>)
    requires WantsOperand(st) && (op.Disj? ==> WantsChain(st, Conj)) && Follows(op, rest) && !e.Is(op)
    ensures Run(st, Print(e, OpType(op)) + rest) == Run(st + [Value(Reassoc(e))], rest)
    decreases e, if op.Disj? && e.Is(Conj) then 1 else 4
  {
    PrintOperand(op, e);
    if op.Conj? || !e.Is(Conj) { ParseUnary(e, st, rest); } else { ParseChain(Conj, e, st, rest); }
  }

  lemma {:induction false} ParseChain(op: Op, e: Expr, st: Stack, rest: seq<Token>)
    requires WantsChain(st, op) && Follows(op, rest)
    ensures Run(st, Print(e, OpType(op)) + rest) == Run(st + [Value(Reassoc(e))], rest)
    decreases e, if e.Is(op) then 0 else if op.Disj? && e.Is(Conj) then 2 else 5
  {
    if e.Is(op) {
      var tail := Print(e.right, OpType(op)) + rest;
      PrintChain(op, e, rest);
      ParseChain(op, e.left, st, [Infix(op)] + tail);
      ShiftInfix(op, Reassoc(e.left), st, tail);
      ParseAppend(op, Reassoc(e.left), e.right, st, rest);
    } else {
      ParseOperand(op, e, st, rest);
    }
  }

  /** Behind an infix operator an operand comes next. */
  lemma InfixWants(op: Op, e: Expr, st: Stack)
    ensures WantsOperand(st + [Value(e)] + [Tok(Infix(op))])
    ensures op.Disj? ==> WantsChain(st + [Value(e)] + [Tok(Infix(op))], Conj)
  {
  }

  lemma ReduceInfix(op: Op, l: Expr, r: Expr, st: Stack, rest: seq<Token>)
    requires Follows(op, rest)
    ensures Run(st + [Value(l)] + [Tok(Infix(op))] + [Value(r)], rest) == Run(st + [Value(Bin(op, l, r))], rest)
  {
    var tail := [Value(l), Tok(Infix(op)), Value(r)];
    assert st + [Value(l)] + [Tok(Infix(op))] + [Value(r)] == st + tail;
    Reduced(st, 3, Bin(op, l, r), tail, rest);
  }

  lemma {:induction false} ParseAppend(op: Op, acc: Expr, e: Expr, st: Stack, rest: seq<Token>)
    requires WantsChain(st, op) && Follows(op, rest)
    ensures Run(st + [Value(acc)] + [Tok(Infix(op))], Print(e, OpType(op)) + rest)
         == Run(st + [Value(Append(op, acc, e))], rest)
    decreases e, 5
  {
    if e.Is(op) {
      var tail := Print(e.right, OpType(op)) + rest;
      PrintChain(op, e, rest);
      ParseAppend(op, acc, e.left, st, [Infix(op)] + tail);
      ShiftInfix(op, Append(op, acc, e.left), st, tail);
      ParseAppend(op, Append(op, acc, e.left), e.right, st, rest);
    } else {
      InfixWants(op, acc, st);
      ParseOperand(op, e, st + [Value(acc)] + [Tok(Infix(op))], rest);
      ReduceInfix(op, acc, Reassoc(e), st, rest);
    }
  }

  /** Printing and parsing gives the expression back, its chains grouped to the left. */
  lemma ParsePrint(e: Expr)
    ensures Parse(Print(e, ENone)) == Some(Reassoc(e))
    ensures forall env :: Val(Reassoc(e), env) == Val(e, env)
    ensures LeftGrouped(e) <==> Parse(Print(e, ENone)) == Some(e)
  {
    assert Print(e, ENone) == Print(e, EOr) + [];
    ParseChain(Disj, e, [], []);
    assert [] + [Value(Reassoc(e))] == [Value(Reassoc(e))];
    forall env ensures Val(Reassoc(e), env) == Val(e, env) { ReassocVal(e, env); }
    ReassocLeftGrouped(e);
    if LeftGrouped(e) { ReassocFixes(e); }
  }
}

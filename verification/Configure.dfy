/** The dependency check and the caching evaluator together: conf_parse checks all
    symbols, then values are asked for in any order. */
module Configure {
  import opened Wrappers
  import opened ExprTree
  import opened Symbols
  import opened CheckDeps
  import opened Engine

  /** Unless a recursive dependency is reported, every answer is the one value that
      the definitions admit, whatever was asked before. */
  method CheckThenAsk(c: Conf, modulesSym: Option<Symbol>, symbols: seq<Symbol>, order: seq<Symbol>)
    returns (reported: bool, values: seq<Value>)
    requires TextsOnPrompts(c.defs) && Complete(c.defs, symbols)
    ensures reported <==> HasCycle(GraphOf(c.defs))
    ensures !reported ==> |values| == |order|
    ensures !reported ==> exists v :: Solves(c, v)
    ensures !reported ==> forall v, i | Solves(c, v) && 0 <= i < |order| :: values[i] == v(order[i])
  {
    values := [];
    ghost var rank;
    reported, rank := CheckAll(c.defs, symbols);
    if !reported {
      var t := new Symtab(c, modulesSym, rank);
      values := t.Ask(order);
      forall v, i | Solves(c, v) && 0 <= i < |order| ensures values[i] == v(order[i]) {
        SolutionUnique(c, rank, v, order[i]);
      }
      EvalIsSolution(c, rank);
    }
  }

  lemma EvalIsSolution(c: Conf, rank: Rank)
    requires TextsOnPrompts(c.defs) && Ranked(c.defs, rank)
    ensures exists v :: Solves(c, v)
  {
    var v: Symbol -> Value := s => Eval(c, rank, s);
    forall s ensures v(s) == Compute(c, s, EnvOf(v)) {
      EvalSolves(c, rank, s);
      assert AgreeOn(Deps(c.defs, s), EvalEnv(c, rank), EnvOf(v));
      ComputeAgrees(c, s, EvalEnv(c, rank), EnvOf(v));
    }
    assert Solves(c, v);
  }
}

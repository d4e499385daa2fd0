/** The caching evaluator: values are calculated on demand and kept while the
    VALID flag is set (sym_calc_value, sym_calc_visibility, sym_get_default_prop,
    expr_calc_value, sym_set_tristate_value, sym_clear_all_valid). */
module Engine {
  import opened Wrappers
  import opened Tristate
  import opened ExprTree
  import opened Symbols

  /** The fields of a symbol that evaluation changes. */
  datatype Entry = Entry(valid: bool, curr: Value, visible: Tri, revTri: Tri)

  const FRESH: Entry := Entry(false, Value("", NO), NO, NO)

  type Cache = map<Symbol, Entry>

  function Look(c: Cache, s: Symbol): Entry {
    if s in c then c[s] else FRESH
  }

  /** A symbol with a type has a visibility and a reverse dependency. */
  predicate Typed(s: Symbol) {
    s.Config? && s.kind != Unknown
  }

  /** The fields hold what the definition prescribes, given the values of all symbols. */
  predicate Matches(conf: Conf, s: Symbol, e: Entry, w: Env) {
    && e.curr == Compute(conf, s, w)
    && (Typed(s) ==> e.visible == Visibility(conf, s, w) && e.revTri == Reverse(conf, s, w))
  }

  // ----- what is cached does not depend on what is not -----

  /** `w` gives the valid symbols below rank `r` their cached values, and others any. */
  ghost predicate Fits(c: Cache, rank: Rank, r: nat, w: Env) {
    forall s | Look(c, s).valid && rank(s) < r :: w.tri(s) == Look(c, s).curr.tri && w.text(s) == Look(c, s).curr.text
  }

  /** The fields of `s` are right whatever the symbols are that are not valid. */
  ghost predicate Rooted(conf: Conf, rank: Rank, c: Cache, s: Symbol) {
    forall w | Fits(c, rank, rank(s), w) :: Matches(conf, s, Look(c, s), w)
  }

  ghost predicate AllRooted(conf: Conf, rank: Rank, c: Cache, r: nat) {
    forall s | Look(c, s).valid && rank(s) < r :: Rooted(conf, rank, c, s)
  }

  /** Nothing changed for valid symbols, and for symbols of rank `r` or above. */
  ghost predicate Grew(c: Cache, c': Cache, rank: Rank, r: nat) {
    forall s | rank(s) >= r || Look(c, s).valid :: Look(c', s) == Look(c, s)
  }

  /** The same but for `s`, which has rank `r`. */
  ghost predicate GrewBut(c: Cache, c': Cache, rank: Rank, s: Symbol) {
    forall t | t != s && (rank(t) >= rank(s) || Look(c, t).valid) :: Look(c', t) == Look(c, t)
  }

  lemma FitsBefore(c: Cache, c': Cache, rank: Rank, r: nat, w: Env)
    requires Grew(c, c', rank, r) && Fits(c', rank, r, w)
    ensures Fits(c, rank, r, w)
  {
  }

  lemma RootedKept(conf: Conf, rank: Rank, c: Cache, c': Cache, s: Symbol)
    requires Rooted(conf, rank, c, s) && Look(c', s) == Look(c, s)
    requires forall t | rank(t) < rank(s) && Look(c, t).valid :: Look(c', t) == Look(c, t)
    ensures Rooted(conf, rank, c', s)
  {
    forall w | Fits(c', rank, rank(s), w) ensures Matches(conf, s, Look(c', s), w) {
      assert Fits(c, rank, rank(s), w);
    }
  }

  /** What a valid symbol contributes to an expression. */
  lemma Reads(conf: Conf, rank: Rank, c: Cache, r: nat, s: Symbol, w: Env)
    requires AllRooted(conf, rank, c, r) && rank(s) < r && Look(c, s).valid && Fits(c, rank, r, w)
    ensures Look(c, s).curr.tri == SymTri(s, w) && Look(c, s).curr.text == RawText(s, w)
    ensures (if s.TriValued() then TriText(Look(c, s).curr.tri) else Look(c, s).curr.text) == SymText(s, w)
  {
    assert Fits(c, rank, rank(s), w);
    assert Matches(conf, s, Look(c, s), w);
  }

  /** One more symbol is valid, and all symbols of lower rank that were needed. */
  lemma Widen(conf: Conf, rank: Rank, c: Cache, c': Cache, s: Symbol, r: nat)
    requires AllRooted(conf, rank, c, r) && AllRooted(conf, rank, c', rank(s) + 1) && rank(s) < r
    requires GrewBut(c, c', rank, s) && (Look(c, s).valid ==> Look(c', s) == Look(c, s))
    ensures AllRooted(conf, rank, c', r)
  {
    forall t | Look(c', t).valid && rank(t) < r ensures Rooted(conf, rank, c', t) {
      if rank(t) > rank(s) { RootedKept(conf, rank, c, c', t); }
    }
  }

  /** The fields of `s` are complete. */
  lemma Finish(conf: Conf, rank: Rank, c: Cache, c1: Cache, s: Symbol, e: Entry)
    requires AllRooted(conf, rank, c, rank(s) + 1) && AllRooted(conf, rank, c1, rank(s))
    requires GrewBut(c, c1, rank, s) && !Look(c, s).valid
    requires forall w | Fits(c1, rank, rank(s), w) :: Matches(conf, s, e, w)
    ensures AllRooted(conf, rank, c1[s := e], rank(s) + 1) && GrewBut(c, c1[s := e], rank, s)
  {
    var c' := c1[s := e];
    forall t | Look(c', t).valid && rank(t) < rank(s) + 1 ensures Rooted(conf, rank, c', t) {
      if t == s {
        forall w | Fits(c', rank, rank(s), w) ensures Matches(conf, s, Look(c', s), w) {
          assert Fits(c1, rank, rank(s), w);
        }
      } else if rank(t) < rank(s) {
        RootedKept(conf, rank, c1, c', t);
      } else {
        RootedKept(conf, rank, c, c', t);
      }
    }
  }

  /** What is cached is what plain evaluation gives. */
  lemma {:induction false} CacheIsEval(conf: Conf, rank: Rank, c: Cache, r: nat, s: Symbol)
    requires TextsOnPrompts(conf.defs) && Ranked(conf.defs, rank)
    requires AllRooted(conf, rank, c, r) && Look(c, s).valid && rank(s) < r
    ensures Look(c, s).curr == Eval(conf, rank, s)
    ensures Matches(conf, s, Look(c, s), EvalEnv(conf, rank))
    decreases rank(s)
  {
    var w := EvalEnv(conf, rank);
    forall t | Look(c, t).valid && rank(t) < rank(s) ensures Look(c, t).curr == Eval(conf, rank, t) {
      CacheIsEval(conf, rank, c, r, t);
    }
    assert Fits(c, rank, rank(s), w);
    EvalSolves(conf, rank, s);
  }

  // ----- the constants -----

  /** At first only the three constants are valid. */
  const INITIAL: Cache :=
    map[YesSym := Entry(true, Value("y", YES), NO, NO),
        ModSym := Entry(true, Value("m", MOD), NO, NO),
        NoSym := Entry(true, Value("n", NO), NO, NO)]

  predicate IsConstant(s: Symbol) {
    s.YesSym? || s.ModSym? || s.NoSym?
  }

  predicate Constants(c: Cache) {
    && Look(c, YesSym).valid && Look(c, YesSym).curr == Value("y", YES)
    && Look(c, ModSym).valid && Look(c, ModSym).curr == Value("m", MOD)
    && Look(c, NoSym).valid && Look(c, NoSym).curr == Value("n", NO)
  }

  lemma ConstantsRooted(conf: Conf, rank: Rank, c: Cache, r: nat)
    requires Constants(c) && forall s | Look(c, s).valid :: IsConstant(s)
    ensures AllRooted(conf, rank, c, r)
  {
  }

  class Symtab {
    /** The symbol that enables modules, if there is one. */
    const modulesSym: Option<Symbol>
    var conf: Conf
    var entries: Cache
    ghost const rank: Rank

    function Get(s: Symbol): Entry
      reads this
    {
      Look(entries, s)
    }

    ghost predicate Sound()
      reads this
    {
      TextsOnPrompts(conf.defs) && Ranked(conf.defs, rank) && Constants(entries)
    }

    /** Valid symbols below rank `r` are correctly cached; those above may still be
        in the middle of their own calculation. */
    ghost predicate Good(r: nat)
      reads this
    {
      Sound() && AllRooted(conf, rank, entries, r)
    }

    ghost predicate Consistent()
      reads this
    {
      Sound() && forall s | Get(s).valid :: Rooted(conf, rank, entries, s)
    }

    method CalcExpr(e: Expr, ghost r: nat) returns (v: Tri)
      requires Good(r) && forall s | s in SymsOf(e) :: rank(s) < r
      modifies this`entries
      ensures Good(r) && Grew(old(entries), entries, rank, r)
      ensures forall w | Fits(entries, rank, r, w) :: Val(e, w) == v
      decreases r, 0, e
    {
      match e
      case Sym(s) =>
        assert s in SymsOf(e);
        CalcBelow(s, r);
        v := Get(s).curr.tri;
        forall w | Fits(entries, rank, r, w) ensures Val(e, w) == v { Reads(conf, rank, entries, r, s, w); }
      case Bin(op, l, r') =>
        var v1 := CalcExpr(l, r);
        ghost var c1 := entries;
        var v2 := CalcExpr(r', r);
        v := Apply(op, v1, v2);
        forall w | Fits(entries, rank, r, w) ensures Val(e, w) == v { FitsBefore(c1, entries, rank, r, w); }
      case Not(x) =>
        var v1 := CalcExpr(x, r);
        v := Negate(v1);
      case Cmp(rel, a, b) =>
        assert a in SymsOf(e) && b in SymsOf(e);
        CalcBelow(a, r);
        CalcBelow(b, r);
        v := Truth((StringValue(a) == StringValue(b)) == rel.Equal?);
        forall w | Fits(entries, rank, r, w) ensures Val(e, w) == v {
          Reads(conf, rank, entries, r, a, w);
          Reads(conf, rank, entries, r, b, w);
        }
    }

    /** sym_calc_value on a symbol that an expression of rank `r` needs. */
    method CalcBelow(s: Symbol, ghost r: nat)
      requires Good(r) && rank(s) < r
      modifies this`entries
      ensures Good(r) && Grew(old(entries), entries, rank, r) && Get(s).valid
      decreases rank(s), 9
    {
      CalcValue(s);
      Widen(conf, rank, old(entries), entries, s, r);
    }

    /** sym_get_string_value */
    function StringValue(s: Symbol): string
      reads this
    {
      if s.TriValued() then TriText(Get(s).curr.tri) else Get(s).curr.text
    }

    method CalcOpt(e: Option<Expr>, ghost r: nat) returns (v: Tri)
      requires Good(r) && forall s | s in OptSyms(e) :: rank(s) < r
      modifies this`entries
      ensures Good(r) && Grew(old(entries), entries, rank, r)
      ensures forall w | Fits(entries, rank, r, w) :: OptVal(e, w) == v
      decreases r, 1
    {
      v := YES;
      if e.Some? { v := CalcExpr(e.value, r); }
    }

    method CalcPrompts(s: Symbol) returns (tri: Tri)
      requires Good(rank(s))
      modifies this`entries
      ensures Good(rank(s)) && Grew(old(entries), entries, rank, rank(s))
      ensures forall w | Fits(entries, rank, rank(s), w) :: PromptMax(DefOf(conf.defs, s).props, w) == tri
      decreases rank(s), 3
    {
      var props := DefOf(conf.defs, s).props;
      tri := NO;
      for i := 0 to |props|
        invariant Good(rank(s)) && Grew(old(entries), entries, rank, rank(s))
        invariant forall w | Fits(entries, rank, rank(s), w) :: PromptMax(props[..i], w) == tri
      {
        ghost var c, t := entries, tri;
        if props[i].text {
          PropBelow(conf.defs, rank, s, props[i]);
          var v := CalcOpt(props[i].visible, rank(s));
          tri := Apply(Disj, tri, v);
        }
        forall w | Fits(entries, rank, rank(s), w) ensures PromptMax(props[..i + 1], w) == tri {
          FitsBefore(c, entries, rank, rank(s), w);
          PromptMaxStep(props, i, w);
        }
      }
      assert props[..|props|] == props;
    }

    method CalcReverse(s: Symbol) returns (tri: Tri)
      requires Good(rank(s))
      modifies this`entries
      ensures Good(rank(s)) && Grew(old(entries), entries, rank, rank(s))
      ensures forall w | Fits(entries, rank, rank(s), w) :: Reverse(conf, s, w) == tri
      decreases rank(s), 3
    {
      var rev := DefOf(conf.defs, s).revDep;
      tri := NO;
      if rev.Some? {
        assert OptSyms(rev) <= Deps(conf.defs, s);
        tri := CalcExpr(rev.value, rank(s));
      }
      if tri == MOD && ActsBoolean(s, conf.modules) {
        tri := YES;
      }
    }

    method CalcVisibility(s: Symbol)
      requires Good(rank(s)) && Typed(s)
      modifies this`entries
      ensures Good(rank(s)) && GrewBut(old(entries), entries, rank, s)
      ensures Get(s) == old(Get(s)).(visible := Get(s).visible, revTri := Get(s).revTri)
      ensures Seen(s)
      decreases rank(s), 4
    {
      var tri := CalcPrompts(s);
      if tri == MOD && (!s.HasKind(TristateKind) || conf.modules == NO) {
        tri := YES;
      }
      StoreOwn(s, Get(s).(visible := tri));
      ghost var c := entries;
      var rev := CalcReverse(s);
      forall w | Fits(entries, rank, rank(s), w) ensures Visibility(conf, s, w) == tri {
        FitsBefore(c, entries, rank, rank(s), w);
      }
      StoreOwn(s, Get(s).(revTri := rev));
    }

    /** The visibility and the reverse dependency of `s` are known. */
    ghost predicate Seen(s: Symbol)
      reads this
    {
      forall w | Fits(entries, rank, rank(s), w) ::
        Get(s).visible == Visibility(conf, s, w) && Get(s).revTri == Reverse(conf, s, w)
    }

    /** Fields of a symbol that is being calculated. */
    method StoreOwn(s: Symbol, e: Entry)
      requires Good(rank(s)) && s.Config?
      modifies this`entries
      ensures Good(rank(s)) && entries == old(entries)[s := e]
      ensures forall w | Fits(entries, rank, rank(s), w) :: Fits(old(entries), rank, rank(s), w)
    {
      entries := entries[s := e];
      forall t | Get(t).valid && rank(t) < rank(s) ensures Rooted(conf, rank, entries, t) {
        RootedKept(conf, rank, old(entries), entries, t);
      }
    }

    /** sym_get_default_prop */
    method GetDefault(s: Symbol) returns (d: Option<Prop>)
      requires Good(rank(s))
      modifies this`entries
      ensures Good(rank(s)) && Grew(old(entries), entries, rank, rank(s))
      ensures forall w | Fits(entries, rank, rank(s), w) :: Default(DefOf(conf.defs, s).props, w) == d
      ensures d.Some? ==> d.value.ptype.DefaultProp? && d.value in DefOf(conf.defs, s).props
      decreases rank(s), 3
    {
      var props := DefOf(conf.defs, s).props;
      assert props[0..] == props;
      for i := 0 to |props|
        invariant Good(rank(s)) && Grew(old(entries), entries, rank, rank(s))
        invariant forall w | Fits(entries, rank, rank(s), w) :: Default(props, w) == Default(props[i..], w)
      {
        ghost var c := entries;
        if props[i].ptype.DefaultProp? {
          PropBelow(conf.defs, rank, s, props[i]);
          var v := CalcOpt(props[i].visible, rank(s));
          forall w | Fits(entries, rank, rank(s), w)
            ensures Default(props, w) == if v != NO then Some(props[i]) else Default(props[i + 1..], w)
          {
            FitsBefore(c, entries, rank, rank(s), w);
            DefaultStep(props, i, w);
          }
          if v != NO {
            return Some(props[i]);
          }
        } else {
          forall w | Fits(entries, rank, rank(s), w) ensures Default(props, w) == Default(props[i + 1..], w) {
            DefaultStep(props, i, w);
          }
        }
      }
      d := None;
    }

    method CalcDefaultTri(s: Symbol) returns (v: Tri)
      requires Good(rank(s))
      modifies this`entries
      ensures Good(rank(s)) && Grew(old(entries), entries, rank, rank(s))
      ensures forall w | Fits(entries, rank, rank(s), w) :: DefaultTri(DefOf(conf.defs, s).props, w) == v
      decreases rank(s), 4
    {
      v := NO;
      var d := GetDefault(s);
      if d.Some? {
        ghost var c := entries;
        PropBelow(conf.defs, rank, s, d.value);
        v := CalcOpt(d.value.expr, rank(s));
        forall w | Fits(entries, rank, rank(s), w) ensures DefaultTri(DefOf(conf.defs, s).props, w) == v {
          FitsBefore(c, entries, rank, rank(s), w);
        }
      }
    }

    method CalcTri(s: Symbol) returns (tri: Tri)
      requires Good(rank(s)) && s.TriValued() && Seen(s)
      modifies this`entries
      ensures Good(rank(s)) && Grew(old(entries), entries, rank, rank(s))
      ensures forall w | Fits(entries, rank, rank(s), w) :: ComputeTri(conf, s, w) == tri
      decreases rank(s), 5
    {
      var vis, rev := Get(s).visible, Get(s).revTri;
      if Apply(Disj, vis, rev) != NO {
        if s in conf.user {
          tri := conf.user[s].tri;
        } else {
          tri := CalcDefaultTri(s);
        }
        tri := Apply(Disj, Apply(Conj, tri, vis), rev);
      } else {
        tri := CalcDefaultTri(s);
      }
      if tri == MOD && ActsBoolean(s, conf.modules) {
        tri := YES;
      }
      forall w | Fits(entries, rank, rank(s), w) ensures ComputeTri(conf, s, w) == tri {
        FitsBefore(old(entries), entries, rank, rank(s), w);
      }
    }

    method CalcText(s: Symbol) returns (text: string)
      requires Good(rank(s)) && Seen(s)
      modifies this`entries
      ensures Good(rank(s)) && Grew(old(entries), entries, rank, rank(s))
      ensures forall w | Fits(entries, rank, rank(s), w) :: ComputeText(conf, s, w) == text
      decreases rank(s), 5
    {
      if Get(s).visible != NO && s in conf.user {
        return conf.user[s].text;
      }
      text := CalcDefaultText(s);
      forall w | Fits(entries, rank, rank(s), w) ensures ComputeText(conf, s, w) == text {
        FitsBefore(old(entries), entries, rank, rank(s), w);
      }
    }

    method CalcDefaultText(s: Symbol) returns (text: string)
      requires Good(rank(s))
      modifies this`entries
      ensures Good(rank(s)) && Grew(old(entries), entries, rank, rank(s))
      ensures forall w | Fits(entries, rank, rank(s), w) :: DefaultText(DefOf(conf.defs, s).props, w) == text
      decreases rank(s), 4
    {
      text := "";
      var d := GetDefault(s);
      if d.Some? && d.value.expr.Some? && d.value.expr.value.Sym? {
        var ds := d.value.expr.value.sym;
        ghost var c := entries;
        PropBelow(conf.defs, rank, s, d.value);
        assert ds in PropSyms(d.value);
        CalcBelow(ds, rank(s));
        text := Get(ds).curr.text;
        forall w | Fits(entries, rank, rank(s), w) ensures DefaultText(DefOf(conf.defs, s).props, w) == text {
          FitsBefore(c, entries, rank, rank(s), w);
          Reads(conf, rank, entries, rank(s), ds, w);
        }
      }
    }

    method CalcValue(s: Symbol)
      requires Good(rank(s) + 1)
      modifies this`entries
      ensures Good(rank(s) + 1) && GrewBut(old(entries), entries, rank, s) && Get(s).valid
      ensures old(Get(s)).valid ==> Get(s) == old(Get(s))
      decreases rank(s), 8
    {
      if Get(s).valid {
        return;
      }
      assert s.Config? || s.Const?;
      ghost var c := entries;
      MarkValid(s);
      var value;
      if Typed(s) {
        value := CalcDefined(s);
      } else {
        value := if s.Config? then Value(s.name, NO) else Value(s.text, NO);
      }
      Finish(conf, rank, c, entries, s, Get(s).(curr := value));
      entries := entries[s := Get(s).(curr := value)];
    }

    /** VALID is set before the calculation. */
    method MarkValid(s: Symbol)
      requires Good(rank(s) + 1) && !IsConstant(s)
      modifies this`entries
      ensures Good(rank(s)) && GrewBut(old(entries), entries, rank, s)
      ensures Get(s) == old(Get(s)).(valid := true)
    {
      entries := entries[s := Get(s).(valid := true)];
      forall t | Get(t).valid && rank(t) < rank(s) ensures Rooted(conf, rank, entries, t) {
        RootedKept(conf, rank, old(entries), entries, t);
      }
    }

    method CalcDefined(s: Symbol) returns (value: Value)
      requires Good(rank(s)) && Typed(s) && Get(s).valid
      modifies this`entries
      ensures Good(rank(s)) && GrewBut(old(entries), entries, rank, s) && Get(s).valid
      ensures forall w | Fits(entries, rank, rank(s), w) :: Matches(conf, s, Get(s).(curr := value), w)
      decreases rank(s), 7
    {
      CalcVisibility(s);
      // a recursive call would see this value
      value := if s.TriValued() then Value("n", NO) else Value("", NO);
      StoreOwn(s, Get(s).(curr := value));
      ghost var c := entries;
      value := CalcOwn(s, value);
      forall w | Fits(entries, rank, rank(s), w) ensures Matches(conf, s, Get(s).(curr := value), w) {
        FitsBefore(c, entries, rank, rank(s), w);
      }
    }

    /** The value itself, once the visibility is known. */
    method CalcOwn(s: Symbol, start: Value) returns (value: Value)
      requires Good(rank(s)) && Typed(s) && start == if s.TriValued() then Value("n", NO) else Value("", NO)
      requires Seen(s)
      modifies this`entries
      ensures Good(rank(s)) && Grew(old(entries), entries, rank, rank(s))
      ensures forall w | Fits(entries, rank, rank(s), w) :: Compute(conf, s, w) == value
      decreases rank(s), 6
    {
      value := start;
      if s.TriValued() {
        var tri := CalcTri(s);
        value := value.(tri := tri);
      } else {
        var text := CalcText(s);
        value := value.(text := text);
      }
    }

    // ----- the public face -----

    constructor (c: Conf, m: Option<Symbol>, ghost k: Rank)
      requires TextsOnPrompts(c.defs) && Ranked(c.defs, k)
      ensures Consistent() && conf == c && modulesSym == m && rank == k
      ensures forall s | Get(s).valid :: IsConstant(s)
    {
      conf, modulesSym, rank, entries := c, m, k, INITIAL;
    }

    /** One symbol. */
    method AskOne(s: Symbol) returns (value: Value)
      requires Consistent()
      modifies this`entries
      ensures Consistent() && Get(s).valid && value == Get(s).curr == Eval(conf, rank, s)
      ensures GrewBut(old(entries), entries, rank, s)
    {
      CalcValue(s);
      forall t | Get(t).valid ensures Rooted(conf, rank, entries, t) {
        if rank(t) > rank(s) { RootedKept(conf, rank, old(entries), entries, t); }
      }
      CacheIsEval(conf, rank, entries, rank(s) + 1, s);
      value := Get(s).curr;
    }

    /** Calculate symbols in any order, each as often as asked: the answers are those
        of plain recursive evaluation. */
    method Ask(order: seq<Symbol>) returns (values: seq<Value>)
      requires Consistent()
      modifies this`entries
      ensures Consistent()
      ensures |values| == |order| && forall i | 0 <= i < |order| :: values[i] == Eval(conf, rank, order[i])
    {
      values := [];
      for i := 0 to |order|
        invariant Consistent()
        invariant |values| == i && forall k | 0 <= k < i :: values[k] == Eval(conf, rank, order[k])
      {
        var v := AskOne(order[i]);
        values := values + [v];
      }
    }

    /** In every state that calculations and user values lead to: a boolean is never m, and a
        visible or selected symbol lies between its reverse dependency and the larger of
        visibility and reverse dependency. */
    lemma CachedBounds(s: Symbol)
      requires Consistent() && s.TriValued() && Get(s).valid
      ensures ActsBoolean(s, conf.modules) ==> Get(s).curr.tri != MOD
      ensures var e := Get(s);
              Apply(Disj, e.visible, e.revTri) != NO ==> e.revTri <= e.curr.tri <= Apply(Disj, e.visible, e.revTri)
    {
      CacheIsEval(conf, rank, entries, rank(s) + 1, s);
      EvalBounds(conf, rank, s);
    }

    /** All values are forgotten, and only what the symbol for modules needs is calculated anew. */
    method ClearAllValid()
      requires Sound()
      modifies this`entries
      ensures Consistent()
      ensures modulesSym.Some? ==>
                Get(modulesSym.value).valid && Get(modulesSym.value).curr == Eval(conf, rank, modulesSym.value)
      ensures forall s | Get(s).valid && !IsConstant(s) ::
                modulesSym.Some? && (s == modulesSym.value || rank(s) < rank(modulesSym.value))
    {
      entries := map s | s in entries :: entries[s].(valid := IsConstant(s));
      assert forall s | Get(s).valid :: IsConstant(s);
      ConstantsRooted(conf, rank, entries, 0);
      if modulesSym.Some? {
        var v := AskOne(modulesSym.value);
      }
    }

    /** sym_set_tristate_value: the test is on the fields as they are, and on a valid symbol
        it accepts exactly the values that take effect. */
    method SetTristate(s: Symbol, val: Tri) returns (ok: bool)
      requires Consistent() && s.TriValued()
      modifies this`conf, this`entries
      ensures Consistent()
      ensures var e := old(Get(s));
              && (ok <==> e.curr.tri == val || WithinRange(s, old(conf).modules, e.visible, e.revTri, val))
              && (e.valid ==> (ok <==> Eval(WithTri(old(conf), s, val), rank, s).tri == val))
      ensures conf == if ok then WithTri(old(conf), s, val) else old(conf)
      ensures !ok ==> entries == old(entries)
    {
      if Get(s).valid {
        CacheIsEval(conf, rank, entries, rank(s) + 1, s);
        UserValueTakesEffect(conf, rank, s, UserValue(val, if s in conf.user then conf.user[s].text else ""));
      }
      var oldval := Get(s).curr.tri;
      if oldval != val && !WithinRange(s, conf.modules, Get(s).visible, Get(s).revTri, val) {
        return false;
      }
      StoreUser(s, val);
      ok := true;
    }

    /** The flags are only cleared when the value changes. If it does not, nothing cached has
        changed: `s` has this value already, or nothing that is valid has read it. */
    method StoreUser(s: Symbol, val: Tri)
      requires Consistent() && s.TriValued()
      modifies this`conf, this`entries
      ensures Consistent() && conf == WithTri(old(conf), s, val)
      ensures old(Get(s)).curr.tri == val ==> entries == old(entries)
    {
      var changed := Get(s).curr.tri != val;
      conf := WithTri(conf, s, val);
      if changed {
        ClearAllValid();
      } else {
        forall t | Get(t).valid ensures Rooted(conf, rank, entries, t) {
          StillRooted(old(conf), rank, entries, s, val, t);
        }
      }
    }
  }

  function WithTri(c: Conf, s: Symbol, val: Tri): Conf {
    WithUser(c, s, UserValue(val, if s in c.user then c.user[s].text else ""))
  }

  /** Storing the present value leaves all that is cached as it is. */
  lemma StillRooted(conf: Conf, rank: Rank, c: Cache, s: Symbol, val: Tri, t: Symbol)
    requires Rooted(conf, rank, c, t) && s.TriValued() && Look(c, s).curr.tri == val
    ensures Rooted(WithTri(conf, s, val), rank, c, t)
  {
    var u := UserValue(val, if s in conf.user then conf.user[s].text else "");
    forall w | Fits(c, rank, rank(t), w) ensures Matches(WithTri(conf, s, val), t, Look(c, t), w) {
      assert Matches(conf, t, Look(c, t), w);
      ComputeOther(conf, s, u, t, w);
      if t == s { SameWish(conf, s, u, w); }
    }
  }

  /** Wishing for what a symbol is anyway. */
  lemma SameWish(c: Conf, s: Symbol, u: UserValue, w: Env)
    requires s.TriValued() && Compute(c, s, w).tri == u.tri
    ensures Compute(WithUser(c, s, u), s, w) == Compute(c, s, w)
  {
    var dflt := DefaultTri(DefOf(c.defs, s).props, w);
    ComputeOther(c, s, u, s, w);
    ClampExact(s, c.modules, if s in c.user then c.user[s].tri else dflt, u.tri,
               Visibility(c, s, w), Reverse(c, s, w), dflt);
  }
}

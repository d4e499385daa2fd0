/** fdt_scan_helper over the words in memory. */
module FdtScan {
  import opened FdtWords
  import opened FdtTree

  type Words = seq<Word>

  // ----- tokens in memory -----

  predicate Is(w: Words, at: nat, x: Word) {
    at < |w| && w[at] == x
  }

  /** The words `v` are at `at`. */
  predicate Slice(w: Words, at: nat, v: Words) {
    at + |v| <= |w| && w[at..at + |v|] == v
  }

  /** The place behind the tokens `f` at `at`. */
  function Skip(at: nat, f: Items): (r: nat)
    ensures r >= at
    decreases f
  {
    if f.Nil? then at else Skip(SkipOne(at, f.head), f.rest)
  }

  function SkipOne(at: nat, t: Item): (r: nat)
    ensures r > at
    decreases t
  {
    match t
    case Nop => at + 1
    case Prop(_, _, value) => at + 3 + |value|
    case Child(name, body) => Skip(at + 1 + |name|, body) + 1
  }

  /** The tokens `f` are at `at`. */
  predicate Sits(w: Words, at: nat, f: Items)
    decreases f
  {
    if f.Nil? then at <= |w| else SitsOne(w, at, f.head) && Sits(w, SkipOne(at, f.head), f.rest)
  }

  predicate SitsOne(w: Words, at: nat, t: Item)
    decreases t
  {
    match t
    case Nop => Is(w, at, Token(NOP))
    case Prop(len, off, value) =>
      Is(w, at, Token(PROP)) && Slice(w, at + 1, [len, off]) && Slice(w, at + 3, value)
    case Child(name, body) =>
      && Is(w, at, Token(BEGIN_NODE)) && Slice(w, at + 1, name) && Sits(w, at + 1 + |name|, body)
      && Is(w, Skip(at + 1 + |name|, body), Token(END_NODE))
  }

  /** Only words from `lo` up to `hi` may differ. */
  predicate SameOutside(w: Words, w': Words, lo: nat, hi: nat) {
    |w'| == |w| && forall i | (0 <= i < lo || hi <= i < |w|) && 0 <= i < |w| :: w'[i] == w[i]
  }

  lemma SliceFrame(w: Words, w': Words, lo: nat, hi: nat, at: nat, v: Words)
    requires SameOutside(w, w', lo, hi) && Slice(w, at, v) && (at + |v| <= lo || hi <= at)
    ensures Slice(w', at, v)
  {
    assert w'[at..at + |v|] == w[at..at + |v|];
  }

  lemma {:induction false} SitsFrame(w: Words, w': Words, lo: nat, hi: nat, at: nat, f: Items)
    requires SameOutside(w, w', lo, hi) && Sits(w, at, f) && (Skip(at, f) <= lo || hi <= at)
    ensures Sits(w', at, f)
    decreases f
  {
    if f.Cons? {
      SitsOneFrame(w, w', lo, hi, at, f.head);
      SitsFrame(w, w', lo, hi, SkipOne(at, f.head), f.rest);
    }
  }

  lemma {:induction false} SitsOneFrame(w: Words, w': Words, lo: nat, hi: nat, at: nat, t: Item)
    requires SameOutside(w, w', lo, hi) && SitsOne(w, at, t) && (SkipOne(at, t) <= lo || hi <= at)
    ensures SitsOne(w', at, t)
    decreases t
  {
    match t
    case Nop =>
    case Prop(len, off, value) =>
      SliceFrame(w, w', lo, hi, at + 1, [len, off]);
      SliceFrame(w, w', lo, hi, at + 3, value);
    case Child(name, body) =>
      SliceFrame(w, w', lo, hi, at + 1, name);
      SitsFrame(w, w', lo, hi, at + 1 + |name|, body);
  }

  lemma {:induction false} SitsAppend(w: Words, at: nat, f: Items, g: Items)
    requires Sits(w, at, f) && Sits(w, Skip(at, f), g)
    ensures Skip(at, Append(f, g)) == Skip(Skip(at, f), g) && Sits(w, at, Append(f, g))
    decreases f
  {
    if f.Cons? { SitsAppend(w, SkipOne(at, f.head), f.rest, g); }
  }

  lemma {:induction false} AppendAssoc(f: Items, g: Items, h: Items)
    ensures Append(Append(f, g), h) == Append(f, Append(g, h))
  {
    if f.Cons? { AppendAssoc(f.rest, g, h); }
  }

  lemma {:induction false} AppendNil(f: Items)
    ensures Append(f, Nil) == f
  {
    if f.Cons? { AppendNil(f.rest); }
  }

  lemma {:induction false} NopsSit(w: Words, at: nat, n: nat)
    requires at + n <= |w| && forall i | at <= i < at + n :: w[i] == Token(NOP)
    ensures Sits(w, at, Nops(n)) && Skip(at, Nops(n)) == at + n
    decreases n
  {
    if n > 0 { NopsSit(w, at + 1, n - 1); }
  }

  // ----- the flattened form is what sits there -----

  lemma {:induction false} SitsFlat(w: Words, at: nat, f: Items)
    ensures Skip(at, f) == at + |Flat(f)|
    ensures Sits(w, at, f) <==> Slice(w, at, Flat(f))
    decreases f
  {
    if f.Cons? {
      SitsOneFlat(w, at, f.head);
      SitsFlat(w, SkipOne(at, f.head), f.rest);
      SliceSplit(w, at, FlatOne(f.head), Flat(f.rest));
    }
  }

  lemma {:induction false} SitsOneFlat(w: Words, at: nat, t: Item)
    ensures SkipOne(at, t) == at + |FlatOne(t)|
    ensures SitsOne(w, at, t) <==> Slice(w, at, FlatOne(t))
    decreases t
  {
    match t
    case Nop => SliceOne(w, at, Token(NOP));
    case Prop(len, off, value) => SlicePieces(w, at, Token(PROP), [len, off], value);
    case Child(name, body) =>
      SitsFlat(w, at + 1 + |name|, body);
      ChildFlat(w, at, name, body);
  }

  lemma ChildFlat(w: Words, at: nat, name: Words, body: Items)
    requires Skip(at + 1 + |name|, body) == at + 1 + |name| + |Flat(body)|
    requires Sits(w, at + 1 + |name|, body) <==> Slice(w, at + 1 + |name|, Flat(body))
    ensures SkipOne(at, Child(name, body)) == at + |FlatOne(Child(name, body))|
    ensures SitsOne(w, at, Child(name, body)) <==> Slice(w, at, FlatOne(Child(name, body)))
  {
    var t, flat := Child(name, body), [Token(BEGIN_NODE)] + name + Flat(body) + [Token(END_NODE)];
    assert FlatOne(t) == flat && |flat| == 2 + |name| + |Flat(body)|;
    SliceNode(w, at, name, Flat(body));
    assert SitsOne(w, at, t) <==> Slice(w, at, flat);
  }

  lemma SliceNode(w: Words, at: nat, name: Words, body: Words)
    ensures Slice(w, at, [Token(BEGIN_NODE)] + name + body + [Token(END_NODE)]) <==>
              && Is(w, at, Token(BEGIN_NODE)) && Slice(w, at + 1, name) && Slice(w, at + 1 + |name|, body)
              && Is(w, at + 1 + |name| + |body|, Token(END_NODE))
  {
    SlicePieces(w, at, Token(BEGIN_NODE), name, body);
    SliceSplit(w, at, [Token(BEGIN_NODE)] + name + body, [Token(END_NODE)]);
    SliceOne(w, at + 1 + |name| + |body|, Token(END_NODE));
  }

  lemma SlicePieces(w: Words, at: nat, x: Word, v: Words, u: Words)
    ensures Slice(w, at, [x] + v + u) <==> Is(w, at, x) && Slice(w, at + 1, v) && Slice(w, at + 1 + |v|, u)
  {
    SliceSplit(w, at, [x] + v, u);
    SliceSplit(w, at, [x], v);
    SliceOne(w, at, x);
  }

  lemma SliceSplit(w: Words, at: nat, a: Words, b: Words)
    ensures Slice(w, at, a + b) <==> Slice(w, at, a) && Slice(w, at + |a|, b)
  {
    var n := at + |a| + |b|;
    if n <= |w| {
      assert w[at..n] == w[at..at + |a|] + w[at + |a|..n];
      if w[at..n] == a + b {
        assert w[at..at + |a|] == (a + b)[..|a|] == a;
        assert w[at + |a|..n] == (a + b)[|a|..] == b;
      }
    }
  }

  lemma SliceOne(w: Words, at: nat, x: Word)
    ensures Slice(w, at, [x]) <==> Is(w, at, x)
  {
    if at < |w| { assert w[at..at + 1] == [w[at]]; }
  }

  // ----- the loop -----

  /** What follows the tokens of a node ends it. */
  predicate Ends(w: Words, at: nat) {
    at < |w| && Num(w[at]) != BEGIN_NODE && Num(w[at]) != PROP && Num(w[at]) != NOP
  }

  /** The token in front, told by its first word. */
  lemma TokenAt(w: Words, at: nat, f: Items)
    requires Sits(w, at, f) && Ends(w, Skip(at, f))
    ensures at < |w|
    ensures (f.Cons? && f.head.Nop?) <==> Num(w[at]) == NOP
    ensures (f.Cons? && f.head.Prop?) <==> Num(w[at]) == PROP
    ensures (f.Cons? && f.head.Child?) <==> Num(w[at]) == BEGIN_NODE
  {
  }

  /** Where the loop stands: `done` is scanned, `todo` is ahead up to `end`. */
  ghost predicate Stands<S>(cb: Callbacks<S>, node: Path, w: Words, from: nat, at: nat, end: nat,
                            done: Items, todo: Items, last: bool, s: S, goal: (Items, S)) {
    && Sits(w, from, done) && at == Skip(from, done)
    && Sits(w, at, todo) && end == Skip(at, todo) && Ends(w, end) && Formed(todo, last)
    && goal.0 == Append(done, Scanned(cb, node, todo, last, s).0) && goal.1 == Scanned(cb, node, todo, last, s).1
  }

  /** The token in front was scanned, and rewritten in place. */
  lemma Advance<S>(cb: Callbacks<S>, node: Path, w: Words, w': Words, from: nat, at: nat, end: nat,
                   done: Items, todo: Items, last: bool, s: S, goal: (Items, S))
    requires Stands(cb, node, w, from, at, end, done, todo, last, s, goal) && todo.Cons?
    requires var one := ScannedOne(cb, node, todo.head, last, s).0;
             Sits(w', at, one) && Skip(at, one) == SkipOne(at, todo.head)
    requires SameOutside(w, w', at, SkipOne(at, todo.head))
    ensures var (one, s') := ScannedOne(cb, node, todo.head, last, s);
            Stands(cb, node, w', from, SkipOne(at, todo.head), end, Append(done, one), todo.rest,
                   last || todo.head.Child?, s', goal)
  {
    var (one, s') := ScannedOne(cb, node, todo.head, last, s);
    var next := SkipOne(at, todo.head);
    SitsFrame(w, w', at, next, from, done);
    SitsFrame(w, w', at, next, next, todo.rest);
    SitsAppend(w', from, done, one);
    AppendAssoc(done, one, Scanned(cb, node, todo.rest, last || todo.head.Child?, s').0);
  }

  // ----- the methods -----

  /** Turn the words from `from` up to `until` into NOPs. */
  method Blank(lex: array<Word>, from: nat, until: nat)
    requires from <= until <= lex.Length
    modifies lex
    ensures Sits(lex[..], from, Nops(until - from)) && Skip(from, Nops(until - from)) == until
    ensures SameOutside(old(lex[..]), lex[..], from, until)
  {
    var i := from;
    while i != until
      invariant from <= i <= until
      invariant SameOutside(old(lex[..]), lex[..], from, until)
      invariant forall j | from <= j < i :: lex[j] == Token(NOP)
      decreases until - i
    {
      lex[i] := Token(NOP);
      i := i + 1;
    }
    NopsSit(lex[..], from, until - from);
  }

  /** A property in memory. */
  method ReadProp(lex: array<Word>, at: nat, ghost last: bool, ghost t: Item) returns (p: Property, next: nat)
    requires SitsOne(lex[..], at, t) && FormedOne(t, last) && t.Prop?
    ensures p == Property(Num(t.len), Num(t.off), t.value) && next == SkipOne(at, t)
  {
    assert lex[at + 1] == lex[..][at + 1..at + 3][0] && lex[at + 2] == lex[..][at + 1..at + 3][1];
    var len, off := Num(lex[at + 1]), Num(lex[at + 2]);
    var n := (len + 3) / 4;
    assert n == |t.value|;
    assert lex[at + 3..at + 3 + n] == lex[..][at + 3..at + 3 + n];
    return Property(len, off, lex[at + 3..at + 3 + n]), at + 3 + n;
  }

  /** The node around a scanned body. */
  lemma NodeFrame(w: Words, w': Words, at: nat, t: Item, body': Items)
    requires SitsOne(w, at, t) && t.Child?
    requires var b := at + 1 + |t.name|;
             && Skip(b, body') == Skip(b, t.body) && Sits(w', b, body') && SameOutside(w, w', b, Skip(b, t.body))
    ensures Sits(w', at, Cons(Child(t.name, body'), Nil)) && Skip(at, Cons(Child(t.name, body'), Nil)) == SkipOne(at, t)
    ensures SameOutside(w, w', at, SkipOne(at, t)) && SkipOne(at, t) <= |w| == |w'|
  {
    var b := at + 1 + |t.name|;
    SliceFrame(w, w', b, Skip(b, t.body), at + 1, t.name);
    var g := Cons(Child(t.name, body'), Nil);
    assert SitsOne(w', at, g.head) && Sits(w', SkipOne(at, g.head), g.rest);
  }

  /** What a scan makes of a node, unfolded. */
  lemma ChildIs<S>(cb: Callbacks<S>, node: Path, t: Item, last: bool, s: S, r: (Items, S), one: Items, s': S)
    requires t.Child?
    requires var kid := Under(node, t.name);
             && r == Scanned(cb, kid, t.body, false, cb.on(Open(kid), Finish(cb, node, last, s)))
             && s' == cb.on(Close(kid), r.1)
             && one == if cb.kills(kid, r.1) then Nops(|FlatOne(t)|) else Cons(Child(t.name, r.0), Nil)
    ensures ScannedOne(cb, node, t, last, s) == (one, s')
  {
  }

  method ReadName(lex: array<Word>, at: nat, ghost t: Item) returns (name: Words)
    requires SitsOne(lex[..], at, t) && t.Child? && NameOk(t.name)
    ensures name == t.name
  {
    assert lex[at + 1..at + 1 + |t.name|] == lex[..][at + 1..at + 1 + |t.name|];
    var k := StrLen(lex, at + 1, t.name);
    name := lex[at + 1..at + 2 + k / 4];
  }

  /** A scanned node is kept, or turned into NOPs. */
  method CloseNode(lex: array<Word>, at: nat, next: nat, kill: bool, ghost w: Words, ghost t: Item, ghost body': Items)
    requires SitsOne(w, at, t) && t.Child? && next == SkipOne(at, t)
    requires var b := at + 1 + |t.name|;
             && Skip(b, body') == Skip(b, t.body) && Sits(lex[..], b, body')
             && SameOutside(w, lex[..], b, Skip(b, t.body))
    modifies lex
    ensures var one := if kill then Nops(|FlatOne(t)|) else Cons(Child(t.name, body'), Nil);
            Sits(lex[..], at, one) && Skip(at, one) == next
    ensures SameOutside(w, lex[..], at, next)
  {
    NodeFrame(w, lex[..], at, t, body');
    if kill {
      SitsOneFlat(w, at, t);
      Blank(lex, at, next);
    }
  }

  /** One node: scanned, and turned into NOPs if its close callback says so. */
  method ScanChild<S>(lex: array<Word>, at: nat, node: Path, cb: Callbacks<S>, last: bool, start: S, ghost t: Item)
    returns (next: nat, s: S)
    requires SitsOne(lex[..], at, t) && FormedOne(t, last) && t.Child?
    modifies lex
    ensures s == ScannedOne(cb, node, t, last, start).1 && next == SkipOne(at, t)
    ensures Sits(lex[..], at, ScannedOne(cb, node, t, last, start).0)
    ensures Skip(at, ScannedOne(cb, node, t, last, start).0) == SkipOne(at, t)
    ensures SameOutside(old(lex[..]), lex[..], at, next)
    decreases t, 0
  {
    ghost var w := lex[..];
    var name := ReadName(lex, at, t);
    var kid := Under(node, name);
    s := cb.on(Open(kid), Finish(cb, node, last, start));
    ghost var r := Scanned(cb, kid, t.body, false, s);
    next, s := Scan(lex, at + 1 + |name|, kid, cb, s, t.body);
    var kill := cb.kills(kid, s);
    CloseNode(lex, at, next, kill, w, t, r.0);
    s := cb.on(Close(kid), s);
    ChildIs(cb, node, t, last, start, r, if kill then Nops(|FlatOne(t)|) else Cons(Child(t.name, r.0), Nil), s);
  }

  /** The token in front, whatever it is. */
  method ScanToken<S>(lex: array<Word>, at: nat, node: Path, cb: Callbacks<S>, last: bool, start: S, ghost t: Item)
    returns (next: nat, s: S)
    requires SitsOne(lex[..], at, t) && FormedOne(t, last) && at < lex.Length
    modifies lex
    ensures s == ScannedOne(cb, node, t, last, start).1 && next == SkipOne(at, t)
    ensures Sits(lex[..], at, ScannedOne(cb, node, t, last, start).0)
    ensures Skip(at, ScannedOne(cb, node, t, last, start).0) == SkipOne(at, t)
    ensures SameOutside(old(lex[..]), lex[..], at, next)
    decreases t, 1
  {
    var token := Num(lex[at]);
    if token == BEGIN_NODE {
      next, s := ScanChild(lex, at, node, cb, last, start, t);
      return;
    }
    Alone(lex[..], at, t);
    if token == PROP {
      var p;
      p, next := ReadProp(lex, at, last, t);
      s := cb.on(PropSeen(node, p), start);
    } else {
      next, s := at + 1, start;
    }
  }

  lemma Alone(w: Words, at: nat, t: Item)
    requires SitsOne(w, at, t) && !t.Child?
    ensures Sits(w, at, Cons(t, Nil)) && Skip(at, Cons(t, Nil)) == SkipOne(at, t)
  {
    var f := Cons(t, Nil);
    assert Sits(w, SkipOne(at, f.head), f.rest);
  }

  /** One turn of the loop. */
  method ScanNext<S>(lex: array<Word>, ghost from: nat, at: nat, node: Path, cb: Callbacks<S>, last: bool, start: S,
                     ghost end: nat, ghost done: Items, ghost todo: Items, ghost goal: (Items, S))
    returns (next: nat, s: S, ghost done': Items)
    requires Stands(cb, node, lex[..], from, at, end, done, todo, last, start, goal) && todo.Cons? && at < lex.Length
    modifies lex
    ensures Stands(cb, node, lex[..], from, next, end, done', todo.rest, last || todo.head.Child?, s, goal)
    ensures SameOutside(old(lex[..]), lex[..], at, next) && at <= next
    decreases todo, 0
  {
    next, s := ScanToken(lex, at, node, cb, last, start, todo.head);
    Advance(cb, node, old(lex[..]), lex[..], from, at, end, done, todo, last, start, goal);
    done' := Append(done, ScannedOne(cb, node, todo.head, last, start).0);
  }

  /** fdt_scan_helper. */
  method Scan<S>(lex: array<Word>, from: nat, node: Path, cb: Callbacks<S>, start: S, ghost f: Items)
    returns (end: nat, s: S)
    requires Sits(lex[..], from, f) && Ends(lex[..], Skip(from, f)) && Formed(f, false)
    modifies lex
    ensures s == Scanned(cb, node, f, false, start).1
    ensures Sits(lex[..], from, Scanned(cb, node, f, false, start).0)
    ensures Skip(from, Scanned(cb, node, f, false, start).0) == Skip(from, f)
    ensures SameOutside(old(lex[..]), lex[..], from, Skip(from, f))
    ensures end == if Num(old(lex[..])[Skip(from, f)]) == END_NODE then Skip(from, f) + 1 else Skip(from, f)
    decreases f, 2
  {
    var at: nat, last := from, false;
    s := start;
    ghost var stop := Skip(from, f);
    ghost var todo, done, goal := f, Nil, Scanned(cb, node, f, false, start);
    while true
      invariant Stands(cb, node, lex[..], from, at, stop, done, todo, last, s, goal)
      invariant SameOutside(old(lex[..]), lex[..], from, at)
      invariant todo == f || todo < f
      decreases todo
    {
      TokenAt(lex[..], at, todo);
      var token := Num(lex[at]);
      if token != NOP && token != PROP && token != BEGIN_NODE {
        AppendNil(done);
        assert goal == (done, Finish(cb, node, last, s));
        return if token == END_NODE then at + 1 else at, Finish(cb, node, last, s);
      }
      at, s, done := ScanNext(lex, from, at, node, cb, last, s, stop, done, todo, goal);
      last := last || token == BEGIN_NODE;
      todo := todo.rest;
    }
  }
}

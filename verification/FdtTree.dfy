/** Device trees, their flattened form, and what a scan makes of them. */
module FdtTree {
  import opened FdtWords

  // ----- the flattened form -----

  datatype Item =
    | Nop
    | Prop(len: Word, off: Word, value: seq<Word>)
    | Child(name: seq<Word>, body: Items)

  /** The tokens between the begin and the end of a node. */
  datatype Items = Nil | Cons(head: Item, rest: Items)

  function Flat(f: Items): seq<Word> {
    if f.Nil? then [] else FlatOne(f.head) + Flat(f.rest)
  }

  function FlatOne(t: Item): seq<Word> {
    match t
    case Nop => [Token(NOP)]
    case Prop(len, off, value) => [Token(PROP)] + [len, off] + value
    case Child(name, body) => [Token(BEGIN_NODE)] + name + Flat(body) + [Token(END_NODE)]
  }

  /** Names are terminated, lengths fit the values, and properties precede the children;
      with `last` set no property may follow. */
  predicate Formed(f: Items, last: bool) {
    f.Cons? ==> FormedOne(f.head, last) && Formed(f.rest, last || f.head.Child?)
  }

  predicate FormedOne(t: Item, last: bool) {
    match t
    case Nop => true
    case Prop(len, _, value) => !last && Num(len) < 0x7fff_fffd && |value| == (Num(len) + 3) / 4
    case Child(name, body) => NameOk(name) && Formed(body, false)
  }

  function Append(f: Items, g: Items): Items {
    if f.Nil? then g else Cons(f.head, Append(f.rest, g))
  }

  function Nops(n: nat): Items {
    if n == 0 then Nil else Cons(Nop, Nops(n - 1))
  }

  // ----- the tree -----

  datatype Property = Property(len: nat, off: nat, value: seq<Word>)

  datatype Tree = Tree(props: seq<Property>, kids: Forest)

  datatype Forest = None | More(name: seq<Word>, tree: Tree, rest: Forest)

  /** The tree that tokens stand for: NOPs stand for nothing. */
  function Meaning(f: Items): Tree {
    if f.Nil? then Tree([], None)
    else
      var t := Meaning(f.rest);
      match f.head
      case Nop => t
      case Prop(len, off, value) => t.(props := [Property(Num(len), Num(off), value)] + t.props)
      case Child(name, body) => t.(kids := More(name, Meaning(body), t.kids))
  }

  // ----- the events of a scan -----

  /** A node with its parents; Top stands for the missing node around the roots. */
  datatype Path = Top | Under(parent: Path, name: seq<Word>)

  datatype Event = Open(node: Path) | PropSeen(node: Path, prop: Property) | Done(node: Path) | Close(node: Path)

  function PropEvents(node: Path, props: seq<Property>): seq<Event> {
    if props == [] then [] else [PropSeen(node, props[0])] + PropEvents(node, props[1..])
  }

  function DoneEvents(node: Path): seq<Event> {
    if node.Top? then [] else [Done(node)]
  }

  /** Properties, then done, then the children. */
  function TreeEvents(node: Path, t: Tree): seq<Event>
    decreases t
  {
    PropEvents(node, t.props) + DoneEvents(node) + KidEvents(node, t.kids)
  }

  function KidEvents(node: Path, f: Forest): seq<Event>
    decreases f
  {
    match f
    case None => []
    case More(name, t, rest) =>
      var kid := Under(node, name);
      [Open(kid)] + TreeEvents(kid, t) + [Close(kid)] + KidEvents(node, rest)
  }

  // ----- different trees have different events -----

  lemma HeadTail(a: Event, x: seq<Event>, b: Event, y: seq<Event>)
    requires [a] + x == [b] + y
    ensures a == b && x == y
  {
    assert ([a] + x)[0] == a && ([b] + y)[0] == b;
    assert ([a] + x)[1..] == x && ([b] + y)[1..] == y;
  }

  /** The events of the properties end where another kind of event follows. */
  lemma {:induction false} PropsTell(node: Path, p: seq<Property>, x: seq<Event>, r: seq<Property>, y: seq<Event>)
    requires PropEvents(node, p) + x == PropEvents(node, r) + y
    requires x != [] && !x[0].PropSeen? && y != [] && !y[0].PropSeen?
    ensures p == r && x == y
    decreases |p|
  {
    if p == [] || r == [] {
      assert PropEvents(node, []) + x == x && PropEvents(node, []) + y == y;
      assert (PropEvents(node, p) + x)[0] == (PropEvents(node, r) + y)[0];
    } else {
      var p', r' := PropEvents(node, p[1..]), PropEvents(node, r[1..]);
      assert [PropSeen(node, p[0])] + (p' + x) == PropEvents(node, p) + x;
      assert [PropSeen(node, r[0])] + (r' + y) == PropEvents(node, r) + y;
      HeadTail(PropSeen(node, p[0]), p' + x, PropSeen(node, r[0]), r' + y);
      PropsTell(node, p[1..], x, r[1..], y);
      assert p == [p[0]] + p[1..] && r == [r[0]] + r[1..];
    }
  }

  /** What follows the events of a list of children. */
  predicate Stops(x: seq<Event>) {
    x == [] || x[0].Close?
  }

  lemma TreeParts(node: Path, t: Tree, x: seq<Event>)
    requires node.Under?
    ensures TreeEvents(node, t) + x == PropEvents(node, t.props) + ([Done(node)] + (KidEvents(node, t.kids) + x))
  {
  }

  lemma {:induction false} TreeTell(node: Path, t: Tree, x: seq<Event>, u: Tree, y: seq<Event>)
    requires node.Under? && TreeEvents(node, t) + x == TreeEvents(node, u) + y && Stops(x) && Stops(y)
    ensures t == u && x == y
    decreases t, 1
  {
    var a, b := KidEvents(node, t.kids) + x, KidEvents(node, u.kids) + y;
    TreeParts(node, t, x);
    TreeParts(node, u, y);
    PropsTell(node, t.props, [Done(node)] + a, u.props, [Done(node)] + b);
    HeadTail(Done(node), a, Done(node), b);
    KidsTell(node, t.kids, x, u.kids, y);
  }

  lemma KidsFirst(node: Path, f: Forest, x: seq<Event>) returns (inner: seq<Event>, behind: seq<Event>)
    requires f.More?
    ensures behind == KidEvents(node, f.rest) + x
    ensures inner == TreeEvents(Under(node, f.name), f.tree) + ([Close(Under(node, f.name))] + behind)
    ensures KidEvents(node, f) + x == [Open(Under(node, f.name))] + inner
  {
    behind := KidEvents(node, f.rest) + x;
    inner := TreeEvents(Under(node, f.name), f.tree) + ([Close(Under(node, f.name))] + behind);
  }

  lemma {:induction false} KidsTell(node: Path, f: Forest, x: seq<Event>, g: Forest, y: seq<Event>)
    requires KidEvents(node, f) + x == KidEvents(node, g) + y && Stops(x) && Stops(y)
    ensures f == g && x == y
    decreases f, 0
  {
    if f.None? || g.None? {
      assert KidEvents(node, f) + x == if f.None? then x else KidEvents(node, f) + x;
      assert KidEvents(node, g) + y == if g.None? then y else KidEvents(node, g) + y;
      if f.More? { var inner, behind := KidsFirst(node, f, x); }
      if g.More? { var inner, behind := KidsFirst(node, g, y); }
    } else {
      var a, a' := KidsFirst(node, f, x);
      var b, b' := KidsFirst(node, g, y);
      HeadTail(Open(Under(node, f.name)), a, Open(Under(node, g.name)), b);
      var kid := Under(node, f.name);
      TreeTell(kid, f.tree, [Close(kid)] + a', g.tree, [Close(kid)] + b');
      HeadTail(Close(kid), a', Close(kid), b');
      KidsTell(node, f.rest, x, g.rest, y);
    }
  }

  /** Two forests with the same events are the same forest. */
  lemma EventsTell(f: Forest, g: Forest)
    requires TreeEvents(Top, Tree([], f)) == TreeEvents(Top, Tree([], g))
    ensures f == g
  {
    assert TreeEvents(Top, Tree([], f)) == KidEvents(Top, f) + [];
    assert TreeEvents(Top, Tree([], g)) == KidEvents(Top, g) + [];
    KidsTell(Top, f, [], g, []);
  }

  /** Callbacks on a state of type S; `kills` is the answer of the close callback. */
  datatype Callbacks<!S> = Callbacks(on: (Event, S) -> S, kills: (Path, S) -> bool)

  function Fold<S>(cb: Callbacks<S>, es: seq<Event>, s: S): S {
    if es == [] then s else Fold(cb, es[1..], cb.on(es[0], s))
  }

  lemma {:induction false} FoldAppend<S>(cb: Callbacks<S>, es: seq<Event>, fs: seq<Event>, s: S)
    ensures Fold(cb, es + fs, s) == Fold(cb, fs, Fold(cb, es, s))
  {
    if es == [] {
      assert es + fs == fs;
    } else {
      assert (es + fs)[1..] == es[1..] + fs;
      FoldAppend(cb, es[1..], fs, cb.on(es[0], s));
    }
  }

  // ----- one scan -----

  function Finish<S>(cb: Callbacks<S>, node: Path, last: bool, s: S): S {
    if last || node.Top? then s else cb.on(Done(node), s)
  }

  /** The tokens and the state that a scan leaves behind. */
  function Scanned<S>(cb: Callbacks<S>, node: Path, f: Items, last: bool, s: S): (Items, S)
    decreases f
  {
    if f.Nil? then (Nil, Finish(cb, node, last, s))
    else
      var (one, s1) := ScannedOne(cb, node, f.head, last, s);
      var (rest, s') := Scanned(cb, node, f.rest, last || f.head.Child?, s1);
      (Append(one, rest), s')
  }

  function ScannedOne<S>(cb: Callbacks<S>, node: Path, t: Item, last: bool, s: S): (Items, S)
    decreases t
  {
    match t
    case Nop => (Cons(t, Nil), s)
    case Prop(len, off, value) => (Cons(t, Nil), cb.on(PropSeen(node, Property(Num(len), Num(off), value)), s))
    case Child(name, body) =>
      var kid := Under(node, name);
      var (body', s1) := Scanned(cb, kid, body, false, cb.on(Open(kid), Finish(cb, node, last, s)));
      (if cb.kills(kid, s1) then Nops(|FlatOne(t)|) else Cons(Child(name, body'), Nil), cb.on(Close(kid), s1))
  }

  /** The events of a tree, with properties and done still to come unless `last`. */
  function Ahead(node: Path, t: Tree, last: bool): seq<Event> {
    if last then KidEvents(node, t.kids) else TreeEvents(node, t)
  }

  /** A scan fires open, properties, done and close in the order of the tree, done once for
      every node. */
  lemma {:induction false} ScanEvents<S>(cb: Callbacks<S>, node: Path, f: Items, last: bool, s: S)
    requires Formed(f, last)
    ensures Scanned(cb, node, f, last, s).1 == Fold(cb, Ahead(node, Meaning(f), last), s)
    decreases f
  {
    if f.Nil? {
      FoldDone(cb, node, Meaning(f), last, s);
    } else {
      var s1 := ScannedOne(cb, node, f.head, last, s).1;
      ScanEvents(cb, node, f.rest, last || f.head.Child?, s1);
      match f.head
      case Nop =>
      case Prop(len, off, value) => PropAhead(node, f);
      case Child(name, body) =>
        var kid := Under(node, name);
        var s0 := Finish(cb, node, last, s);
        ScanEvents(cb, kid, body, false, cb.on(Open(kid), s0));
        FoldKid(cb, kid, Meaning(body), KidEvents(node, Meaning(f.rest).kids), s0);
        NoProps(f.rest);
        FoldDone(cb, node, Meaning(f), last, s);
    }
  }

  lemma PropAhead(node: Path, f: Items)
    requires f.Cons? && f.head.Prop?
    ensures var p := Property(Num(f.head.len), Num(f.head.off), f.head.value);
            Ahead(node, Meaning(f), false) == [PropSeen(node, p)] + Ahead(node, Meaning(f.rest), false)
  {
    assert Meaning(f).props[1..] == Meaning(f.rest).props;
  }

  lemma {:induction false} NoProps(f: Items)
    requires Formed(f, true)
    ensures Meaning(f).props == []
  {
    if f.Cons? { NoProps(f.rest); }
  }

  lemma FoldKid<S>(cb: Callbacks<S>, kid: Path, t: Tree, after: seq<Event>, s: S)
    ensures Fold(cb, [Open(kid)] + TreeEvents(kid, t) + [Close(kid)] + after, s)
         == Fold(cb, after, cb.on(Close(kid), Fold(cb, TreeEvents(kid, t), cb.on(Open(kid), s))))
  {
    var es := TreeEvents(kid, t);
    assert [Open(kid)] + es + [Close(kid)] + after == [Open(kid)] + (es + ([Close(kid)] + after));
    FoldAppend(cb, es, [Close(kid)] + after, cb.on(Open(kid), s));
  }

  /** The done of a node comes right before its first child. */
  lemma FoldDone<S>(cb: Callbacks<S>, node: Path, t: Tree, last: bool, s: S)
    requires t.props == []
    ensures Fold(cb, Ahead(node, t, last), s) == Fold(cb, KidEvents(node, t.kids), Finish(cb, node, last, s))
  {
    if !last {
      assert Ahead(node, t, last) == DoneEvents(node) + KidEvents(node, t.kids);
      FoldAppend(cb, DoneEvents(node), KidEvents(node, t.kids), s);
    }
  }

  // ----- what a scan leaves in place -----

  lemma {:induction false} FlatAppend(f: Items, g: Items)
    ensures Flat(Append(f, g)) == Flat(f) + Flat(g)
  {
    if f.Cons? { FlatAppend(f.rest, g); }
  }

  lemma {:induction false} FlatNops(n: nat)
    ensures |Flat(Nops(n))| == n && forall i | 0 <= i < n :: Flat(Nops(n))[i] == Token(NOP)
  {
    if n > 0 { FlatNops(n - 1); }
  }

  /** NOPs put in front change nothing. */
  lemma {:induction false} NopsFront(n: nat, f: Items, last: bool)
    ensures Formed(Append(Nops(n), f), last) == Formed(f, last) && Meaning(Append(Nops(n), f)) == Meaning(f)
  {
    if n > 0 { NopsFront(n - 1, f, last); }
  }

  lemma {:induction false} FormedLater(f: Items, last: bool)
    requires Formed(f, true)
    ensures Formed(f, last)
  {
    if f.Cons? && !f.head.Child? { FormedLater(f.rest, last); }
  }

  /** `g` is `f` with some nodes turned into as many NOPs. */
  ghost predicate Edited(f: Items, g: Items) {
    if f.Nil? then g.Nil?
    else
      || (g.Cons? && EditedOne(f.head, g.head) && Edited(f.rest, g.rest))
      || (f.head.Child? && exists rest :: g == Append(Nops(|FlatOne(f.head)|), rest) && Edited(f.rest, rest))
  }

  ghost predicate EditedOne(t: Item, u: Item) {
    u == t || (t.Child? && u.Child? && u.name == t.name && Edited(t.body, u.body))
  }

  lemma {:induction false} ScanEdits<S>(cb: Callbacks<S>, node: Path, f: Items, last: bool, s: S)
    requires Formed(f, last)
    ensures var g := Scanned(cb, node, f, last, s).0; Edited(f, g) && Formed(g, last)
    decreases f
  {
    if f.Cons? {
      var (one, s1) := ScannedOne(cb, node, f.head, last, s);
      ScanEdits(cb, node, f.rest, last || f.head.Child?, s1);
      var rest := Scanned(cb, node, f.rest, last || f.head.Child?, s1).0;
      if f.head.Child? {
        var kid := Under(node, f.head.name);
        var s0 := cb.on(Open(kid), Finish(cb, node, last, s));
        ScanEdits(cb, kid, f.head.body, false, s0);
        var (body, s2) := Scanned(cb, kid, f.head.body, false, s0);
        if cb.kills(kid, s2) { NodeGone(f, last, rest); } else { NodeKept(f, last, body, rest); }
      } else {
        ItemKept(f, last, rest);
      }
    }
  }

  lemma AppendOne(t: Item, g: Items)
    ensures Append(Cons(t, Nil), g) == Cons(t, g)
  {
    assert Cons(t, Nil).rest == Nil;
  }

  /** A node turned into NOPs. */
  lemma NodeGone(f: Items, last: bool, rest: Items)
    requires f.Cons? && f.head.Child? && Edited(f.rest, rest) && Formed(rest, true)
    ensures var g := Append(Nops(|FlatOne(f.head)|), rest); Edited(f, g) && Formed(g, last)
  {
    FormedLater(rest, last);
    NopsFront(|FlatOne(f.head)|, rest, last);
  }

  /** A node kept around an edited body. */
  lemma NodeKept(f: Items, last: bool, body: Items, rest: Items)
    requires f.Cons? && f.head.Child? && Formed(f, last) && Edited(f.rest, rest) && Formed(rest, true)
    requires Edited(f.head.body, body) && Formed(body, false)
    ensures var g := Append(Cons(Child(f.head.name, body), Nil), rest); Edited(f, g) && Formed(g, last)
  {
    AppendOne(Child(f.head.name, body), rest);
  }

  lemma ItemKept(f: Items, last: bool, rest: Items)
    requires f.Cons? && !f.head.Child? && Formed(f, last) && Edited(f.rest, rest) && Formed(rest, last)
    ensures var g := Append(Cons(f.head, Nil), rest); Edited(f, g) && Formed(g, last)
  {
    AppendOne(f.head, rest);
  }

  /** The length stays, and every word stays or becomes a NOP. */
  lemma {:induction false} EditedWords(f: Items, g: Items)
    requires Edited(f, g)
    ensures Blanked(Flat(f), Flat(g))
    decreases f
  {
    if f.Cons? {
      if g.Cons? && EditedOne(f.head, g.head) && Edited(f.rest, g.rest) {
        EditedWords(f.rest, g.rest);
        EditedOneWords(f.head, g.head);
      } else {
        var n := |FlatOne(f.head)|;
        var rest :| g == Append(Nops(n), rest) && Edited(f.rest, rest);
        EditedWords(f.rest, rest);
        FlatNops(n);
        FlatAppend(Nops(n), rest);
      }
    }
  }

  predicate Blanked(v: seq<Word>, w: seq<Word>) {
    |w| == |v| && forall i | 0 <= i < |v| :: w[i] == v[i] || w[i] == Token(NOP)
  }

  lemma {:induction false} EditedOneWords(t: Item, u: Item)
    requires EditedOne(t, u)
    ensures Blanked(FlatOne(t), FlatOne(u))
    decreases t
  {
    if u != t { EditedWords(t.body, u.body); }
  }
}

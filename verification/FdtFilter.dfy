/** filter_compat: remove every node that is compatible with a given device. */
module FdtFilter {
  import opened FdtWords
  import opened FdtTree
  import opened FdtScan

  // ----- the property that decides -----

  function Bytes(ws: seq<Word>): Text {
    if ws == [] then [] else [ws[0].b0, ws[0].b1, ws[0].b2, ws[0].b3] + Bytes(ws[1..])
  }

  /** The first `len` bytes of the value. */
  function Value(p: Property): Text {
    var b := Bytes(p.value);
    if p.len <= |b| then b[..p.len] else b
  }

  /** The names of properties by their offset in the strings block, and the device. */
  datatype Query = Query(name: nat -> Text, compatible: Text, device: Text)

  predicate Matches(q: Query, p: Property) {
    q.name(p.off) == q.compatible && q.device in Strings(Value(p))
  }

  predicate AnyMatches(q: Query, props: seq<Property>) {
    props != [] && (Matches(q, props[0]) || AnyMatches(q, props[1..]))
  }

  // ----- the callbacks -----

  /** No node is marked. */
  const NONE: int := 999

  /** The depth of the current node, and that of the marked one. */
  datatype Compat = Compat(depth: int, kill: int)

  function OnCompat(q: Query, e: Event, s: Compat): Compat {
    match e
    case Open(_) => Compat(s.depth + 1, s.kill)
    case PropSeen(_, p) => if Matches(q, p) && s.depth < s.kill then Compat(s.depth, s.depth) else s
    case Done(_) => s
    case Close(_) => Compat(s.depth - 1, if s.kill == s.depth then NONE else s.kill)
  }

  function CompatCallbacks(q: Query): Callbacks<Compat> {
    Callbacks((e: Event, s: Compat) => OnCompat(q, e, s), (node: Path, s: Compat) => s.kill == s.depth)
  }

  // ----- what is left of the tree -----

  /** Is a node at this depth removed, when no node above it is? */
  predicate Goes(q: Query, depth: nat, t: Tree) {
    depth == NONE || (depth < NONE && AnyMatches(q, t.props))
  }

  /** The children at `depth` without those removed. */
  function Left(q: Query, depth: nat, f: Forest): Forest
    decreases f
  {
    match f
    case None => None
    case More(name, t, rest) =>
      if Goes(q, depth, t) then Left(q, depth, rest)
      else More(name, t.(kids := Left(q, depth + 1, t.kids)), Left(q, depth, rest))
  }

  /** While a node around is marked, nothing below it is marked or removed. */
  lemma {:induction false} Marked(q: Query, node: Path, f: Items, last: bool, s: Compat)
    requires s.kill <= s.depth
    ensures var (g, s') := Scanned(CompatCallbacks(q), node, f, last, s); s' == s && Meaning(g) == Meaning(f)
    decreases f
  {
    if f.Cons? {
      var cb := CompatCallbacks(q);
      var (one, s1) := ScannedOne(cb, node, f.head, last, s);
      if f.head.Child? {
        Marked(q, Under(node, f.head.name), f.head.body, false, s.(depth := s.depth + 1));
      }
      assert s1 == s && one.Cons? && one.rest == Nil;
      Marked(q, node, f.rest, last || f.head.Child?, s);
      var rest := Scanned(cb, node, f.rest, last || f.head.Child?, s).0;
      assert Append(one, rest) == Cons(one.head, rest);
    }
  }

  /** With no node marked, the marks say whether this node goes, or which nodes below. */
  lemma {:induction false} Unmarked(q: Query, node: Path, f: Items, last: bool, s: Compat)
    requires Formed(f, last) && s.kill == NONE > s.depth >= 0
    ensures var (g, s') := Scanned(CompatCallbacks(q), node, f, last, s);
            var t := Meaning(f);
            if AnyMatches(q, t.props) then s' == Compat(s.depth, s.depth)
            else s' == s && Meaning(g) == Tree(t.props, Left(q, s.depth + 1, t.kids))
    decreases f
  {
    if f.Cons? {
      match f.head
      case Nop =>
        Unmarked(q, node, f.rest, last, s);
        AppendOne(f.head, Scanned(CompatCallbacks(q), node, f.rest, last, s).0);
      case Prop(len, off, value) =>
        if Matches(q, Property(Num(len), Num(off), value)) {
          Marked(q, node, f.rest, last, Compat(s.depth, s.depth));
        } else {
          Unmarked(q, node, f.rest, last, s);
          AppendOne(f.head, Scanned(CompatCallbacks(q), node, f.rest, last, s).0);
          assert Meaning(f).props[1..] == Meaning(f.rest).props;
        }
      case Child(name, body) =>
        NoProps(f.rest);
        Unmarked(q, node, f.rest, true, s);
        UnmarkedChild(q, node, f.head, last, s);
        var one := ScannedOne(CompatCallbacks(q), node, f.head, last, s).0;
        var rest := Scanned(CompatCallbacks(q), node, f.rest, true, s).0;
        if Goes(q, s.depth + 1, Meaning(body)) {
          NopsFront(|FlatOne(f.head)|, rest, last);
        } else {
          assert one == Cons(one.head, Nil);
          AppendOne(one.head, rest);
        }
    }
  }

  lemma {:induction false} UnmarkedChild(q: Query, node: Path, t: Item, last: bool, s: Compat)
    requires t.Child? && FormedOne(t, last) && s.kill == NONE > s.depth >= 0
    ensures var (one, s') := ScannedOne(CompatCallbacks(q), node, t, last, s);
            var body := Meaning(t.body);
            && s' == s
            && if Goes(q, s.depth + 1, body) then one == Nops(|FlatOne(t)|)
               else one.Cons? && one.rest.Nil? && one.head.Child? && one.head.name == t.name
                    && Meaning(one.head.body) == body.(kids := Left(q, s.depth + 2, body.kids))
    decreases t
  {
    var s0 := Compat(s.depth + 1, NONE);
    var kid := Under(node, t.name);
    if s.depth + 1 < NONE {
      Unmarked(q, kid, t.body, false, s0);
    } else {
      Marked(q, kid, t.body, false, s0);
    }
  }

  // ----- the intended filter -----

  /** The forest without its topmost matching nodes. */
  function Pruned(q: Query, f: Forest): Forest {
    match f
    case None => None
    case More(name, t, rest) =>
      if AnyMatches(q, t.props) then Pruned(q, rest) else More(name, t.(kids := Pruned(q, t.kids)), Pruned(q, rest))
  }

  function Height(f: Forest): nat {
    match f
    case None => 0
    case More(_, t, rest) => if Height(t.kids) + 1 > Height(rest) then Height(t.kids) + 1 else Height(rest)
  }

  /** The scan removes exactly the topmost matching nodes if and only if what should be
      left does not reach the depth that stands for "no mark". */
  lemma {:induction false} LeftIsPruned(q: Query, depth: nat, f: Forest)
    requires depth <= NONE
    ensures Left(q, depth, f) == Pruned(q, f) <==> depth + Height(Pruned(q, f)) <= NONE
    decreases f
  {
    if f.More? {
      LeftIsPruned(q, depth, f.rest);
      if depth < NONE {
        LeftIsPruned(q, depth + 1, f.tree.kids);
      } else {
        AllGo(q, f);
      }
    }
  }

  lemma {:induction false} AllGo(q: Query, f: Forest)
    ensures Left(q, NONE, f) == None
  {
    if f.More? { AllGo(q, f.rest); }
  }

  // ----- a tree that the scan shortens -----

  /** A chain of `k` nodes, each the only child of the one before, without properties. */
  function Chain(name: seq<Word>, k: nat): Forest {
    if k == 0 then None else More(name, Tree([], Chain(name, k - 1)), None)
  }

  function ChainItems(name: seq<Word>, k: nat): Items {
    if k == 0 then Nil else Cons(Child(name, ChainItems(name, k - 1)), Nil)
  }

  lemma {:induction false} ChainFormed(name: seq<Word>, k: nat)
    requires NameOk(name)
    ensures Formed(ChainItems(name, k), false) && Meaning(ChainItems(name, k)) == Tree([], Chain(name, k))
  {
    if k > 0 { ChainFormed(name, k - 1); }
  }

  /** Nothing in a chain matches, yet nodes from the depth of "no mark" on are removed. */
  lemma {:induction false} LeftOfChain(q: Query, name: seq<Word>, depth: nat, k: nat)
    requires depth <= NONE
    ensures Pruned(q, Chain(name, k)) == Chain(name, k) && Height(Chain(name, k)) == k
    ensures Left(q, depth, Chain(name, k)) == Chain(name, if depth + k <= NONE then k else NONE - depth)
    decreases k
  {
    if depth < NONE && k > 0 {
      LeftOfChain(q, name, depth + 1, k - 1);
    } else if k > 0 {
      LeftOfChain(q, name, depth, k - 1);
    }
  }

  /** A chain of 999 nodes loses its last node. */
  lemma FilterLosesDeepest(q: Query, name: seq<Word>)
    requires NameOk(name)
    ensures var f := ChainItems(name, NONE);
            && Formed(f, false) && Meaning(f) == Tree([], Chain(name, NONE))
            && Pruned(q, Meaning(f).kids) == Chain(name, NONE)
            && Left(q, 1, Meaning(f).kids) == Chain(name, NONE - 1) != Chain(name, NONE)
  {
    ChainFormed(name, NONE);
    LeftOfChain(q, name, 1, NONE);
    LeftOfChain(q, name, 1, NONE - 1);
  }

  // ----- on the words -----

  /** filter_compat. */
  method FilterCompat(lex: array<Word>, from: nat, q: Query, ghost f: Items) returns (ghost g: Items)
    requires Sits(lex[..], from, f) && Ends(lex[..], Skip(from, f)) && Formed(f, false) && Meaning(f).props == []
    modifies lex
    ensures Sits(lex[..], from, g) && Formed(g, false) && Edited(f, g) && Skip(from, g) == Skip(from, f)
    ensures SameOutside(old(lex[..]), lex[..], from, Skip(from, f))
    ensures Meaning(g) == Tree([], Left(q, 1, Meaning(f).kids))
    ensures Meaning(g).kids == Pruned(q, Meaning(f).kids) <==> Height(Pruned(q, Meaning(f).kids)) < NONE
  {
    var start := Compat(0, NONE);
    var end, s := Scan(lex, from, Top, CompatCallbacks(q), start, f);
    g := Scanned(CompatCallbacks(q), Top, f, false, start).0;
    Unmarked(q, Top, f, false, start);
    ScanEdits(CompatCallbacks(q), Top, f, false, start);
    LeftIsPruned(q, 1, Meaning(f).kids);
  }

  /** A scan after the filter sees the tree without the matching nodes and nothing else. */
  method FilterAndScan<S>(lex: array<Word>, from: nat, q: Query, cb: Callbacks<S>, start: S, ghost f: Items)
    returns (s: S)
    requires Sits(lex[..], from, f) && Ends(lex[..], Skip(from, f)) && Formed(f, false) && Meaning(f).props == []
    modifies lex
    ensures s == Fold(cb, TreeEvents(Top, Tree([], Left(q, 1, Meaning(f).kids))), start)
    ensures TreeEvents(Top, Tree([], Left(q, 1, Meaning(f).kids)))
            == TreeEvents(Top, Tree([], Pruned(q, Meaning(f).kids)))
            <==> Height(Pruned(q, Meaning(f).kids)) < NONE
  {
    ghost var g := FilterCompat(lex, from, q, f);
    var end;
    end, s := Scan(lex, from, Top, cb, start, g);
    ScanEvents(cb, Top, g, false, start);
    ghost var left, wanted := Left(q, 1, Meaning(f).kids), Pruned(q, Meaning(f).kids);
    if TreeEvents(Top, Tree([], left)) == TreeEvents(Top, Tree([], wanted)) { EventsTell(left, wanted); }
  }
}

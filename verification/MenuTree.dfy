/** The shape of menu trees and what menu_finalize makes of it: what a menu passes
    down reaches its entries, an entry without children takes in the following
    entries that nest below it, and the children of an entry without a prompt
    move up behind it. What entries are and when they nest is left to `Rules`. */
module MenuTree {

  datatype Tree<I> = Node(info: I, kids: Forest<I>)

  datatype Forest<I> = Nil | Cons(head: Tree<I>, tail: Forest<I>)

  datatype Rules<!I> = Rules(
    pass: (I, I) -> I,           // an entry with what its menu passes down
    takes: (I, I) -> bool,       // an entry nests below its predecessor
    promptless: I -> bool)

  function Count<I>(f: Forest<I>): nat {
    match f
    case Nil => 0
    case Cons(t, rest) => 1 + Count(t.kids) + Count(rest)
  }

  function Append<I>(f: Forest<I>, g: Forest<I>): Forest<I> {
    match f
    case Nil => g
    case Cons(t, rest) => Cons(t, Append(rest, g))
  }

  lemma {:induction false} CountAppend<I>(f: Forest<I>, g: Forest<I>)
    ensures Count(Append(f, g)) == Count(f) + Count(g)
  {
    if f.Cons? { CountAppend(f.tail, g); }
  }

  function PassDown<I>(r: Rules<I>, p: I, f: Forest<I>): (res: Forest<I>)
    ensures Count(res) == Count(f) && (res.Nil? <==> f.Nil?)
  {
    match f
    case Nil => Nil
    case Cons(t, rest) => Cons(Node(r.pass(p, t.info), t.kids), PassDown(r, p, rest))
  }

  /** Children of entries without a prompt move up, behind their parent. */
  function Splice<I>(r: Rules<I>, f: Forest<I>): (res: Forest<I>)
    ensures Count(res) == Count(f) && (res.Nil? <==> f.Nil?)
    decreases Count(f)
  {
    match f
    case Nil => Nil
    case Cons(t, rest) =>
      if t.kids.Cons? && r.promptless(t.info) then
        CountAppend(t.kids, rest);
        Cons(Node(t.info, Nil), Splice(r, Append(t.kids, rest)))
      else Cons(t, Splice(r, rest))
  }

  /** menu_finalize of an entry, given the entries that follow it. */
  function Finalize<I>(r: Rules<I>, t: Tree<I>, rest: Forest<I>): (res: (Tree<I>, Forest<I>))
    ensures Count(res.0.kids) + Count(res.1) == Count(t.kids) + Count(rest)
    ensures res.0.info == t.info
    decreases Count(t.kids) + Count(rest), 1
  {
    if t.kids.Cons? then
      (Node(t.info, Splice(r, FinalizeAll(r, PassDown(r, t.info, t.kids)))), rest)
    else
      var (taken, left) := Absorb(r, t.info, rest);
      (Node(t.info, Splice(r, taken)), left)
  }

  /** Finalize the entries of a list from front to back. */
  function FinalizeAll<I>(r: Rules<I>, f: Forest<I>): (res: Forest<I>)
    ensures Count(res) == Count(f) && (res.Nil? <==> f.Nil?)
    decreases Count(f), 0
  {
    match f
    case Nil => Nil
    case Cons(t, rest) =>
      var (t', rest') := Finalize(r, t, rest);
      Cons(t', FinalizeAll(r, rest'))
  }

  /** Take in following entries as long as they nest below `p`. */
  function Absorb<I>(r: Rules<I>, p: I, rest: Forest<I>): (res: (Forest<I>, Forest<I>))
    ensures Count(res.0) + Count(res.1) == Count(rest)
    decreases Count(rest), 0
  {
    match rest
    case Nil => (Nil, Nil)
    case Cons(m, next) =>
      if !r.takes(p, m.info) then (Nil, rest)
      else
        var (m', next') := Finalize(r, m, next);
        var (more, left) := Absorb(r, p, next');
        (Cons(m', more), left)
  }

  // ----- the finished tree -----

  /** Below the top no entry with children lacks a prompt. */
  predicate Prompted<I>(r: Rules<I>, f: Forest<I>) {
    f.Cons? ==> (f.head.kids.Cons? ==> !r.promptless(f.head.info)) && Prompted(r, f.head.kids) && Prompted(r, f.tail)
  }

  /** Every list below the entries of `f` is in this form; `f` itself may not be. */
  predicate PromptedBelow<I>(r: Rules<I>, f: Forest<I>) {
    f.Cons? ==> Prompted(r, f.head.kids) && PromptedBelow(r, f.tail)
  }

  lemma {:induction false} AppendPrompted<I>(r: Rules<I>, f: Forest<I>, g: Forest<I>)
    requires Prompted(r, f) && PromptedBelow(r, g)
    ensures PromptedBelow(r, Append(f, g))
  {
    if f.Cons? { AppendPrompted(r, f.tail, g); }
  }

  lemma {:induction false} SplicePrompted<I>(r: Rules<I>, f: Forest<I>)
    requires PromptedBelow(r, f)
    ensures Prompted(r, Splice(r, f))
    decreases Count(f)
  {
    if f.Cons? {
      var t := f.head;
      if t.kids.Cons? && r.promptless(t.info) {
        CountAppend(t.kids, f.tail);
        AppendPrompted(r, t.kids, f.tail);
        SplicePrompted(r, Append(t.kids, f.tail));
      } else {
        SplicePrompted(r, f.tail);
      }
    }
  }

  lemma {:induction false} FinalizePrompted<I>(r: Rules<I>, t: Tree<I>, rest: Forest<I>)
    ensures Prompted(r, Finalize(r, t, rest).0.kids)
    decreases Count(t.kids) + Count(rest), 1
  {
    if t.kids.Cons? {
      var f := PassDown(r, t.info, t.kids);
      FinalizeAllPrompted(r, f);
      SplicePrompted(r, FinalizeAll(r, f));
    } else {
      AbsorbPrompted(r, t.info, rest);
      SplicePrompted(r, Absorb(r, t.info, rest).0);
    }
  }

  lemma {:induction false} FinalizeAllPrompted<I>(r: Rules<I>, f: Forest<I>)
    ensures PromptedBelow(r, FinalizeAll(r, f))
    decreases Count(f), 0
  {
    if f.Cons? {
      FinalizePrompted(r, f.head, f.tail);
      FinalizeAllPrompted(r, Finalize(r, f.head, f.tail).1);
    }
  }

  lemma {:induction false} AbsorbPrompted<I>(r: Rules<I>, p: I, rest: Forest<I>)
    ensures PromptedBelow(r, Absorb(r, p, rest).0)
    decreases Count(rest), 0
  {
    if rest.Cons? && r.takes(p, rest.head.info) {
      FinalizePrompted(r, rest.head, rest.tail);
      AbsorbPrompted(r, p, Finalize(r, rest.head, rest.tail).1);
    }
  }

  // ----- what holds of every entry -----

  predicate TopAll<I>(p: I -> bool, f: Forest<I>) {
    f.Cons? ==> p(f.head.info) && TopAll(p, f.tail)
  }

  predicate All<I>(p: I -> bool, f: Forest<I>) {
    f.Cons? ==> p(f.head.info) && All(p, f.head.kids) && All(p, f.tail)
  }

  /** A property that a menu with it passes on to every entry. */
  ghost predicate Passes<I(!new)>(r: Rules<I>, p: I -> bool) {
    forall i, j :: p(i) ==> p(r.pass(i, j))
  }

  lemma {:induction false} PassDownAll<I(!new)>(r: Rules<I>, p: I -> bool, i: I, f: Forest<I>)
    requires Passes(r, p) && p(i)
    ensures TopAll(p, PassDown(r, i, f))
  {
    if f.Cons? { PassDownAll(r, p, i, f.tail); }
  }

  lemma {:induction false} AppendAll<I>(p: I -> bool, f: Forest<I>, g: Forest<I>)
    requires All(p, f) && All(p, g)
    ensures All(p, Append(f, g))
  {
    if f.Cons? { AppendAll(p, f.tail, g); }
  }

  lemma {:induction false} SpliceAll<I>(r: Rules<I>, p: I -> bool, f: Forest<I>)
    requires All(p, f)
    ensures All(p, Splice(r, f))
    decreases Count(f)
  {
    if f.Cons? {
      if f.head.kids.Cons? && r.promptless(f.head.info) {
        CountAppend(f.head.kids, f.tail);
        AppendAll(p, f.head.kids, f.tail);
        SpliceAll(r, p, Append(f.head.kids, f.tail));
      } else {
        SpliceAll(r, p, f.tail);
      }
    }
  }

  /** What the root has and menus pass on, every entry has in the end. */
  lemma {:induction false} FinalizeAllHave<I(!new)>(r: Rules<I>, p: I -> bool, t: Tree<I>, rest: Forest<I>)
    requires Passes(r, p) && p(t.info) && TopAll(p, rest)
    ensures All(p, Finalize(r, t, rest).0.kids) && TopAll(p, Finalize(r, t, rest).1)
    decreases Count(t.kids) + Count(rest), 1
  {
    if t.kids.Cons? {
      var f := PassDown(r, t.info, t.kids);
      PassDownAll(r, p, t.info, t.kids);
      ListHave(r, p, f);
      SpliceAll(r, p, FinalizeAll(r, f));
    } else {
      TakenHave(r, p, t.info, rest);
      SpliceAll(r, p, Absorb(r, t.info, rest).0);
    }
  }

  lemma {:induction false} ListHave<I(!new)>(r: Rules<I>, p: I -> bool, f: Forest<I>)
    requires Passes(r, p) && TopAll(p, f)
    ensures All(p, FinalizeAll(r, f))
    decreases Count(f), 0
  {
    if f.Cons? {
      FinalizeAllHave(r, p, f.head, f.tail);
      ListHave(r, p, Finalize(r, f.head, f.tail).1);
    }
  }

  lemma {:induction false} TakenHave<I(!new)>(r: Rules<I>, p: I -> bool, i: I, rest: Forest<I>)
    requires Passes(r, p) && TopAll(p, rest)
    ensures All(p, Absorb(r, i, rest).0) && TopAll(p, Absorb(r, i, rest).1)
    decreases Count(rest), 0
  {
    if rest.Cons? && r.takes(i, rest.head.info) {
      FinalizeAllHave(r, p, rest.head, rest.tail);
      TakenHave(r, p, i, Finalize(r, rest.head, rest.tail).1);
    }
  }

  // ----- no entry is lost, doubled or moved -----

  /** What `tag` says of the entries, in the order of the files, and then `more`. */
  function Tags<I, T>(tag: I -> T, f: Forest<I>, more: seq<T>): seq<T>
    decreases f
  {
    match f
    case Nil => more
    case Cons(t, rest) => [tag(t.info)] + Tags(tag, t.kids, Tags(tag, rest, more))
  }

  /** What a menu passes down does not change what `tag` says of an entry. */
  ghost predicate Keeps<I(!new), T>(r: Rules<I>, tag: I -> T) {
    forall i, j :: tag(r.pass(i, j)) == tag(j)
  }

  lemma {:induction false} TagsAppend<I, T>(tag: I -> T, f: Forest<I>, g: Forest<I>, more: seq<T>)
    ensures Tags(tag, Append(f, g), more) == Tags(tag, f, Tags(tag, g, more))
  {
    if f.Cons? { TagsAppend(tag, f.tail, g, more); }
  }

  lemma {:induction false} PassDownTags<I(!new), T>(r: Rules<I>, tag: I -> T, i: I, f: Forest<I>, more: seq<T>)
    requires Keeps(r, tag)
    ensures Tags(tag, PassDown(r, i, f), more) == Tags(tag, f, more)
  {
    if f.Cons? { PassDownTags(r, tag, i, f.tail, more); }
  }

  lemma {:induction false} SpliceTags<I, T>(r: Rules<I>, tag: I -> T, f: Forest<I>, more: seq<T>)
    ensures Tags(tag, Splice(r, f), more) == Tags(tag, f, more)
    decreases Count(f)
  {
    if f.Cons? {
      var t := f.head;
      if t.kids.Cons? && r.promptless(t.info) {
        CountAppend(t.kids, f.tail);
        TagsAppend(tag, t.kids, f.tail, more);
        SpliceTags(r, tag, Append(t.kids, f.tail), more);
      } else {
        SpliceTags(r, tag, f.tail, more);
      }
    }
  }

  /** However entries are nested and moved up, the order of the files stays. */
  lemma {:induction false} FinalizeTags<I(!new), T>(r: Rules<I>, tag: I -> T, t: Tree<I>, rest: Forest<I>, more: seq<T>)
    requires Keeps(r, tag)
    ensures var (t', rest') := Finalize(r, t, rest);
            Tags(tag, t'.kids, Tags(tag, rest', more)) == Tags(tag, t.kids, Tags(tag, rest, more))
    decreases Count(t.kids) + Count(rest), 1
  {
    if t.kids.Cons? {
      var f := PassDown(r, t.info, t.kids);
      var behind := Tags(tag, rest, more);
      PassDownTags(r, tag, t.info, t.kids, behind);
      FinalizeAllTags(r, tag, f, behind);
      SpliceTags(r, tag, FinalizeAll(r, f), behind);
    } else {
      var (taken, left) := Absorb(r, t.info, rest);
      AbsorbTags(r, tag, t.info, rest, more);
      SpliceTags(r, tag, taken, Tags(tag, left, more));
    }
  }

  lemma {:induction false} FinalizeAllTags<I(!new), T>(r: Rules<I>, tag: I -> T, f: Forest<I>, more: seq<T>)
    requires Keeps(r, tag)
    ensures Tags(tag, FinalizeAll(r, f), more) == Tags(tag, f, more)
    decreases Count(f), 0
  {
    if f.Cons? {
      FinalizeTags(r, tag, f.head, f.tail, more);
      FinalizeAllTags(r, tag, Finalize(r, f.head, f.tail).1, more);
    }
  }

  lemma {:induction false} AbsorbTags<I(!new), T>(r: Rules<I>, tag: I -> T, p: I, rest: Forest<I>, more: seq<T>)
    requires Keeps(r, tag)
    ensures var (taken, left) := Absorb(r, p, rest);
            Tags(tag, taken, Tags(tag, left, more)) == Tags(tag, rest, more)
    decreases Count(rest), 0
  {
    if rest.Cons? && r.takes(p, rest.head.info) {
      FinalizeTags(r, tag, rest.head, rest.tail, more);
      AbsorbTags(r, tag, p, Finalize(r, rest.head, rest.tail).1, more);
    }
  }

  // ----- which entries are passed something down, and in which order -----

  function Tops<I>(f: Forest<I>): seq<I> {
    if f.Nil? then [] else [f.head.info] + Tops(f.tail)
  }

  /** The entries as menu_finalize of `t` leaves them, each when its menu has passed down. */
  function Visits<I>(r: Rules<I>, t: Tree<I>, rest: Forest<I>): seq<I>
    decreases Count(t.kids) + Count(rest), 1
  {
    if t.kids.Cons? then
      var f := PassDown(r, t.info, t.kids);
      Tops(f) + VisitsAll(r, f)
    else VisitsTaken(r, t.info, rest)
  }

  function VisitsAll<I>(r: Rules<I>, f: Forest<I>): seq<I>
    decreases Count(f), 0
  {
    if f.Nil? then [] else Visits(r, f.head, f.tail) + VisitsAll(r, Finalize(r, f.head, f.tail).1)
  }

  function VisitsTaken<I>(r: Rules<I>, p: I, rest: Forest<I>): seq<I>
    decreases Count(rest), 0
  {
    if rest.Nil? || !r.takes(p, rest.head.info) then []
    else Visits(r, rest.head, rest.tail) + VisitsTaken(r, p, Finalize(r, rest.head, rest.tail).1)
  }

  predicate SomeOf<I>(p: I -> bool, s: seq<I>) {
    s != [] && (p(s[0]) || SomeOf(p, s[1..]))
  }

  predicate SomeTop<I>(p: I -> bool, f: Forest<I>) {
    f.Cons? && (p(f.head.info) || SomeTop(p, f.tail))
  }

  /** Some entry of the forest, at whatever depth. */
  predicate SomeIn<I>(p: I -> bool, f: Forest<I>) {
    f.Cons? && (p(f.head.info) || SomeIn(p, f.head.kids) || SomeIn(p, f.tail))
  }

  lemma {:induction false} SomeOfAppend<I>(p: I -> bool, s: seq<I>, u: seq<I>)
    ensures SomeOf(p, s + u) <==> SomeOf(p, s) || SomeOf(p, u)
  {
    if s == [] {
      assert s + u == u;
    } else {
      assert (s + u)[1..] == s[1..] + u;
      SomeOfAppend(p, s[1..], u);
    }
  }

  lemma {:induction false} SomeOfTops<I>(p: I -> bool, f: Forest<I>)
    ensures SomeOf(p, Tops(f)) <==> SomeTop(p, f)
  {
    if f.Cons? {
      assert Tops(f)[1..] == Tops(f.tail);
      SomeOfTops(p, f.tail);
    }
  }

  lemma {:induction false} AppendSome<I>(p: I -> bool, f: Forest<I>, g: Forest<I>)
    ensures SomeIn(p, Append(f, g)) <==> SomeIn(p, f) || SomeIn(p, g)
  {
    if f.Cons? { AppendSome(p, f.tail, g); }
  }

  lemma {:induction false} SpliceSome<I>(r: Rules<I>, p: I -> bool, f: Forest<I>)
    ensures SomeIn(p, Splice(r, f)) <==> SomeIn(p, f)
    decreases Count(f)
  {
    if f.Cons? {
      if f.head.kids.Cons? && r.promptless(f.head.info) {
        CountAppend(f.head.kids, f.tail);
        AppendSome(p, f.head.kids, f.tail);
        SpliceSome(r, p, Append(f.head.kids, f.tail));
      } else {
        SpliceSome(r, p, f.tail);
      }
    }
  }

  /** The entries below the result are those visited and those taken in. */
  lemma {:induction false} FinalizeSome<I>(r: Rules<I>, p: I -> bool, t: Tree<I>, rest: Forest<I>)
    ensures var (t', rest') := Finalize(r, t, rest);
            SomeIn(p, t'.kids) || SomeTop(p, rest') <==> SomeOf(p, Visits(r, t, rest)) || SomeTop(p, rest)
    decreases Count(t.kids) + Count(rest), 1
  {
    if t.kids.Cons? {
      var f := PassDown(r, t.info, t.kids);
      FinalizeAllSome(r, p, f);
      SpliceSome(r, p, FinalizeAll(r, f));
      SomeOfTops(p, f);
      SomeOfAppend(p, Tops(f), VisitsAll(r, f));
    } else {
      AbsorbSome(r, p, t.info, rest);
      SpliceSome(r, p, Absorb(r, t.info, rest).0);
    }
  }

  lemma {:induction false} FinalizeAllSome<I>(r: Rules<I>, p: I -> bool, f: Forest<I>)
    ensures SomeIn(p, FinalizeAll(r, f)) <==> SomeOf(p, VisitsAll(r, f)) || SomeTop(p, f)
    decreases Count(f), 0
  {
    if f.Cons? {
      var rest := Finalize(r, f.head, f.tail).1;
      FinalizeSome(r, p, f.head, f.tail);
      FinalizeAllSome(r, p, rest);
      SomeOfAppend(p, Visits(r, f.head, f.tail), VisitsAll(r, rest));
    }
  }

  lemma {:induction false} AbsorbSome<I>(r: Rules<I>, p: I -> bool, i: I, rest: Forest<I>)
    ensures var (taken, left) := Absorb(r, i, rest);
            SomeIn(p, taken) || SomeTop(p, left) <==> SomeOf(p, VisitsTaken(r, i, rest)) || SomeTop(p, rest)
    decreases Count(rest), 0
  {
    if rest.Cons? && r.takes(i, rest.head.info) {
      var next := Finalize(r, rest.head, rest.tail).1;
      FinalizeSome(r, p, rest.head, rest.tail);
      AbsorbSome(r, p, i, next);
      SomeOfAppend(p, Visits(r, rest.head, rest.tail), VisitsTaken(r, i, next));
    }
  }
}

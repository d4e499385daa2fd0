/** menu_finalize on the linked menus, in place. A menu is named by the order in
    which the parser added it, which is the order of the configuration files. */
module MenuPool {
  import opened MenuTree

  const NULL: int := -1

  datatype Menu<I> = Menu(next: int, list: int, parent: int, info: I)

  type Pool<I> = seq<Menu<I>>

  /** The number of the menu behind the entries of `f`, the first of which is `lo`. */
  function Skip<I>(lo: nat, f: Forest<I>): (q: nat)
    ensures q >= lo && (f.Cons? ==> q > lo)
    decreases f
  {
    if f.Nil? then lo else Skip(Skip(lo + 1, f.head.kids), f.tail)
  }

  lemma {:induction false} SkipCount<I>(lo: nat, f: Forest<I>)
    ensures Skip(lo, f) == lo + Count(f)
    decreases f
  {
    if f.Cons? {
      SkipCount(lo + 1, f.head.kids);
      SkipCount(Skip(lo + 1, f.head.kids), f.tail);
    }
  }

  lemma SameSkip<I>(lo: nat, f: Forest<I>, g: Forest<I>)
    requires Count(f) == Count(g)
    ensures Skip(lo, f) == Skip(lo, g)
  {
    SkipCount(lo, f);
    SkipCount(lo, g);
  }

  lemma {:induction false} SkipSnoc<I>(lo: nat, f: Forest<I>, t: Tree<I>)
    ensures Skip(lo, Append(f, Cons(t, Nil))) == Skip(Skip(lo, f) + 1, t.kids)
    decreases f
  {
    if f.Cons? { SkipSnoc(Skip(lo + 1, f.head.kids), f.tail, t); }
  }

  /** The menus from `lo` on are the entries of `f` in preorder, linked by `next` and
      `list`; the last entry of the list has `after` as its successor. Below the
      entries of `f`, every menu knows its parent. */
  ghost predicate Rep<I>(ms: Pool<I>, f: Forest<I>, lo: nat, after: int) {
    match f
    case Nil => lo <= |ms|
    case Cons(t, rest) =>
      var q := Skip(lo + 1, t.kids);
      && lo < |ms|
      && ms[lo].info == t.info
      && ms[lo].list == Link(t.kids, lo + 1, NULL)
      && ms[lo].next == Link(rest, q, after)
      && Rep(ms, t.kids, lo + 1, NULL) && Parents(ms, t.kids, lo + 1, lo)
      && Rep(ms, rest, q, after)
  }

  /** A pointer to the list `f` at `lo`, or `after` when the list is empty. */
  function Link<I>(f: Forest<I>, lo: nat, after: int): int {
    if f.Cons? then lo else after
  }

  /** All entries of the list `f` at `lo` have parent `p`. */
  ghost predicate Parents<I>(ms: Pool<I>, f: Forest<I>, lo: nat, p: int) {
    f.Cons? ==> lo < |ms| && ms[lo].parent == p && Parents(ms, f.tail, Skip(lo + 1, f.head.kids), p)
  }

  ghost predicate SameOn<I>(ms: Pool<I>, ms': Pool<I>, lo: int, hi: int) {
    |ms'| == |ms| && forall i | lo <= i < hi && 0 <= i < |ms| :: ms'[i] == ms[i]
  }

  /** Only menus from `lo` up to `hi` may differ. */
  ghost predicate SameOutside<I>(ms: Pool<I>, ms': Pool<I>, lo: int, hi: int) {
    |ms'| == |ms| && forall i | (0 <= i < lo || hi <= i < |ms|) && 0 <= i < |ms| :: ms'[i] == ms[i]
  }

  lemma {:induction false} RepBound<I>(ms: Pool<I>, f: Forest<I>, lo: nat, after: int)
    requires Rep(ms, f, lo, after)
    ensures Skip(lo, f) <= |ms|
  {
    if f.Cons? { RepBound(ms, f.tail, Skip(lo + 1, f.head.kids), after); }
  }

  lemma {:induction false} RepFrame<I>(ms: Pool<I>, ms': Pool<I>, f: Forest<I>, lo: nat, after: int)
    requires Rep(ms, f, lo, after) && SameOn(ms, ms', lo, Skip(lo, f))
    ensures Rep(ms', f, lo, after)
  {
    if f.Cons? {
      var q := Skip(lo + 1, f.head.kids);
      RepFrame(ms, ms', f.head.kids, lo + 1, NULL);
      ParentsFrame(ms, ms', f.head.kids, lo + 1, lo);
      RepFrame(ms, ms', f.tail, q, after);
    }
  }

  lemma {:induction false} ParentsFrame<I>(ms: Pool<I>, ms': Pool<I>, f: Forest<I>, lo: nat, p: int)
    requires Parents(ms, f, lo, p) && SameOn(ms, ms', lo, Skip(lo, f))
    ensures Parents(ms', f, lo, p)
  {
    if f.Cons? { ParentsFrame(ms, ms', f.tail, Skip(lo + 1, f.head.kids), p); }
  }

  /** A list is a list followed by another one. */
  lemma {:induction false} RepAppend<I>(ms: Pool<I>, f: Forest<I>, g: Forest<I>, lo: nat, after: int)
    ensures var q := Skip(lo, f);
            Rep(ms, Append(f, g), lo, after) <==> Rep(ms, f, lo, Link(g, q, after)) && Rep(ms, g, q, after)
  {
    if f.Cons? {
      RepAppend(ms, f.tail, g, Skip(lo + 1, f.head.kids), after);
      if Rep(ms, Append(f, g), lo, after) || Rep(ms, g, Skip(lo, f), after) { }
    }
  }

  lemma {:induction false} ParentsAppend<I>(ms: Pool<I>, f: Forest<I>, g: Forest<I>, lo: nat, p: int)
    ensures Parents(ms, Append(f, g), lo, p) <==> Parents(ms, f, lo, p) && Parents(ms, g, Skip(lo, f), p)
  {
    if f.Cons? { ParentsAppend(ms, f.tail, g, Skip(lo + 1, f.head.kids), p); }
  }

  lemma {:induction false} AppendAssoc<I>(f: Forest<I>, t: Tree<I>, g: Forest<I>)
    ensures Append(Append(f, Cons(t, Nil)), g) == Append(f, Cons(t, g))
  {
    if f.Cons? { AppendAssoc(f.tail, t, g); }
  }

  lemma {:induction false} AppendNil<I>(f: Forest<I>)
    ensures Append(f, Nil) == f
  {
    if f.Cons? { AppendNil(f.tail); }
  }

  /** The last entry of a list. */
  function LastPos<I>(f: Forest<I>, lo: nat): nat
    requires f.Cons?
  {
    if f.tail.Nil? then lo else LastPos(f.tail, Skip(lo + 1, f.head.kids))
  }

  lemma {:induction false} LastPosSnoc<I>(f: Forest<I>, t: Tree<I>, lo: nat)
    ensures Append(f, Cons(t, Nil)).Cons? && LastPos(Append(f, Cons(t, Nil)), lo) == Skip(lo, f)
  {
    if f.Cons? { LastPosSnoc(f.tail, t, Skip(lo + 1, f.head.kids)); }
  }

  /** Redirecting the last entry of a list. */
  lemma {:induction false} Relink<I>(ms: Pool<I>, f: Forest<I>, lo: nat, after: int, x: int)
    requires Rep(ms, f, lo, after) && f.Cons?
    ensures var l := LastPos(f, lo);
            && lo <= l < Skip(lo, f) && l < |ms| && ms[l].next == after
            && Rep(ms[l := ms[l].(next := x)], f, lo, x)
            && forall p :: Parents(ms, f, lo, p) ==> Parents(ms[l := ms[l].(next := x)], f, lo, p)
  {
    var q := Skip(lo + 1, f.head.kids);
    RepBound(ms, f, lo, after);
    if f.tail.Cons? { Relink(ms, f.tail, q, after, x); }
    var l := LastPos(f, lo);
    var ms' := ms[l := ms[l].(next := x)];
    RepFrame(ms, ms', f.head.kids, lo + 1, NULL);
    ParentsFrame(ms, ms', f.head.kids, lo + 1, lo);
  }

  /** A list in two parts: entries dealt with, with parent `p`, and entries to come,
      with parent `p2`. */
  ghost predicate Split<I>(ms: Pool<I>, done: Forest<I>, todo: Forest<I>, lo: nat, p: int, p2: int) {
    var q := Skip(lo, done);
    && Rep(ms, done, lo, Link(todo, q, NULL)) && Rep(ms, todo, q, NULL)
    && Parents(ms, done, lo, p) && Parents(ms, todo, q, p2)
  }

  /** One entry was rewritten and given parent `p`. */
  lemma Advance<I>(ms: Pool<I>, ms': Pool<I>, done: Forest<I>, todo: Forest<I>,
                   lo: nat, p: int, p2: int, t: Tree<I>, rest: Forest<I>)
    requires Split(ms, done, todo, lo, p, p2) && todo.Cons?
    requires var q := Skip(lo, done);
             && SameOn(ms, ms', lo, q)
             && Rep(ms', Cons(t, rest), q, NULL) && Parents(ms', rest, Skip(q + 1, t.kids), p2)
             && ms'[q].parent == p
    ensures Split(ms', Append(done, Cons(t, Nil)), rest, lo, p, p2)
    ensures ms'[Skip(lo, done)].next == Link(rest, Skip(lo, Append(done, Cons(t, Nil))), NULL)
  {
    var q := Skip(lo, done);
    SkipSnoc(lo, done, t);
    RepFrame(ms, ms', done, lo, q);
    ParentsFrame(ms, ms', done, lo, p);
    RepAppend(ms', done, Cons(t, Nil), lo, Link(rest, Skip(q + 1, t.kids), NULL));
    ParentsAppend(ms', done, Cons(t, Nil), lo, p);
  }

  /** A new list of children in place of the old one. */
  lemma ReplaceKids<I>(ms: Pool<I>, ms': Pool<I>, i: I, kids: Forest<I>, kids': Forest<I>,
                       rest: Forest<I>, k: nat, pp: int)
    requires Rep(ms, Cons(Node(i, kids), rest), k, NULL) && Parents(ms, Cons(Node(i, kids), rest), k, pp)
    requires Rep(ms', kids', k + 1, NULL) && Parents(ms', kids', k + 1, k)
    requires Skip(k + 1, kids') == Skip(k + 1, kids) && (kids'.Cons? <==> kids.Cons?)
    requires SameOutside(ms, ms', k + 1, Skip(k + 1, kids))
    ensures Rep(ms', Cons(Node(i, kids'), rest), k, NULL) && Parents(ms', Cons(Node(i, kids'), rest), k, pp)
  {
    var q := Skip(k + 1, kids);
    RepFrame(ms, ms', rest, q, NULL);
    ParentsFrame(ms, ms', rest, q, pp);
  }

  lemma SetInfo<I>(ms: Pool<I>, f: Forest<I>, lo: nat, i: I, p: int)
    requires Rep(ms, f, lo, NULL) && f.Cons? && Parents(ms, f, lo, p)
    ensures var ms' := ms[lo := ms[lo].(info := i)];
            Rep(ms', Cons(Node(i, f.head.kids), f.tail), lo, NULL) && Parents(ms', f, lo, p)
  {
    var ms' := ms[lo := ms[lo].(info := i)];
    var q := Skip(lo + 1, f.head.kids);
    RepFrame(ms, ms', f.head.kids, lo + 1, NULL);
    ParentsFrame(ms, ms', f.head.kids, lo + 1, lo);
    RepFrame(ms, ms', f.tail, q, NULL);
    ParentsFrame(ms, ms', f.tail, q, p);
  }

  lemma SetParent<I>(ms: Pool<I>, f: Forest<I>, lo: nat, p: int, p2: int)
    requires Rep(ms, f, lo, NULL) && f.Cons? && Parents(ms, f.tail, Skip(lo + 1, f.head.kids), p2)
    ensures var ms' := ms[lo := ms[lo].(parent := p)];
            Rep(ms', f, lo, NULL) && Parents(ms', f.tail, Skip(lo + 1, f.head.kids), p2)
  {
    var ms' := ms[lo := ms[lo].(parent := p)];
    var q := Skip(lo + 1, f.head.kids);
    RepFrame(ms, ms', f.head.kids, lo + 1, NULL);
    ParentsFrame(ms, ms', f.head.kids, lo + 1, lo);
    RepFrame(ms, ms', f.tail, q, NULL);
    ParentsFrame(ms, ms', f.tail, q, p2);
  }

  /** Rewriting the fields of the next entry. */
  lemma StepInfo<I>(ms: Pool<I>, done: Forest<I>, todo: Forest<I>, lo: nat, p: int, q: nat, i: I)
    returns (done': Forest<I>, ms': Pool<I>)
    requires Split(ms, done, todo, lo, p, p) && todo.Cons? && q == Skip(lo, done)
    ensures done' == Append(done, Cons(Node(i, todo.head.kids), Nil)) && Skip(lo, done') == Skip(q + 1, todo.head.kids)
    ensures q < |ms| && ms[q].info == todo.head.info && ms[q].next == Link(todo.tail, Skip(lo, done'), NULL)
    ensures ms' == ms[q := ms[q].(info := i)] && Split(ms', done', todo.tail, lo, p, p)
  {
    ms' := ms[q := ms[q].(info := i)];
    var t' := Node(i, todo.head.kids);
    done' := Append(done, Cons(t', Nil));
    SkipSnoc(lo, done, t');
    SetInfo(ms, todo, q, i, p);
    Advance(ms, ms', done, todo, lo, p, p, t', todo.tail);
  }

  /** The next entry was finalized, which may have shortened the list behind it, and is
      given parent `p`. */
  lemma StepTree<I>(ms: Pool<I>, ms1: Pool<I>, done: Forest<I>, todo: Forest<I>, lo: nat, p: int, p2: int, q: nat,
                    t: Tree<I>, rest: Forest<I>)
    returns (done': Forest<I>, ms': Pool<I>)
    requires Split(ms, done, todo, lo, p, p2) && todo.Cons? && q == Skip(lo, done)
    requires SameOutside(ms, ms1, q, Skip(q, todo))
    requires Rep(ms1, Cons(t, rest), q, NULL) && Parents(ms1, Cons(t, rest), q, p2)
    ensures done' == Append(done, Cons(t, Nil)) && Skip(lo, done') == Skip(q + 1, t.kids)
    ensures q < |ms1| && ms1[q].next == Link(rest, Skip(lo, done'), NULL)
    ensures ms' == ms1[q := ms1[q].(parent := p)] && Split(ms', done', rest, lo, p, p2)
    ensures p == p2 ==> ms' == ms1
  {
    ms' := ms1[q := ms1[q].(parent := p)];
    done' := Append(done, Cons(t, Nil));
    SkipSnoc(lo, done, t);
    SetParent(ms1, Cons(t, rest), q, p, p2);
    Advance(ms, ms', done, todo, lo, p, p2, t, rest);
  }

  /** The entries taken in become the list of `k`. */
  lemma CutList<I>(ms: Pool<I>, i: I, done: Forest<I>, todo: Forest<I>, k: nat, pp: int) returns (ms': Pool<I>)
    requires Split(ms, done, todo, k + 1, k, pp) && done.Cons?
    requires k < |ms| && ms[k].info == i && ms[k].parent == pp
    requires ms[k].next == k + 1 && ms[k].list == NULL
    ensures var l := LastPos(done, k + 1);
            && k < l < |ms| && ms[l].next == Link(todo, Skip(k + 1, done), NULL)
            && ms' == ms[k := ms[k].(list := k + 1, next := ms[l].next)][l := ms[l].(next := NULL)]
    ensures SameOutside(ms, ms', k, Skip(k + 1, done))
    ensures Rep(ms', Cons(Node(i, done), todo), k, NULL) && Parents(ms', Cons(Node(i, done), todo), k, pp)
  {
    var l, q := LastPos(done, k + 1), Skip(k + 1, done);
    Relink(ms, done, k + 1, Link(todo, q, NULL), NULL);
    var ms1 := ms[l := ms[l].(next := NULL)];
    ms' := ms[k := ms[k].(list := k + 1, next := ms[l].next)][l := ms[l].(next := NULL)];
    RepFrame(ms1, ms', done, k + 1, NULL);
    ParentsFrame(ms1, ms', done, k + 1, k);
    RepFrame(ms, ms', todo, q, NULL);
    ParentsFrame(ms, ms', todo, q, pp);
  }

  /** The children of the entry at `q`, already given its parent, are linked in behind it. */
  lemma MoveUp<I>(ms: Pool<I>, ms1: Pool<I>, t: Tree<I>, rest: Forest<I>, q: nat, p: int) returns (ms': Pool<I>)
    requires Rep(ms, Cons(t, rest), q, NULL) && Parents(ms, Cons(t, rest), q, p) && t.kids.Cons?
    requires SameOutside(ms, ms1, q + 1, Skip(q + 1, t.kids))
    requires Rep(ms1, t.kids, q + 1, NULL) && Parents(ms1, t.kids, q + 1, p)
    ensures var l := LastPos(t.kids, q + 1);
            && q < l < |ms1|
            && ms' == ms1[l := ms1[l].(next := ms1[q].next)][q := ms1[q].(next := q + 1, list := NULL)]
    ensures SameOutside(ms, ms', q, Skip(q, Cons(t, rest)))
    ensures var f := Cons(Node(t.info, Nil), Append(t.kids, rest));
            Rep(ms', f, q, NULL) && Parents(ms', f, q, p)
  {
    var l, r := LastPos(t.kids, q + 1), Skip(q + 1, t.kids);
    Relink(ms1, t.kids, q + 1, NULL, ms1[q].next);
    var ms2 := ms1[l := ms1[l].(next := ms1[q].next)];
    ms' := ms2[q := ms1[q].(next := q + 1, list := NULL)];
    MovedLists(ms, ms2, ms', t.kids, rest, q, r, p);
  }

  /** The two lists, one behind the other, are not disturbed by a change to the entry in front. */
  lemma MovedLists<I>(ms: Pool<I>, ms2: Pool<I>, ms': Pool<I>, kids: Forest<I>, rest: Forest<I>, q: nat, r: nat, p: int)
    requires r == Skip(q + 1, kids) && SameOn(ms2, ms', q + 1, |ms2|) && SameOn(ms, ms', r, Skip(r, rest))
    requires Rep(ms2, kids, q + 1, Link(rest, r, NULL)) && Parents(ms2, kids, q + 1, p)
    requires Rep(ms, rest, r, NULL) && Parents(ms, rest, r, p)
    ensures Rep(ms', Append(kids, rest), q + 1, NULL) && Parents(ms', Append(kids, rest), q + 1, p)
  {
    RepBound(ms2, kids, q + 1, Link(rest, r, NULL));
    RepFrame(ms2, ms', kids, q + 1, Link(rest, r, NULL));
    ParentsFrame(ms2, ms', kids, q + 1, p);
    RepFrame(ms, ms', rest, r, NULL);
    ParentsFrame(ms, ms', rest, r, p);
    RepAppend(ms', kids, rest, q + 1, NULL);
    ParentsAppend(ms', kids, rest, q + 1, p);
  }

  class Menus<I> {
    const rules: Rules<I>
    var menus: Pool<I>

    constructor (r: Rules<I>, ms: Pool<I>)
      ensures rules == r && menus == ms
    {
      rules, menus := r, ms;
    }

    method PassDownList(k: nat, ghost i: I, ghost kids: Forest<I>)
      requires k < |menus| && menus[k].list == Link(kids, k + 1, NULL) && menus[k].info == i
      requires Rep(menus, kids, k + 1, NULL) && Parents(menus, kids, k + 1, k)
      modifies this
      ensures SameOutside(old(menus), menus, k + 1, Skip(k + 1, kids))
      ensures Rep(menus, PassDown(rules, i, kids), k + 1, NULL)
      ensures Parents(menus, PassDown(rules, i, kids), k + 1, k)
    {
      var menu := menus[k].list;
      ghost var done, todo := Nil, kids;
      while menu != NULL
        invariant Split(menus, done, todo, k + 1, k, k) && menus[k].info == i
        invariant menu == Link(todo, Skip(k + 1, done), NULL)
        invariant Skip(Skip(k + 1, done), todo) == Skip(k + 1, kids)
        invariant Append(done, PassDown(rules, i, todo)) == PassDown(rules, i, kids)
        invariant SameOutside(old(menus), menus, k + 1, Skip(k + 1, kids))
        decreases Count(todo)
      {
        menu, done, todo := PassDownNext(menu, k, i, done, todo);
      }
      AppendNil(done);
    }

    method PassDownNext(menu: nat, k: nat, ghost i: I, ghost done: Forest<I>, ghost todo: Forest<I>)
      returns (next: int, ghost done': Forest<I>, ghost todo': Forest<I>)
      requires Split(menus, done, todo, k + 1, k, k) && todo.Cons? && menu == Skip(k + 1, done)
      requires k < |menus| && menus[k].info == i
      modifies this
      ensures Split(menus, done', todo', k + 1, k, k) && Count(todo') < Count(todo)
      ensures Append(done', PassDown(rules, i, todo')) == Append(done, PassDown(rules, i, todo))
      ensures Skip(Skip(k + 1, done'), todo') == Skip(menu, todo)
      ensures next == Link(todo', Skip(k + 1, done'), NULL)
      ensures SameOutside(old(menus), menus, menu, menu + 1)
    {
      var j := rules.pass(menus[k].info, menus[menu].info);
      ghost var ms';
      done', ms' := StepInfo(menus, done, todo, k + 1, k, menu, j);
      AppendAssoc(done, Node(j, todo.head.kids), PassDown(rules, i, todo.tail));
      menus := menus[menu := menus[menu].(info := j)];
      assert menus == ms';
      next := menus[menu].next;
      todo' := todo.tail;
    }

    /** Finalize the next entry of a list and say how the list goes on, once the entry
        has parent `k`. */
    method FinalizeNext(menu: nat, k: nat, ghost done: Forest<I>, ghost todo: Forest<I>, ghost pp: int)
      returns (ghost done': Forest<I>, ghost todo': Forest<I>)
      requires Split(menus, done, todo, k + 1, k, pp) && todo.Cons? && menu == Skip(k + 1, done)
      modifies this
      ensures var (t, rest) := MenuTree.Finalize(rules, todo.head, todo.tail);
              done' == Append(done, Cons(t, Nil)) && todo' == rest
      ensures Skip(Skip(k + 1, done'), todo') == Skip(menu, todo) && Count(todo') < Count(todo)
      ensures SameOutside(old(menus), menus, menu, Skip(menu, todo))
      ensures menu < |menus| && menus[menu].next == Link(todo', Skip(k + 1, done'), NULL)
      ensures Split(menus[menu := menus[menu].(parent := k)], done', todo', k + 1, k, pp)
      ensures k == pp ==> Split(menus, done', todo', k + 1, k, pp)
      decreases Count(todo), 2
    {
      ghost var res := MenuTree.Finalize(rules, todo.head, todo.tail);
      SameSkip(menu, Cons(res.0, res.1), todo);
      FinalizeMenu(menu, todo.head, todo.tail, pp);
      ghost var ms';
      done', ms' := StepTree(old(menus), menus, done, todo, k + 1, k, pp, menu, res.0, res.1);
      todo' := res.1;
    }

    method FinalizeList(k: nat, ghost kids: Forest<I>)
      requires k < |menus| && menus[k].list == Link(kids, k + 1, NULL)
      requires Rep(menus, kids, k + 1, NULL) && Parents(menus, kids, k + 1, k)
      modifies this
      ensures SameOutside(old(menus), menus, k + 1, Skip(k + 1, kids))
      ensures Rep(menus, MenuTree.FinalizeAll(rules, kids), k + 1, NULL)
      ensures Parents(menus, MenuTree.FinalizeAll(rules, kids), k + 1, k)
      decreases Count(kids), 4
    {
      var menu := menus[k].list;
      ghost var done, todo := Nil, kids;
      while menu != NULL
        invariant Split(menus, done, todo, k + 1, k, k)
        invariant menu == Link(todo, Skip(k + 1, done), NULL)
        invariant Skip(Skip(k + 1, done), todo) == Skip(k + 1, kids)
        invariant Append(done, FinalizeAll(rules, todo)) == FinalizeAll(rules, kids)
        invariant SameOutside(old(menus), menus, k + 1, Skip(k + 1, kids))
        decreases Count(todo)
      {
        ghost var done0, todo0 := done, todo;
        done, todo := FinalizeNext(menu, k, done, todo, k);
        AppendAssoc(done0, MenuTree.Finalize(rules, todo0.head, todo0.tail).0, FinalizeAll(rules, todo));
        menu := menus[menu].next;
      }
      AppendNil(done);
    }

    /** The loop over the following entries of an entry without children. */
    method TakeFollowing(k: nat, ghost i: I, ghost rest: Forest<I>, ghost pp: int)
      returns (last: int, ghost done: Forest<I>, ghost todo: Forest<I>)
      requires k < |menus| && menus[k] == Menu(Link(rest, k + 1, NULL), NULL, pp, i)
      requires Split(menus, Nil, rest, k + 1, k, pp)
      modifies this
      ensures SameOutside(old(menus), menus, k + 1, Skip(k + 1, rest)) && menus[k] == old(menus[k])
      ensures Split(menus, done, todo, k + 1, k, pp) && Absorb(rules, i, rest) == (done, todo)
      ensures last == if done.Cons? then LastPos(done, k + 1) else NULL
      ensures Skip(Skip(k + 1, done), todo) == Skip(k + 1, rest)
      decreases Count(rest), 4
    {
      last := NULL;
      var menu := menus[k].next;
      done, todo := Nil, rest;
      while menu != NULL
        invariant Split(menus, done, todo, k + 1, k, pp)
        invariant menu == Link(todo, Skip(k + 1, done), NULL)
        invariant last == if done.Cons? then LastPos(done, k + 1) else NULL
        invariant Skip(Skip(k + 1, done), todo) == Skip(k + 1, rest)
        invariant SameOutside(old(menus), menus, k + 1, Skip(k + 1, rest)) && menus[k] == old(menus[k])
        invariant Absorb(rules, i, rest) == (Append(done, Absorb(rules, i, todo).0), Absorb(rules, i, todo).1)
        decreases Count(todo)
      {
        if !rules.takes(menus[k].info, menus[menu].info) {
          break;
        }
        last := menu;
        menu, done, todo := TakeNext(menu, k, i, done, todo, pp);
      }
      assert Absorb(rules, i, todo) == (Nil, todo);
      AppendNil(done);
    }

    method TakeNext(menu: nat, k: nat, ghost i: I, ghost done: Forest<I>, ghost todo: Forest<I>, ghost pp: int)
      returns (next: int, ghost done': Forest<I>, ghost todo': Forest<I>)
      requires Split(menus, done, todo, k + 1, k, pp) && todo.Cons? && menu == Skip(k + 1, done)
      requires rules.takes(i, todo.head.info)
      modifies this
      ensures Split(menus, done', todo', k + 1, k, pp)
      ensures Append(done', Absorb(rules, i, todo').0) == Append(done, Absorb(rules, i, todo).0)
      ensures Absorb(rules, i, todo').1 == Absorb(rules, i, todo).1
      ensures Skip(Skip(k + 1, done'), todo') == Skip(menu, todo) && Count(todo') < Count(todo)
      ensures done'.Cons? && LastPos(done', k + 1) == menu && next == Link(todo', Skip(k + 1, done'), NULL)
      ensures SameOutside(old(menus), menus, menu, Skip(menu, todo))
      decreases Count(todo), 3
    {
      ghost var t := MenuTree.Finalize(rules, todo.head, todo.tail).0;
      done', todo' := FinalizeNext(menu, k, done, todo, pp);
      AppendAssoc(done, t, Absorb(rules, i, todo').0);
      LastPosSnoc(done, t, k + 1);
      menus := menus[menu := menus[menu].(parent := k)];
      next := menus[menu].next;
    }

    method AbsorbList(k: nat, ghost i: I, ghost rest: Forest<I>, ghost pp: int)
      requires Rep(menus, Cons(Node(i, Nil), rest), k, NULL) && Parents(menus, Cons(Node(i, Nil), rest), k, pp)
      modifies this
      ensures SameOutside(old(menus), menus, k, Skip(k + 1, rest))
      ensures var (taken, left) := Absorb(rules, i, rest);
              && Rep(menus, Cons(Node(i, taken), left), k, NULL)
              && Parents(menus, Cons(Node(i, taken), left), k, pp)
      decreases Count(rest), 5
    {
      var last;
      ghost var done, todo;
      last, done, todo := TakeFollowing(k, i, rest, pp);
      if last != NULL {
        Cut(k, last, i, done, todo, pp);
      }
    }

    /** Hang the entries up to `last` below `k`. */
    method Cut(k: nat, last: nat, ghost i: I, ghost done: Forest<I>, ghost todo: Forest<I>, ghost pp: int)
      requires Split(menus, done, todo, k + 1, k, pp) && done.Cons? && last == LastPos(done, k + 1)
      requires k < |menus| && menus[k] == Menu(k + 1, NULL, pp, i)
      modifies this
      ensures SameOutside(old(menus), menus, k, Skip(k + 1, done))
      ensures Rep(menus, Cons(Node(i, done), todo), k, NULL) && Parents(menus, Cons(Node(i, done), todo), k, pp)
    {
      ghost var ms' := CutList(menus, i, done, todo, k, pp);
      menus := menus[k := menus[k].(list := menus[k].next)];
      menus := menus[k := menus[k].(next := menus[last].next)];
      menus := menus[last := menus[last].(next := NULL)];
      assert menus == ms';
    }

    method ReparentNext(q: nat, menu: nat, p: nat, ghost done: Forest<I>, ghost todo: Forest<I>)
      returns (ghost done': Forest<I>, ghost todo': Forest<I>)
      requires Split(menus, done, todo, menu + 1, p, menu) && todo.Cons? && q == Skip(menu + 1, done)
      modifies this
      ensures Split(menus, done', todo', menu + 1, p, menu) && todo' == todo.tail
      ensures Append(done', todo') == Append(done, todo) && Skip(Skip(menu + 1, done'), todo') == Skip(q, todo)
      ensures q < |menus| && menus[q].next == Link(todo', Skip(menu + 1, done'), NULL)
      ensures LastPos(todo, q) == if todo'.Nil? then q else LastPos(todo', Skip(menu + 1, done'))
      ensures SameOutside(old(menus), menus, q, q + 1)
    {
      ghost var ms';
      done', ms' := StepTree(menus, menus, done, todo, menu + 1, p, menu, q, todo.head, todo.tail);
      todo' := todo.tail;
      AppendAssoc(done, todo.head, todo.tail);
      menus := menus[q := menus[q].(parent := p)];
      assert menus == ms';
    }

    /** Give all entries of a list the parent `p` and find the last one. */
    method Reparent(menu: nat, p: nat, ghost kids: Forest<I>) returns (last: nat)
      requires kids.Cons? && menu < |menus| && menus[menu].list == menu + 1
      requires Rep(menus, kids, menu + 1, NULL) && Parents(menus, kids, menu + 1, menu)
      modifies this
      ensures SameOutside(old(menus), menus, menu + 1, Skip(menu + 1, kids))
      ensures Rep(menus, kids, menu + 1, NULL) && Parents(menus, kids, menu + 1, p)
      ensures last == LastPos(kids, menu + 1)
    {
      last := menus[menu].list;
      ghost var done, todo := Nil, kids;
      while true
        invariant Split(menus, done, todo, menu + 1, p, menu) && todo.Cons?
        invariant last == Skip(menu + 1, done)
        invariant Append(done, todo) == kids && Skip(last, todo) == Skip(menu + 1, kids)
        invariant LastPos(kids, menu + 1) == LastPos(todo, last)
        invariant SameOutside(old(menus), menus, menu + 1, Skip(menu + 1, kids))
        decreases Count(todo)
      {
        done, todo := ReparentNext(last, menu, p, done, todo);
        if menus[last].next == NULL {
          break;
        }
        last := menus[last].next;
      }
      AppendNil(done);
    }

    /** An entry after its children were moved up, if they were. */
    ghost function Unhooked(t: Tree<I>): Tree<I> {
      if t.kids.Cons? && rules.promptless(t.info) then Node(t.info, Nil) else t
    }

    /** What comes behind the first entry then. */
    ghost function Behind(f: Forest<I>): (g: Forest<I>)
      requires f.Cons?
      ensures Splice(rules, f) == Cons(Unhooked(f.head), Splice(rules, g))
      ensures 1 + Count(Unhooked(f.head).kids) + Count(g) == Count(f)
    {
      CountAppend(f.head.kids, f.tail);
      if f.head.kids.Cons? && rules.promptless(f.head.info) then Append(f.head.kids, f.tail) else f.tail
    }

    method SpliceNext(menu: nat, k: nat, ghost done: Forest<I>, ghost todo: Forest<I>)
      returns (ghost done': Forest<I>, ghost todo': Forest<I>)
      requires Split(menus, done, todo, k + 1, k, k) && todo.Cons? && menu == Skip(k + 1, done)
      modifies this
      ensures Split(menus, done', todo', k + 1, k, k)
      ensures done' == Append(done, Cons(Unhooked(todo.head), Nil))
      ensures Splice(rules, todo) == Cons(Unhooked(todo.head), Splice(rules, todo'))
      ensures Skip(Skip(k + 1, done'), todo') == Skip(menu, todo) && Count(todo') < Count(todo)
      ensures menu < |menus| && menus[menu].next == Link(todo', Skip(k + 1, done'), NULL)
      ensures SameOutside(old(menus), menus, menu, Skip(menu, todo))
    {
      todo' := Behind(todo);
      SameSkip(menu, Cons(Unhooked(todo.head), todo'), todo);
      if menus[menu].list != NULL && rules.promptless(menus[menu].info) {
        MoveKidsUp(menu, k, todo.head, todo.tail);
      }
      ghost var ms';
      done', ms' := StepTree(old(menus), menus, done, todo, k + 1, k, k, menu, Unhooked(todo.head), todo');
      assert menus == ms';
    }

    method MoveKidsUp(menu: nat, k: nat, ghost t: Tree<I>, ghost rest: Forest<I>)
      requires Rep(menus, Cons(t, rest), menu, NULL) && Parents(menus, Cons(t, rest), menu, k) && t.kids.Cons?
      modifies this
      ensures SameOutside(old(menus), menus, menu, Skip(menu, Cons(t, rest)))
      ensures var f := Cons(Node(t.info, Nil), Append(t.kids, rest));
              Rep(menus, f, menu, NULL) && Parents(menus, f, menu, k)
    {
      ghost var ms := menus;
      var last := Reparent(menu, k, t.kids);
      ghost var ms' := MoveUp(ms, menus, t, rest, menu, k);
      menus := menus[last := menus[last].(next := menus[menu].next)];
      menus := menus[menu := menus[menu].(next := menus[menu].list)];
      menus := menus[menu := menus[menu].(list := NULL)];
      assert menus == ms';
    }

    /** The loop that moves the children of entries without a prompt up. */
    method SpliceList(k: nat, ghost kids: Forest<I>)
      requires k < |menus| && menus[k].list == Link(kids, k + 1, NULL)
      requires Rep(menus, kids, k + 1, NULL) && Parents(menus, kids, k + 1, k)
      modifies this
      ensures SameOutside(old(menus), menus, k + 1, Skip(k + 1, kids))
      ensures Rep(menus, Splice(rules, kids), k + 1, NULL) && Parents(menus, Splice(rules, kids), k + 1, k)
    {
      var menu := menus[k].list;
      ghost var done, todo := Nil, kids;
      while menu != NULL
        invariant Split(menus, done, todo, k + 1, k, k)
        invariant menu == Link(todo, Skip(k + 1, done), NULL)
        invariant Skip(Skip(k + 1, done), todo) == Skip(k + 1, kids)
        invariant Append(done, Splice(rules, todo)) == Splice(rules, kids)
        invariant SameOutside(old(menus), menus, k + 1, Skip(k + 1, kids))
        decreases Count(todo)
      {
        ghost var done0, todo0 := done, todo;
        done, todo := SpliceNext(menu, k, done, todo);
        AppendAssoc(done0, Unhooked(todo0.head), Splice(rules, todo));
        menu := menus[menu].next;
      }
      AppendNil(done);
    }

    /** An entry with children passes its conditions on and then finalizes them. */
    method FinalizeKids(k: nat, ghost t: Tree<I>, ghost rest: Forest<I>, ghost pp: int) returns (ghost kids: Forest<I>)
      requires Rep(menus, Cons(t, rest), k, NULL) && Parents(menus, Cons(t, rest), k, pp)
      modifies this
      ensures kids == FinalizeAll(rules, PassDown(rules, t.info, t.kids))
      ensures SameOutside(old(menus), menus, k + 1, Skip(k + 1, t.kids))
      ensures Rep(menus, Cons(Node(t.info, kids), rest), k, NULL)
              && Parents(menus, Cons(Node(t.info, kids), rest), k, pp)
      decreases 1 + Count(t.kids) + Count(rest), 0
    {
      ghost var kids1 := PassDown(rules, t.info, t.kids);
      SameSkip(k + 1, t.kids, kids1);
      PassDownList(k, t.info, t.kids);
      ReplaceKids(old(menus), menus, t.info, t.kids, kids1, rest, k, pp);
      ghost var ms := menus;
      FinalizeList(k, kids1);
      kids := FinalizeAll(rules, kids1);
      SameSkip(k + 1, kids1, kids);
      ReplaceKids(ms, menus, t.info, kids1, kids, rest, k, pp);
    }

    /** menu_finalize */
    method FinalizeMenu(k: nat, ghost t: Tree<I>, ghost rest: Forest<I>, ghost pp: int)
      requires Rep(menus, Cons(t, rest), k, NULL) && Parents(menus, Cons(t, rest), k, pp)
      modifies this
      ensures SameOutside(old(menus), menus, k, Skip(k, Cons(t, rest)))
      ensures var (t', rest') := MenuTree.Finalize(rules, t, rest);
              Rep(menus, Cons(t', rest'), k, NULL) && Parents(menus, Cons(t', rest'), k, pp)
      decreases 1 + Count(t.kids) + Count(rest), 1
    {
      ghost var kids, left := t.kids, rest;
      if menus[k].list != NULL {
        kids := FinalizeKids(k, t, rest, pp);
      } else {
        AbsorbList(k, t.info, rest, pp);
        kids, left := Absorb(rules, t.info, rest).0, Absorb(rules, t.info, rest).1;
      }
      SpliceKids(k, t.info, kids, left, pp);
      SameSkip(k, Cons(Node(t.info, kids), left), Cons(t, rest));
    }

    method SpliceKids(k: nat, ghost i: I, ghost kids: Forest<I>, ghost left: Forest<I>, ghost pp: int)
      requires Rep(menus, Cons(Node(i, kids), left), k, NULL) && Parents(menus, Cons(Node(i, kids), left), k, pp)
      modifies this
      ensures SameOutside(old(menus), menus, k + 1, Skip(k + 1, kids))
      ensures var f := Cons(Node(i, Splice(rules, kids)), left);
              Rep(menus, f, k, NULL) && Parents(menus, f, k, pp)
    {
      SpliceList(k, kids);
      SameSkip(k + 1, kids, Splice(rules, kids));
      ReplaceKids(old(menus), menus, i, kids, Splice(rules, kids), left, k, pp);
    }
  }
}

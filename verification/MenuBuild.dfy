/** How the parser links menus together (menu_init, menu_add_entry, menu_add_menu and
    menu_end_menu): the order of the menus is the order of the files, and a finished
    configuration is a well-linked tree. */
module MenuBuild {
  import opened MenuTree
  import opened MenuPool

  /** A configuration being read: the menus that are open, outermost first, each with the
      entries it has so far. */
  datatype Open<I> =
    | Root(info: I, kids: Forest<I>)
    | Sub(outer: Open<I>, info: I, kids: Forest<I>)

  /** The number of menus read. */
  function Total<I>(st: Open<I>): nat {
    Skip(Id(st) + 1, st.kids)
  }

  /** The innermost open menu. */
  function Id<I>(st: Open<I>): nat
    decreases st, 0
  {
    if st.Root? then 0 else Skip(Id(st.outer) + 1, st.outer.kids)
  }

  function Parent<I>(st: Open<I>): int {
    if st.Root? then NULL else Id(st.outer)
  }

  /** The same open menu with other entries. */
  function With<I>(st: Open<I>, kids: Forest<I>): Open<I> {
    if st.Root? then Root(st.info, kids) else Sub(st.outer, st.info, kids)
  }

  /** The links of all open menus; the entries of the innermost one are followed by `after`. */
  ghost predicate Built<I>(ms: Pool<I>, st: Open<I>, after: int)
    decreases st
  {
    var id := Id(st);
    && id < |ms|
    && ms[id] == Menu(NULL, Link(st.kids, id + 1, after), Parent(st), st.info)
    && Rep(ms, st.kids, id + 1, after) && Parents(ms, st.kids, id + 1, id)
    && (st.Sub? ==> Built(ms, st.outer, id))
  }

  // ----- menus in front are not disturbed -----

  ghost predicate SameFront<I>(ms: Pool<I>, ms': Pool<I>, n: nat) {
    n <= |ms| <= |ms'| && forall i | 0 <= i < n :: ms'[i] == ms[i]
  }

  lemma {:induction false} RepFront<I>(ms: Pool<I>, ms': Pool<I>, n: nat, f: Forest<I>, lo: nat, after: int)
    requires Rep(ms, f, lo, after) && SameFront(ms, ms', n) && Skip(lo, f) <= n
    ensures Rep(ms', f, lo, after)
  {
    if f.Cons? {
      RepFront(ms, ms', n, f.head.kids, lo + 1, NULL);
      ParentsFront(ms, ms', n, f.head.kids, lo + 1, lo);
      RepFront(ms, ms', n, f.tail, Skip(lo + 1, f.head.kids), after);
    }
  }

  lemma {:induction false} ParentsFront<I>(ms: Pool<I>, ms': Pool<I>, n: nat, f: Forest<I>, lo: nat, p: int)
    requires Parents(ms, f, lo, p) && SameFront(ms, ms', n) && Skip(lo, f) <= n
    ensures Parents(ms', f, lo, p)
  {
    if f.Cons? { ParentsFront(ms, ms', n, f.tail, Skip(lo + 1, f.head.kids), p); }
  }

  lemma {:induction false} BuiltFront<I>(ms: Pool<I>, ms': Pool<I>, n: nat, st: Open<I>, after: int)
    requires Built(ms, st, after) && SameFront(ms, ms', n) && Total(st) <= n
    ensures Built(ms', st, after)
  {
    var id := Id(st);
    RepFront(ms, ms', n, st.kids, id + 1, after);
    ParentsFront(ms, ms', n, st.kids, id + 1, id);
    if st.Sub? { BuiltFront(ms, ms', n, st.outer, id); }
  }

  // ----- the steps -----

  lemma WithSame<I>(st: Open<I>, kids: Forest<I>)
    ensures Id(With(st, kids)) == Id(st) && Parent(With(st, kids)) == Parent(st) && With(st, kids).info == st.info
    ensures Total(With(st, kids)) == Skip(Id(st) + 1, kids)
  {
  }

  /** Other entries for the innermost open menu. */
  lemma Rebuilt<I>(ms: Pool<I>, st: Open<I>, id: nat, kids: Forest<I>, after: int)
    requires id == Id(st) && id < |ms| && ms[id] == Menu(NULL, Link(kids, id + 1, after), Parent(st), st.info)
    requires Rep(ms, kids, id + 1, after) && Parents(ms, kids, id + 1, id)
    requires st.Sub? ==> Built(ms, st.outer, id)
    ensures Built(ms, With(st, kids), after)
  {
    WithSame(st, kids);
  }

  lemma SnocList<I>(ms: Pool<I>, kids: Forest<I>, t: Tree<I>, lo: nat, q: nat, p: int) returns (kids': Forest<I>)
    requires q == Skip(lo, kids) && Rep(ms, kids, lo, q) && Parents(ms, kids, lo, p)
    requires Rep(ms, Cons(t, Nil), q, NULL) && ms[q].parent == p
    ensures kids' == Append(kids, Cons(t, Nil)) && Skip(lo, kids') == Skip(q + 1, t.kids)
    ensures Rep(ms, kids', lo, NULL) && Parents(ms, kids', lo, p)
    ensures Link(kids', lo, NULL) == Link(kids, lo, q)
  {
    var one := Cons(t, Nil);
    assert one.tail == Nil && Parents(ms, one.tail, Skip(q + 1, t.kids), p);
    RepAppend(ms, kids, one, lo, NULL);
    ParentsAppend(ms, kids, one, lo, p);
    SkipSnoc(lo, kids, t);
    kids' := Append(kids, one);
  }

  /** One more entry, at the end of the innermost open menu. */
  lemma Snoc<I>(ms: Pool<I>, st: Open<I>, id: nat, q: nat, t: Tree<I>)
    requires id == Id(st) && q == Total(st) && Built(ms, st, q) && Rep(ms, Cons(t, Nil), q, NULL)
    requires q < |ms| && ms[q].parent == id
    ensures Built(ms, With(st, Append(st.kids, Cons(t, Nil))), NULL)
  {
    var kids' := SnocList(ms, st.kids, t, id + 1, q, id);
    Rebuilt(ms, st, id, kids', NULL);
  }

  lemma SnocTotal<I>(st: Open<I>, t: Tree<I>)
    ensures Total(With(st, Append(st.kids, Cons(t, Nil)))) == Skip(Total(st) + 1, t.kids)
  {
    var kids := Append(st.kids, Cons(t, Nil));
    WithSame(st, kids);
    SkipSnoc(Id(st) + 1, st.kids, t);
    assert Total(With(st, kids)) == Skip(Id(st) + 1, kids);
  }

  /** The last entry becomes an open menu. */
  lemma Descend<I>(ms: Pool<I>, st: Open<I>, id: nat, q: nat, info: I)
    requires id == Id(st) && q == Total(st) && Built(ms, With(st, Append(st.kids, Cons(Node(info, Nil), Nil))), NULL)
    ensures Built(ms, Sub(st, info, Nil), NULL)
  {
    var one := Cons(Node(info, Nil), Nil);
    var kids := Append(st.kids, one);
    WithSame(st, kids);
    RepAppend(ms, st.kids, one, id + 1, NULL);
    ParentsAppend(ms, st.kids, one, id + 1, id);
    Undone(ms, st, kids);
    assert ms[q] == Menu(NULL, NULL, id, info);
    assert Rep(ms, one.head.kids, q + 1, NULL);
  }

  lemma Undone<I>(ms: Pool<I>, st: Open<I>, kids: Forest<I>)
    requires Built(ms, With(st, kids), NULL) && Link(kids, Id(st) + 1, NULL) == Link(st.kids, Id(st) + 1, Total(st))
    requires Rep(ms, st.kids, Id(st) + 1, Total(st)) && Parents(ms, st.kids, Id(st) + 1, Id(st))
    ensures Built(ms, st, Total(st))
  {
    WithSame(st, kids);
    var st' := With(st, kids);
    assert st.Sub? ==> st'.outer == st.outer;
  }

  /** The innermost open menu is complete. */
  lemma Ascend<I>(ms: Pool<I>, st: Open<I>)
    requires Built(ms, st, NULL) && st.Sub?
    ensures var outer := With(st.outer, Append(st.outer.kids, Cons(Node(st.info, st.kids), Nil)));
            Built(ms, outer, NULL) && Total(outer) == Total(st)
  {
    var t := Node(st.info, st.kids);
    RepBound(ms, st.kids, Id(st) + 1, NULL);
    assert Rep(ms, Cons(t, Nil), Id(st), NULL);
    Snoc(ms, st.outer, Id(st.outer), Id(st), t);
    SnocTotal(st.outer, t);
  }

  /** Where the pointer to the next entry is stored. */
  datatype Slot = ListOf(id: nat) | NextOf(id: nat)

  function SlotOf<I>(st: Open<I>): Slot {
    if st.kids.Nil? then ListOf(Id(st)) else NextOf(LastPos(st.kids, Id(st) + 1))
  }

  function Store<I>(ms: Pool<I>, slot: Slot, x: int): Pool<I>
    requires slot.id < |ms|
  {
    match slot
    case ListOf(k) => ms[k := ms[k].(list := x)]
    case NextOf(k) => ms[k := ms[k].(next := x)]
  }

  /** The stored pointer follows the entries there are. */
  lemma Stored<I>(ms: Pool<I>, st: Open<I>, x: nat) returns (ms': Pool<I>)
    requires Built(ms, st, NULL) && Total(st) <= |ms|
    ensures SlotOf(st).id < Total(st) && ms' == Store(ms, SlotOf(st), x)
    ensures |ms'| == |ms| && (forall i | Total(st) <= i < |ms| :: ms'[i] == ms[i]) && Built(ms', st, x)
  {
    var id := Id(st);
    if st.kids.Cons? { Relink(ms, st.kids, id + 1, NULL, x); }
    ms' := Store(ms, SlotOf(st), x);
    if st.Sub? { BuiltFront(ms, ms', id, st.outer, id); }
  }

  lemma Leaf<I>(ms: Pool<I>, id: nat, info: I)
    requires id < |ms| && ms[id].next == NULL && ms[id].list == NULL && ms[id].info == info
    ensures Rep(ms, Cons(Node(info, Nil), Nil), id, NULL)
  {
    var t: Tree<I> := Node(info, Nil);
    assert Rep(ms, t.kids, id + 1, NULL) && Parents(ms, t.kids, id + 1, id) && Skip(id + 1, t.kids) == id + 1;
  }

  /** The links after an entry was added. */
  lemma Added<I>(ms: Pool<I>, st: Open<I>, info: I)
    requires Built(ms, st, NULL) && |ms| == Total(st)
    ensures SlotOf(st).id < |ms|
    ensures Built(Store(ms + [Menu(NULL, NULL, Id(st), info)], SlotOf(st), |ms|),
                  With(st, Append(st.kids, Cons(Node(info, Nil), Nil))), NULL)
  {
    var id, more := |ms|, ms + [Menu(NULL, NULL, Id(st), info)];
    BuiltFront(ms, more, id, st, NULL);
    var ms' := Stored(more, st, id);
    Leaf(ms', id, info);
    Snoc(ms', st, Id(st), id, Node(info, Nil));
  }

  class Builder<I> {
    var menus: Pool<I>
    var currentMenu: int
    var currentEntry: int
    var slot: Slot
    ghost var st: Open<I>

    ghost predicate Valid()
      reads this
    {
      Built(menus, st, NULL) && |menus| == Total(st) && currentMenu == Id(st) && slot == SlotOf(st)
    }

    /** menu_init */
    constructor (root: I)
      ensures Valid() && st == Root(root, Nil)
    {
      menus := [Menu(NULL, NULL, NULL, root)];
      currentMenu, currentEntry, slot := 0, 0, ListOf(0);
      st := Root(root, Nil);
    }

    /** menu_add_entry */
    method AddEntry(info: I)
      requires Valid()
      modifies this
      ensures Valid() && st == With(old(st), Append(old(st).kids, Cons(Node(info, Nil), Nil)))
      ensures currentEntry == |menus| - 1 && slot == NextOf(|menus| - 1)
    {
      var id := |menus|;
      Added(menus, st, info);
      SnocTotal(st, Node(info, Nil));
      LastPosSnoc(st.kids, Node(info, Nil), Id(st) + 1);
      menus := menus + [Menu(NULL, NULL, currentMenu, info)];
      menus := Store(menus, slot, id);
      slot := NextOf(id);
      currentEntry := id;
      st := With(st, Append(st.kids, Cons(Node(info, Nil), Nil)));
    }

    /** menu_add_menu, for the entry just added */
    method AddMenu(ghost outer: Open<I>, ghost info: I)
      requires Valid() && st == With(outer, Append(outer.kids, Cons(Node(info, Nil), Nil)))
      requires currentEntry == Total(outer)
      modifies this
      ensures Valid() && st == Sub(outer, info, Nil)
    {
      Descend(menus, outer, Id(outer), Total(outer), info);
      SnocTotal(outer, Node(info, Nil));
      WithSame(outer, Append(outer.kids, Cons(Node(info, Nil), Nil)));
      slot := ListOf(currentEntry);
      currentMenu := currentEntry;
      st := Sub(outer, info, Nil);
    }

    /** menu_end_menu */
    method EndMenu()
      requires Valid() && st.Sub?
      modifies this
      ensures Valid() && st == With(old(st).outer,
                                          Append(old(st).outer.kids, Cons(Node(old(st).info, old(st).kids), Nil)))
    {
      ghost var t := Node(st.info, st.kids);
      Ascend(menus, st);
      LastPosSnoc(st.outer.kids, t, Id(st.outer) + 1);
      WithSame(st.outer, Append(st.outer.kids, Cons(t, Nil)));
      slot := NextOf(currentMenu);
      currentMenu := menus[currentMenu].parent;
      st := With(st.outer, Append(st.outer.kids, Cons(t, Nil)));
    }

    /** The entries of a file, in the order in which they are read. */
    method ReadEntries(f: Forest<I>)
      requires Valid()
      modifies this
      ensures Valid() && st == With(old(st), Append(old(st).kids, f))
      decreases f
    {
      if f.Nil? {
        AppendNil(st.kids);
        return;
      }
      ghost var outer := st;
      AddEntry(f.head.info);
      if f.head.kids.Cons? {
        SnocTotal(outer, Node(f.head.info, Nil));
        AddMenu(outer, f.head.info);
        ReadEntries(f.head.kids);
        EndMenu();
      }
      AppendAssoc(outer.kids, f.head, f.tail);
      ReadEntries(f.tail);
    }
  }

  /** Reading a whole configuration gives its tree, well linked. */
  method ReadAll<I>(t: Tree<I>) returns (ms: Pool<I>)
    ensures Rep(ms, Cons(t, Nil), 0, NULL) && Parents(ms, Cons(t, Nil), 0, NULL) && |ms| == 1 + Count(t.kids)
  {
    var b := new Builder(t.info);
    b.ReadEntries(t.kids);
    ms := b.menus;
    assert b.st == Root(t.info, t.kids);
    RepBound(ms, t.kids, 1, NULL);
    SkipCount(1, t.kids);
    assert Rep(ms, Nil, Skip(1, t.kids), NULL);
  }
}

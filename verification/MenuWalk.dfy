/** The walk of conf_write: down the first child, on to the next entry, and up the
    parents of a last entry, without a stack. */
module MenuWalk {
  import opened MenuTree
  import opened MenuPool
  import MenuBuild

  /** Where the subtree of the menu at `k` ends, for `k` in the list `f` at `lo`. */
  function End<I>(f: Forest<I>, lo: nat, k: nat): nat
    requires lo <= k < Skip(lo, f)
  {
    var q := Skip(lo + 1, f.head.kids);
    if k == lo then q
    else if k < q then End(f.head.kids, lo + 1, k)
    else End(f.tail, q, k)
  }

  /** Where the list ends that the menu at `k` is an entry of. */
  function Limit<I>(f: Forest<I>, lo: nat, k: nat): nat
    requires lo <= k < Skip(lo, f)
  {
    var q := Skip(lo + 1, f.head.kids);
    if k == lo then Skip(lo, f)
    else if k < q then Limit(f.head.kids, lo + 1, k)
    else Limit(f.tail, q, k)
  }

  /** The parent of the menu at `k`; entries of `f` itself have parent `p`. */
  function Up<I>(f: Forest<I>, lo: nat, p: int, k: nat): int
    requires lo <= k < Skip(lo, f)
  {
    var q := Skip(lo + 1, f.head.kids);
    if k == lo then p
    else if k < q then Up(f.head.kids, lo + 1, lo, k)
    else Up(f.tail, q, p, k)
  }

  /** The links of one menu, read off the tree. */
  lemma {:induction false} Links<I>(ms: Pool<I>, f: Forest<I>, lo: nat, p: int, k: nat)
    requires Rep(ms, f, lo, NULL) && Parents(ms, f, lo, p) && lo <= k < Skip(lo, f)
    ensures k < |ms| && k < End(f, lo, k) <= Limit(f, lo, k) <= Skip(lo, f)
    ensures ms[k].list == if End(f, lo, k) > k + 1 then k + 1 else NULL
    ensures ms[k].next == if End(f, lo, k) < Limit(f, lo, k) then End(f, lo, k) else NULL
    ensures ms[k].parent == Up(f, lo, p, k)
  {
    var q := Skip(lo + 1, f.head.kids);
    if k == lo {
    } else if k < q {
      Links(ms, f.head.kids, lo + 1, lo, k);
    } else {
      Links(ms, f.tail, q, p, k);
    }
  }

  /** A list ends where the subtree of its parent ends. */
  lemma {:induction false} UpEnds<I>(f: Forest<I>, lo: nat, p: int, k: nat)
    requires lo <= k < Skip(lo, f) && p < lo
    ensures var u := Up(f, lo, p, k);
            if u == p then Limit(f, lo, k) == Skip(lo, f)
            else lo <= u < k && End(f, lo, u) == Limit(f, lo, k)
  {
    var q := Skip(lo + 1, f.head.kids);
    if k == lo {
    } else if k < q {
      UpEnds(f.head.kids, lo + 1, lo, k);
    } else {
      UpEnds(f.tail, q, p, k);
    }
  }

  /** Every menu below the root is visited once, in the order of the files. */
  method Walk<I>(ms: Pool<I>, ghost root: Tree<I>) returns (visited: seq<int>)
    requires Rep(ms, Cons(root, Nil), 0, NULL) && Parents(ms, Cons(root, Nil), 0, NULL)
    ensures |visited| == Count(root.kids)
    ensures forall i | 0 <= i < |visited| :: visited[i] == i + 1
  {
    ghost var f := Cons(root, Nil);
    ghost var n := Skip(0, f);
    SkipCount(0, f);
    Links(ms, f, 0, NULL, 0);
    visited := [];
    var menu := ms[0].list;
    while menu != NULL
      invariant forall i | 0 <= i < |visited| :: visited[i] == i + 1
      invariant |visited| < n
      invariant menu == if |visited| + 1 < n then |visited| + 1 else NULL
      decreases n - |visited|
    {
      visited := visited + [menu];
      menu := Next(ms, menu, f);
    }
  }

  method Next<I>(ms: Pool<I>, from: nat, ghost f: Forest<I>) returns (menu: int)
    requires Rep(ms, f, 0, NULL) && Parents(ms, f, 0, NULL) && from < Skip(0, f)
    ensures menu == if from + 1 < Skip(0, f) then from + 1 else NULL
  {
    Links(ms, f, 0, NULL, from);
    menu := from;
    if ms[menu].list != NULL {
      return ms[menu].list;
    }
    if ms[menu].next != NULL {
      return ms[menu].next;
    }
    UpEnds(f, 0, NULL, menu);
    menu := ms[menu].parent;
    while menu != NULL
      invariant menu == NULL ==> from + 1 == Skip(0, f)
      invariant menu != NULL ==> 0 <= menu < Skip(0, f) && End(f, 0, menu) == from + 1
      decreases menu
    {
      Links(ms, f, 0, NULL, menu);
      if ms[menu].next != NULL {
        return ms[menu].next;
      }
      UpEnds(f, 0, NULL, menu);
      menu := ms[menu].parent;
    }
  }

  lemma {:induction false} TagsLength<I, T>(tag: I -> T, lo: nat, f: Forest<I>, more: seq<T>)
    ensures |Tags(tag, f, more)| == Skip(lo, f) - lo + |more|
    decreases f
  {
    if f.Cons? {
      var q := Skip(lo + 1, f.head.kids);
      TagsLength(tag, q, f.tail, more);
      TagsLength(tag, lo + 1, f.head.kids, Tags(tag, f.tail, more));
    }
  }

  lemma {:induction false} TagsBehind<I, T>(tag: I -> T, lo: nat, f: Forest<I>, more: seq<T>, k: nat)
    requires Skip(lo, f) <= k < Skip(lo, f) + |more|
    ensures k - lo < |Tags(tag, f, more)| && Tags(tag, f, more)[k - lo] == more[k - Skip(lo, f)]
    decreases f
  {
    if f.Cons? {
      var q, behind := Skip(lo + 1, f.head.kids), Tags(tag, f.tail, more);
      TagsLength(tag, q, f.tail, more);
      TagsBehind(tag, q, f.tail, more, k);
      TagsBehind(tag, lo + 1, f.head.kids, behind, k);
    }
  }

  /** Linked menus hold the entries of their tree in the order of the files. */
  lemma {:induction false} PoolTags<I, T>(ms: Pool<I>, f: Forest<I>, lo: nat, after: int,
                                         tag: I -> T, more: seq<T>, k: nat)
    requires Rep(ms, f, lo, after) && lo <= k < Skip(lo, f)
    ensures k < |ms| && k - lo < |Tags(tag, f, more)| && Tags(tag, f, more)[k - lo] == tag(ms[k].info)
  {
    var q, behind := Skip(lo + 1, f.head.kids), Tags(tag, f.tail, more);
    if lo < k < q {
      PoolTags(ms, f.head.kids, lo + 1, NULL, tag, behind, k);
    } else if q <= k {
      TagsLength(tag, q, f.tail, more);
      TagsBehind(tag, lo + 1, f.head.kids, behind, k);
      PoolTags(ms, f.tail, q, after, tag, more, k);
    }
  }

  /** Finalizing the root and then writing the configuration: no entry is lost, doubled or
      moved, whatever was nested or spliced, each is still what it was in all that menus do
      not pass down, and no entry without a prompt keeps children. */
  method FinalizeAndWalk<I(!new), T>(m: Menus<I>, ghost root: Tree<I>, ghost tag: I -> T)
    returns (visited: seq<int>, ghost result: Tree<I>)
    requires Rep(m.menus, Cons(root, Nil), 0, NULL) && Parents(m.menus, Cons(root, Nil), 0, NULL)
    requires Keeps(m.rules, tag)
    modifies m
    ensures Rep(m.menus, Cons(result, Nil), 0, NULL) && Parents(m.menus, Cons(result, Nil), 0, NULL)
    ensures Prompted(m.rules, result.kids) && Tags(tag, result.kids, []) == Tags(tag, root.kids, [])
    ensures |visited| == |Tags(tag, root.kids, [])| < |m.menus| && forall i | 0 <= i < |visited| ::
      visited[i] == i + 1 && tag(m.menus[i + 1].info) == Tags(tag, root.kids, [])[i]
  {
    m.FinalizeMenu(0, root, Nil, NULL);
    result := Finalize(m.rules, root, Nil).0;
    FinalizePrompted(m.rules, root, Nil);
    FinalizeTags(m.rules, tag, root, Nil, []);
    assert Finalize(m.rules, root, Nil).1 == Nil;
    visited := Walk(m.menus, result);
    Written(m.menus, result, tag);
  }

  lemma Written<I, T>(ms: Pool<I>, root: Tree<I>, tag: I -> T)
    requires Rep(ms, Cons(root, Nil), 0, NULL)
    ensures |Tags(tag, root.kids, [])| == Count(root.kids) < |ms|
    ensures forall i | 0 <= i < Count(root.kids) :: tag(ms[i + 1].info) == Tags(tag, root.kids, [])[i]
  {
    RepBound(ms, root.kids, 1, NULL);
    SkipCount(1, root.kids);
    TagsLength(tag, 1, root.kids, []);
    forall i | 0 <= i < Count(root.kids) ensures tag(ms[i + 1].info) == Tags(tag, root.kids, [])[i] {
      PoolTags(ms, root.kids, 1, NULL, tag, [], i + 1);
    }
  }

  /** From the files to the written configuration: every entry is visited once, in the
      order in which the files name them. */
  method ReadAndWrite<I(!new), T>(r: Rules<I>, t: Tree<I>, ghost tag: I -> T) returns (m: Menus<I>, visited: seq<int>)
    requires Keeps(r, tag)
    ensures |visited| == |Tags(tag, t.kids, [])| < |m.menus| && forall i | 0 <= i < |visited| ::
      visited[i] == i + 1 && tag(m.menus[i + 1].info) == Tags(tag, t.kids, [])[i]
  {
    var ms := MenuBuild.ReadAll(t);
    m := new Menus(r, ms);
    ghost var result;
    visited, result := FinalizeAndWalk(m, t, tag);
  }
}

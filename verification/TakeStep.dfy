/** The pointer updates of malloc_locked, once a block is found. */
module TakeStep {
  import opened Arena
  import opened FreeRing

  /** The block taken, and what is left of it. */
  function Parts(b: Block, n: nat): Arena {
    if b.size <= n then Cons(b.(free := false), Nil)
    else Cons(Block(b.addr, n, b.typ, false), Cons(Block(b.addr + n, b.size - n, b.typ, true), Nil))
  }

  lemma {:induction false} TakeAt(x: Arena, b: Block, c: Arena, n: nat)
    requires Misses(b.addr, x)
    ensures Take(Append(x, Cons(b, c)), b.addr, n) == Append(x, Append(Parts(b, n), c))
  {
    if x.Cons? {
      TakeAt(x.tail, b, c, n);
    } else {
      assert Append(Parts(b, n).tail, c) == if b.size <= n then c else Cons(Parts(b, n).tail.head, c);
    }
  }

  /** Unlink the block, or cut off its front. */
  function Unlink(m: Memory, prevp: int, p: int, n: nat): Memory
    requires prevp in m && p in m && m[p].size >= n
  {
    if m[p].size == n then m[prevp := m[prevp].(ptr := m[p].ptr)]
    else m[prevp := m[prevp].(ptr := p + n)]
          [p + n := Header(m[p].ptr, m[p].size - n, m[p].typ)]
          [p := m[p].(size := n)]
  }

  /** No other block starts inside a block. */
  lemma {:induction false} InsideMisses(a: Arena, b: Block, k: Arena, y: int)
    requires Sorted(Append(a, Cons(b, k))) && b.addr <= y < b.addr + b.size
    ensures Misses(y, a) && Misses(y, k)
  {
    SortedBelow(Append(a, Cons(b, k)));
    if a.Nil? {
      if k.Cons? {
        SortedBelow(k);
        BelowLess(y, k.head.addr, k.tail);
        BelowMisses(y, k.tail);
      }
    } else {
      HasAppend(a.tail, b, k);
      BelowHas(a.head.addr, Append(a.tail, Cons(b, k)), b);
      InsideMisses(a.tail, b, k, y);
    }
  }

  /** The new headers around the block, seen from blocks that start elsewhere. */
  lemma UnlinkSame(m: Memory, l: Arena, after: int, prevp: int, b: Block, n: nat)
    requires Linked(m, l, after) && prevp in m && b.addr in m && m[b.addr].size == b.size
    requires 0 < n <= b.size && Misses(prevp, l) && Misses(b.addr, l) && (n < b.size ==> Misses(b.addr + n, l))
    ensures Same(m, Unlink(m, prevp, b.addr, n), l)
  {
    SameRefl(m, l, after);
    if m[b.addr].size == n {
      SameUpdate(m, m, l, prevp, m[prevp].(ptr := m[b.addr].ptr));
    } else {
      var m1 := m[prevp := m[prevp].(ptr := b.addr + n)];
      var m2 := m1[b.addr + n := Header(m[b.addr].ptr, m[b.addr].size - n, m[b.addr].typ)];
      SameUpdate(m, m, l, prevp, m1[prevp]);
      SameUpdate(m, m1, l, b.addr + n, m2[b.addr + n]);
      SameUpdate(m, m2, l, b.addr, m[b.addr].(size := n));
    }
  }

  /** The taken block and its rest are linked in behind blocks in use. */
  lemma PartsLinked(m: Memory, x: Arena, prevp: int, b: Block, n: nat, f: int)
    requires b.free && NoFree(x) && 0 < n <= b.size && prevp != b.addr && (n < b.size ==> prevp != b.addr + n)
    requires prevp in m && Linked(m, Append(x, Cons(b, Nil)), f)
    requires Misses(prevp, x) && Misses(b.addr, x) && (n < b.size ==> Misses(b.addr + n, x))
    ensures b.addr in m && m[b.addr].size == b.size
    ensures var m' := Unlink(m, prevp, b.addr, n);
            && Linked(m', Append(x, Parts(b, n)), f)
            && m'[prevp] == m[prevp].(ptr := First(Append(x, Parts(b, n)), f))
  {
    LinkedAppend(m, x, Cons(b, Nil), f);
    var m' := Unlink(m, prevp, b.addr, n);
    var y := First(Parts(b, n), f);
    UnlinkSame(m, x, b.addr, prevp, b, n);
    LinkedSame(m, m', x, b.addr);
    LinkedNoFree(m', x, b.addr, y);
    LinkedAppend(m', x, Parts(b, n), f);
    FirstAppend(x, Parts(b, n), f);
    FirstNoFree(x, y);
  }

  /** Taking from `b` when the free block before it is `pr`. */
  lemma TakeAfter(m: Memory, a: Arena, pr: Block, x: Arena, b: Block, c: Arena, n: nat)
    requires pr.free && NoFree(x) && b.free && 0 < n <= b.size
    requires var l := Append(a, Cons(pr, Append(x, Cons(b, c)))); Ring(m, l) && Sorted(l)
    ensures pr.addr in m && b.addr in m && m[b.addr].size == b.size && m[pr.addr].ptr == b.addr
    ensures var l := Append(a, Cons(pr, Append(x, Cons(b, c))));
            Ring(Unlink(m, pr.addr, b.addr, n), Take(l, b.addr, n))
  {
    var l, f := Append(a, Cons(pr, Append(x, Cons(b, c)))), First(a, pr.addr);
    var rest := Append(x, Cons(b, c));
    FirstAppend(a, Cons(pr, rest), NULL);
    LinkedAppend(m, a, Cons(pr, rest), f);
    AppendAssoc(x, Cons(b, Nil), c);
    LinkedAppend(m, Append(x, Cons(b, Nil)), c, f);
    LinkedAppend(m, x, Cons(b, Nil), First(c, f));
    FirstAppend(x, Cons(b, c), f);
    FirstNoFree(x, b.addr);
    AfterMisses(a, pr, x, b, c, n);
    PartsLinked(m, x, pr.addr, b, n, First(c, f));
    UnlinkSame(m, a, pr.addr, pr.addr, b, n);
    UnlinkSame(m, c, f, pr.addr, b, n);
    TakeShape(a, pr, x, b, c, n);
    SpliceAfter(m, Unlink(m, pr.addr, b.addr, n), a, pr, pr, Append(x, Cons(b, Nil)), Append(x, Parts(b, n)), c);
  }

  lemma TakeShape(a: Arena, pr: Block, x: Arena, b: Block, c: Arena, n: nat)
    requires Sorted(Append(a, Cons(pr, Append(x, Cons(b, c)))))
    ensures Take(Append(a, Cons(pr, Append(x, Cons(b, c)))), b.addr, n)
         == Append(a, Cons(pr, Append(Append(x, Parts(b, n)), c)))
  {
    AppendAssoc(a, Cons(pr, x), Cons(b, c));
    SortedAppend(Append(a, Cons(pr, x)), b, c);
    TakeAt(Append(a, Cons(pr, x)), b, c, n);
    AppendAssoc(a, Cons(pr, x), Append(Parts(b, n), c));
    AppendAssoc(x, Parts(b, n), c);
  }

  lemma AfterMisses(a: Arena, pr: Block, x: Arena, b: Block, c: Arena, n: nat)
    requires Sorted(Append(a, Cons(pr, Append(x, Cons(b, c))))) && 0 < n <= b.size
    ensures pr.addr < b.addr
    ensures Misses(pr.addr, a) && Misses(pr.addr, x) && Misses(pr.addr, c)
    ensures Misses(b.addr, a) && Misses(b.addr, x) && Misses(b.addr, c)
    ensures n < b.size ==> Misses(b.addr + n, a) && Misses(b.addr + n, x) && Misses(b.addr + n, c)
  {
    var rest := Append(x, Cons(b, c));
    SortedAppend(a, pr, rest);
    MissesAppend(pr.addr, x, Cons(b, c));
    HasAppend(x, b, c);
    BelowHas(pr.addr, rest, b);
    AppendAssoc(a, Cons(pr, x), Cons(b, c));
    InsideMisses(Append(a, Cons(pr, x)), b, c, b.addr);
    MissesAppend(b.addr, a, Cons(pr, x));
    if n < b.size {
      InsideMisses(Append(a, Cons(pr, x)), b, c, b.addr + n);
      MissesAppend(b.addr + n, a, Cons(pr, x));
    }
  }

  /** Taking from the first free block `b`; `pr` is the last one. */
  lemma TakeFront(m: Memory, x: Arena, b: Block, c: Arena, pr: Block, k: Arena, n: nat)
    requires pr.free && NoFree(x) && NoFree(k) && b.free && 0 < n <= b.size
    requires var l := Append(x, Cons(b, Append(c, Cons(pr, k)))); Ring(m, l) && Sorted(l)
    ensures pr.addr in m && b.addr in m && m[b.addr].size == b.size && m[pr.addr].ptr == b.addr
    ensures var l := Append(x, Cons(b, Append(c, Cons(pr, k))));
            Ring(Unlink(m, pr.addr, b.addr, n), Take(l, b.addr, n))
  {
    var d := Append(c, Cons(pr, k));
    var l, f := Append(x, Cons(b, d)), First(c, pr.addr);
    FirstAppend(x, Cons(b, d), NULL);
    FirstNoFree(x, b.addr);
    AppendAssoc(x, Cons(b, Nil), d);
    LinkedAppend(m, Append(x, Cons(b, Nil)), d, b.addr);
    FirstAppend(c, Cons(pr, k), b.addr);
    LinkedAppend(m, c, Cons(pr, k), b.addr);
    FirstNoFree(k, b.addr);
    LinkedAppend(m, x, Cons(b, Nil), f);
    FrontMisses(x, b, c, pr, k, n);
    PartsLinked(m, x, pr.addr, b, n, f);
    UnlinkSame(m, c, pr.addr, pr.addr, b, n);
    UnlinkSame(m, k, b.addr, pr.addr, b, n);
    TakeAt(x, b, d, n);
    AppendAssoc(x, Parts(b, n), d);
    SpliceFront(m, Unlink(m, pr.addr, b.addr, n), Append(x, Cons(b, Nil)), Append(x, Parts(b, n)), c, pr, k);
  }

  lemma FrontMisses(x: Arena, b: Block, c: Arena, pr: Block, k: Arena, n: nat)
    requires Sorted(Append(x, Cons(b, Append(c, Cons(pr, k))))) && 0 < n <= b.size
    ensures pr.addr != b.addr && (n < b.size ==> pr.addr != b.addr + n)
    ensures Misses(pr.addr, x) && Misses(pr.addr, c) && Misses(pr.addr, k)
    ensures Misses(b.addr, x) && Misses(b.addr, c) && Misses(b.addr, k)
    ensures n < b.size ==> Misses(b.addr + n, x) && Misses(b.addr + n, c) && Misses(b.addr + n, k)
  {
    var d := Append(c, Cons(pr, k));
    AppendAssoc(x, Cons(b, c), Cons(pr, k));
    SortedAppend(Append(x, Cons(b, c)), pr, k);
    MissesAppend(pr.addr, x, Cons(b, c));
    InsideMisses(x, b, d, b.addr);
    MissesAppend(b.addr, c, Cons(pr, k));
    if n < b.size {
      InsideMisses(x, b, d, b.addr + n);
      MissesAppend(b.addr + n, c, Cons(pr, k));
    }
  }
}

/** The circular free list threaded through the block headers. */
module FreeRing {
  import opened Arena

  const NULL: int := 0

  datatype Header = Header(ptr: int, size: nat, typ: bool)

  type Memory = map<int, Header>

  /** The address of the first free block, or `after` when there is none. */
  function First(l: Arena, after: int): int {
    if l.Nil? then after else if l.head.free then l.head.addr else First(l.tail, after)
  }

  /** Every block has its size and type in its header, and every free block points to
      the next one; the last free block points to `after`. */
  predicate Linked(m: Memory, l: Arena, after: int) {
    l.Cons? ==>
      var b := l.head;
      && b.addr in m && m[b.addr].size == b.size && m[b.addr].typ == b.typ
      && (b.free ==> m[b.addr].ptr == First(l.tail, after))
      && Linked(m, l.tail, after)
  }

  /** The last free block points back to the first. */
  predicate Ring(m: Memory, l: Arena) {
    Linked(m, l, First(l, NULL))
  }

  predicate NoFree(l: Arena) {
    l.Cons? ==> !l.head.free && NoFree(l.tail)
  }

  /** No block starts at `x`. */
  predicate Misses(x: int, l: Arena) {
    l.Cons? ==> l.head.addr != x && Misses(x, l.tail)
  }

  /** Headers of the blocks of `l` are the same in both memories. */
  predicate Same(m: Memory, m': Memory, l: Arena) {
    l.Cons? ==>
      && l.head.addr in m && l.head.addr in m' && m'[l.head.addr] == m[l.head.addr]
      && Same(m, m', l.tail)
  }

  lemma {:induction false} FirstAppend(l: Arena, k: Arena, after: int)
    ensures First(Append(l, k), after) == First(l, First(k, after))
  {
    if l.Cons? { FirstAppend(l.tail, k, after); }
  }

  lemma {:induction false} FirstNoFree(l: Arena, after: int)
    requires NoFree(l)
    ensures First(l, after) == after
  {
    if l.Cons? { FirstNoFree(l.tail, after); }
  }

  lemma {:induction false} LinkedAppend(m: Memory, l: Arena, k: Arena, after: int)
    ensures Linked(m, Append(l, k), after) <==> Linked(m, l, First(k, after)) && Linked(m, k, after)
  {
    if l.Cons? {
      FirstAppend(l.tail, k, after);
      LinkedAppend(m, l.tail, k, after);
    }
  }

  lemma {:induction false} LinkedSame(m: Memory, m': Memory, l: Arena, after: int)
    requires Linked(m, l, after) && Same(m, m', l)
    ensures Linked(m', l, after)
  {
    if l.Cons? { LinkedSame(m, m', l.tail, after); }
  }

  lemma {:induction false} LinkedNoFree(m: Memory, l: Arena, after: int, after': int)
    requires Linked(m, l, after) && NoFree(l)
    ensures Linked(m, l, after')
  {
    if l.Cons? { LinkedNoFree(m, l.tail, after, after'); }
  }

  lemma {:induction false} SameUpdate(m: Memory, m': Memory, l: Arena, x: int, h: Header)
    requires Same(m, m', l) && Misses(x, l)
    ensures Same(m, m'[x := h], l)
  {
    if l.Cons? { SameUpdate(m, m', l.tail, x, h); }
  }

  lemma {:induction false} SameRefl(m: Memory, l: Arena, after: int)
    requires Linked(m, l, after)
    ensures Same(m, m, l)
  {
    if l.Cons? { SameRefl(m, l.tail, after); }
  }

  lemma {:induction false} MissesAppend(x: int, l: Arena, k: Arena)
    ensures Misses(x, Append(l, k)) <==> Misses(x, l) && Misses(x, k)
  {
    if l.Cons? { MissesAppend(x, l.tail, k); }
  }

  lemma {:induction false} BelowMisses(x: int, l: Arena)
    requires Below(x, l)
    ensures Misses(x, l)
  {
    if l.Cons? { BelowMisses(x, l.tail); }
  }

  lemma {:induction false} SortedAppend(l: Arena, b: Block, k: Arena)
    requires Sorted(Append(l, Cons(b, k)))
    ensures Sorted(Cons(b, k)) && Misses(b.addr, l) && Misses(b.addr, k) && Below(b.addr, k)
    ensures forall c :: Has(l, c) ==> c.addr + Span(c) <= b.addr
  {
    SortedBelow(Append(l, Cons(b, k)));
    if l.Nil? {
      BelowMisses(b.addr, k);
    } else {
      SortedAppend(l.tail, b, k);
      HasAppend(l.tail, b, k);
      BelowHas(l.head.addr, Append(l.tail, Cons(b, k)), b);
      SpanBelow(Append(l, Cons(b, k)), b);
    }
  }

  lemma {:induction false} HasAppend(l: Arena, b: Block, k: Arena)
    ensures Has(Append(l, Cons(b, k)), b)
  {
    if l.Cons? { HasAppend(l.tail, b, k); }
  }

  lemma {:induction false} AppendAssoc(l: Arena, k: Arena, j: Arena)
    ensures Append(Append(l, k), j) == Append(l, Append(k, j))
  {
    if l.Cons? { AppendAssoc(l.tail, k, j); }
  }

  // ----- replacing what follows a free block -----

  /** The blocks `x` between the free block `p` and `c` become `x'`, and `p` becomes `p'`. */
  lemma SpliceAfter(m: Memory, m': Memory, a: Arena, p: Block, p': Block, x: Arena, x': Arena, c: Arena)
    requires p.free && p'.free && p'.addr == p.addr
    requires Ring(m, Append(a, Cons(p, Append(x, c))))
    requires Same(m, m', a) && Same(m, m', c)
    requires var f := First(a, p.addr);
             && Linked(m', x', First(c, f))
             && p.addr in m' && m'[p.addr] == Header(First(x', First(c, f)), p'.size, p'.typ)
    ensures Ring(m', Append(a, Cons(p', Append(x', c))))
  {
    var f := First(a, p.addr);
    FirstAppend(a, Cons(p, Append(x, c)), NULL);
    FirstAppend(a, Cons(p', Append(x', c)), NULL);
    LinkedAppend(m, a, Cons(p, Append(x, c)), f);
    LinkedAppend(m, x, c, f);
    LinkedSame(m, m', a, p.addr);
    LinkedSame(m, m', c, f);
    FirstAppend(x', c, f);
    LinkedAppend(m', x', c, f);
    LinkedAppend(m', a, Cons(p', Append(x', c)), f);
  }

  /** The blocks `x` in front of `c` become `x'`; `p` is the last free block. */
  lemma SpliceFront(m: Memory, m': Memory, x: Arena, x': Arena, c: Arena, p: Block, n: Arena)
    requires p.free && NoFree(n)
    requires Ring(m, Append(x, Append(c, Cons(p, n))))
    requires Same(m, m', c) && Same(m, m', n)
    requires var f := First(c, p.addr);
             && Linked(m', x', f)
             && p.addr in m' && m'[p.addr] == Header(First(x', f), p.size, p.typ)
    ensures Ring(m', Append(x', Append(c, Cons(p, n))))
  {
    var rest := Append(c, Cons(p, n));
    var f, f0, f0' := First(c, p.addr), First(Append(x, rest), NULL), First(Append(x', rest), NULL);
    FirstAppend(c, Cons(p, n), NULL);
    FirstAppend(c, Cons(p, n), f0');
    FirstAppend(x', rest, NULL);
    LinkedAppend(m, x, rest, f0);
    LinkedAppend(m, c, Cons(p, n), f0);
    LinkedSame(m, m', c, p.addr);
    LinkedSame(m, m', n, f0);
    LinkedNoFree(m', n, f0, f0');
    FirstNoFree(n, f0');
    LinkedAppend(m', c, Cons(p, n), f0');
    LinkedAppend(m', x', rest, f0');
  }
}

/** The pointer updates of free_locked, once the place is found. */
module FreeStep {
  import opened Arena
  import opened FreeRing

  // ----- Release, seen from the released block -----

  function FuseLast(x: Arena, y: Arena): Arena {
    if x.Nil? then y else if x.tail.Nil? then Fuse(x.head, y) else Cons(x.head, FuseLast(x.tail, y))
  }

  lemma {:induction false} ReleaseAt(x: Arena, b: Block, c: Arena)
    requires NoTwins(Append(x, Cons(b, c))) && Misses(b.addr, x) && !b.free
    ensures Release(Append(x, Cons(b, c)), b.addr) == FuseLast(x, Fuse(b.(free := true), c))
  {
    if x.Cons? { ReleaseAt(x.tail, b, c); }
  }

  lemma {:induction false} FuseLastAppend(a: Arena, x: Arena, y: Arena)
    requires x.Cons?
    ensures FuseLast(Append(a, x), y) == Append(a, FuseLast(x, y))
  {
    if a.Cons? { FuseLastAppend(a.tail, x, y); }
  }

  lemma {:induction false} FuseLastNoFree(x: Arena, y: Arena)
    requires NoFree(x)
    ensures FuseLast(x, y) == Append(x, y)
  {
    if x.Cons? { FuseLastNoFree(x.tail, y); }
  }

  // ----- the updates -----

  /** Join with the block above, or point to it. */
  function LinkUp(m: Memory, bp: int, next: int): Memory
    requires bp in m && next in m
  {
    if m[bp].typ == m[next].typ && bp + m[bp].size == next
    then m[bp := Header(m[next].ptr, m[bp].size + m[next].size, m[bp].typ)]
    else m[bp := m[bp].(ptr := next)]
  }

  /** Join with the block below, or have it point here. */
  function LinkDown(m: Memory, bp: int, p: int): Memory
    requires bp in m && p in m
  {
    if m[p].typ == m[bp].typ && p + m[p].size == bp
    then m[p := Header(m[bp].ptr, m[p].size + m[bp].size, m[p].typ)]
    else m[p := m[p].(ptr := bp)]
  }

  /** A free block right behind `b` is the only one that can start where `b` ends. */
  lemma {:induction false} FirstAbove(l: Arena, after: int)
    requires Sorted(l)
    ensures NoFree(l) ==> First(l, after) == after
    ensures !NoFree(l) ==> First(l, after) >= l.head.addr && (First(l, after) == l.head.addr <==> l.head.free)
  {
    if l.Cons? {
      SortedBelow(l);
      FirstAbove(l.tail, after);
    }
  }

  lemma {:induction false} FirstLinked(m: Memory, l: Arena, after: int)
    requires Linked(m, l, after) && !NoFree(l)
    ensures First(l, after) in m
  {
    if !l.head.free { FirstLinked(m, l.tail, after); }
  }

  lemma {:induction false} FirstUpTo(a: Arena, b: Block, k: Arena)
    requires Sorted(Append(a, Cons(b, k)))
    ensures First(a, b.addr) <= b.addr
  {
    if a.Cons? {
      SortedBelow(Append(a, Cons(b, k)));
      HasAppend(a.tail, b, k);
      BelowHas(a.head.addr, Append(a.tail, Cons(b, k)), b);
      FirstUpTo(a.tail, b, k);
    }
  }

  /** The block above is joined exactly when it is a twin. */
  lemma UpIsTwin(m: Memory, b: Block, c: Arena, f: int)
    requires Sorted(Cons(b, c)) && f <= b.addr && b.size > 0
    requires Linked(m, Cons(b, c), f) && f in m
    ensures First(c, f) in m
    ensures var next := First(c, f);
            (m[b.addr].typ == m[next].typ && b.addr + b.size == next) <==>
            (c.Cons? && Twins(b.(free := true), c.head))
  {
    SortedBelow(Cons(b, c));
    FirstAbove(c, f);
    if !NoFree(c) { FirstLinked(m, c, f); }
  }

  /** The released block after the join upwards, and what is left above it. */
  function Grown(b: Block, c: Arena): Block {
    Fuse(b.(free := true), c).head
  }

  function Above(b: Block, c: Arena): Arena {
    Fuse(b.(free := true), c).tail
  }

  /** The blocks that went into it. */
  function Consumed(b: Block, c: Arena): (w: Arena)
    ensures Cons(b, c) == Append(w, Above(b, c))
  {
    if c.Cons? && Twins(b.(free := true), c.head) then
      assert Append(Cons(c.head, Nil), c.tail) == c;
      Cons(b, Cons(c.head, Nil))
    else Cons(b, Nil)
  }

  lemma UpStep(m: Memory, b: Block, c: Arena, f: int)
    requires Sorted(Cons(b, c)) && f <= b.addr && b.size > 0
    requires Linked(m, Cons(b, c), f) && f in m
    ensures First(c, f) in m
    ensures var g := Grown(b, c);
            LinkUp(m, b.addr, First(c, f)) == m[b.addr := Header(First(Above(b, c), f), g.size, g.typ)]
    ensures Grown(b, c).addr == b.addr && Grown(b, c).free && Grown(b, c).typ == b.typ
    ensures Linked(m, Above(b, c), f) && Below(b.addr, Above(b, c))
  {
    UpIsTwin(m, b, c, f);
    SortedBelow(Cons(b, c));
  }

  /** What becomes of the free block `p` below and of the blocks `x` between them. */
  function Lower(p: Block, x: Arena, g: Block): (r: (Block, Arena)) {
    if x.Nil? && Twins(p, g) then (p.(size := p.size + g.size), Nil) else (p, Append(x, Cons(g, Nil)))
  }

  lemma ReleaseShape(a: Arena, p: Block, x: Arena, b: Block, c: Arena)
    requires NoFree(x) && !b.free
    requires var l := Append(a, Cons(p, Append(x, Cons(b, c)))); Sorted(l) && NoTwins(l)
    ensures var l := Append(a, Cons(p, Append(x, Cons(b, c))));
            var (p', x') := Lower(p, x, Grown(b, c));
            Release(l, b.addr) == Append(a, Cons(p', Append(x', Above(b, c))))
  {
    var y := Fuse(b.(free := true), c);
    var (p', x') := Lower(p, x, y.head);
    AppendAssoc(a, Cons(p, x), Cons(b, c));
    SortedAppend(Append(a, Cons(p, x)), b, c);
    ReleaseAt(Append(a, Cons(p, x)), b, c);
    FuseLastAppend(a, Cons(p, x), y);
    FuseLastNoFree(x, y);
    AppendAssoc(x, Cons(y.head, Nil), y.tail);
    assert FuseLast(Cons(p, x), y) == Cons(p', Append(x', y.tail));
  }

  /** Releasing `b` when the free block before it is `p`. */
  lemma FreeAfter(m: Memory, a: Arena, p: Block, x: Arena, b: Block, c: Arena)
    requires p.free && NoFree(x) && !b.free && b.size > 0
    requires var l := Append(a, Cons(p, Append(x, Cons(b, c)))); Ring(m, l) && Sorted(l) && NoTwins(l)
    ensures p.addr in m && b.addr in m && m[p.addr].ptr in m
    ensures var l := Append(a, Cons(p, Append(x, Cons(b, c))));
            Ring(LinkDown(LinkUp(m, b.addr, m[p.addr].ptr), b.addr, p.addr), Release(l, b.addr))
  {
    var l, f := Append(a, Cons(p, Append(x, Cons(b, c)))), First(a, p.addr);
    var g, k := Grown(b, c), Above(b, c);
    var (p', x') := Lower(p, x, g);
    ReleaseShape(a, p, x, b, c);
    AfterFacts(m, a, p, x, b, c);
    UpStep(m, b, c, f);
    var m1 := m[b.addr := Header(First(k, f), g.size, g.typ)];
    var m2 := LinkDown(m1, b.addr, p.addr);
    DownStep(m1, p, x, b, c, f);
    AfterSame(m, a, p, x, b, c, Header(First(k, f), g.size, g.typ), m2[p.addr]);
    assert m2 == m1[p.addr := m2[p.addr]];
    AfterLinked(m, m2, p, x, b, c, f);
    AppendAssoc(x, Consumed(b, c), k);
    SpliceAfter(m, m2, a, p, p', Append(x, Consumed(b, c)), x', k);
  }

  lemma AfterFacts(m: Memory, a: Arena, p: Block, x: Arena, b: Block, c: Arena)
    requires p.free && NoFree(x) && !b.free
    requires var l := Append(a, Cons(p, Append(x, Cons(b, c)))); Ring(m, l) && Sorted(l)
    ensures var f := First(a, p.addr);
            && f <= p.addr < b.addr && f in m && p.addr in m && m[p.addr].size == p.size && m[p.addr].typ == p.typ
            && m[p.addr].ptr == First(c, f)
            && Linked(m, a, p.addr) && Linked(m, x, First(c, f)) && Linked(m, Cons(b, c), f)
    ensures Sorted(Cons(b, c)) && (x.Cons? ==> p.addr + Span(p) < b.addr) && p.addr + Span(p) <= b.addr
  {
    var rest := Append(x, Cons(b, c));
    var f := First(a, p.addr);
    FirstAppend(a, Cons(p, rest), NULL);
    LinkedAppend(m, a, Cons(p, rest), f);
    LinkedAppend(m, x, Cons(b, c), f);
    FirstAppend(x, Cons(b, c), f);
    FirstNoFree(x, First(c, f));
    FirstUpTo(a, p, rest);
    if NoFree(a) { FirstNoFree(a, p.addr); } else { FirstLinked(m, a, p.addr); }
    SortedAppend(a, p, rest);
    HasAppend(x, b, c);
    SpanBelow(Cons(p, rest), b);
    SortedBelow(Cons(p, rest));
    SortedAppend(x, b, c);
    if x.Cons? { assert Has(x, x.head); }
  }

  /** The block below is joined exactly when it is a twin. */
  lemma DownStep(m1: Memory, p: Block, x: Arena, b: Block, c: Arena, f: int)
    requires p.free && (x.Cons? ==> p.addr + Span(p) < b.addr) && p.addr < b.addr
    requires var g, k := Grown(b, c), Above(b, c);
             && g.addr == b.addr && g.free
             && b.addr in m1 && m1[b.addr] == Header(First(k, f), g.size, g.typ)
             && p.addr in m1 && m1[p.addr].size == p.size && m1[p.addr].typ == p.typ
    ensures var g, k := Grown(b, c), Above(b, c);
            var (p', x') := Lower(p, x, g);
            LinkDown(m1, b.addr, p.addr) ==
              m1[p.addr := Header(if x'.Nil? then First(k, f) else b.addr, p'.size, p'.typ)]
  {
  }

  lemma AfterSame(m: Memory, a: Arena, p: Block, x: Arena, b: Block, c: Arena, h: Header, h': Header)
    requires var l := Append(a, Cons(p, Append(x, Cons(b, c)))); Sorted(l)
    requires Linked(m, a, p.addr) && Linked(m, x, First(c, First(a, p.addr)))
             && Linked(m, Above(b, c), First(a, p.addr))
    ensures var m2 := m[b.addr := h][p.addr := h'];
            Same(m, m2, a) && Same(m, m2, x) && Same(m, m2, Above(b, c))
  {
    var rest := Append(x, Cons(b, c));
    var f, k := First(a, p.addr), Above(b, c);
    SortedAppend(a, p, rest);
    MissesAppend(p.addr, x, Cons(b, c));
    AppendAssoc(a, Cons(p, x), Cons(b, c));
    SortedAppend(Append(a, Cons(p, x)), b, c);
    MissesAppend(b.addr, a, Cons(p, x));
    SameRefl(m, a, p.addr);
    SameRefl(m, x, First(c, f));
    SameRefl(m, k, f);
    SameUpdate(m, m, a, b.addr, h); SameUpdate(m, m[b.addr := h], a, p.addr, h');
    SameUpdate(m, m, x, b.addr, h); SameUpdate(m, m[b.addr := h], x, p.addr, h');
    SameUpdate(m, m, k, b.addr, h); SameUpdate(m, m[b.addr := h], k, p.addr, h');
  }

  lemma AfterLinked(m: Memory, m2: Memory, p: Block, x: Arena, b: Block, c: Arena, f: int)
    requires NoFree(x) && Linked(m, x, First(c, f)) && Same(m, m2, x)
    requires var g, k := Grown(b, c), Above(b, c);
             && g.addr == b.addr && b.addr in m2 && m2[b.addr] == Header(First(k, f), g.size, g.typ)
    ensures var (p', x') := Lower(p, x, Grown(b, c));
            Linked(m2, x', First(Above(b, c), f)) && (x'.Cons? ==> First(x', First(Above(b, c), f)) == b.addr)
  {
    var g, k := Grown(b, c), Above(b, c);
    LinkedSame(m, m2, x, First(c, f));
    LinkedNoFree(m2, x, First(c, f), b.addr);
    LinkedAppend(m2, x, Cons(g, Nil), First(k, f));
    FirstAppend(x, Cons(g, Nil), First(k, f));
    FirstNoFree(x, b.addr);
  }

  /** `c` without a block that was joined with `b`. */
  function Remaining(b: Block, c: Arena): Arena {
    if c.Cons? && Twins(b.(free := true), c.head) then c.tail else c
  }

  /** Releasing `b` in front of all free blocks; `p` is the last of them. */
  lemma FreeFront(m: Memory, x: Arena, b: Block, c: Arena, p: Block, n: Arena)
    requires p.free && NoFree(x) && NoFree(n) && !b.free && b.size > 0
    requires c.Nil? ==> !Twins(b.(free := true), p)
    requires var l := Append(x, Cons(b, Append(c, Cons(p, n)))); Ring(m, l) && Sorted(l) && NoTwins(l)
    ensures p.addr in m && b.addr in m && m[p.addr].ptr in m
    ensures var l := Append(x, Cons(b, Append(c, Cons(p, n))));
            Ring(LinkDown(LinkUp(m, b.addr, m[p.addr].ptr), b.addr, p.addr), Release(l, b.addr))
  {
    var g := Grown(b, Append(c, Cons(p, n)));
    var h := Header(First(Remaining(b, c), p.addr), g.size, g.typ);
    FrontMemory(m, x, b, c, p, n, h);
    FrontRing(m, x, b, c, p, n, h);
  }

  lemma FrontMemory(m: Memory, x: Arena, b: Block, c: Arena, p: Block, n: Arena, h: Header)
    requires p.free && NoFree(x) && NoFree(n) && !b.free && b.size > 0
    requires c.Nil? ==> !Twins(b.(free := true), p)
    requires var l := Append(x, Cons(b, Append(c, Cons(p, n)))); Ring(m, l) && Sorted(l)
    requires var g := Grown(b, Append(c, Cons(p, n))); h == Header(First(Remaining(b, c), p.addr), g.size, g.typ)
    ensures p.addr in m && b.addr in m && m[p.addr].ptr in m
    ensures LinkDown(LinkUp(m, b.addr, m[p.addr].ptr), b.addr, p.addr)
         == m[b.addr := h][p.addr := m[p.addr].(ptr := b.addr)]
  {
    FrontFacts(m, x, b, c, p, n);
    UpFront(m, b, c, p, n);
    NoDown(m, h, b.addr, p.addr);
  }

  lemma FrontRing(m: Memory, x: Arena, b: Block, c: Arena, p: Block, n: Arena, h: Header)
    requires p.free && NoFree(x) && NoFree(n) && !b.free
    requires c.Nil? ==> !Twins(b.(free := true), p)
    requires var l := Append(x, Cons(b, Append(c, Cons(p, n)))); Ring(m, l) && Sorted(l) && NoTwins(l)
    requires var g := Grown(b, Append(c, Cons(p, n))); h == Header(First(Remaining(b, c), p.addr), g.size, g.typ)
    ensures p.addr in m
    ensures var l := Append(x, Cons(b, Append(c, Cons(p, n))));
            Ring(m[b.addr := h][p.addr := m[p.addr].(ptr := b.addr)], Release(l, b.addr))
  {
    var d, c' := Append(c, Cons(p, n)), Remaining(b, c);
    var g := Grown(b, d);
    FrontFacts(m, x, b, c, p, n);
    FrontShape(b, c, p, n);
    var m2 := m[b.addr := h][p.addr := m[p.addr].(ptr := b.addr)];
    ReleaseFront(x, b, d);
    FrontSame(m, x, b, c, p, n, h, m[p.addr].(ptr := b.addr));
    FrontLinked(m, m2, x, g, First(c, p.addr), First(c', p.addr));
    AppendAssoc(x, Consumed(b, d), Above(b, d));
    SpliceFront(m, m2, Append(x, Consumed(b, d)), Append(x, Cons(g, Nil)), c', p, n);
  }

  lemma NoDown(m: Memory, h: Header, b: int, p: int)
    requires p in m && b < p
    ensures LinkDown(m[b := h], b, p) == m[b := h][p := m[p].(ptr := b)]
  {
  }

  lemma ReleaseFront(x: Arena, b: Block, d: Arena)
    requires NoTwins(Append(x, Cons(b, d))) && Misses(b.addr, x) && !b.free && NoFree(x)
    ensures Release(Append(x, Cons(b, d)), b.addr) == Append(Append(x, Cons(Grown(b, d), Nil)), Above(b, d))
  {
    ReleaseAt(x, b, d);
    FuseLastNoFree(x, Cons(Grown(b, d), Above(b, d)));
    AppendAssoc(x, Cons(Grown(b, d), Nil), Above(b, d));
  }

  lemma FrontLinked(m: Memory, m2: Memory, x: Arena, g: Block, f: int, f': int)
    requires NoFree(x) && Linked(m, x, f) && Same(m, m2, x)
    requires g.free && g.addr in m2 && m2[g.addr] == Header(f', g.size, g.typ)
    ensures Linked(m2, Append(x, Cons(g, Nil)), f') && First(Append(x, Cons(g, Nil)), f') == g.addr
  {
    LinkedSame(m, m2, x, f);
    LinkedNoFree(m2, x, f, g.addr);
    LinkedAppend(m2, x, Cons(g, Nil), f');
    FirstAppend(x, Cons(g, Nil), f');
    FirstNoFree(x, g.addr);
  }

  lemma FrontShape(b: Block, c: Arena, p: Block, n: Arena)
    requires c.Nil? ==> !Twins(b.(free := true), p)
    ensures var d := Append(c, Cons(p, n));
            && Above(b, d) == Append(Remaining(b, c), Cons(p, n))
            && Grown(b, d).addr == b.addr && Grown(b, d).free && Grown(b, d).typ == b.typ
  {
  }

  lemma FrontFacts(m: Memory, x: Arena, b: Block, c: Arena, p: Block, n: Arena)
    requires p.free && NoFree(x) && NoFree(n) && !b.free
    requires var l := Append(x, Cons(b, Append(c, Cons(p, n)))); Ring(m, l) && Sorted(l)
    ensures var f := First(c, p.addr);
            && p.addr in m && m[p.addr] == Header(f, p.size, p.typ) && f in m
            && Linked(m, x, f) && b.addr in m && m[b.addr].size == b.size && m[b.addr].typ == b.typ
            && Linked(m, c, p.addr) && Linked(m, n, f)
    ensures b.addr < p.addr && Misses(b.addr, x) && Misses(b.addr, c) && Misses(b.addr, n)
    ensures Misses(p.addr, x) && Misses(p.addr, c) && Misses(p.addr, n)
    ensures Sorted(Cons(b, Append(c, Cons(p, n))))
  {
    var d := Append(c, Cons(p, n));
    var f, f0 := First(c, p.addr), First(Append(x, Cons(b, d)), NULL);
    FirstAppend(x, Cons(b, d), NULL);
    FirstNoFree(x, First(d, NULL));
    FirstAppend(c, Cons(p, n), NULL);
    assert f0 == f;
    FirstAppend(c, Cons(p, n), f0);
    LinkedAppend(m, x, Cons(b, d), f0);
    LinkedAppend(m, c, Cons(p, n), f0);
    FirstNoFree(n, f0);
    if NoFree(c) { FirstNoFree(c, p.addr); } else { FirstLinked(m, c, p.addr); }
    SortedAppend(x, b, d);
    MissesAppend(b.addr, c, Cons(p, n));
    HasAppend(c, p, n);
    BelowHas(b.addr, d, p);
    AppendAssoc(x, Cons(b, c), Cons(p, n));
    SortedAppend(Append(x, Cons(b, c)), p, n);
    MissesAppend(p.addr, x, Cons(b, c));
  }

  lemma UpFront(m: Memory, b: Block, c: Arena, p: Block, n: Arena)
    requires p.free && (c.Nil? ==> !Twins(b.(free := true), p)) && b.size > 0
    requires Sorted(Cons(b, Append(c, Cons(p, n)))) && b.addr < p.addr
    requires b.addr in m && m[b.addr].size == b.size && m[b.addr].typ == b.typ
    requires First(c, p.addr) in m && Linked(m, c, p.addr)
             && p.addr in m && m[p.addr].size == p.size && m[p.addr].typ == p.typ
    ensures var g := Grown(b, Append(c, Cons(p, n)));
            LinkUp(m, b.addr, First(c, p.addr)) == m[b.addr := Header(First(Remaining(b, c), p.addr), g.size, g.typ)]
  {
    var d := Append(c, Cons(p, n));
    SortedBelow(Cons(b, d));
    if c.Cons? && !c.head.free {
      SortedBelow(d);
      HasAppend(c.tail, p, n);
      BelowHas(d.head.addr, d.tail, p);
      FirstBehind(c.tail, p, n, d.head.addr);
    }
  }

  lemma {:induction false} FirstBehind(c: Arena, p: Block, n: Arena, y: int)
    requires Below(y, Append(c, Cons(p, n)))
    ensures First(c, p.addr) > y
  {
    if c.Cons? { FirstBehind(c.tail, p, n, y); }
  }

  lemma FrontSame(m: Memory, x: Arena, b: Block, c: Arena, p: Block, n: Arena, h: Header, h': Header)
    requires Misses(b.addr, x) && Misses(b.addr, c) && Misses(b.addr, n)
    requires Misses(p.addr, x) && Misses(p.addr, c) && Misses(p.addr, n)
    requires var f := First(c, p.addr); Linked(m, x, f) && Linked(m, c, p.addr) && Linked(m, n, f)
    ensures var m2 := m[b.addr := h][p.addr := h'];
            && Same(m, m2, x) && Same(m, m2, c) && Same(m, m2, n) && Same(m, m2, Remaining(b, c))
  {
    var f := First(c, p.addr);
    SameRefl(m, x, f);
    SameRefl(m, c, p.addr);
    SameRefl(m, n, f);
    SameUpdate(m, m, x, b.addr, h); SameUpdate(m, m[b.addr := h], x, p.addr, h');
    SameUpdate(m, m, c, b.addr, h); SameUpdate(m, m[b.addr := h], c, p.addr, h');
    SameUpdate(m, m, n, b.addr, h); SameUpdate(m, m[b.addr := h], n, p.addr, h');
  }
}

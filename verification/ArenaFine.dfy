/** What is known of every block of the allocator, and that free blocks stay where
    they are while others come and go. */
module ArenaFine {
  import opened Arena
  import opened FreeRing
  import opened FreeStep
  import opened TakeStep
  import opened Places

  // ----- what is known of every block -----

  /** A block lies in owned memory, only the anchor is empty, and private memory lies
      between the anchor and the break. */
  ghost predicate BlockFine(b: Block, base: int, brk: int, owned: set<int>) {
    && (b == Anchor(base) || b.size > 0)
    && (b.typ || b == Anchor(base) || (b.addr > base && b.addr + b.size <= brk))
    && forall u :: b.addr <= u < b.addr + Span(b) ==> u in owned
  }

  ghost predicate Fine(l: Arena, base: int, brk: int, owned: set<int>) {
    l.Cons? ==> BlockFine(l.head, base, brk, owned) && Fine(l.tail, base, brk, owned)
  }

  lemma {:induction false} FineKnown(l: Arena, base: int, brk: int, owned: set<int>)
    requires Fine(l, base, brk, owned)
    ensures UsedSized(l) && PrivateAbove(l, base)
  {
    if l.Cons? { FineKnown(l.tail, base, brk, owned); }
  }

  lemma {:induction false} FineGrows(l: Arena, base: int, brk: int, owned: set<int>, brk': int, owned': set<int>)
    requires Fine(l, base, brk, owned) && brk <= brk' && owned <= owned'
    ensures Fine(l, base, brk', owned')
  {
    if l.Cons? { FineGrows(l.tail, base, brk, owned, brk', owned'); }
  }

  lemma FuseFine(b: Block, l: Arena, base: int, brk: int, owned: set<int>)
    requires BlockFine(b, base, brk, owned) && Fine(l, base, brk, owned)
    requires l.Cons? ==> b.addr + Span(b) <= l.head.addr
    ensures Fine(Fuse(b, l), base, brk, owned)
  {
  }

  lemma {:induction false} ReleaseFine(l: Arena, addr: int, base: int, brk: int, owned: set<int>)
    requires Fine(l, base, brk, owned) && Sorted(l) && NoTwins(l)
    ensures Fine(Release(l, addr), base, brk, owned)
  {
    if l.Cons? {
      SortedBelow(l);
      ReleaseKeeps(l.tail, addr);
      ReleaseFine(l.tail, addr, base, brk, owned);
      if l.head.addr == addr {
        FuseFine(l.head.(free := true), l.tail, base, brk, owned);
      } else {
        FuseFine(l.head, Release(l.tail, addr), base, brk, owned);
      }
    }
  }

  lemma {:induction false} TakeFine(l: Arena, addr: int, n: nat, base: int, brk: int, owned: set<int>)
    requires Fine(l, base, brk, owned) && n > 0 && addr != base
    ensures Fine(Take(l, addr, n), base, brk, owned)
  {
    if l.Cons? { TakeFine(l.tail, addr, n, base, brk, owned); }
  }

  lemma {:induction false} InsertFine(l: Arena, b: Block, base: int, brk: int, owned: set<int>)
    requires Fine(l, base, brk, owned) && BlockFine(b, base, brk, owned)
    ensures Fine(Insert(l, b), base, brk, owned)
  {
    if l.Cons? { InsertFine(l.tail, b, base, brk, owned); }
  }

  /** A region of units not owned before overlaps no block. */
  lemma {:induction false} FreshApart(l: Arena, b: Block, base: int, brk: int, owned: set<int>)
    requires Fine(l, base, brk, owned) && forall u :: b.addr <= u < b.addr + Span(b) ==> u !in owned
    ensures Apart(l, b) && Misses(b.addr, l)
  {
    if l.Cons? {
      FreshApart(l.tail, b, base, brk, owned);
      assert l.head.addr in owned && b.addr !in owned;
      var y := if b.addr > l.head.addr then b.addr else l.head.addr;
      assert y in owned <==> y == l.head.addr;
    }
  }

  // ----- free blocks survive -----

  lemma {:induction false} FuseLastFreeAt(x: Arena, y: Arena, q: int)
    requires FreeAt(x, q)
    ensures FreeAt(FuseLast(x, y), q)
  {
    if !x.tail.Nil? && !(x.head.free && x.head.addr == q) { FuseLastFreeAt(x.tail, y, q); }
  }

  lemma {:induction false} FuseLastFreeAtRight(x: Arena, y: Arena, q: int)
    requires y.Cons? && FreeAt(y.tail, q)
    ensures FreeAt(FuseLast(x, y), q)
  {
    if x.Cons? { FuseLastFreeAtRight(x.tail, y, q); }
  }

  /** Releasing a block swallows a free block only when that is its twin above. */
  lemma ReleaseFreeAt(l: Arena, b: Block, q: int)
    requires Sorted(l) && NoTwins(l) && Has(l, b) && !b.free && FreeAt(l, q)
    requires forall c :: Has(l, c) && c.addr == q ==> !Twins(b.(free := true), c)
    ensures FreeAt(Release(l, b.addr), q)
  {
    var x, c := HasSplit(l, b);
    SortedAppend(x, b, c);
    ReleaseAt(x, b, c);
    FreeAtAppend(x, Cons(b, c), q);
    if FreeAt(x, q) {
      FuseLastFreeAt(x, Fuse(b.(free := true), c), q);
    } else {
      if c.head.addr == q && c.head.free {
        HasAppend(Append(x, Cons(b, Nil)), c.head, c.tail);
        AppendAssoc(x, Cons(b, Nil), c);
      }
      FuseLastFreeAtRight(x, Fuse(b.(free := true), c), q);
    }
  }

  lemma {:induction false} TakeFreeAt(l: Arena, p: int, n: nat, q: int)
    requires FreeAt(l, q) && q != p
    ensures FreeAt(Take(l, p, n), q)
  {
    if !(l.head.free && l.head.addr == q) { TakeFreeAt(l.tail, p, n, q); }
  }

  lemma {:induction false} InsertFreeAt(l: Arena, b: Block, q: int)
    requires FreeAt(l, q)
    ensures FreeAt(Insert(l, b), q)
  {
    if !(l.head.free && l.head.addr == q) && b.addr >= l.head.addr { InsertFreeAt(l.tail, b, q); }
  }

  lemma {:induction false} InsertLinked(m: Memory, l: Arena, b: Block, after: int)
    requires Linked(m, l, after) && !b.free && b.addr in m && m[b.addr].size == b.size && m[b.addr].typ == b.typ
    ensures Linked(m, Insert(l, b), after) && First(Insert(l, b), after) == First(l, after)
  {
    if l.Cons? && b.addr >= l.head.addr { InsertLinked(m, l.tail, b, after); }
  }

  /** The place of a block is never its twin above. */
  lemma PlaceSurvives(m: Memory, l: Arena, freep: int, base: int, p: int, b: Block, c: Block)
    requires Ok(m, l, freep, base) && FreeAt(l, p) && Has(l, b) && !b.free
    requires p in m && IsPlace(p, m[p].ptr, b.addr) && Has(l, c) && c.addr == p
    ensures !Twins(b.(free := true), c)
  {
    if Twins(b.(free := true), c) {
      UsedSizedHas(l, b);
      var a, pc, k := SplitAt(l, p);
      Successor(m, l, p, a, pc, k);
      Side(l, a, pc, k, b);
      SortedAppend(a, pc, k);
      var x, d := HasSplit(a, b);
      AppendAssoc(x, Cons(b, d), Cons(pc, k));
      FirstAppend(a, Cons(pc, k), NULL);
      BeforeFirst(x, b, Append(d, Cons(pc, k)), NULL);
      SortedAppend(x, b, Append(d, Cons(pc, k)));
      if d.Cons? {
        SortedBelow(Cons(b, Append(d, Cons(pc, k))));
        SortedAppend(d, pc, k);
        assert Has(d, d.head);
        assert false;
      }
      HasOnly(l, a, pc, k, c);
      LoneFree(x, b, pc, k, base);
    }
  }

  /** Addresses are unique. */
  lemma HasOnly(l: Arena, a: Arena, pc: Block, k: Arena, c: Block)
    requires l == Append(a, Cons(pc, k)) && Sorted(l) && Has(l, c) && c.addr == pc.addr
    ensures c == pc
  {
    HasAppendInv(a, Cons(pc, k), c);
    SortedAppend(a, pc, k);
    if Has(k, c) { BelowHas(pc.addr, k, c); }
  }

  // ----- malloc -----

  lemma FreeAtHas(l: Arena, p: int) returns (b: Block)
    requires FreeAt(l, p)
    ensures Has(l, b) && b.free && b.addr == p
  {
    var a, pc, k := SplitAt(l, p);
    HasAppend(a, pc, k);
    b := pc;
  }

  /** A block behind itself in the ring is the only free one: the anchor. */
  lemma SelfIsAnchor(m: Memory, l: Arena, freep: int, base: int, p: int)
    requires Ok(m, l, freep, base) && FreeAt(l, p) && p in m && m[p].ptr == p
    ensures p == base && m[p].size == 0
  {
    var a, pc, k := SplitAt(l, p);
    Successor(m, l, p, a, pc, k);
    SortedAppend(a, pc, k);
    FirstFreeAt(a, p);
    if !NoFree(a) { var b := FreeAtHas(a, p); }
    HasAppendInv(a, Cons(pc, k), Anchor(base));
    if Has(a, Anchor(base)) { NoFreeHas(a, Anchor(base)); }
    if Has(k, Anchor(base)) { NoFreeHas(k, Anchor(base)); }
  }

  /** Taking units from the successor of `prevp`. */
  lemma TakeOk(m: Memory, l: Arena, freep: int, base: int, prevp: int, p: int, n: nat) returns (b: Block)
    requires Ok(m, l, freep, base) && FreeAt(l, prevp) && prevp in m && m[prevp].ptr == p
    requires p in m && m[p].size >= n > 0
    ensures prevp != p && p != base
    ensures Has(l, b) && b.free && b.addr == p && m[p].size == b.size && m[p].typ == b.typ
    ensures Ring(Unlink(m, prevp, p, n), Take(l, p, n))
  {
    if prevp == p { SelfIsAnchor(m, l, freep, base, p); }
    Next(m, l, prevp);
    var a0, b0, k0 := SplitAt(l, p);
    Successor(m, l, p, a0, b0, k0);
    HasAppend(a0, b0, k0);
    b := b0;
    if p == base { HasOnly(l, a0, b0, k0, Anchor(base)); }
    var a, pr, k := SplitAt(l, prevp);
    Successor(m, l, prevp, a, pr, k);
    if p > prevp {
      var x, c, d := FirstSplit(k, First(l, NULL));
      AppendAssoc(a, Cons(pr, x), Cons(c, d));
      HasAppend(Append(a, Cons(pr, x)), c, d);
      HasOnly(l, a0, b0, k0, c);
      TakeAfter(m, a, pr, x, c, d, n);
    } else {
      if NoFree(a) { FirstNoFree(a, prevp); }
      var x, c, d := FirstSplit(a, prevp);
      AppendAssoc(x, Cons(c, d), Cons(pr, k));
      HasAppend(x, c, Append(d, Cons(pr, k)));
      HasOnly(l, a0, b0, k0, c);
      TakeFront(m, x, c, d, pr, k, n);
    }
  }
}

/** Finding one's way in the free ring: where a free block is, which one follows it,
    and which free blocks surround a block in use. */
module Places {
  import opened Arena
  import opened FreeRing
  import opened FreeStep

  predicate FreeAt(l: Arena, p: int) {
    l.Cons? && ((l.head.free && l.head.addr == p) || FreeAt(l.tail, p))
  }

  /** Blocks in use are not empty. */
  predicate UsedSized(l: Arena) {
    l.Cons? ==> (l.head.free || l.head.size > 0) && UsedSized(l.tail)
  }

  /** All that the allocator relies on. */
  predicate Ok(m: Memory, l: Arena, freep: int, base: int) {
    Ring(m, l) && Sorted(l) && NoTwins(l) && Anchored(l, base) && UsedSized(l) && FreeAt(l, freep)
  }

  lemma {:induction false} SplitAt(l: Arena, p: int) returns (a: Arena, b: Block, k: Arena)
    requires FreeAt(l, p)
    ensures l == Append(a, Cons(b, k)) && b.free && b.addr == p
  {
    if l.head.free && l.head.addr == p {
      a, b, k := Nil, l.head, l.tail;
    } else {
      a, b, k := SplitAt(l.tail, p);
      a := Cons(l.head, a);
    }
  }

  lemma {:induction false} FirstSplit(l: Arena, after: int) returns (x: Arena, b: Block, k: Arena)
    requires !NoFree(l)
    ensures l == Append(x, Cons(b, k)) && NoFree(x) && b.free && b.addr == First(l, after)
  {
    if l.head.free {
      x, b, k := Nil, l.head, l.tail;
    } else {
      x, b, k := FirstSplit(l.tail, after);
      x := Cons(l.head, x);
    }
  }

  lemma {:induction false} FreeAtAppend(l: Arena, k: Arena, p: int)
    ensures FreeAt(Append(l, k), p) <==> FreeAt(l, p) || FreeAt(k, p)
  {
    if l.Cons? { FreeAtAppend(l.tail, k, p); }
  }

  lemma {:induction false} FirstFreeAt(l: Arena, after: int)
    ensures NoFree(l) ==> First(l, after) == after
    ensures !NoFree(l) ==> FreeAt(l, First(l, after))
  {
    if l.Cons? { FirstFreeAt(l.tail, after); }
  }

  lemma {:induction false} FreeAtBelow(x: int, l: Arena, p: int)
    requires Below(x, l) && FreeAt(l, p)
    ensures x < p
  {
    if !(l.head.free && l.head.addr == p) { FreeAtBelow(x, l.tail, p); }
  }

  /** The successor in the ring: the next free block, or the first one again. */
  lemma Successor(m: Memory, l: Arena, p: int, a: Arena, b: Block, k: Arena)
    requires Ring(m, l) && Sorted(l) && l == Append(a, Cons(b, k)) && b.free && b.addr == p
    ensures p in m && m[p] == Header(First(k, First(l, NULL)), b.size, b.typ) && FreeAt(l, m[p].ptr)
    ensures NoFree(k) ==> m[p].ptr == First(a, p) <= p
    ensures !NoFree(k) ==> m[p].ptr > p
  {
    var f := First(l, NULL);
    FirstAppend(a, Cons(b, k), NULL);
    LinkedAppend(m, a, Cons(b, k), f);
    FreeAtAppend(a, Cons(b, k), m[p].ptr);
    FirstFreeAt(k, f);
    SortedAppend(a, b, k);
    if NoFree(k) {
      FirstFreeAt(a, p);
      FirstUpTo(a, b, k);
    } else {
      FreeAtBelow(p, k, First(k, f));
    }
  }

  lemma Next(m: Memory, l: Arena, p: int)
    requires Ring(m, l) && Sorted(l) && FreeAt(l, p)
    ensures p in m && FreeAt(l, m[p].ptr)
  {
    var a, b, k := SplitAt(l, p);
    Successor(m, l, p, a, b, k);
  }

  // ----- progress of a search -----

  /** How many free blocks start at `p` or above. */
  function CountFrom(l: Arena, p: int): nat {
    if l.Nil? then 0 else (if l.head.free && l.head.addr >= p then 1 else 0) + CountFrom(l.tail, p)
  }

  lemma {:induction false} CountFalls(l: Arena, p: int, q: int)
    requires p < q
    ensures CountFrom(l, q) <= CountFrom(l, p)
    ensures FreeAt(l, p) ==> CountFrom(l, q) < CountFrom(l, p)
  {
    if l.Cons? { CountFalls(l.tail, p, q); }
  }

  // ----- the surroundings of a block in use -----

  /** The free block `p` with successor `next` is the place to link in a block at `bp`. */
  predicate IsPlace(p: int, next: int, bp: int) {
    p < bp < next || (p >= next && (bp > p || bp < next))
  }

  lemma {:induction false} HasSplit(l: Arena, b: Block) returns (x: Arena, k: Arena)
    requires Has(l, b)
    ensures l == Append(x, Cons(b, k))
  {
    if l.head == b {
      x, k := Nil, l.tail;
    } else {
      x, k := HasSplit(l.tail, b);
      x := Cons(l.head, x);
    }
  }

  lemma {:induction false} HasAppendInv(l: Arena, k: Arena, b: Block)
    requires Has(Append(l, k), b)
    ensures Has(l, b) || Has(k, b)
  {
    if l.Cons? && l.head != b { HasAppendInv(l.tail, k, b); }
  }

  /** Blocks before the first free one are in use. */
  lemma {:induction false} BeforeFirst(x: Arena, b: Block, k: Arena, after: int)
    requires Sorted(Append(x, Cons(b, k)))
    requires NoFree(Append(x, Cons(b, k))) || First(Append(x, Cons(b, k)), after) > b.addr
    ensures NoFree(x)
  {
    if x.Cons? {
      SortedBelow(Append(x, Cons(b, k)));
      HasAppend(x.tail, b, k);
      BelowHas(x.head.addr, Append(x.tail, Cons(b, k)), b);
      BeforeFirst(x.tail, b, k, after);
    }
  }

  /** Which side of a free block a block in use is on. */
  lemma Side(l: Arena, a: Arena, pc: Block, k: Arena, b: Block)
    requires l == Append(a, Cons(pc, k)) && Sorted(l) && Has(l, b) && b != pc
    ensures if b.addr > pc.addr then Has(k, b) else Has(a, b)
  {
    HasAppendInv(a, Cons(pc, k), b);
    SortedAppend(a, pc, k);
    if Has(k, b) { BelowHas(pc.addr, k, b); }
  }

  lemma {:induction false} UsedSizedHas(l: Arena, b: Block)
    requires UsedSized(l) && Has(l, b) && !b.free
    ensures b.size > 0
  {
    if l.head != b { UsedSizedHas(l.tail, b); }
  }

  /** Linking in a block at its place gives the ring of the released arena. */
  lemma FreeOk(m: Memory, l: Arena, freep: int, base: int, p: int, b: Block)
    requires Ok(m, l, freep, base) && FreeAt(l, p) && Has(l, b) && !b.free
    requires p in m && IsPlace(p, m[p].ptr, b.addr)
    ensures b.addr in m && m[p].ptr in m
    ensures Ring(LinkDown(LinkUp(m, b.addr, m[p].ptr), b.addr, p), Release(l, b.addr))
  {
    var a, pc, k := SplitAt(l, p);
    Successor(m, l, p, a, pc, k);
    UsedSizedHas(l, b);
    Side(l, a, pc, k, b);
    SortedAppend(a, pc, k);
    if b.addr > p {
      var x, c := HasSplit(k, b);
      SortedBelow(Cons(pc, k));
      BeforeFirst(x, b, c, First(l, NULL));
      FreeAfter(m, a, pc, x, b, c);
    } else {
      var x, c := HasSplit(a, b);
      AppendAssoc(x, Cons(b, c), Cons(pc, k));
      FirstAppend(a, Cons(pc, k), NULL);
      BeforeFirst(x, b, Append(c, Cons(pc, k)), NULL);
      if c.Nil? { LoneFree(x, b, pc, k, base); }
      FreeFront(m, x, b, c, pc, k);
    }
  }

  /** A single free block is the anchor, which joins with nothing. */
  lemma LoneFree(x: Arena, b: Block, p: Block, k: Arena, base: int)
    requires NoFree(x) && NoFree(k) && !b.free && b.size > 0
    requires var l := Append(x, Cons(b, Cons(p, k))); Sorted(l) && Anchored(l, base)
    ensures !Twins(b.(free := true), p)
  {
    var l, c := Append(x, Cons(b, Cons(p, k))), Anchor(base);
    HasAppendInv(x, Cons(b, Cons(p, k)), c);
    if Has(x, c) { NoFreeHas(x, c); }
    if Has(k, c) { NoFreeHas(k, c); }
    HasAppend(x, b, Cons(p, k));
    PrivateAboveHas(l, base, b);
    SortedAppend(x, b, Cons(p, k));
  }

  lemma {:induction false} NoFreeHas(l: Arena, b: Block)
    requires NoFree(l) && Has(l, b)
    ensures !b.free
  {
    if l.head != b { NoFreeHas(l.tail, b); }
  }

  lemma {:induction false} PrivateAboveHas(l: Arena, base: int, b: Block)
    requires PrivateAbove(l, base) && Has(l, b)
    ensures b.typ || b.addr > base || b == Anchor(base)
  {
    if l.head != b { PrivateAboveHas(l.tail, base, b); }
  }
}

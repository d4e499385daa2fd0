/** The memory of the allocator as one list of blocks in address order, free and
    allocated, in units of one header (64 bytes). */
module Arena {

  /** `typ` is true for shared memory. The anchor `base` is a free block of size 0. */
  datatype Block = Block(addr: int, size: nat, typ: bool, free: bool)

  datatype Arena = Nil | Cons(head: Block, tail: Arena)

  /** A header takes a unit even when the block is empty. */
  function Span(b: Block): nat {
    if b.size == 0 then 1 else b.size
  }

  function EndOf(b: Block): int {
    b.addr + b.size
  }

  /** Two free blocks that should be one. */
  predicate Twins(x: Block, y: Block) {
    x.free && y.free && x.typ == y.typ && EndOf(x) == y.addr
  }

  /** In address order, no two blocks overlapping. */
  predicate Sorted(l: Arena) {
    l.Cons? && l.tail.Cons? ==> l.head.addr + Span(l.head) <= l.tail.head.addr && Sorted(l.tail)
  }

  predicate NoTwins(l: Arena) {
    l.Cons? && l.tail.Cons? ==> !Twins(l.head, l.tail.head) && NoTwins(l.tail)
  }

  function Units(l: Arena): nat {
    if l.Nil? then 0 else l.head.size + Units(l.tail)
  }

  function Append(l: Arena, m: Arena): Arena {
    if l.Nil? then m else Cons(l.head, Append(l.tail, m))
  }

  predicate Has(l: Arena, b: Block) {
    l.Cons? && (l.head == b || Has(l.tail, b))
  }

  /** `x` is below every block of `l`. */
  predicate Below(x: int, l: Arena) {
    l.Cons? ==> x < l.head.addr && Below(x, l.tail)
  }

  lemma {:induction false} SortedBelow(l: Arena)
    requires l.Cons? && Sorted(l)
    ensures Sorted(l.tail) && Below(l.head.addr, l.tail)
    ensures l.tail.Cons? ==> l.head.addr + Span(l.head) <= l.tail.head.addr
  {
    if l.tail.Cons? {
      SortedBelow(l.tail);
      BelowLess(l.head.addr, l.tail.head.addr, l.tail.tail);
    }
  }

  lemma {:induction false} BelowLess(x: int, y: int, l: Arena)
    requires x <= y && Below(y, l)
    ensures Below(x, l)
  {
    if l.Cons? { BelowLess(x, y, l.tail); }
  }

  lemma {:induction false} BelowHas(x: int, l: Arena, b: Block)
    requires Below(x, l) && Has(l, b)
    ensures x < b.addr
  {
    if l.head != b { BelowHas(x, l.tail, b); }
  }

  // ----- free: mark a block free and join it with its neighbours -----

  /** Put a block in front, joined with the first one if they are twins. */
  function Fuse(b: Block, l: Arena): Arena {
    if l.Cons? && Twins(b, l.head) then Cons(b.(size := b.size + l.head.size), l.tail) else Cons(b, l)
  }

  function Release(l: Arena, addr: int): Arena {
    match l
    case Nil => Nil
    case Cons(b, rest) =>
      if b.addr == addr then Fuse(b.(free := true), rest) else Fuse(b, Release(rest, addr))
  }

  lemma FuseKeeps(b: Block, l: Arena)
    requires Sorted(l) && NoTwins(l) && (l.Cons? ==> b.addr + Span(b) <= l.head.addr)
    ensures Sorted(Fuse(b, l)) && NoTwins(Fuse(b, l)) && Units(Fuse(b, l)) == b.size + Units(l)
  {
    if l.Cons? { SortedBelow(l); }
  }

  /** Releasing a block keeps the order, joins all twins and loses no unit. */
  lemma {:induction false} ReleaseKeeps(l: Arena, addr: int)
    requires Sorted(l) && NoTwins(l)
    ensures Sorted(Release(l, addr)) && NoTwins(Release(l, addr)) && Units(Release(l, addr)) == Units(l)
    ensures l.Cons? ==> Release(l, addr).Cons? && Release(l, addr).head.addr == l.head.addr
  {
    if l.Cons? {
      SortedBelow(l);
      ReleaseKeeps(l.tail, addr);
      if l.head.addr != addr {
        FuseKeeps(l.head, Release(l.tail, addr));
      } else {
        FuseKeeps(l.head.(free := true), l.tail);
      }
    }
  }

  // ----- malloc: the front of a free block, or all of it -----

  function Take(l: Arena, addr: int, n: nat): Arena {
    match l
    case Nil => Nil
    case Cons(b, rest) =>
      if b.addr != addr then Cons(b, Take(rest, addr, n))
      else if b.size <= n then Cons(b.(free := false), rest)
      else Cons(Block(addr, n, b.typ, false), Cons(Block(addr + n, b.size - n, b.typ, true), rest))
  }

  lemma {:induction false} TakeKeeps(l: Arena, b: Block, n: nat)
    requires Sorted(l) && NoTwins(l) && Has(l, b) && b.free && 0 < n <= b.size
    ensures Sorted(Take(l, b.addr, n)) && NoTwins(Take(l, b.addr, n)) && Units(Take(l, b.addr, n)) == Units(l)
    ensures Take(l, b.addr, n).Cons? && Take(l, b.addr, n).head.addr == l.head.addr
    ensures l.head != b ==> Take(l, b.addr, n).head == l.head
    ensures l.head == b ==> !Take(l, b.addr, n).head.free
    ensures Has(Take(l, b.addr, n), Block(b.addr, n, b.typ, false))
  {
    SortedBelow(l);
    if l.head != b {
      BelowHas(l.head.addr, l.tail, b);
      TakeKeeps(l.tail, b, n);
    }
  }

  // ----- growth: a new region, allocated at first -----

  function Insert(l: Arena, b: Block): Arena {
    if l.Nil? || b.addr < l.head.addr then Cons(b, l) else Cons(l.head, Insert(l.tail, b))
  }

  /** `b` overlaps no block. */
  predicate Apart(l: Arena, b: Block) {
    l.Cons? ==>
      && (l.head.addr + Span(l.head) <= b.addr || b.addr + Span(b) <= l.head.addr)
      && Apart(l.tail, b)
  }

  lemma {:induction false} InsertKeeps(l: Arena, b: Block)
    requires Sorted(l) && NoTwins(l) && Apart(l, b) && !b.free
    ensures Sorted(Insert(l, b)) && NoTwins(Insert(l, b)) && Units(Insert(l, b)) == Units(l) + b.size
    ensures Insert(l, b).head.addr == if l.Nil? || b.addr < l.head.addr then b.addr else l.head.addr
    ensures Insert(l, b).head.free ==> l.Cons? && Insert(l, b).head == l.head
    ensures Has(Insert(l, b), b)
  {
    if l.Cons? && b.addr >= l.head.addr {
      SortedBelow(l);
      InsertKeeps(l.tail, b);
    }
  }

  // ----- the blocks in use -----

  function Used(l: Arena): set<Block> {
    if l.Nil? then {} else if l.head.free then Used(l.tail) else {l.head} + Used(l.tail)
  }

  lemma {:induction false} UsedHas(l: Arena, b: Block)
    ensures b in Used(l) <==> Has(l, b) && !b.free
  {
    if l.Cons? { UsedHas(l.tail, b); }
  }

  /** Releasing a block touches no other block in use. */
  lemma {:induction false} ReleaseUsed(l: Arena, b: Block)
    requires Sorted(l) && NoTwins(l) && Has(l, b) && !b.free
    ensures Used(Release(l, b.addr)) == Used(l) - {b}
  {
    SortedBelow(l);
    UsedHas(l.tail, b);
    if l.head != b {
      BelowHas(l.head.addr, l.tail, b);
      ReleaseUsed(l.tail, b);
    } else if Has(l.tail, b) {
      BelowHas(l.head.addr, l.tail, b);
    }
  }

  /** Taking a block adds it to those in use and touches no other. */
  lemma {:induction false} TakeUsed(l: Arena, b: Block, n: nat)
    requires Sorted(l) && Has(l, b) && b.free && 0 < n <= b.size
    ensures Used(Take(l, b.addr, n)) == Used(l) + {Block(b.addr, n, b.typ, false)}
    ensures forall c :: c in Used(l) ==> c.addr != b.addr
  {
    SortedBelow(l);
    if l.head != b {
      BelowHas(l.head.addr, l.tail, b);
      TakeUsed(l.tail, b, n);
    } else {
      forall c | c in Used(l.tail) ensures c.addr != b.addr {
        UsedHas(l.tail, c);
        BelowHas(l.head.addr, l.tail, c);
      }
    }
  }

  lemma {:induction false} InsertUsed(l: Arena, b: Block)
    requires !b.free
    ensures Used(Insert(l, b)) == Used(l) + {b}
  {
    if l.Cons? { InsertUsed(l.tail, b); }
  }

  /** No two blocks overlap. */
  lemma {:induction false} HasApart(l: Arena, b: Block, c: Block)
    requires Sorted(l) && Has(l, b) && Has(l, c) && b != c
    ensures b.addr + Span(b) <= c.addr || c.addr + Span(c) <= b.addr
  {
    SortedBelow(l);
    if l.head == b {
      SpanBelow(l, c);
    } else if l.head == c {
      SpanBelow(l, b);
    } else {
      HasApart(l.tail, b, c);
    }
  }

  lemma {:induction false} SpanBelow(l: Arena, b: Block)
    requires l.Cons? && Sorted(l) && Has(l.tail, b)
    ensures l.head.addr + Span(l.head) <= b.addr
  {
    SortedBelow(l);
    if l.tail.head != b {
      SortedBelow(l.tail);
      BelowHas(l.tail.head.addr, l.tail.tail, b);
    }
  }

  // ----- the anchor -----

  /** The anchor is there, and private blocks lie above it: no block can swallow it. */
  predicate Anchored(l: Arena, base: int) {
    Has(l, Anchor(base)) && PrivateAbove(l, base)
  }

  function Anchor(base: int): Block {
    Block(base, 0, false, true)
  }

  predicate PrivateAbove(l: Arena, base: int) {
    l.Cons? ==> (l.head.typ || l.head.addr > base || l.head == Anchor(base)) && PrivateAbove(l.tail, base)
  }

  lemma {:induction false} ReleaseAnchored(l: Arena, base: int, addr: int)
    requires Sorted(l) && NoTwins(l) && PrivateAbove(l, base) && addr != base
    ensures PrivateAbove(Release(l, addr), base)
    ensures Has(l, Anchor(base)) ==> Has(Release(l, addr), Anchor(base))
  {
    if l.Cons? {
      SortedBelow(l);
      ReleaseKeeps(l.tail, addr);
      ReleaseAnchored(l.tail, base, addr);
      if Has(l.tail, Anchor(base)) { BelowHas(l.head.addr, l.tail, Anchor(base)); }
    }
  }

  lemma {:induction false} TakeAnchored(l: Arena, base: int, addr: int, n: nat)
    requires PrivateAbove(l, base) && addr != base
    ensures PrivateAbove(Take(l, addr, n), base)
    ensures Has(l, Anchor(base)) ==> Has(Take(l, addr, n), Anchor(base))
  {
    if l.Cons? { TakeAnchored(l.tail, base, addr, n); }
  }

  lemma {:induction false} InsertAnchored(l: Arena, base: int, b: Block)
    requires PrivateAbove(l, base) && (b.typ || b.addr > base)
    ensures PrivateAbove(Insert(l, b), base)
    ensures Has(l, Anchor(base)) ==> Has(Insert(l, b), Anchor(base))
  {
    if l.Cons? { InsertAnchored(l.tail, base, b); }
  }
}

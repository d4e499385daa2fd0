/** The allocator: malloc_locked, free_locked and the growth of its memory. Sizes
    and addresses count units of one header, 64 bytes; the answers of the kernel
    are arbitrary, and one outside of what it promises counts as a refusal. */
module Malloc {
  import opened Arena
  import opened FreeRing
  import opened FreeStep
  import opened TakeStep
  import opened Places
  import opened ArenaFine

  /** sizeof(header_t) */
  const HEADER: nat := 64

  /** Units for a request of `size` bytes: its bytes rounded up, and a header. */
  function UnitsFor(size: nat): nat {
    (size + HEADER - 1) / HEADER + 1
  }

  /** The test of the search loop. */
  predicate Fits(m: Memory, p: int, n: nat, typ: bool) {
    p in m && m[p].typ == typ && m[p].size >= n
  }

  /** The state of the allocator; `freep` is NULL until the first request. */
  ghost predicate Inv(m: Memory, l: Arena, freep: int, base: int, brk: int, owned: set<int>, obtained: nat) {
    && base > 0 && base in owned
    && if freep == NULL then l == Nil && obtained == 0 && brk == 0
       else Ok(m, l, freep, base) && Fine(l, base, brk, owned) && Units(l) == obtained && l.head.addr > 0
  }

  /** free_locked on a consistent state. */
  lemma ReleaseInv(m: Memory, l: Arena, freep: int, base: int, brk: int,
                   owned: set<int>, obtained: nat, p: int, b: Block)
    requires Inv(m, l, freep, base, brk, owned, obtained) && freep != NULL
    requires FreeAt(l, p) && Has(l, b) && !b.free && p in m && IsPlace(p, m[p].ptr, b.addr)
    ensures b.addr in m && m[p].ptr in m
    ensures Inv(LinkDown(LinkUp(m, b.addr, m[p].ptr), b.addr, p), Release(l, b.addr), p, base, brk, owned, obtained)
  {
    FreeOk(m, l, freep, base, p, b);
    ReleaseKeeps(l, b.addr);
    ReleaseFine(l, b.addr, base, brk, owned);
    FineKnown(Release(l, b.addr), base, brk, owned);
    UsedNotAnchor(l, base, b);
    ReleaseAnchored(l, base, b.addr);
    forall c | Has(l, c) && c.addr == p ensures !Twins(b.(free := true), c) {
      PlaceSurvives(m, l, freep, base, p, b, c);
    }
    ReleaseFreeAt(l, b, p);
    FreeAtPositive(l, p);
  }

  lemma UsedNotAnchor(l: Arena, base: int, b: Block)
    requires Sorted(l) && Has(l, Anchor(base)) && Has(l, b) && !b.free
    ensures b.addr != base
  {
    if b.addr == base {
      var x, k := HasSplit(l, b);
      HasOnly(l, x, b, k, Anchor(base));
    }
  }

  lemma FreeAtPositive(l: Arena, p: int)
    requires Sorted(l) && FreeAt(l, p) && l.head.addr > 0
    ensures p > 0
  {
    SortedBelow(l);
    if !(l.head.free && l.head.addr == p) { FreeAtBelow(l.head.addr, l.tail, p); }
  }

  /** malloc_locked, when the successor of `prevp` fits. */
  lemma TakeInv(m: Memory, l: Arena, freep: int, base: int, brk: int, owned: set<int>, obtained: nat,
                prevp: int, p: int, n: nat)
    requires Inv(m, l, freep, base, brk, owned, obtained) && freep != NULL
    requires FreeAt(l, prevp) && prevp in m && m[prevp].ptr == p && p in m && m[p].size >= n > 0
    ensures Inv(Unlink(m, prevp, p, n), Take(l, p, n), prevp, base, brk, owned, obtained)
    ensures Has(Take(l, p, n), Block(p, n, m[p].typ, false))
  {
    var b := TakeOk(m, l, freep, base, prevp, p, n);
    TakeKeeps(l, b, n);
    TakeFine(l, p, n, base, brk, owned);
    FineKnown(Take(l, p, n), base, brk, owned);
    TakeAnchored(l, base, p, n);
    TakeFreeAt(l, p, n, prevp);
    FreeAtPositive(l, prevp);
  }

  /** A new region, entered as a block in use. */
  lemma InsertInv(m: Memory, l: Arena, freep: int, base: int, brk: int, owned: set<int>, obtained: nat,
                  b: Block, h: Header,
                  brk': int, owned': set<int>)
    requires Inv(m, l, freep, base, brk, owned, obtained) && freep != NULL
    requires !b.free && b.size > 0 && b.addr > 0 && h.size == b.size && h.typ == b.typ
    requires forall u :: b.addr <= u < b.addr + b.size ==> u !in owned && u in owned'
    requires b.typ || (b.addr > base && b.addr + b.size <= brk')
    requires brk <= brk' && owned <= owned'
    ensures Inv(m[b.addr := h], Insert(l, b), freep, base, brk', owned', obtained + b.size)
    ensures Has(Insert(l, b), b) && Misses(b.addr, l)
  {
    FreshApart(l, b, base, brk, owned);
    InsertKeeps(l, b);
    FineGrows(l, base, brk, owned, brk', owned');
    InsertFine(l, b, base, brk', owned');
    FineKnown(Insert(l, b), base, brk', owned');
    InsertAnchored(l, base, b);
    InsertFreeAt(l, b, freep);
    var f := First(l, NULL);
    SameRefl(m, l, f);
    SameUpdate(m, m, l, b.addr, h);
    LinkedSame(m, m[b.addr := h], l, f);
    InsertLinked(m[b.addr := h], l, b, f);
    InsertFirst(l, b);
  }

  lemma {:induction false} InsertFirst(l: Arena, b: Block)
    requires !b.free
    ensures First(Insert(l, b), NULL) == First(l, NULL)
  {
    if l.Cons? { InsertFirst(l.tail, b); }
  }

  // ----- one lap of the ring -----

  lemma {:induction false} FirstLeast(l: Arena, after: int, f: int)
    requires Sorted(l) && FreeAt(l, f)
    ensures !NoFree(l) && First(l, after) <= f
  {
    if !l.head.free {
      FirstLeast(l.tail, after, f);
    } else if l.head.addr != f {
      SortedBelow(l);
      FreeAtBelow(l.head.addr, l.tail, f);
    }
  }

  /** The free list passes no free block by. */
  lemma Toward(m: Memory, l: Arena, p: int, f: int)
    requires Ring(m, l) && Sorted(l) && FreeAt(l, p) && FreeAt(l, f)
    ensures p in m && FreeAt(l, m[p].ptr)
    ensures p < f ==> p < m[p].ptr <= f
    ensures m[p].ptr > p || m[p].ptr <= f
  {
    var a, b, k := SplitAt(l, p);
    Successor(m, l, p, a, b, k);
    FreeAtAppend(a, Cons(b, k), f);
    SortedAppend(a, b, k);
    SortedBelow(Cons(b, k));
    SortedPrefix(a, Cons(b, k));
    if FreeAt(a, f) {
      FirstLeast(a, p, f);
      var c := FreeAtHas(a, f);
    } else if FreeAt(k, f) {
      FirstLeast(k, First(l, NULL), f);
    }
  }

  lemma {:induction false} SortedPrefix(a: Arena, k: Arena)
    requires Sorted(Append(a, k))
    ensures Sorted(a)
  {
    if a.Cons? && a.tail.Cons? { SortedPrefix(a.tail, k); }
  }

  // ----- what the search cannot miss -----

  /** A free block that would do. */
  predicate AnyFits(l: Arena, n: nat, typ: bool) {
    l.Cons? && ((l.head.free && l.head.typ == typ && l.head.size >= n) || AnyFits(l.tail, n, typ))
  }

  lemma {:induction false} FittingBlock(l: Arena, n: nat, typ: bool) returns (b: Block)
    requires AnyFits(l, n, typ)
    ensures Has(l, b) && b.free && b.typ == typ && b.size >= n && FreeAt(l, b.addr)
  {
    if l.head.free && l.head.typ == typ && l.head.size >= n {
      b := l.head;
    } else {
      b := FittingBlock(l.tail, n, typ);
    }
  }

  lemma {:induction false} BlockFits(l: Arena, n: nat, typ: bool, b: Block)
    requires Has(l, b) && b.free && b.typ == typ && b.size >= n
    ensures AnyFits(l, n, typ)
  {
    if l.head != b { BlockFits(l.tail, n, typ, b); }
  }

  /** The test of the loop finds one, if there is one. */
  lemma FittingHeader(m: Memory, l: Arena, n: nat, typ: bool) returns (f: int)
    requires Ring(m, l) && Sorted(l) && AnyFits(l, n, typ)
    ensures FreeAt(l, f) && Fits(m, f, n, typ)
  {
    var b := FittingBlock(l, n, typ);
    f := b.addr;
    var x, k := HasSplit(l, b);
    var c := FreeHeader(m, l, f);
    HasOnly(l, x, b, k, c);
  }

  lemma HeaderFits(m: Memory, l: Arena, n: nat, typ: bool, p: int)
    requires Ring(m, l) && Sorted(l) && FreeAt(l, p) && Fits(m, p, n, typ)
    ensures AnyFits(l, n, typ)
  {
    var b := FreeHeader(m, l, p);
    BlockFits(l, n, typ, b);
  }

  /** The walk that started behind `from` and is at `p` has not passed `f`. */
  predicate Ahead(from: int, p: int, f: int) {
    if p > from then f >= p || f <= from else p <= f <= from
  }

  lemma AheadStart(m: Memory, l: Arena, from: int, f: int)
    requires Ring(m, l) && Sorted(l) && FreeAt(l, from) && FreeAt(l, f)
    ensures from in m && Ahead(from, m[from].ptr, f)
  {
    Toward(m, l, from, f);
  }

  lemma AheadStep(m: Memory, l: Arena, from: int, p: int, f: int)
    requires Ring(m, l) && Sorted(l) && FreeAt(l, from) && FreeAt(l, p) && FreeAt(l, f)
    requires Ahead(from, p, f) && p != from && p != f
    ensures p in m && Ahead(from, m[p].ptr, f)
  {
    Toward(m, l, p, f);
    Toward(m, l, p, from);
  }

  // ----- growth -----

  /** What the kernel answers to the calls of one growth: the break that is found first and
      the break that is set, or the place and size of shared memory. */
  datatype Answer = Answer(first: int, top: int, addr: int, size: nat)

  /** The answer to a growth; a missing one is a refusal. */
  function AnswerAt(answers: seq<Answer>, k: nat): Answer {
    if k < |answers| then answers[k] else Answer(0, 0, 0, 0)
  }

  /** The answer gives memory, within what the kernel promises. */
  predicate Gives(m: Memory, owned: set<int>, brk: int, base: int, a: Answer, nu: nat, typ: bool) {
    if typ then
      && a.addr > 0 && a.size >= nu && !(a.addr + a.size in m && m[a.addr + a.size].typ)
      && !exists u :: a.addr <= u < a.addr + a.size && u in owned
    else
      brk > base && a.top >= brk + nu && !exists u :: brk <= u < a.top && u in owned
  }

  function Interval(a: int, n: nat): (r: set<int>)
    ensures forall u :: u in r <==> a <= u < a + n
    decreases n
  {
    if n == 0 then {} else {a} + Interval(a + 1, n - 1)
  }

  /** What the kernel may hand out: memory not yet owned, at the break or, for shared memory,
      not right below a block of shared memory. */
  ghost predicate Offered(m: Memory, owned: set<int>, brk: int, base: int, addr: int, size: nat, typ: bool) {
    && (forall u :: addr <= u < addr + size ==> u !in owned)
    && if typ then addr + size in m ==> !m[addr + size].typ else addr == brk > base
  }

  /** No free block could be joined above `b`. */
  ghost predicate EndClear(l: Arena, b: Block) {
    forall c :: Has(l, c) ==> !Twins(b.(free := true), c)
  }

  lemma {:induction false} BrkClear(l: Arena, b: Block, base: int, brk: int, owned: set<int>)
    requires Fine(l, base, brk, owned) && !b.typ && b.addr + b.size == brk > base
    ensures EndClear(l, b)
  {
    if l.Cons? { BrkClear(l.tail, b, base, brk, owned); }
  }

  lemma {:induction false} ShmemClear(m: Memory, l: Arena, after: int, b: Block)
    requires Linked(m, l, after) && b.typ && (b.addr + b.size in m ==> !m[b.addr + b.size].typ)
    ensures EndClear(l, b)
  {
    if l.Cons? { ShmemClear(m, l.tail, after, b); }
  }

  /** The region just freed at `bp`, behind the free block `p`, makes `p` or its successor
      fit, and a fitting successor of any other free block stays. */
  lemma GrownFits(m: Memory, bp: int, p: int, q: int, n: nat, typ: bool)
    requires bp in m && p in m && m[p].ptr in m && q in m && Fits(m, bp, n, typ)
    requires p != bp && q != bp && m[p].ptr != bp && m[q].ptr != bp
    requires !(m[m[p].ptr].typ == typ && bp + m[bp].size == m[p].ptr)
    ensures var m' := LinkDown(LinkUp(m, bp, m[p].ptr), bp, p);
            && p in m' && (Fits(m', p, n, typ) || Fits(m', m'[p].ptr, n, typ))
            && q in m' && (Fits(m, m[q].ptr, n, typ) ==> Fits(m', m'[q].ptr, n, typ))
  {
  }

  /** The header of a free block. */
  lemma FreeHeader(m: Memory, l: Arena, p: int) returns (b: Block)
    requires Ring(m, l) && Sorted(l) && FreeAt(l, p)
    ensures Has(l, b) && b.free && b.addr == p && p in m && FreeAt(l, m[p].ptr)
    ensures m[p].size == b.size && m[p].typ == b.typ
  {
    var a, c, k := SplitAt(l, p);
    Successor(m, l, p, a, c, k);
    HasAppend(a, c, k);
    b := c;
  }

  /** Freeing a region that no free block can be joined above. */
  lemma GrowthFits(m: Memory, l: Arena, b: Block, p: int, q: int, n: nat)
    requires Ring(m, l) && Sorted(l) && NoTwins(l) && Has(l, b) && !b.free && EndClear(l, b)
    requires Fits(m, b.addr, n, b.typ) && m[b.addr].size == b.size
    requires FreeAt(l, p) && FreeAt(l, q)
    ensures FreeAt(Release(l, b.addr), q)
    ensures p in m && q in m && m[p].ptr in m
    ensures var m' := LinkDown(LinkUp(m, b.addr, m[p].ptr), b.addr, p);
            && p in m' && (Fits(m', p, n, b.typ) || Fits(m', m'[p].ptr, n, b.typ))
            && q in m' && (Fits(m, m[q].ptr, n, b.typ) ==> Fits(m', m'[q].ptr, n, b.typ))
  {
    ReleaseFreeAt(l, b, q);
    var cp := FreeHeader(m, l, p);
    var cq := FreeHeader(m, l, q);
    var next := FreeHeader(m, l, m[p].ptr);
    UsedNotFree(l, b, p);
    UsedNotFree(l, b, q);
    UsedNotFree(l, b, m[p].ptr);
    UsedNotFree(l, b, m[q].ptr);
    assert !Twins(b.(free := true), next);
    GrownFits(m, b.addr, p, q, n, b.typ);
  }

  // ----- where the region goes -----

  /** free_locked put the block `bp` behind the free block `p`. */
  predicate Freed(m: Memory, l: Arena, m': Memory, l': Arena, bp: int, p: int) {
    && FreeAt(l, p) && p in m && m[p].ptr in m && bp in m && IsPlace(p, m[p].ptr, bp)
    && m' == LinkDown(LinkUp(m, bp, m[p].ptr), bp, p) && l' == Release(l, bp)
  }

  /** The region at `addr` went behind the free block `p`: it was joined with it, or it is the
      next free block and all others are what they were. */
  ghost predicate WentBehind(m: Memory, l: Arena, m': Memory, l': Arena, addr: int, p: int, n: nat, typ: bool) {
    && FreeAt(l, p) && p in m && p in m' && IsPlace(p, m[p].ptr, addr)
    && if m[p].typ == typ && p + m[p].size == addr then Fits(m', p, n, typ)
       else m'[p].ptr == addr && forall q | FreeAt(l', q) && q != addr ::
              FreeAt(l, q) && q in m && q in m' && m'[q].size == m[q].size && m'[q].typ == m[q].typ
  }

  lemma {:induction false} ReleaseFreeOnly(l: Arena, addr: int, q: int)
    requires FreeAt(Release(l, addr), q)
    ensures FreeAt(l, q) || q == addr
  {
    if l.head.addr != addr && FreeAt(Release(l.tail, addr), q) { ReleaseFreeOnly(l.tail, addr, q); }
  }

  lemma {:induction false} InsertFreeOnly(l: Arena, b: Block, q: int)
    requires FreeAt(Insert(l, b), q) && !b.free
    ensures FreeAt(l, q)
  {
    if l.Cons? && b.addr >= l.head.addr && !(l.head.free && l.head.addr == q) { InsertFreeOnly(l.tail, b, q); }
  }

  /** A new region, entered as a block in use and then freed. */
  lemma RegionWent(m: Memory, l: Arena, m1: Memory, m': Memory, l': Arena, b: Block, p: int, n: nat)
    requires Ring(m, l) && Sorted(l) && Misses(b.addr, l) && !b.free && b.size >= n
    requires b.addr in m1 && m1 == m[b.addr := m1[b.addr]] && m1[b.addr].size == b.size && m1[b.addr].typ == b.typ
    requires Freed(m1, Insert(l, b), m', l', b.addr, p)
    ensures WentBehind(m, l, m', l', b.addr, p, n, b.typ)
  {
    InsertFreeOnly(l, b, p);
    Next(m, l, p);
    MissesFreeAt(b.addr, l, p);
    MissesFreeAt(b.addr, l, m[p].ptr);
    if !(m[p].typ == b.typ && p + m[p].size == b.addr) {
      forall q | FreeAt(l', q) && q != b.addr
        ensures FreeAt(l, q) && q in m && q in m' && m'[q].size == m[q].size && m'[q].typ == m[q].typ
      {
        ReleaseFreeOnly(Insert(l, b), b.addr, q);
        InsertFreeOnly(l, b, q);
        Next(m, l, q);
      }
    }
  }

  /** No two free blocks have the same successor. */
  lemma SuccessorUnique(m: Memory, l: Arena, p: int, q: int)
    requires Ring(m, l) && Sorted(l) && FreeAt(l, p) && FreeAt(l, q)
    ensures p in m && q in m && (m[p].ptr == m[q].ptr ==> p == q)
  {
    Toward(m, l, p, q);
    Toward(m, l, q, p);
  }

  /** If nothing fitted before, only the region does. */
  lemma OnlyRegionFits(m: Memory, l: Arena, m': Memory, l': Arena, addr: int, p: int, n: nat, typ: bool, q: int)
    requires WentBehind(m, l, m', l', addr, p, n, typ) && Ring(m, l) && Sorted(l) && !AnyFits(l, n, typ)
    requires !Fits(m', p, n, typ) && FreeAt(l', q) && Fits(m', q, n, typ)
    ensures q == addr == m'[p].ptr
  {
    if q != addr { HeaderFits(m, l, n, typ, q); }
  }

  /** The fields of the allocator at one time. */
  datatype State = State(mem: Memory, arena: Arena, freep: int, brk: int, owned: set<int>, obtained: nat)

  class Heap {
    const base: int
    var mem: Memory
    var freep: int
    var brk: int
    var owned: set<int>
    ghost var arena: Arena
    ghost var obtained: nat

    ghost predicate Valid()
      reads this
    {
      Inv(mem, arena, freep, base, brk, owned, obtained)
    }

    /** A heap that is in use. */
    constructor In(anchor: int, s: State)
      requires Inv(s.mem, s.arena, s.freep, anchor, s.brk, s.owned, s.obtained)
      ensures Valid() && base == anchor && Now() == s
    {
      base, mem, freep, brk, owned := anchor, s.mem, s.freep, s.brk, s.owned;
      arena, obtained := s.arena, s.obtained;
    }

    constructor (anchor: int)
      requires anchor > 0
      ensures Valid() && arena == Nil && obtained == 0
    {
      base, mem, freep, brk, owned := anchor, map[], NULL, 0, {anchor};
      arena, obtained := Nil, 0;
    }

    /** The search loop of free_locked. */
    method FindPlace(bp: int, ghost b: Block) returns (p: int)
      requires Valid() && freep != NULL && Has(arena, b) && !b.free && b.addr == bp
      ensures FreeAt(arena, p) && p in mem && IsPlace(p, mem[p].ptr, bp)
    {
      p := freep;
      ghost var wrapped := false;
      Next(mem, arena, p);
      while !(p < bp < mem[p].ptr)
        invariant FreeAt(arena, p) && p in mem && FreeAt(arena, mem[p].ptr)
        invariant wrapped ==> p < bp
        decreases !wrapped, CountFrom(arena, p)
      {
        if p >= mem[p].ptr && (bp > p || bp < mem[p].ptr) {
          break;
        }
        UsedNotFree(arena, b, mem[p].ptr);
        if mem[p].ptr > p { CountFalls(arena, p, mem[p].ptr); } else { wrapped := true; }
        p := mem[p].ptr;
        Next(mem, arena, p);
      }
    }

    /** free_locked: the block is joined with its free neighbours. */
    method Free(ap: int, ghost b: Block) returns (ghost p: int)
      requires Valid() && b in Used(arena) && b.addr == ap - 1
      modifies this
      ensures Valid() && freep != NULL && arena == Release(old(arena), ap - 1)
      ensures obtained == old(obtained) && owned == old(owned) && brk == old(brk)
      ensures Used(arena) == Used(old(arena)) - {b}
      ensures FreeAt(old(arena), p) && p in old(mem) && old(mem)[p].ptr in old(mem) && ap - 1 in old(mem)
      ensures freep == p && mem == LinkDown(LinkUp(old(mem), ap - 1, old(mem)[p].ptr), ap - 1, p)
      ensures IsPlace(p, old(mem)[p].ptr, ap - 1)
    {
      var bp := ap - 1;
      UsedHas(arena, b);
      var q := FindPlace(bp, b);
      p := q;
      ReleaseInv(mem, arena, freep, base, brk, owned, obtained, q, b);
      var next := mem[q].ptr;
      mem := LinkUp(mem, bp, next);
      mem := LinkDown(mem, bp, q);
      freep := q;
      arena := Release(arena, bp);
      FreeAtPositive(old(arena), q);
      ReleaseUsed(old(arena), b);
    }

    /** The answer of the kernel: to morecore_brk_locked a region at the break, to
        morecore_shmem_locked one anywhere, taken not to end right below a block of shared
        memory. */
    method Ask(nu: nat, typ: bool, a: Answer) returns (addr: int, size: nat)
      requires Valid() && freep != NULL && nu > 0
      modifies this`brk
      ensures Valid() && (size == 0 <==> !Gives(mem, owned, brk, base, a, nu, typ))
      ensures old(brk) != 0 ==> brk == old(brk)
      ensures size > 0 && !typ ==> addr == brk
      ensures size > 0 ==> size >= nu && addr > 0 && Offered(mem, owned, brk, base, addr, size, typ)
    {
      if !typ && brk == 0 && a.first > base {
        FineGrows(arena, base, brk, owned, a.first, owned);
        brk := a.first;
      }
      if !Gives(mem, owned, brk, base, a, nu, typ) {
        return 0, 0;
      }
      if typ {
        return a.addr, a.size;
      }
      return brk, a.top - brk;
    }

    /** The header of a new region is written: a block in use. */
    method EnterRegion(addr: int, size: nat, typ: bool, ghost q: int)
      requires Valid() && freep != NULL && addr > 0 && size > 0
      requires FreeAt(arena, q) && Offered(mem, owned, brk, base, addr, size, typ)
      modifies this
      ensures Valid() && freep == old(freep) && arena == Insert(old(arena), Block(addr, size, typ, false))
      ensures obtained == old(obtained) + size && Misses(addr, old(arena))
      ensures Fits(mem, addr, size, typ) && mem[addr].size == size
      ensures Has(arena, Block(addr, size, typ, false)) && EndClear(arena, Block(addr, size, typ, false))
      ensures Used(old(arena)) == Used(arena) - {Block(addr, size, typ, false)}
      ensures addr in mem && mem == old(mem)[addr := mem[addr]]
      ensures Block(addr, size, typ, false) in Used(arena)
      ensures FreeAt(arena, q) && q in mem && q in old(mem) && mem[q] == old(mem)[q]
      ensures var r := mem[q].ptr; r in mem && r in old(mem) && mem[r] == old(mem)[r]
    {
      var h: Header := *;
      h := h.(size := size, typ := typ);
      ghost var b := Block(addr, size, typ, false);
      var region := Interval(addr, size);
      var end := if typ then brk else addr + size;
      InsertInv(mem, arena, freep, base, brk, owned, obtained, b, h, end, owned + region);
      InsertFreeAt(arena, b, q);
      InsertUsed(arena, b);
      MissesUsed(arena, b);
      Next(mem, arena, q);
      Next(mem, arena, mem[q].ptr);
      MissesFreeAt(addr, arena, q);
      MissesFreeAt(addr, arena, mem[q].ptr);
      mem, brk, owned := mem[addr := h], end, owned + region;
      arena, obtained := Insert(arena, b), obtained + size;
      if typ { ShmemClear(mem, arena, First(arena, NULL), b); } else { BrkClear(arena, b, base, brk, owned); }
    }

    /** Freeing the new region makes room for `nu` units, here or at the next free block. */
    method FreeRegion(addr: int, nu: nat, ghost b: Block, ghost q: int)
      requires Valid() && freep != NULL && b in Used(arena) && b.addr == addr && EndClear(arena, b)
      requires Fits(mem, addr, nu, b.typ) && mem[addr].size == b.size && FreeAt(arena, q) && q in mem
      modifies this
      ensures Valid() && freep != NULL && Used(arena) == Used(old(arena)) - {b} && obtained == old(obtained)
      ensures FreeAt(arena, q) && q in mem && FreeAt(arena, freep) && freep in mem
      ensures Fits(mem, freep, nu, b.typ) || Fits(mem, mem[freep].ptr, nu, b.typ)
      ensures Fits(old(mem), old(mem)[q].ptr, nu, b.typ) ==> Fits(mem, mem[q].ptr, nu, b.typ)
      ensures Freed(old(mem), old(arena), mem, arena, addr, freep)
    {
      UsedHas(arena, b);
      ghost var m, l := mem, arena;
      ghost var p := Free(addr + 1, b);
      GrowthFits(m, l, b, p, q, nu);
    }

    /** The region joins the ring as one more freed block. Whatever `q` is free before stays
        free, and so does a fitting successor of it. */
    method Grow(nu: nat, typ: bool, a: Answer, ghost q: int) returns (ok: bool, ghost addr: int)
      requires Valid() && freep != NULL && nu > 0 && FreeAt(arena, q) && q in mem
      modifies this
      ensures Valid() && freep != NULL && Used(arena) == Used(old(arena)) && obtained >= old(obtained)
      ensures !ok ==> arena == old(arena) && mem == old(mem) && obtained == old(obtained) && freep == old(freep)
      ensures !ok ==> owned == old(owned) && (old(brk) != 0 ==> brk == old(brk))
      ensures !ok ==> !Gives(mem, owned, brk, base, a, nu, typ)
      ensures ok ==> a.top > 0 || a.addr > 0
      ensures ok ==> WentBehind(old(mem), old(arena), mem, arena, addr, freep, nu, typ)
      ensures ok && !typ && old(brk) != 0 ==> addr == old(brk)
      ensures ok ==> FreeAt(arena, q) && q in mem && FreeAt(arena, freep) && freep in mem
      ensures ok ==> Fits(mem, freep, nu, typ) || Fits(mem, mem[freep].ptr, nu, typ)
      ensures ok && Fits(old(mem), old(mem)[q].ptr, nu, typ) ==> Fits(mem, mem[q].ptr, nu, typ)
    {
      var at, size := Ask(nu, typ, a);
      addr := at;
      if size == 0 {
        return false, at;
      }
      EnterRegion(at, size, typ, q);
      ghost var m1 := mem;
      FreeRegion(at, nu, Block(at, size, typ, false), q);
      RegionWent(old(mem), old(arena), m1, mem, arena, Block(at, size, typ, false), freep, nu);
      return true, at;
    }

    /** The first request puts the anchor alone on the ring. */
    method Start(ghost n: nat, ghost typ: bool)
      requires Valid() && n > 0
      modifies this
      ensures Valid() && freep != NULL && Used(arena) == Used(old(arena)) && obtained == old(obtained)
      ensures FreeAt(arena, freep) && AnyFits(arena, n, typ) == AnyFits(old(arena), n, typ)
      ensures if old(freep) == NULL then freep == base else Now() == old(Now())
    {
      if freep == NULL {
        StartInv(mem, base, owned);
        mem, freep := mem[base := Header(base, 0, false)], base;
        arena := Cons(Anchor(base), Nil);
      }
    }

    /** The fitting successor of `prevp` leaves the ring, or its front does. */
    method Carve(prevp: int, p: int, n: nat)
      requires Valid() && freep != NULL && n > 0
      requires FreeAt(arena, prevp) && prevp in mem && mem[prevp].ptr == p && p in mem && mem[p].size >= n
      modifies this
      ensures Valid() && obtained == old(obtained) && p > 0
      ensures Used(arena) == Used(old(arena)) + {Block(p, n, old(mem)[p].typ, false)}
      ensures forall c :: c in Used(old(arena)) ==> c.addr != p
    {
      Next(mem, arena, prevp);
      ghost var b := FreeHeader(mem, arena, p);
      FreeAtPositive(arena, p);
      TakeInv(mem, arena, freep, base, brk, owned, obtained, prevp, p, n);
      TakeUsed(arena, b, n);
      mem := Unlink(mem, prevp, p, n);
      freep := prevp;
      arena := Take(arena, p, n);
    }

    ghost function Now(): State
      reads this
    {
      State(mem, arena, freep, brk, owned, obtained)
    }

    /** The search that began in state `o` stands at `p`, behind `prevp`. Before the first
        growth no block that would do has been passed, after the first one does at `freep` or
        next, after the second here. */
    ghost predicate Searching(o: State, n: nat, typ: bool, prevp: int, p: int, grown: nat, f: int)
      reads this
    {
      && Valid() && freep != NULL && FreeAt(arena, freep) && freep in mem && grown <= 2
      && Used(arena) == Used(o.arena) && obtained >= o.obtained
      && FreeAt(arena, prevp) && prevp in mem && mem[prevp].ptr == p && FreeAt(arena, p) && p in mem
      && (AnyFits(o.arena, n, typ) ==> grown == 0 && FreeAt(arena, f) && Fits(mem, f, n, typ) && Ahead(freep, p, f))
      && (grown == 0 ==> Now() == o)
      && (grown == 1 ==> Fits(mem, freep, n, typ) || Fits(mem, mem[freep].ptr, n, typ))
      && (grown == 2 ==> Fits(mem, p, n, typ))
    }

    /** After one growth: where the region went, and that the search does not come to it before
        it comes to `freep`, unless it began there. */
    ghost predicate Again(o: State, n: nat, typ: bool, prevp: int, addr: int)
      reads this
    {
      && WentBehind(o.mem, o.arena, mem, arena, addr, freep, n, typ)
      && (!typ && o.brk != 0 ==> addr == o.brk)
      && (prevp == freep ==> freep == o.freep)
      && (freep == o.freep && !Fits(mem, freep, n, typ) ==> prevp == freep)
    }

    /** The test of the loop failed, at a place other than `freep`. */
    lemma WalkOn(o: State, n: nat, typ: bool, prevp: int, p: int, grown: nat, f: int, addr: int)
      requires Searching(o, n, typ, prevp, p, grown, f) && !Fits(mem, p, n, typ) && p != freep
      requires grown == 1 ==> Again(o, n, typ, prevp, addr)
      ensures Searching(o, n, typ, p, mem[p].ptr, grown, f) && (grown == 1 ==> Again(o, n, typ, p, addr))
      ensures p > freep ==> mem[p].ptr <= freep || CountFrom(arena, mem[p].ptr) < CountFrom(arena, p)
      ensures p < freep ==> mem[p].ptr <= freep && CountFrom(arena, mem[p].ptr) < CountFrom(arena, p)
    {
      Toward(mem, arena, p, freep);
      Next(mem, arena, mem[p].ptr);
      if AnyFits(o.arena, n, typ) { AheadStep(mem, arena, freep, p, f); }
      if mem[p].ptr > p { CountFalls(arena, p, mem[p].ptr); }
    }

    /** The test failed at `freep`: the memory grows, or the search fails. */
    method GrowHere(ghost o: State, n: nat, typ: bool, a: Answer, ghost prevp: int, p: int,
                    ghost grown: nat, ghost f: int)
      returns (ok: bool, ghost addr: int)
      requires Searching(o, n, typ, prevp, p, grown, f) && !Fits(mem, p, n, typ) && p == freep && n > 0
      modifies this
      ensures ok ==> grown < 2 && p in mem && Searching(o, n, typ, p, mem[p].ptr, grown + 1, f)
      ensures ok && grown == 0 ==> Again(o, n, typ, p, addr)
      ensures ok ==> a.top > 0 || a.addr > 0
      ensures !ok ==> Now() == old(Now()).(brk := brk) && (old(brk) != 0 ==> brk == old(brk)) && Valid()
      ensures !ok ==> !Gives(mem, owned, brk, base, a, n, typ)
      ensures !AnyFits(o.arena, n, typ)
    {
      Next(mem, arena, p);
      ok, addr := Grow(n, typ, a, p);
      if ok {
        Next(mem, arena, p);
        Next(mem, arena, mem[p].ptr);
      }
    }

    /** The loop of malloc_locked. After one growth it succeeds exactly when the region was
        joined with the free block below it or went where the search began: otherwise it
        comes to `freep` first and asks again. */
    method Search(n: nat, typ: bool, answers: seq<Answer>)
      returns (ok: bool, prevp: int, p: int, grown: nat, ghost addr: int)
      requires Valid() && freep != NULL && FreeAt(arena, freep) && n > 0
      modifies this
      ensures Valid() && freep != NULL && Used(arena) == Used(old(arena)) && obtained >= old(obtained)
      ensures grown <= 2 && grown <= |answers| && (grown == 0 ==> Now() == old(Now()).(brk := brk))
      ensures AnyFits(old(arena), n, typ) <==> ok && grown == 0
      ensures ok ==> FreeAt(arena, prevp) && prevp in mem && mem[prevp].ptr == p && Fits(mem, p, n, typ)
      ensures !ok ==> grown < 2 && !Gives(mem, owned, brk, base, AnswerAt(answers, grown), n, typ)
      ensures !ok ==> (AnyFits(arena, n, typ) <==> grown == 1)
      ensures grown == 0 && old(brk) != 0 ==> brk == old(brk)
      ensures grown == 1 ==> WentBehind(old(mem), old(arena), mem, arena, addr, freep, n, typ)
      ensures grown == 1 && !typ && old(brk) != 0 ==> addr == old(brk)
      ensures grown == 1 ==> (ok <==> Fits(mem, freep, n, typ) || freep == old(freep))
    {
      ghost var o, f := Now(), freep;
      if AnyFits(arena, n, typ) { f := FittingHeader(mem, arena, n, typ); }
      AheadStart(mem, arena, freep, f);
      Next(mem, arena, freep);
      grown, addr, prevp, p := 0, NULL, freep, mem[freep].ptr;
      Next(mem, arena, p);
      while !(mem[p].typ == typ && mem[p].size >= n)
        invariant Searching(o, n, typ, prevp, p, grown, f) && grown <= |answers|
        invariant grown == 1 ==> Again(o, n, typ, prevp, addr)
        decreases 2 - grown, p > freep, CountFrom(arena, p)
      {
        if p == freep {
          ghost var at;
          ok, at := GrowHere(o, n, typ, AnswerAt(answers, grown), prevp, p, grown, f);
          if !ok {
            if grown == 1 { GrownAny(mem, arena, n, typ, freep); }
            return;
          }
          grown, addr := grown + 1, at;
        } else {
          WalkOn(o, n, typ, prevp, p, grown, f, addr);
        }
        prevp, p := p, mem[p].ptr;
      }
      if grown == 0 { HeaderFits(mem, arena, n, typ, p); }
      if grown == 1 { OnceEnough(o, n, typ, prevp, p, addr, f); }
      ok := true;
    }

    /** Found after one growth. */
    lemma OnceEnough(o: State, n: nat, typ: bool, prevp: int, p: int, addr: int, f: int)
      requires Searching(o, n, typ, prevp, p, 1, f) && Again(o, n, typ, prevp, addr) && Fits(mem, p, n, typ)
      requires Ring(o.mem, o.arena) && Sorted(o.arena)
      ensures Fits(mem, freep, n, typ) || freep == o.freep
    {
      if !Fits(mem, freep, n, typ) {
        OnlyRegionFits(o.mem, o.arena, mem, arena, addr, freep, n, typ, p);
        SuccessorUnique(mem, arena, prevp, freep);
      }
    }

    /** malloc_locked: a block of exactly the units asked for, after at most two growths. It
        asks for memory exactly when no free block would do, and gives up exactly when the
        kernel refuses: a second growth is asked for although the first region would do. */
    method Malloc(size: nat, typ: bool, answers: seq<Answer>) returns (ap: int, grown: nat)
      requires Valid()
      modifies this
      ensures Valid() && grown <= 2
      ensures obtained >= old(obtained) && (grown == 0 ==> obtained == old(obtained))
      ensures ap == NULL ==> Used(arena) == Used(old(arena))
      ensures ap != NULL ==> Used(arena) == Used(old(arena)) + {Block(ap - 1, UnitsFor(size), typ, false)}
      ensures ap != NULL ==> forall c :: c in Used(old(arena)) ==> c.addr != ap - 1
      ensures AnyFits(old(arena), UnitsFor(size), typ) <==> ap != NULL && grown == 0
      ensures ap == NULL ==> grown < 2 && !Gives(mem, owned, brk, base, AnswerAt(answers, grown), UnitsFor(size), typ)
      ensures ap == NULL ==> (AnyFits(arena, UnitsFor(size), typ) <==> grown == 1)
      ensures ap == NULL && grown == 1 ==>
                !Fits(mem, freep, UnitsFor(size), typ) && freep != if old(freep) == NULL then base else old(freep)
    {
      var n := UnitsFor(size);
      Start(n, typ);
      var ok, prevp, p;
      ghost var addr;
      ok, prevp, p, grown, addr := Search(n, typ, answers);
      if !ok {
        return NULL, grown;
      }
      Carve(prevp, p, n);
      return p + 1, grown;
    }
  }

  /** After a growth some free block would do. */
  lemma GrownAny(m: Memory, l: Arena, n: nat, typ: bool, freep: int)
    requires Ring(m, l) && Sorted(l) && FreeAt(l, freep) && freep in m
    requires Fits(m, freep, n, typ) || Fits(m, m[freep].ptr, n, typ)
    ensures AnyFits(l, n, typ)
  {
    Next(m, l, freep);
    HeaderFits(m, l, n, typ, if Fits(m, freep, n, typ) then freep else m[freep].ptr);
  }

  lemma StartInv(m: Memory, base: int, owned: set<int>)
    requires base > 0 && base in owned
    ensures Inv(m[base := Header(base, 0, false)], Cons(Anchor(base), Nil), base, base, 0, owned, 0)
  {
    AloneOk(m[base := Header(base, 0, false)], Cons(Anchor(base), Nil), base);
  }

  lemma AloneOk(m: Memory, l: Arena, base: int)
    requires l == Cons(Anchor(base), Nil) && base in m && m[base] == Header(base, 0, false)
    ensures Ok(m, l, base, base)
  {
    assert First(l, NULL) == base;
    assert Linked(m, l.tail, base) && First(l.tail, base) == base;
    assert Linked(m, l, base);
    assert PrivateAbove(l.tail, base) && PrivateAbove(l, base);
  }

  lemma UsedNotFree(l: Arena, b: Block, q: int)
    requires Sorted(l) && Has(l, b) && !b.free && FreeAt(l, q)
    ensures b.addr != q
  {
    if b.addr == q {
      var a, pc, k := SplitAt(l, q);
      HasOnly(l, a, pc, k, b);
    }
  }

  lemma {:induction false} MissesUsed(l: Arena, b: Block)
    requires Misses(b.addr, l)
    ensures b !in Used(l)
  {
    if l.Cons? { MissesUsed(l.tail, b); }
  }

  lemma {:induction false} MissesFreeAt(x: int, l: Arena, p: int)
    requires Misses(x, l) && FreeAt(l, p)
    ensures x != p
  {
    if l.head.addr != p || !l.head.free { MissesFreeAt(x, l.tail, p); }
  }

  // ----- whole runs -----

  datatype Request = Alloc(size: nat, typ: bool, answers: seq<Answer>) | GiveBack(i: nat)

  /** The blocks a program holds are exactly the blocks in use, each held once. */
  ghost predicate Held(l: Arena, held: seq<Block>) {
    && (forall b :: b in Used(l) <==> b in held)
    && (forall i, j | 0 <= i < j < |held| :: held[i] != held[j])
  }

  method Serve(h: Heap, r: Request, held: seq<Block>) returns (held': seq<Block>)
    requires h.Valid() && Held(h.arena, held)
    modifies h
    ensures h.Valid() && Held(h.arena, held')
  {
    held' := held;
    match r
    case Alloc(size, typ, answers) =>
      var ap, grown := h.Malloc(size, typ, answers);
      if ap != NULL {
        held' := held + [Block(ap - 1, UnitsFor(size), typ, false)];
      }
    case GiveBack(i) =>
      if i < |held| {
        var b := held[i];
        ghost var p := h.Free(b.addr + 1, b);
        held' := held[..i] + held[i + 1..];
      }
  }

  /** Whatever is requested and given back, in any order: the blocks a program holds are
      the blocks in use, no two of them overlap, and no unit is lost. */
  method Run(h: Heap, requests: seq<Request>) returns (held: seq<Block>)
    requires h.Valid() && Used(h.arena) == {}
    modifies h
    ensures h.Valid() && Held(h.arena, held)
    ensures h.freep != NULL ==> Units(h.arena) == h.obtained
    ensures forall b, c | b in held && c in held && b != c :: b.addr + b.size <= c.addr || c.addr + c.size <= b.addr
  {
    held := [];
    for k := 0 to |requests|
      invariant h.Valid() && Held(h.arena, held)
    {
      held := Serve(h, requests[k], held);
    }
    forall b, c | b in held && c in held && b != c
      ensures b.addr + b.size <= c.addr || c.addr + c.size <= b.addr
    {
      HeldApart(h.arena, b, c);
    }
  }

  lemma HeldApart(l: Arena, b: Block, c: Block)
    requires Sorted(l) && b in Used(l) && c in Used(l) && b != c
    ensures b.addr + b.size <= c.addr || c.addr + c.size <= b.addr
  {
    UsedHas(l, b);
    UsedHas(l, c);
    HasApart(l, b, c);
  }
}

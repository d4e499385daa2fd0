/** A heap on which malloc obtains memory that fits and still gives up. */
module MallocLoss {
  import opened Arena
  import opened FreeRing
  import opened Places
  import opened ArenaFine
  import opened Malloc

  const BASE: int := 10

  /** One unit at 20 is free and the one behind it, up to the break, is in use. The search
      begins at the anchor. */
  const SPENT: State := State(
    map[10 := Header(20, 0, false), 20 := Header(10, 1, false), 21 := Header(NULL, 1, false)],
    Cons(Anchor(10), Cons(Block(20, 1, false, true), Cons(Block(21, 1, false, false), Nil))),
    10, 22, {10, 20, 21}, 2)

  lemma SpentInv()
    ensures Inv(SPENT.mem, SPENT.arena, SPENT.freep, BASE, SPENT.brk, SPENT.owned, SPENT.obtained)
  {
    var m, l := SPENT.mem, SPENT.arena;
    var used := Cons(Block(21, 1, false, false), Nil);
    assert l.tail == Cons(Block(20, 1, false, true), used);
    assert used.tail == Nil && First(used.tail, 10) == 10 && Linked(m, used.tail, 10);
    assert First(used, 10) == 10 && Linked(m, used, 10);
    assert First(l.tail, 10) == 20 && Linked(m, l.tail, 10);
    assert First(l, NULL) == 10 && Ring(m, l);
    assert BlockFine(used.head, BASE, 22, SPENT.owned) && BlockFine(l.tail.head, BASE, 22, SPENT.owned);
    assert Fine(used.tail, BASE, 22, SPENT.owned);
    assert Fine(used, BASE, 22, SPENT.owned);
    assert Fine(l.tail, BASE, 22, SPENT.owned);
    assert Units(used.tail) == 0 && Units(used) == 1 && Units(l.tail) == 2;
    assert PrivateAbove(used.tail, BASE) && PrivateAbove(used, BASE) && PrivateAbove(l.tail, BASE);
  }

  /** Only the anchor and the unit at 20 are free. */
  lemma SpentFree(p: int)
    requires FreeAt(SPENT.arena, p)
    ensures p == 10 || p == 20
  {
    assert FreeAt(SPENT.arena.tail.tail, p) == false;
  }

  lemma SpentFits(n: nat)
    requires n > 1
    ensures !AnyFits(SPENT.arena, n, false)
  {
    assert !AnyFits(SPENT.arena.tail.tail, n, false);
  }

  /** A growth at the break is granted, which gives what is asked for, and a second one is
      refused: the search for `n` units fails with a free block of `n` units in the ring. */
  method GivesUp(n: nat) returns (h: Heap, ok: bool)
    requires n > 1
    ensures h.Valid() && !ok && AnyFits(h.arena, n, false)
  {
    SpentInv();
    SpentFits(n);
    h := new Heap.In(BASE, SPENT);
    var answer := Answer(0, 22 + n, 0, 0);
    var prevp, p, grown;
    ghost var addr;
    ok, prevp, p, grown, addr := h.Search(n, false, [answer]);
    assert Gives(SPENT.mem, SPENT.owned, 22, BASE, answer, n, false);
    assert grown == 1;
    SpentFree(h.freep);
  }
}

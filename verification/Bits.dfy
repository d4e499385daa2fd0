/** Bitwise operations on numbers, for the masks of the module loader. */
module Bits {

  function Pow2(k: nat): nat
    ensures Pow2(k) > 0
  {
    if k == 0 then 1 else 2 * Pow2(k - 1)
  }

  function And(x: nat, y: nat): nat {
    if x == 0 then 0 else (x % 2) * (y % 2) + 2 * And(x / 2, y / 2)
  }

  function Or(x: nat, y: nat): nat
    decreases x + y
  {
    if x == 0 && y == 0 then 0
    else (if x % 2 == 1 || y % 2 == 1 then 1 else 0) + 2 * Or(x / 2, y / 2)
  }

  /** The low `k` bits. */
  function LowBits(x: nat, k: nat): nat {
    if k == 0 then 0 else x % 2 + 2 * LowBits(x / 2, k - 1)
  }

  lemma {:induction false} LowBitsAll(x: nat, k: nat)
    requires x < Pow2(k)
    ensures LowBits(x, k) == x && LowBits(x + Pow2(k), k) == x
  {
    if k > 0 {
      assert (x + Pow2(k)) % 2 == x % 2 && (x + Pow2(k)) / 2 == x / 2 + Pow2(k - 1);
      LowBitsAll(x / 2, k - 1);
    }
  }

  lemma {:induction false} PowersRise(k: nat, w: nat)
    requires k <= w
    ensures Pow2(k) <= Pow2(w)
  {
    if k < w { PowersRise(k, w - 1); }
  }

  lemma {:induction false} Pow2Add(j: nat, k: nat)
    ensures Pow2(j + k) == Pow2(j) * Pow2(k)
  {
    if j > 0 {
      Pow2Add(j - 1, k);
      assert Pow2(j) * Pow2(k) == 2 * (Pow2(j - 1) * Pow2(k));
    }
  }

  /** Halving a remainder by a power of two. */
  lemma HalfRemainder(x: nat, p: nat)
    requires p > 0
    ensures x % (2 * p) == 2 * ((x / 2) % p) + x % 2
  {
    var q, r := (x / 2) / p, (x / 2) % p;
    assert x / 2 == q * p + r;
    assert x == q * (2 * p) + (2 * r + x % 2);
    Unique(x, 2 * p, q, 2 * r + x % 2);
  }

  lemma Unique(x: nat, n: nat, q: nat, r: nat)
    requires n > 0 && x == q * n + r && r < n
    ensures x % n == r
  {
    var d: int := x / n - q;
    var m: int := n;
    assert d * n == (x / n) * n - q * n;
    assert d > 0 ==> d * n >= n;
    assert d < 0 ==> d * n <= -m;
  }

  lemma {:induction false} LowBitsRemainder(x: nat, k: nat)
    ensures LowBits(x, k) == x % Pow2(k)
  {
    if k > 0 {
      LowBitsRemainder(x / 2, k - 1);
      HalfRemainder(x, Pow2(k - 1));
      assert x % Pow2(k) == x % (2 * Pow2(k - 1));
    }
  }

  // ----- masks -----

  lemma AndDouble(x: nat, y: nat)
    ensures And(x, 2 * y) == 2 * And(x / 2, y)
  {
    if x != 0 { assert (2 * y) % 2 == 0 && (2 * y) / 2 == y; }
  }

  /** All ones: nothing is cleared. */
  lemma {:induction false} AndOnes(x: nat, w: nat)
    requires x < Pow2(w)
    ensures And(x, Pow2(w) - 1) == x
  {
    if x != 0 {
      assert (Pow2(w) - 1) % 2 == 1 && (Pow2(w) - 1) / 2 == Pow2(w - 1) - 1;
      AndOnes(x / 2, w - 1);
    }
  }

  /** A mask of high ones clears the low `k` bits of a word of `w` bits. */
  lemma {:induction false} AndHigh(x: nat, w: nat, k: nat)
    requires k <= w && x < Pow2(w)
    ensures Pow2(k) <= Pow2(w) && And(x, Pow2(w) - Pow2(k)) == x - LowBits(x, k)
  {
    PowersRise(k, w);
    if k == 0 {
      AndOnes(x, w);
    } else {
      AndHigh(x / 2, w - 1, k - 1);
      AndDouble(x, Pow2(w - 1) - Pow2(k - 1));
      assert Pow2(w) - Pow2(k) == 2 * (Pow2(w - 1) - Pow2(k - 1));
    }
  }

  /** A mask of low ones keeps the low `k` bits. */
  lemma {:induction false} AndLow(x: nat, k: nat)
    ensures And(x, Pow2(k) - 1) == LowBits(x, k)
  {
    if k == 0 {
      AndNone(x);
    } else {
      assert (Pow2(k) - 1) % 2 == 1 && (Pow2(k) - 1) / 2 == Pow2(k - 1) - 1;
      AndLow(x / 2, k - 1);
    }
  }

  lemma {:induction false} AndNone(x: nat)
    ensures And(x, 0) == 0
  {
    if x != 0 { AndNone(x / 2); }
  }

  lemma {:induction false} AndLess(x: nat, y: nat)
    ensures And(x, y) <= x
  {
    if x != 0 {
      AndLess(x / 2, y / 2);
      assert (x % 2) * (y % 2) <= x % 2 by { assert y % 2 == 0 || y % 2 == 1; }
    }
  }

  lemma {:induction false} OrFits(x: nat, y: nat, w: nat)
    requires x < Pow2(w) && y < Pow2(w)
    ensures Or(x, y) < Pow2(w)
    decreases w
  {
    if x != 0 || y != 0 { OrFits(x / 2, y / 2, w - 1); }
  }

  lemma {:induction false} OrSame(k: nat)
    ensures Or(0, Pow2(k)) == Pow2(k)
  {
    if k > 0 { OrSame(k - 1); } else { assert Or(0, 0) == 0; }
  }

  /** A bit above all bits of `x` is added. */
  lemma {:induction false} OrHigh(x: nat, k: nat)
    requires x < Pow2(k)
    ensures Or(x, Pow2(k)) == x + Pow2(k)
  {
    if k == 0 {
      OrSame(0);
    } else {
      assert Pow2(k) % 2 == 0 && Pow2(k) / 2 == Pow2(k - 1);
      OrHigh(x / 2, k - 1);
    }
  }

  /** Masking the low bits away is rounding down. */
  lemma AndRounds(x: nat, w: nat, k: nat)
    requires k <= w && x < Pow2(w)
    ensures Pow2(k) <= Pow2(w) && And(x, Pow2(w) - Pow2(k)) == x - x % Pow2(k)
  {
    AndHigh(x, w, k);
    LowBitsRemainder(x, k);
  }

  /** A mark above all bits of `x` can be set, tested and removed again. */
  lemma MarkBit(x: nat, k: nat)
    requires x < Pow2(k)
    ensures Or(x, Pow2(k)) == x + Pow2(k)
    ensures And(x, Pow2(k)) == 0 && And(x + Pow2(k), Pow2(k)) == Pow2(k)
    ensures And(x + Pow2(k), Pow2(k) - 1) == x
  {
    OrHigh(x, k);
    LowBitsAll(x, k);
    AndHigh(x, k + 1, k);
    AndHigh(x + Pow2(k), k + 1, k);
    AndLow(x + Pow2(k), k);
    assert Pow2(k + 1) - Pow2(k) == Pow2(k);
  }
}

/** C's bitwise operators on unsigned words, as functions on naturals. */
module Bits {

  /** A 32-bit unsigned word. */
  type Word = w: nat | w < 0x1_0000_0000

  function Pow2(k: nat): (p: nat)
    ensures p >= 1
  {
    if k == 0 then 1 else 2 * Pow2(k - 1)
  }

  lemma {:induction false} Pow2Sum(a: nat, b: nat)
    ensures Pow2(a + b) == Pow2(a) * Pow2(b)
    decreases b
  {
    if b > 0 {
      Pow2Sum(a, b - 1);
    }
  }

  lemma {:induction false} Pow2Monotone(k: nat, n: nat)
    requires k < n
    ensures Pow2(k) < Pow2(n)
  {
    if k + 1 < n {
      Pow2Monotone(k, n - 1);
    }
  }

  lemma Pow2Of32()
    ensures Pow2(32) == 0x1_0000_0000
  {
    assert Pow2(8) == 256;
    Pow2Sum(8, 8);
    Pow2Sum(16, 16);
  }

  /** Bit `k` of `w`, as 0 or 1. */
  function Bit(w: nat, k: nat): (b: nat)
    ensures b <= 1
  {
    if k == 0 then w % 2 else Bit(w / 2, k - 1)
  }

  /** `x & y` */
  function And(x: nat, y: nat): (r: nat)
    ensures r <= x && r <= y
  {
    if x == 0 || y == 0 then 0 else 2 * And(x / 2, y / 2) + if x % 2 == 1 && y % 2 == 1 then 1 else 0
  }

  /** `x | y` */
  function Or(x: nat, y: nat): (r: nat)
    ensures x <= r && y <= r
  {
    if x == 0 then y
    else if y == 0 then x
    else 2 * Or(x / 2, y / 2) + if x % 2 == 1 || y % 2 == 1 then 1 else 0
  }

  /** `x & ~y` */
  function AndNot(x: nat, y: nat): (r: nat)
    ensures r <= x
  {
    if x == 0 then 0
    else 2 * AndNot(x / 2, y / 2) + if x % 2 == 1 && y % 2 == 0 then 1 else 0
  }

  // ----- The operators act bit by bit -----

  lemma {:induction false} ZeroBit(k: nat)
    ensures Bit(0, k) == 0
  {
    if k > 0 {
      ZeroBit(k - 1);
    }
  }

  lemma {:induction false} OrBit(x: nat, y: nat, k: nat)
    ensures Bit(Or(x, y), k) == 1 <==> Bit(x, k) == 1 || Bit(y, k) == 1
    decreases k
  {
    if k > 0 {
      OrBit(x / 2, y / 2, k - 1);
    }
    ZeroBit(k);
  }

  lemma {:induction false} AndNotBit(x: nat, y: nat, k: nat)
    ensures Bit(AndNot(x, y), k) == 1 <==> Bit(x, k) == 1 && Bit(y, k) == 0
    decreases k
  {
    if k > 0 {
      AndNotBit(x / 2, y / 2, k - 1);
    }
    ZeroBit(k);
  }

  // ----- Single-bit masks -----

  lemma {:induction false} Pow2Bit(k: nat, j: nat)
    ensures Bit(Pow2(k), j) == if j == k then 1 else 0
    decreases k
  {
    if k > 0 && j > 0 {
      Pow2Bit(k - 1, j - 1);
    } else if j > 0 {
      ZeroBit(j - 1);
    }
  }

  /** `w & (1 << k)` tests bit `k`. */
  lemma {:induction false} TestBit(w: nat, k: nat)
    ensures And(w, Pow2(k)) != 0 <==> Bit(w, k) == 1
    decreases k
  {
    if k > 0 {
      TestBit(w / 2, k - 1);
      ZeroBit(k);
    }
  }

  // ----- Words of a fixed width -----

  lemma {:induction false} OrFits(x: nat, y: nat, n: nat)
    requires x < Pow2(n) && y < Pow2(n)
    ensures Or(x, y) < Pow2(n)
    decreases n
  {
    if n > 0 {
      OrFits(x / 2, y / 2, n - 1);
    }
  }
}

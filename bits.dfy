// C's bit operators on unsigned values, on natural numbers: bit i of x is
// the remainder of x halved i times, and &, |, ~ and << are stated bit by
// bit. The drivers build register values with them (set_reg_mask's
// (value & ~mask) | bits).

module Bits {

  function Pow2(k: nat): (p: nat)
    ensures p >= 1
  {
    if k == 0 then 1 else 2 * Pow2(k - 1)
  }

  /** Bit i of x. */
  function Bit(x: nat, i: nat): (b: nat)
    ensures b < 2
  {
    if i == 0 then x % 2 else Bit(x / 2, i - 1)
  }

  /** x & y */
  function And(x: nat, y: nat): (n: nat)
    decreases x
  {
    if x == 0 || y == 0 then 0 else 2 * And(x / 2, y / 2) + (x % 2) * (y % 2)
  }

  /** x | y */
  function Or(x: nat, y: nat): (n: nat)
    decreases x + y
  {
    if x == 0 then y
    else if y == 0 then x
    else 2 * Or(x / 2, y / 2) + (if x % 2 == 1 || y % 2 == 1 then 1 else 0)
  }

  /** ~x in k bits */
  function Not(x: nat, k: nat): (n: nat)
    requires x < Pow2(k)
  {
    Pow2(k) - 1 - x
  }

  lemma {:induction false} BitAnd(x: nat, y: nat, i: nat)
    ensures Bit(And(x, y), i) == Bit(x, i) * Bit(y, i)
    decreases i
  {
    if x == 0 || y == 0 {
      BitZero(i);
    } else if i > 0 {
      assert And(x, y) / 2 == And(x / 2, y / 2);
      BitAnd(x / 2, y / 2, i - 1);
    }
  }

  lemma {:induction false} BitOr(x: nat, y: nat, i: nat)
    ensures Bit(Or(x, y), i) == if Bit(x, i) == 1 || Bit(y, i) == 1 then 1 else 0
    decreases i
  {
    if x == 0 {
      BitZero(i);
    } else if y == 0 {
      BitZero(i);
    } else if i > 0 {
      assert Or(x, y) / 2 == Or(x / 2, y / 2);
      BitOr(x / 2, y / 2, i - 1);
    }
  }

  lemma {:induction false} BitZero(i: nat)
    ensures Bit(0, i) == 0
  {
    if i > 0 { BitZero(i - 1); }
  }

  /** Every bit of ~x in k bits is the other way round from x's. */
  lemma {:induction false} BitNot(x: nat, k: nat, i: nat)
    requires x < Pow2(k) && i < k
    ensures Bit(Not(x, k), i) == 1 - Bit(x, i)
    decreases i
  {
    if i > 0 {
      assert Not(x, k) / 2 == Not(x / 2, k - 1);
      BitNot(x / 2, k - 1, i - 1);
    }
  }

  /** Bits at and above k of a number below 2^k are 0. */
  lemma {:induction false} BitHigh(x: nat, k: nat, i: nat)
    requires x < Pow2(k) && k <= i
    ensures Bit(x, i) == 0
    decreases i
  {
    if i == 0 {
    } else if k == 0 {
      assert x == 0;
      BitZero(i);
    } else {
      BitHigh(x / 2, k - 1, i - 1);
    }
  }

  /** x << k: k zero bits, then the bits of x. */
  lemma {:induction false} BitShifted(x: nat, k: nat, i: nat)
    ensures Bit(x * Pow2(k), i) == if i < k then 0 else Bit(x, i - k)
    decreases k
  {
    if k > 0 {
      var y := x * Pow2(k - 1);
      assert x * Pow2(k) == 2 * y;
      if i > 0 {
        assert (2 * y) / 2 == y;
        BitShifted(x, k - 1, i - 1);
      }
    }
  }

  /** x & y has no more bits than x, x | y than the wider of the two. */
  lemma {:induction false} AndBound(x: nat, y: nat, k: nat)
    requires x < Pow2(k)
    ensures And(x, y) < Pow2(k)
    decreases x
  {
    if x != 0 && y != 0 {
      if k == 0 {
      } else {
        AndBound(x / 2, y / 2, k - 1);
      }
    }
  }

  lemma {:induction false} OrBound(x: nat, y: nat, k: nat)
    requires x < Pow2(k) && y < Pow2(k)
    ensures Or(x, y) < Pow2(k)
    decreases x + y
  {
    if x != 0 && y != 0 {
      OrBound(x / 2, y / 2, k - 1);
    }
  }

  /** Two numbers below 2^k with the same k bits are equal. */
  lemma {:induction false} SameBits(x: nat, y: nat, k: nat)
    requires x < Pow2(k) && y < Pow2(k)
    requires forall i :: 0 <= i < k ==> Bit(x, i) == Bit(y, i)
    ensures x == y
    decreases k
  {
    if k > 0 {
      assert Bit(x, 0) == Bit(y, 0);
      forall i | 0 <= i < k - 1
        ensures Bit(x / 2, i) == Bit(y / 2, i)
      {
        assert Bit(x, i + 1) == Bit(y, i + 1);
      }
      SameBits(x / 2, y / 2, k - 1);
    }
  }

  lemma {:induction false} Pow2Mono(a: nat, b: nat)
    requires a <= b
    ensures Pow2(a) <= Pow2(b)
    decreases b
  {
    if a < b { Pow2Mono(a, b - 1); }
  }

  /** 1 << k has bit k alone. */
  lemma {:induction false} BitPow2(k: nat, i: nat)
    ensures Bit(Pow2(k), i) == if i == k then 1 else 0
    decreases k
  {
    BitShifted(1, k, i);
    if i > k {
      BitHigh(1, 1, i - k);
    }
  }

  lemma Pow2Sixteen()
    ensures Pow2(2) == 4 && Pow2(4) == 16 && Pow2(8) == 256 && Pow2(10) == 0x400
    ensures Pow2(14) == 0x4000 && Pow2(15) == 0x8000 && Pow2(16) == 0x1_0000
  {
    assert Pow2(4) == 16;
    assert Pow2(8) == 256;
    assert Pow2(12) == 4096;
  }
}

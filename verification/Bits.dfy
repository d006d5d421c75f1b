/** Bitwise operations on naturals, and when they agree with arithmetic. */
module Bits {
  import opened Arith

  function Or(a: nat, b: nat): nat {
    if a == 0 && b == 0 then 0
    else 2 * Or(a / 2, b / 2) + if a % 2 == 1 || b % 2 == 1 then 1 else 0
  }

  function Xor(a: nat, b: nat): nat {
    if a == 0 && b == 0 then 0
    else 2 * Xor(a / 2, b / 2) + if a % 2 != b % 2 then 1 else 0
  }

  lemma {:induction false} OrZero(a: nat, b: nat)
    ensures Or(a, b) == 0 <==> a == 0 && b == 0
  {
    if a > 0 || b > 0 {
      OrZero(a / 2, b / 2);
    }
  }

  lemma {:induction false} XorZero(a: nat, b: nat)
    ensures Xor(a, b) == 0 <==> a == b
  {
    if a > 0 || b > 0 {
      XorZero(a / 2, b / 2);
    }
  }

  /** The bitwise or of numbers without a common bit position is their sum. */
  lemma {:induction false} OrDisjoint(a: nat, c: nat, k: nat)
    requires a < Pow(2, k)
    ensures Or(a, c * Pow(2, k)) == a + c * Pow(2, k) == Or(c * Pow(2, k), a)
  {
    if k == 0 {
      OrSame(c);
      assert a == 0 && c * 1 == c;
    } else {
      hide Or;
      OrDisjoint(a / 2, c, k - 1);
      assert c * Pow(2, k) == 2 * (c * Pow(2, k - 1)) by { Regroup(c, 2, Pow(2, k - 1)); }
      PowPositive(2, k - 1);
      MulMono(0, c, Pow(2, k - 1));
      OrDouble(a, c * Pow(2, k - 1));
    }
  }

  lemma OrDouble(a: nat, h: nat)
    requires Or(a / 2, h) == a / 2 + h == Or(h, a / 2)
    ensures Or(a, 2 * h) == a + 2 * h == Or(2 * h, a)
  {
    assert 2 * h / 2 == h && 2 * h % 2 == 0;
  }

  lemma PowersOfTwo()
    ensures Pow(2, 1) == 2 && Pow(2, 28) == 0x1000_0000
  {
    assert Pow(2, 4) == 16;
    assert Pow(2, 7) == 128;
    PowAdd(2, 7, 7);
    PowAdd(2, 14, 14);
  }

  lemma TwoTo32()
    ensures Pow(2, 8) == 0x100 && Pow(2, 16) == 0x1_0000 && Pow(2, 29) == 0x2000_0000 && Pow(2, 32) == 0x1_0000_0000
  {
    PowersOfTwo();
    assert Pow(2, 8) == 0x100;
    PowAdd(2, 8, 8);
    PowAdd(2, 16, 16);
    PowAdd(2, 28, 1);
  }

  lemma {:induction false} OrSame(c: nat)
    ensures Or(0, c) == c == Or(c, 0)
  {
    if c > 0 {
      OrSame(c / 2);
    }
  }
}

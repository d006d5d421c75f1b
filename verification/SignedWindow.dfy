/** The signed odd digits in base 16 that point_multiply reads from a scalar. */
module SignedWindow {
  import opened Arith
  import opened Words
  import opened Bits
  import opened Digits
  import opened Limbs
  import opened BignumBytes

  /** Five bits of v, from bit 4 i on. */
  function Window(v: nat, i: nat): (w: nat)
    ensures w < 32
  {
    PowPositive(16, i);
    DivMod(v, Pow(16, i));
    v / Pow(16, i) % 32
  }

  /** The odd number among x and x + 1. */
  function Odd(x: int): int { x / 2 * 2 + 1 }

  /** The odd signed digit that five bits stand for. */
  function Digit(w: nat): (d: int)
    requires w < 32
    ensures d % 2 == 1 && -16 < d < 16
  {
    Odd(w) - 16
  }

  /** The number that the digits from the i-th to the 63rd stand for. */
  function Tail(v: nat, i: nat): int
    decreases 64 - i
  {
    if i >= 64 then 0 else Digit(Window(v, i)) + 16 * Tail(v, i + 1)
  }

  /** A digit and the odd number above it make the odd number below. */
  lemma Carry(f: nat)
    ensures Digit(f % 32) + 16 * Odd(f / 16) == Odd(f)
  {
    var g, r := f / 16, f % 16;
    var h, b := g / 2, g % 2;
    assert f == 32 * h + 16 * b + r;
    DivModUnique(f, 32, h, 16 * b + r);
    assert f / 2 == 16 * h + 8 * b + r / 2;
    assert (16 * b + r) / 2 == 8 * b + r / 2;
  }

  lemma NextWindow(v: nat, i: nat)
    ensures Pow(16, i) > 0 && Pow(16, i + 1) > 0 && v / Pow(16, i) / 16 == v / Pow(16, i + 1)
  {
    PowPositive(16, i);
    DivDiv(v, Pow(16, i), 16);
  }

  /** The signed digits stand for the number made odd, without the 2^256 on top. */
  lemma {:induction false} TailIs(v: nat, i: nat)
    requires i <= 64 && v < 2 * Pow(16, 64)
    ensures Pow(16, i) > 0 && Tail(v, i) == Odd(v / Pow(16, i)) - Pow(16, 64 - i)
    decreases 64 - i
  {
    PowPositive(16, i);
    DivMod(v, Pow(16, i));
    if i == 64 {
      TopBit(v, Pow(16, i));
    } else {
      TailIs(v, i + 1);
      NextWindow(v, i);
      Carry(v / Pow(16, i));
      assert Pow(16, 64 - i) == 16 * Pow(16, 63 - i);
      hide Pow, Digit;
    }
  }

  lemma TopBit(v: nat, p: int)
    requires 0 < p && v < 2 * p
    ensures Odd(v / p) == 1
  {
    if v < p { DivModUnique(v, p, 0, v); } else { DivModUnique(v, p, 1, v - p); }
  }

  // ------------------------------------------------------ reading the windows

  lemma {:induction false} ShiftIsPower(q: nat)
    ensures Shift(1, q) == Pow(2, 29 * q)
  {
    if q > 0 {
      ShiftIsPower(q - 1);
      TwoTo32();
      PowAdd(2, 29, 29 * (q - 1));
    }
  }

  /** Dropping 29 q + t bits drops q limbs and t bits of the others. */
  lemma DropBits(s: seq<int>, q: nat, t: nat, i: nat)
    requires Normalized(s) && q <= |s| && 29 * q + t == 4 * i
    ensures Pow(16, i) > 0 && Pow(2, t) > 0 && Value(s) >= 0 && Value(s) / Pow(16, i) == Suffix(s, q) / Pow(2, t)
  {
    hide Pow, Shift;
    SplitAt(s, q);
    PrefixBound(s, q);
    SuffixZero(s, q);
    ShiftIs(Suffix(s, q), q);
    MulMono2(0, Suffix(s, q), 0, Shift(1, q));
    DivModUnique(Value(s), Shift(1, q), Suffix(s, q), Prefix(s, q));
    ShiftIsPower(q);
    PowPositive(2, 29 * q);
    PowPositive(2, t);
    PowAdd(2, 29 * q, t);
    DivDiv(Value(s), Pow(2, 29 * q), Pow(2, t));
    Sixteen(i);
  }

  lemma Sixteen(i: nat)
    ensures Pow(16, i) == Pow(2, 4 * i) > 0
  {
    assert Pow(2, 2) == 4;
    PowAdd(2, 2, 2);
    PowPow(2, 4, i);
    PowPositive(16, i);
  }

  /** A window inside one limb. */
  lemma Inside(s: seq<int>, q: nat, t: nat, i: nat)
    requires |s| == LIMBS && Normalized(s) && q < LIMBS && 29 * q + t == 4 * i && t <= 24
    ensures Value(s) >= 0 && Pow(2, t) > 0 && Window(Value(s), i) == s[q] / Pow(2, t) % 32
  {
    DropBits(s, q, t, i);
    var rest := Suffix(s, q + 1);
    SuffixZero(s, q + 1);
    PowAdd(2, t, 29 - t);
    PowAdd(2, 5, 24 - t);
    TwoTo32();
    assert Pow(2, 5) == 32;
    PowPositive(2, 24 - t);
    hide Pow, Suffix;
    LowWindow(s[q], rest, Pow(2, t), Pow(2, 24 - t));
  }

  lemma LowWindow(a: nat, rest: nat, p: int, m: int)
    requires 0 < p && 0 < m && p * (32 * m) == 0x2000_0000
    ensures (a + 0x2000_0000 * rest) / p % 32 == a / p % 32
  {
    DivMod(a, p);
    Quotient(a, rest, p, 32 * m);
    Assoc(32, m, rest);
    MoreThirtyTwos(a / p, m * rest);
  }

  /** Adding rest times p m adds rest times m to the quotient by p. */
  lemma Quotient(a: int, rest: int, p: int, m: int)
    requires 0 < p && p * m == 0x2000_0000
    ensures (a + 0x2000_0000 * rest) / p == a / p + m * rest
  {
    DivMod(a, p);
    Assoc(p, m, rest);
    DivModUnique(a + 0x2000_0000 * rest, p, a / p + m * rest, a % p);
  }

  lemma MoreThirtyTwos(c: int, y: int)
    ensures (c + 32 * y) % 32 == c % 32
  {
  }

  /** A window of which t' bits come from the limb above. */
  lemma Across(s: seq<int>, q: nat, u: nat, i: nat)
    requires |s| == LIMBS && Normalized(s) && q + 1 < LIMBS && 1 <= u <= 4 && 29 * q + 29 - u == 4 * i
    ensures Value(s) >= 0 && Pow(2, u) > 0 && Pow(2, 29 - u) > 0 && s[q] / Pow(2, 29 - u) >= 0
    ensures Window(Value(s), i) == Or(W32(s[q + 1] * Pow(2, u)), s[q] / Pow(2, 29 - u)) % 32
  {
    var t := 29 - u;
    DropBits(s, q, t, i);
    SuffixZero(s, q + 1);
    SuffixZero(s, if q + 2 <= LIMBS then q + 2 else LIMBS);
    PowAdd(2, t, u);
    TwoTo32();
    PowPositive(2, u);
    HighWindow(s[q], s[q + 1], Suffix(s, q + 2), Pow(2, t), Pow(2, u), u);
  }

  lemma HighWindow(a: nat, b: nat, rest: nat, p: int, m: int, u: nat)
    requires 0 < p && 1 <= m && p * m == 0x2000_0000 && m == Pow(2, u) && 1 <= u <= 4
    requires a < 0x2000_0000
    ensures a / p >= 0
    ensures (a + 0x2000_0000 * (b + 0x2000_0000 * rest)) / p % 32 == Or(W32(b * m), a / p) % 32
  {
    hide Or, W32, Pow;
    UpperLimbs(a, b, rest, p, m);
    JoinedBits(a, b, p, m, u);
    SameWindow(b * m, a / p, 0x100_0000 * (m * rest));
  }

  lemma UpperLimbs(a: nat, b: nat, rest: nat, p: int, m: int)
    requires 0 < p && p * m == 0x2000_0000
    ensures (a + 0x2000_0000 * (b + 0x2000_0000 * rest)) / p == a / p + (b * m + 32 * (0x100_0000 * (m * rest)))
  {
    var n := b + 0x2000_0000 * rest;
    Quotient(a, n, p, m);
    Distribute(m, b, 0x2000_0000 * rest);
    Regroup(m, 0x2000_0000, rest);
  }

  lemma JoinedBits(a: nat, b: nat, p: int, m: int, u: nat)
    requires 0 < p && 1 <= m && p * m == 0x2000_0000 && m == Pow(2, u) && 1 <= u <= 4
    requires a < 0x2000_0000
    ensures a / p >= 0 && Or(W32(b * m), a / p) == W32(b * m) + a / p
  {
    hide Or, W32, Pow;
    DivMod(a, p);
    DivBelow(a, p, m);
    var e := WrapMultiple(b, m, p);
    MulMono(0, e, m);
    OrDisjoint(a / p, e, u);
  }

  lemma SameWindow(x: int, c: int, y: int)
    ensures (c + (x + 32 * y)) % 32 == (W32(x) + c) % 32
  {
  }
}

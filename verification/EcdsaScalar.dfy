/** The scalar side of scalar_multiply in ecdsa.c, which reads the digits from the lowest one up. */
module EcdsaScalar {
  import opened Arith
  import opened Words
  import opened Bits
  import opened Limbs
  import opened Bignum
  import opened SignedWindow
  import opened EcdsaMultiply

  // ------------------------------------------------ dropping four bits in place

  // a >>= 4, limb by limb
  method ShiftFour(a: array<u32>)
    requires IsBignum(a)
    modifies a
    ensures IsBignum(a) && Value(a[..]) == old(Value(a[..])) / 16
  {
    hide Or, Pow, Value;
    ghost var a0: seq<int> := a[..];
    for j := 0 to LIMBS - 1
      invariant forall i :: j <= i < LIMBS ==> a[i] == a0[i]
      invariant forall i :: 0 <= i < j ==> a[i] == a0[i] / 16 + a0[i + 1] % 16 * 0x200_0000
    {
      FourBits(a[j], a[j + 1]);
      a[j] := Or(a[j] / 16, a[j + 1] % 16 * 0x200_0000);
    }
    a[LIMBS - 1] := a[LIMBS - 1] / 16;
    SixteenthValue(a0, a[..]);
  }

  lemma FourBits(a: nat, b: nat)
    requires a < BASE
    ensures Or(a / 16, b % 16 * 0x200_0000) == a / 16 + b % 16 * 0x200_0000 < BASE
  {
    PowersOfTwo();
    PowAdd(2, 25, 3);
    assert Pow(2, 3) == 8;
    OrDisjoint(a / 16, b % 16, 25);
  }

  lemma SixteenthValue(s: seq<int>, t: seq<int>)
    requires |s| == |t| == LIMBS && Normalized(s)
    requires t[|s| - 1] == s[|s| - 1] / 16
    requires forall j :: 0 <= j < |s| - 1 ==> t[j] == s[j] / 16 + s[j + 1] % 16 * 0x200_0000
    ensures Normalized(t) && Value(t) == Value(s) / 16
  {
    forall j | 0 <= j < |t|
      ensures 0 <= t[j] < BASE
    {
      assert 0 <= s[j] < BASE;
      assert j == |s| - 1 || t[j] == s[j] / 16 + s[j + 1] % 16 * 0x200_0000;
    }
    Sixteenth(s, t, 0);
    ValueIsSuffix(s);
    ValueIsSuffix(t);
  }

  lemma {:induction false} Sixteenth(s: seq<int>, t: seq<int>, n: nat)
    requires n < |s| == |t|
    requires t[|s| - 1] == s[|s| - 1] / 16
    requires forall j :: 0 <= j < |s| - 1 ==> t[j] == s[j] / 16 + s[j + 1] % 16 * 0x200_0000
    ensures Suffix(t, n) == Suffix(s, n) / 16 && Suffix(s, n) % 16 == s[n] % 16
    decreases |s| - n
  {
    if n < |s| - 1 {
      Sixteenth(s, t, n + 1);
      SixteenthLimb(s[n], Suffix(s, n + 1));
    }
  }

  lemma SixteenthLimb(d: int, rest: int)
    ensures (d + 0x2000_0000 * rest) / 16 == d / 16 + rest % 16 * 0x200_0000 + 0x2000_0000 * (rest / 16)
    ensures (d + 0x2000_0000 * rest) % 16 == d % 16
  {
    DivModUnique(d + 0x2000_0000 * rest, 16, d / 16 + 0x200_0000 * rest, d % 16);
  }

  // ------------------------------------------------------------ the digit loop

  /** curve->cp: the odd multiples of every power of 16, as multiples of the generator. */
  ghost predicate IsTable(cp: seq<seq<int>>) {
    && |cp| == 64 && (forall i :: 0 <= i < 64 ==> |cp[i]| == 8)
    && forall i, j :: 0 <= i < 64 && 0 <= j < 8 ==> cp[i][j] == (2 * j + 1) * Pow(16, i)
  }

  lemma TableIs(cp: seq<seq<int>>)
    requires |cp| == 64 && forall i :: 0 <= i < 64 ==> |cp[i]| == 8
    requires forall i, j :: 0 <= i < 64 && 0 <= j < 8 ==> cp[i][j] == (2 * j + 1) * Pow(16, i)
    ensures IsTable(cp)
  {
  }

  /** What the digits below the i-th stand for. */
  function Front(v: nat, i: nat): int {
    if i == 0 then 0 else Front(v, i - 1) + Digit(Window(v, i - 1)) * Pow(16, i - 1)
  }

  /** The digits below and from the i-th on are all of them. */
  lemma {:induction false} FrontTail(v: nat, i: nat)
    requires i <= 64
    ensures Front(v, i) + Pow(16, i) * Tail(v, i) == Tail(v, 0)
  {
    hide Digit, Window;
    if i > 0 {
      FrontTail(v, i - 1);
      assert Pow(16, i) == 16 * Pow(16, i - 1);
      assert Tail(v, i - 1) == Digit(Window(v, i - 1)) + 16 * Tail(v, i);
      assert Front(v, i) == Front(v, i - 1) + Digit(Window(v, i - 1)) * Pow(16, i - 1);
      hide Pow, Tail, Front;
      Join(Pow(16, i - 1), Digit(Window(v, i - 1)), Tail(v, i));
    }
  }

  lemma Join(p: int, d: int, t: int)
    ensures p * (d + 16 * t) == d * p + 16 * p * t
  {
    Distribute(p, d, 16 * t);
    Assoc(p, 16, t);
  }

  /** The sign of a digit is the lowest bit of what is left after the next shift. */
  lemma SignBit(x: nat)
    ensures x / 16 % 2 == x % 32 / 16
  {
    var q, r := x / 32, x % 32;
    DivModUnique(x, 16, 2 * q + r / 16, r % 16);
    DivModUnique(2 * q + r / 16, 2, q, r / 16);
  }

  /** The low four bits of five, flipped if the fifth is not set. */
  function Flipped(w: nat): nat
    requires w < 32
  {
    (if w / 16 == 0 then 0xFFFF_FFFF - w else w) % 16
  }

  /** Their parity tells whether the sign changes. */
  lemma SignChange(w: nat)
    requires w < 32
    ensures Flipped(w) % 2 == 0 <==> w % 2 != w / 16
  {
  }

  /** A table entry is the next digit up to its sign. */
  lemma Entry(cp: seq<seq<int>>, w: nat, i: nat)
    requires IsTable(cp) && i < 64 && w < 32
    ensures Flipped(w) / 2 < 8 && |cp[i]| == 8
    ensures Digit(w) * Pow(16, i) == if w / 16 == 0 then -cp[i][Flipped(w) / 2] else cp[i][Flipped(w) / 2]
  {
    hide Digit, Pow;
    Magnitude(w);
    var j := Flipped(w) / 2;
    assert cp[i][j] == (2 * j + 1) * Pow(16, i);
    Negated(Digit(w), Pow(16, i));
  }

  lemma Negated(d: int, p: int)
    ensures (-d) * p == -(d * p)
  {
  }

  // the low five bits of a, turned into index and parity
  method LowBits(a: array<u32>) returns (lowbits: nat)
    requires IsBignum(a)
    ensures Value(a[..]) >= 0
    ensures lowbits == Flipped(Value(a[..]) % 32)
  {
    LowFive(a[..]);
    hide Value;
    lowbits := a[0] as int % 32;
    lowbits := if lowbits / 16 == 0 then 0xFFFF_FFFF - lowbits else lowbits;
    lowbits := lowbits % 16;
  }

  lemma LowFive(s: seq<int>)
    requires |s| == LIMBS && Normalized(s)
    ensures 0 <= Value(s) && s[0] % 32 == Value(s) % 32 && s[0] / 16 % 2 == Value(s) / 16 % 2
  {
    SplitAt(s, 0);
    SuffixZero(s, 0);
    var rest := Suffix(s, 1);
    assert Suffix(s, 0) == s[0] + 0x2000_0000 * rest;
    SignBit(s[0]);
    SignBit(Value(s));
    MoreThirtyTwos(s[0], 0x100_0000 * rest);
  }

  /** What is left of v after i shifts. */
  function Left(v: nat, i: nat): (r: nat)
    ensures r % 32 == Window(v, i)
  {
    PowPositive(16, i);
    DivMod(v, Pow(16, i));
    v / Pow(16, i)
  }

  /** Whether the i-th digit is negative. */
  predicate Negative(v: nat, i: nat) { Left(v, i) % 32 / 16 == 0 }

  lemma NextLeft(v: nat, i: nat)
    ensures Left(v, i) / 16 == Left(v, i + 1)
    ensures Negative(v, i) <==> Left(v, i + 1) % 2 == 0
  {
    NextWindow(v, i);
    SignBit(Left(v, i));
  }

  lemma NextDigit(cp: seq<seq<int>>, v: nat, i: nat)
    requires IsTable(cp) && i < 64
    ensures Flipped(Left(v, i) % 32) / 2 < 8 && |cp[i]| == 8
    ensures var e := cp[i][Flipped(Left(v, i) % 32) / 2];
            Front(v, i + 1) == Front(v, i) + if Negative(v, i) then -e else e
  {
    hide Digit, Pow;
    Entry(cp, Left(v, i) % 32, i);
  }

  // one round: shift, negate if the sign changes, add the table entry
  method AddDigit(a: array<u32>, cp: seq<seq<int>>, jres0: int, ghost v: nat, i: nat) returns (jres: int)
    requires IsBignum(a) && IsTable(cp) && 1 <= i < 64 && Value(a[..]) == Left(v, i - 1)
    requires jres0 == if Negative(v, i - 1) then -Front(v, i) else Front(v, i)
    modifies a
    ensures IsBignum(a) && Value(a[..]) == Left(v, i)
    ensures jres == if Negative(v, i) then -Front(v, i + 1) else Front(v, i + 1)
  {
    hide Value, Front, Flipped, Left;
    ShiftFour(a);
    NextLeft(v, i - 1);
    var lowbits := LowBits(a);
    SignChange(Left(v, i) % 32);
    LowestBit(Left(v, i));
    NextDigit(cp, v, i);
    jres := jres0;
    if lowbits % 2 == 0 {
      jres := -jres;
    }
    jres := jres + cp[i][lowbits / 2];
  }

  lemma LowestBit(x: nat)
    ensures x % 32 % 2 == x % 2
  {
    DivModUnique(x, 2, 16 * (x / 32) + x % 32 / 2, x % 32 % 2);
  }

  // the evaluation loop: the digits of a from the lowest one up
  method EvaluateUp(a: array<u32>, cp: seq<seq<int>>) returns (jres: int)
    requires IsBignum(a) && 0 <= Value(a[..]) && IsTable(cp)
    modifies a
    ensures jres == Tail(old(Value(a[..])), 0)
  {
    hide Value, Front, Flipped, Left, Pow, Tail;
    ghost var v: nat := Value(a[..]);
    NothingYet(v);
    NextDigit(cp, v, 0);
    var lowbits := LowBits(a);
    jres := cp[0][lowbits / 2];
    for i := 1 to 64
      invariant IsBignum(a) && Value(a[..]) == Left(v, i - 1)
      invariant jres == if Negative(v, i - 1) then -Front(v, i) else Front(v, i)
    {
      jres := AddDigit(a, cp, jres, v, i);
    }
    LowFive(a[..]);
    SignBit(Left(v, 63));
    if a[0] / 16 % 2 == 0 {
      jres := -jres;
    }
    FrontTail(v, 64);
    NoTail(v);
  }

  lemma NothingYet(v: nat)
    ensures Left(v, 0) == v && Front(v, 0) == 0
  {
    assert Pow(16, 0) == 1 && v / 1 == v;
  }

  lemma NoTail(v: nat)
    ensures Tail(v, 64) == 0
  {
  }

  // scalar_multiply, with points written as multiples of the generator
  method ScalarMultiply(k: array<u32>, order: array<u32>, cp: seq<seq<int>>) returns (status: int, multiple: int)
    requires IsBignum(k) && IsBignum(order) && Value(order[..]) <= TWO256 && Value(order[..]) % 2 == 1
    requires |cp| == 64 && forall i :: 0 <= i < 64 ==> |cp[i]| == 8
    requires forall i, j :: 0 <= i < 64 && 0 <= j < 8 ==> cp[i][j] == (2 * j + 1) * Pow(16, i)
    ensures status == if Value(k[..]) < Value(order[..]) then 0 else 1
    ensures Value(k[..]) < Value(order[..]) ==>
      && Cong(multiple, Value(k[..]), Value(order[..]))
      && multiple == Value(k[..]) - if Value(k[..]) % 2 == 0 && Value(k[..]) > 0 then Value(order[..]) else 0
  {
    hide Tail, Value, Pow, IsTable;
    TableIs(cp);
    ghost var v, n := Value(k[..]), Value(order[..]);
    ValueBound(k[..]);
    var less := IsLess(k, order);
    if !less {
      return 1, 0;
    }
    var a := new u32[LIMBS](_ => 0);
    var isNonZero := Recode(k, order, a);
    if !isNonZero {
      CongRefl(0, n);
      return 0, 0;
    }
    SumOfDigits(Value(a[..]));
    multiple := EvaluateUp(a, cp);
    CongDrop(v, if v % 2 == 0 then 1 else 0, n);
    status := 0;
  }
}

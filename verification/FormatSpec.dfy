/** Decimal amounts as text, as the Python prototype inside bn_format defines them. */
module FormatSpec {
  import opened Arith
  import opened Words
  import opened Digits
  import opened BitStrings

  const ZERO: u8 := 48  // '0'
  const DOT: u8 := 46   // '.'

  function Text(digits: seq<int>): (s: seq<u8>)
    requires Digital(10, digits)
    ensures |s| == |digits| && forall j :: 0 <= j < |s| ==> s[j] == ZERO + digits[j]
  {
    seq(|digits|, j requires 0 <= j < |digits| => ZERO + digits[j])
  }

  /** The decimal text of a natural number. */
  function Decimal(n: nat): (s: seq<u8>)
    ensures s != []
  {
    MinimalDigital(10, n);
    MinimalLead(10, n);
    if n == 0 then [ZERO] else Text(Minimal(10, n))
  }

  /** Groups of three from the right, unless there is no separator. */
  function Grouped(s: seq<u8>, separator: u8): seq<u8> {
    if separator == 0 || |s| <= 3 then s
    else Grouped(s[..|s| - 3], separator) + [separator] + s[|s| - 3..]
  }

  /** s.rstrip(c) */
  function RStrip(s: seq<u8>, c: u8): seq<u8> {
    if s != [] && s[|s| - 1] == c then RStrip(s[..|s| - 1], c) else s
  }

  /** The point and the digits behind it. */
  function DecimalPart(n: nat, decimals: nat, trailing: bool): seq<u8> {
    if decimals == 0 then []
    else
      var s := [DOT] + Text(Fixed(10, decimals, n));
      if trailing then s else RStrip(RStrip(s, ZERO), DOT)
  }

  /** The amount in units of the last decimal. */
  function Scaled(amount: nat, exponent: int): (v: nat) {
    if exponent >= 0 then
      PowPositive(10, exponent);
      MulMono(0, amount, Pow(10, exponent));
      amount * Pow(10, exponent)
    else
      PowPositive(10, -exponent);
      DivMod(amount, Pow(10, -exponent));
      amount / Pow(10, -exponent)
  }

  /** The number in front of the point, and the one behind it. */
  function Whole(v: nat, decimals: nat): nat {
    PowPositive(10, decimals);
    DivMod(v, Pow(10, decimals));
    v / Pow(10, decimals)
  }

  function Fraction(v: nat, decimals: nat): nat {
    PowPositive(10, decimals);
    DivMod(v, Pow(10, decimals));
    v % Pow(10, decimals)
  }

  /** The whole text. */
  function Formatted(amount: nat, prefix: seq<u8>, suffix: seq<u8>, decimals: nat, exponent: int, trailing: bool,
                     thousands: u8): seq<u8>
  {
    var v := Scaled(amount, exponent);
    prefix + Grouped(Decimal(Whole(v, decimals)), thousands) + DecimalPart(Fraction(v, decimals), decimals, trailing)
    + suffix
  }

  // ------------------------------------------- the same text from the right

  /** The digits s with k digits already written behind them. */
  function FromRight(s: seq<u8>, k: nat, separator: u8): seq<u8> {
    if s == [] then []
    else
      var n := |s| - 1;
      FromRight(s[..n], k + 1, separator) + (if separator != 0 && n > 0 && (k + 1) % 3 == 0 then [separator] else [])
      + [s[n]]
  }

  lemma {:induction false} FromRightPlain(s: seq<u8>, k: nat)
    ensures FromRight(s, k, 0) == s
  {
    if s != [] {
      FromRightPlain(s[..|s| - 1], k + 1);
    }
  }

  lemma {:induction false} FromRightPeriod(s: seq<u8>, k: nat, separator: u8)
    ensures FromRight(s, k + 3, separator) == FromRight(s, k, separator)
  {
    if s != [] {
      FromRightPeriod(s[..|s| - 1], k + 1, separator);
    }
  }

  /** Writing digits from the right with a separator after every third one groups them. */
  lemma {:induction false} GroupedIs(s: seq<u8>, separator: u8)
    ensures Grouped(s, separator) == FromRight(s, 0, separator)
  {
    if separator == 0 {
      FromRightPlain(s, 0);
    } else if |s| <= 3 {
      FewDigits(s, separator);
    } else {
      var n := |s| - 3;
      GroupedIs(s[..n], separator);
      FromRightPeriod(s[..n], 0, separator);
      ThreeDigits(s, separator);
    }
  }

  lemma FewDigits(s: seq<u8>, separator: u8)
    requires |s| <= 3
    ensures FromRight(s, 0, separator) == s
  {
    if |s| == 1 {
      assert FromRight(s, 0, separator) == [s[0]];
    } else if |s| == 2 {
      assert s[..1] == [s[0]];
      assert FromRight([s[0]], 1, separator) == [s[0]];
    } else if |s| == 3 {
      assert s[..2][..1] == [s[0]] && s[..2][1] == s[1];
      assert FromRight([s[0]], 2, separator) == [s[0]];
      assert FromRight(s[..2], 1, separator) == [s[0]] + [s[1]];
    }
  }

  lemma ThreeDigits(s: seq<u8>, separator: u8)
    requires |s| > 3 && separator != 0
    ensures FromRight(s, 0, separator) == FromRight(s[..|s| - 3], 3, separator) + [separator] + s[|s| - 3..]
  {
    var n := |s|;
    var a, b := s[..n - 1], s[..n - 2];
    assert a[..n - 2] == b && b[..n - 3] == s[..n - 3] && a[n - 2] == s[n - 2] && b[n - 3] == s[n - 3];
    assert FromRight(b, 2, separator) == FromRight(s[..n - 3], 3, separator) + [separator] + [s[n - 3]];
    assert FromRight(a, 1, separator) == FromRight(b, 2, separator) + [] + [s[n - 2]];
    assert FromRight(s, 0, separator) == FromRight(a, 1, separator) + [] + [s[n - 1]];
    assert s[n - 3..] == [s[n - 3]] + [s[n - 2]] + [s[n - 1]];
  }

  /** n fraction digits of v without zeros at the end, and no point if none is left. */
  function ShortFraction(v: nat, n: nat): seq<u8> {
    if n == 0 then []
    else
      DivMod(v, 10);
      if v % 10 == 0 then ShortFraction(v / 10, n - 1) else [DOT] + Text(Fixed(10, n, v))
  }

  lemma {:induction false} ShortFractionIs(v: nat, n: nat)
    ensures ShortFraction(v, n) == RStrip(RStrip([DOT] + Text(Fixed(10, n, v)), ZERO), DOT)
  {
    if n == 0 {
      assert [DOT] + Text(Fixed(10, 0, v)) == [DOT] && [DOT][..0] == [];
    } else {
      DivMod(v, 10);
      FractionSnoc(v, n);
      if v % 10 == 0 {
        hide Fixed, ShortFraction;
        ShortFractionIs(v / 10, n - 1);
      } else {
        hide Fixed, Text;
      }
    }
  }

  /** One zero more at the end makes no difference; any other last digit stays. */
  lemma FractionSnoc(v: nat, n: nat)
    requires n > 0
    ensures v / 10 >= 0
    ensures ShortFraction(v, n)
         == if v % 10 == 0 then ShortFraction(v / 10, n - 1) else [DOT] + Text(Fixed(10, n, v))
    ensures var s := [DOT] + Text(Fixed(10, n, v));
            if v % 10 == 0 then RStrip(s, ZERO) == RStrip([DOT] + Text(Fixed(10, n - 1, v / 10)), ZERO)
            else RStrip(s, ZERO) == s && RStrip(s, DOT) == s
  {
    DivMod(v, 10);
    TextSnoc(v, n);
    hide Fixed, Text;
    if v % 10 != 0 {
      assert DOT < ZERO < ZERO + v % 10;
    }
  }

  lemma TextSnoc(v: nat, n: nat)
    requires n > 0
    ensures v / 10 >= 0
    ensures var s := [DOT] + Text(Fixed(10, n, v));
            && |s| == n + 1 && s[n] == ZERO + v % 10 && s[..n] == [DOT] + Text(Fixed(10, n - 1, v / 10))
  {
    DivMod(v, 10);
  }

  /** Only the n lowest digits matter. */
  lemma {:induction false} FixedLow(b: int, n: nat, v: nat)
    requires b > 1
    ensures Pow(b, n) > 0 && v % Pow(b, n) >= 0 && Fixed(b, n, v) == Fixed(b, n, v % Pow(b, n))
  {
    PowPositive(b, n);
    DivMod(v, Pow(b, n));
    if n > 0 {
      var p, w := Pow(b, n - 1), v % Pow(b, n);
      PowPositive(b, n - 1);
      DivMod(v, b);
      DivMod(w, b);
      FixedLow(b, n - 1, v / b);
      FixedLow(b, n - 1, w / b);
      LowDigits(b, p, v);
    }
  }

  lemma LowDigits(b: int, p: int, v: nat)
    requires b > 1 && p > 0
    ensures b * p > 0 && v % (b * p) >= 0 && v % b == v % (b * p) % b
    ensures (v / b) % p == (v % (b * p) / b) % p
  {
    var q := b * p;
    assert q > 0;
    DivMod(v, q);
    DivMod(v % q, b);
    DivMod(v % q / b, p);
    LowDigitsOf(b, p, v, v / q, v % q, v % q / b, v % q % b, v % q / b / p, v % q / b % p);
  }

  lemma LowDigitsOf(b: int, p: int, v: int, k: int, w: int, h: int, d: int, i: int, r: int)
    requires b > 1 && p > 0 && v == k * (b * p) + w && w == h * b + d && 0 <= d < b && h == i * p + r && 0 <= r < p
    ensures v % b == d && (v / b) % p == r
  {
    Expand(k, p, h, b);
    assert (k * p + h) * b + d == v;
    DivModUnique(v, b, k * p + h, d);
    assert (k + i) * p == k * p + i * p;
    DivModUnique(k * p + h, p, k + i, r);
  }
}

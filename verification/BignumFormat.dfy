/** bn_format: decimal formatting of a bignum into a buffer that is filled from its end. */
module BignumFormat {
  import opened Arith
  import opened Limbs
  import opened Words
  import opened Digits
  import opened BitStrings
  import opened Bignum
  import opened BignumDivide
  import opened FormatSpec

  /** The buffer from p on holds the end of the text; rest is still to be written. */
  ghost predicate Writing(text: seq<u8>, rest: seq<u8>, out: seq<u8>, p: nat) {
    p <= |out| && text == rest + out[p..]
  }

  /** The text does not fit, and the buffer is zeroed. */
  ghost predicate Wiped(text: seq<u8>, out: seq<u8>) {
    |text| > |out| && forall j :: 0 <= j < |out| ==> out[j] == 0
  }

  // BN_FORMAT_ADD_OUTPUT_CHAR
  method AddChar(output: array<u8>, p: nat, c: u8, ghost text: seq<u8>, ghost rest: seq<u8>) returns (ok: bool, q: nat)
    requires Writing(text, rest + [c], output[..], p)
    modifies output
    ensures ok ==> Writing(text, rest, output[..], q)
    ensures !ok ==> Wiped(text, output[..])
  {
    if p == 0 {
      forall j | 0 <= j < output.Length {
        output[j] := 0;
      }
      return false, 0;
    }
    ghost var tail := output[p..];
    q := p - 1;
    output[q] := c;
    assert output[q..] == [c] + tail;
    ok := true;
  }

  // a string, last character first
  method AddText(output: array<u8>, p: nat, s: seq<u8>, ghost text: seq<u8>, ghost rest: seq<u8>)
      returns (ok: bool, q: nat)
    requires Writing(text, rest + s, output[..], p)
    modifies output
    ensures ok ==> Writing(text, rest, output[..], q)
    ensures !ok ==> Wiped(text, output[..])
  {
    hide Writing, Wiped;
    ok, q := true, p;
    var i := |s|;
    assert s[..i] == s;
    while i > 0
      invariant 0 <= i <= |s| && ok && Writing(text, rest + s[..i], output[..], q)
    {
      i := i - 1;
      assert rest + s[..i + 1] == (rest + s[..i]) + [s[i]];
      ok, q := AddChar(output, q, s[i], text, rest + s[..i]);
      if !ok {
        return;
      }
    }
    assert rest + s[..0] == rest;
  }

  // bn_divmod10
  method DivMod10(temp: array<u32>) returns (digit: u32)
    requires IsBignum(temp)
    modifies temp
    ensures IsBignum(temp) && Value(temp[..]) == old(Value(temp[..])) / 10 && digit == old(Value(temp[..])) % 10
  {
    ghost var v := Value(temp[..]);
    digit := LongDivision(temp, 10, temp);
    DivModUnique(v, 10, Value(temp[..]), digit);
  }

  // amount //= 10 ** -exponent, unless the exponent is positive
  method ScaleDown(temp: array<u32>, exponent: int, ghost v: nat) returns (e: nat)
    requires IsBignum(temp) && Value(temp[..]) == v
    modifies temp
    ensures IsBignum(temp) && e == (if exponent >= 0 then exponent else 0)
    ensures Value(temp[..]) == if exponent >= 0 then v else Scaled(v, exponent)
  {
    hide Value;
    var left := exponent;
    while left < 0
      invariant if exponent < 0 then exponent <= left <= 0 else left == exponent
      invariant IsBignum(temp) && Value(temp[..]) >= 0
      invariant exponent < 0 ==> Scaled(v, exponent) == Scaled(Value(temp[..]), left)
      invariant exponent >= 0 ==> Value(temp[..]) == v
      decreases -left
    {
      var zero := IsZero(temp);
      ScaledStep(Value(temp[..]), left);
      if zero {
        left := 0;
        break;
      }
      var digit := DivMod10(temp);
      left := left + 1;
    }
    e := left;
  }

  lemma ScaledStep(v: nat, e: int)
    requires e < 0
    ensures v / 10 >= 0 && Scaled(v, e) == Scaled(v / 10, e + 1)
    ensures Scaled(v, 0) == v
    ensures v == 0 ==> Scaled(v, e) == 0
  {
    var p := Pow(10, -e - 1);
    PowPositive(10, -e - 1);
    assert Pow(10, -e) == 10 * p;
    DivDiv(v, 10, p);
    assert v / 1 == v && Pow(10, 0) == 1;
    if v == 0 {
      DivModUnique(0, 10 * p, 0, 0);
    }
  }

  // -------------------------------------------------------- fraction digits

  /** What is left of the fraction when n digits of v are still to be written. */
  function Remaining(v: nat, n: nat, started: bool, trailing: bool): seq<u8> {
    if started || (trailing && n > 0) then [DOT] + Text(Fixed(10, n, v))
    else if trailing then []
    else ShortFraction(v, n)
  }

  lemma RemainingStep(v: nat, n: nat, started: bool, trailing: bool)
    requires n > 0
    ensures v / 10 >= 0 && 0 <= v % 10 < 10
    ensures if started || v % 10 != 0 || trailing
      then Remaining(v, n, started, trailing) == Remaining(v / 10, n - 1, true, trailing) + [ZERO + v % 10]
      else Remaining(v, n, started, trailing) == Remaining(v / 10, n - 1, started, trailing)
  {
    DivMod(v, 10);
    assert Text(Fixed(10, n, v)) == Text(Fixed(10, n - 1, v / 10)) + [ZERO + v % 10];
  }

  lemma {:induction false} NothingRemains(n: nat)
    ensures ShortFraction(0, n) == []
  {
    if n > 0 {
      assert 0 / 10 == 0 && 0 % 10 == 0;
      NothingRemains(n - 1);
    }
  }

  lemma RemainingEnd(v: nat, n: nat)
    ensures Remaining(v, 0, true, false) == Remaining(v, 0, true, true) == [DOT]
    ensures Remaining(v, 0, false, false) == Remaining(v, 0, false, true) == []
    ensures Remaining(0, n, false, false) == []
  {
    NothingRemains(n);
  }

  lemma QuotientStep(v: nat, n: nat)
    requires n > 0
    ensures v / 10 >= 0 && Whole(v, n) == Whole(v / 10, n - 1)
    ensures v < 10 ==> Whole(v, n) == 0 == Whole(0, 0)
  {
    PowPositive(10, n - 1);
    DivDiv(v, 10, Pow(10, n - 1));
    if v < 10 {
      DivModUnique(v, Pow(10, n), 0, v);
    }
  }

  lemma WholeOnly(v: nat)
    ensures Whole(v, 0) == v
  {
  }

  // the significant fraction digits and the point
  method AddFraction(temp: array<u32>, decimals: nat, trailing: bool, started0: bool, output: array<u8>, p: nat,
                     ghost text: seq<u8>, ghost before: seq<u8>, ghost v: nat)
      returns (ok: bool, q: nat)
    requires IsBignum(temp) && Value(temp[..]) == v
    requires Writing(text, before + Remaining(v, decimals, started0, trailing), output[..], p)
    modifies temp, output
    ensures IsBignum(temp)
    ensures ok ==> Writing(text, before, output[..], q) && Value(temp[..]) == Whole(v, decimals)
    ensures !ok ==> Wiped(text, output[..])
  {
    hide Writing, Wiped, Remaining, Value, IsBignum, Whole;
    var started, n := started0, decimals;
    ghost var w := v;
    WholeOnly(v);
    ok, q := true, p;
    while n > 0
      invariant 0 <= n && ok && IsBignum(temp) && Value(temp[..]) == w && w >= 0
      invariant Whole(w, n) == Whole(v, decimals)
      invariant Writing(text, before + Remaining(w, n, started, trailing), output[..], q)
      decreases n
    {
      QuotientStep(w, n);
      RemainingStep(w, n, started, trailing);
      var digit := DivMod10(temp);
      if started || digit != 0 || trailing {
        assert before + Remaining(w, n, started, trailing)
            == (before + Remaining(w / 10, n - 1, true, trailing)) + [ZERO + digit];
        started := true;
        ok, q := AddChar(output, q, ZERO + digit, text, before + Remaining(w / 10, n - 1, true, trailing));
        if !ok {
          return;
        }
      } else {
        var zero := IsZero(temp);
        if zero {
          RemainingEnd(0, n - 1);
          n, w := 0, 0;
          break;
        }
      }
      n, w := n - 1, w / 10;
    }
    RemainingEnd(w, 0);
    WholeOnly(w);
    assert before + [] == before;
    if started {
      ok, q := AddChar(output, q, DOT, text, before);
    }
  }

  // --------------------------------------------------------- integer digits

  function Noughts(z: nat): (s: seq<u8>)
    ensures |s| == z
  {
    seq(z, _ => ZERO)
  }

  /** The integer digits of v followed by z zeros; a zero stays a single digit. */
  function IntegerDigits(v: nat, z: nat): seq<u8> {
    if v == 0 then [ZERO] else Decimal(v) + Noughts(z)
  }

  lemma FromRightStep(s: seq<u8>, c: u8, k: nat, separator: u8)
    ensures FromRight(s + [c], k, separator)
         == FromRight(s, k + 1, separator)
            + (if separator != 0 && s != [] && (k + 1) % 3 == 0 then [separator] else []) + [c]
  {
    assert (s + [c])[..|s|] == s;
  }

  lemma DecimalStep(v: nat)
    ensures v / 10 >= 0 && 0 <= v % 10 < 10
    ensures Decimal(v) == (if v / 10 == 0 then [] else Decimal(v / 10)) + [ZERO + v % 10]
    ensures v > 0 ==> v / 10 < v
  {
    DivMod(v, 10);
    if v > 0 {
      Smaller(v, 10);
      MinimalDigital(10, v);
      MinimalDigital(10, v / 10);
      assert Minimal(10, v) == Minimal(10, v / 10) + [v % 10];
      hide Minimal;
    }
  }

  // one digit, and the separator behind every third one unless it would come first
  method AddDigit(output: array<u8>, p: nat, c: u8, k: nat, separator: u8, last: bool,
                  ghost text: seq<u8>, ghost before: seq<u8>, ghost s: seq<u8>)
      returns (ok: bool, q: nat)
    requires k > 0 && last == (s == []) && Writing(text, before + FromRight(s + [c], k - 1, separator), output[..], p)
    modifies output
    ensures ok ==> Writing(text, before + FromRight(s, k, separator), output[..], q)
    ensures !ok ==> Wiped(text, output[..])
  {
    hide Writing, Wiped, FromRight;
    FromRightStep(s, c, k - 1, separator);
    var separated := separator != 0 && !last && k % 3 == 0;
    ghost var t := before + FromRight(s, k, separator);
    assert before + FromRight(s + [c], k - 1, separator) == t + (if separated then [separator] else []) + [c];
    ok, q := AddChar(output, p, c, text, t + if separated then [separator] else []);
    if ok {
      if separated {
        ok, q := AddChar(output, q, separator, text, t);
      } else {
        assert t + [] == t;
      }
    }
  }

  // the integer part, z of its digits being zeros behind the digits of temp
  method AddInteger(temp: array<u32>, z: nat, thousands: u8, output: array<u8>, p: nat,
                    ghost text: seq<u8>, ghost before: seq<u8>, ghost v: nat)
      returns (ok: bool, q: nat)
    requires IsBignum(temp) && Value(temp[..]) == v
    requires Writing(text, before + FromRight(IntegerDigits(v, z), 0, thousands), output[..], p)
    modifies temp, output
    ensures ok ==> Writing(text, before, output[..], q)
    ensures !ok ==> Wiped(text, output[..])
  {
    hide Writing, Wiped, FromRight, Value, IsBignum, Decimal;
    var digits, left := 0, z;
    ghost var limbs := temp[..];
    ok, q := true, p;
    var zero := IsZero(temp);
    DecimalStep(v);
    if !zero {
      while left > 0
        invariant 0 <= left && ok && 0 <= digits && IsBignum(temp) && temp[..] == limbs
        invariant Writing(text, before + FromRight(Decimal(v) + Noughts(left), digits, thousands), output[..], q)
        modifies output
        decreases left
      {
        digits := digits + 1;
        assert Decimal(v) + Noughts(left - 1) != [];
        assert Decimal(v) + Noughts(left) == (Decimal(v) + Noughts(left - 1)) + [ZERO];
        ok, q := AddDigit(output, q, ZERO, digits, thousands, false, text, before, Decimal(v) + Noughts(left - 1));
        if !ok {
          return;
        }
        left := left - 1;
      }
      assert Decimal(v) + Noughts(0) == Decimal(v);
    } else {
      DecimalZero();
    }
    ok, q := AddDigits(temp, digits, thousands, output, q, text, before, v);
  }

  lemma DecimalZero()
    ensures Decimal(0) == [ZERO]
  {
  }

  // the do loop over the significant integer digits
  method AddDigits(temp: array<u32>, digits0: nat, thousands: u8, output: array<u8>, p: nat,
                   ghost text: seq<u8>, ghost before: seq<u8>, ghost v: nat)
      returns (ok: bool, q: nat)
    requires IsBignum(temp) && Value(temp[..]) == v
    requires Writing(text, before + FromRight(Decimal(v), digits0, thousands), output[..], p)
    modifies temp, output
    ensures ok ==> Writing(text, before, output[..], q)
    ensures !ok ==> Wiped(text, output[..])
  {
    hide Writing, Wiped, FromRight, Value, IsBignum, Decimal;
    var digits, isZero := digits0, false;
    ghost var w := v;
    ok, q := true, p;
    while !isZero
      invariant ok && 0 <= digits && 0 <= w && IsBignum(temp) && Value(temp[..]) == w && (isZero ==> w == 0)
      invariant Writing(text, before + FromRight(if isZero then [] else Decimal(w), digits, thousands), output[..], q)
      decreases !isZero, w
    {
      digits := digits + 1;
      DecimalStep(w);
      var digit := DivMod10(temp);
      isZero := IsZero(temp);
      ok, q := AddDigit(output, q, ZERO + digit, digits, thousands, isZero, text, before,
                        if isZero then [] else Decimal(w / 10));
      if !ok {
        return;
      }
      w := w / 10;
    }
    NoDigitsLeft(digits, thousands);
    assert before + [] == before;
  }

  lemma NoDigitsLeft(k: nat, separator: u8)
    ensures FromRight([], k, separator) == []
  {
  }

  // ------------------------------------------------------- the whole function

  /** Multiplying by a power of ten only appends zeros. */
  lemma {:induction false} FixedShift(n: nat, x: nat, z: nat)
    ensures x * Pow(10, z) >= 0 && Fixed(10, n + z, x * Pow(10, z)) == Fixed(10, n, x) + Zeros(z)
    ensures ShortFraction(x * Pow(10, z), n + z) == ShortFraction(x, n)
  {
    PowPositive(10, z);
    MulMono(0, x, Pow(10, z));
    if z == 0 {
      assert x * 1 == x && Fixed(10, n, x) + Zeros(0) == Fixed(10, n, x);
    } else {
      var y := x * Pow(10, z - 1);
      FixedShift(n, x, z - 1);
      Regroup(x, 10, Pow(10, z - 1));
      assert x * Pow(10, z) == y * 10;
      DivModUnique(x * Pow(10, z), 10, y, 0);
      assert Zeros(z) == Zeros(z - 1) + [0];
      assert Fixed(10, n, x) + Zeros(z) == (Fixed(10, n, x) + Zeros(z - 1)) + [0];
    }
  }

  lemma {:induction false} DecimalShift(x: nat, z: nat)
    ensures x * Pow(10, z) >= 0 && Decimal(x * Pow(10, z)) == IntegerDigits(x, z)
  {
    hide Decimal;
    PowPositive(10, z);
    MulMono(0, x, Pow(10, z));
    if x == 0 {
      DecimalZero();
    } else if z == 0 {
      assert x * 1 == x && Decimal(x) + Noughts(0) == Decimal(x);
    } else {
      hide Pow;
      DecimalShift(x, z - 1);
      TimesTen(x, z);
      DecimalStep(x * Pow(10, z));
      OneMoreNought(Decimal(x), z);
    }
  }

  lemma OneMoreNought(s: seq<u8>, z: nat)
    requires z > 0
    ensures s + Noughts(z) == (s + Noughts(z - 1)) + [ZERO]
  {
  }

  lemma TimesTen(x: nat, z: nat)
    requires x > 0 && z > 0
    ensures x * Pow(10, z) >= 0 && 0 < x * Pow(10, z - 1)
    ensures x * Pow(10, z) / 10 == x * Pow(10, z - 1) && x * Pow(10, z) % 10 == 0
  {
    PowPositive(10, z - 1);
    MulMono2(1, x, 1, Pow(10, z - 1));
    Regroup(x, 10, Pow(10, z - 1));
    DivModUnique(x * Pow(10, z), 10, x * Pow(10, z - 1), 0);
  }

  lemma ScaleSplit(a: nat, z: nat, tz: nat)
    ensures a * Pow(10, z) >= 0 && Pow(10, tz) > 0
    ensures a * Pow(10, z + tz) == (a * Pow(10, z)) * Pow(10, tz) >= 0
  {
    PowPositive(10, z);
    PowPositive(10, tz);
    MulMono(0, a, Pow(10, z));
    PowAdd(10, z, tz);
    Assoc(a, Pow(10, z), Pow(10, tz));
    MulMono(0, a * Pow(10, z), Pow(10, tz));
  }

  lemma SameDigits(a: nat, x: nat, n: nat, z: nat)
    requires x == a * Pow(10, z) && (n == 0 || z == 0)
    ensures Fixed(10, n, x) == Fixed(10, n, a) && ShortFraction(x, n) == ShortFraction(a, n)
  {
    if z == 0 {
      assert x == a * 1;
    }
  }

  lemma LowPart(v: nat, decimals: nat, trailing: bool)
    ensures DecimalPart(Fraction(v, decimals), decimals, trailing)
         == if decimals == 0 then []
            else if trailing then [DOT] + Text(Fixed(10, decimals, v))
            else ShortFraction(v, decimals)
  {
    FixedLow(10, decimals, v);
    ShortFractionIs(v, decimals);
  }

  /** The fraction digits once scaling is split off: tz zeros behind n digits of a. */
  lemma FractionIs(a: nat, n: nat, z: nat, tz: nat, trailing: bool, v: nat)
    requires (n == 0 || z == 0) && v == a * Pow(10, z + tz)
    ensures DecimalPart(Fraction(v, n + tz), n + tz, trailing)
         == Remaining(a, n, trailing && tz > 0, trailing) + Noughts(if trailing then tz else 0)
  {
    ScaleSplit(a, z, tz);
    var x := a * Pow(10, z);
    LowPart(v, n + tz, trailing);
    FixedShift(n, x, tz);
    SameDigits(a, x, n, z);
    ZerosAsText(Fixed(10, n, a), tz);
    hide Pow, Fixed, ShortFraction, DecimalPart, Fraction;
    if !trailing && n + tz == 0 {
      RemainingEnd(a, 0);
    }
    assert Noughts(0) == [];
  }

  lemma ZerosAsText(s: seq<int>, z: nat)
    requires Digital(10, s)
    ensures Text(s + Zeros(z)) == Text(s) + Noughts(z)
  {
  }

  /** The integer digits once scaling is split off. */
  lemma IntegerIs(a: nat, n: nat, z: nat, tz: nat, v: nat)
    requires (n == 0 || z == 0) && v == a * Pow(10, z + tz)
    ensures Decimal(Whole(v, n + tz)) == IntegerDigits(Whole(a, n), z)
  {
    var x, p, q := a * Pow(10, z), Pow(10, tz), Pow(10, n);
    ScaleSplit(a, z, tz);
    PowPositive(10, n);
    PowAdd(10, n, tz);
    CancelScale(x, p, q);
    DivMod(a, q);
    MulMono2(1, q, 1, p);
    DecimalShift(a / q, z);
    if z == 0 {
      assert x == a * 1 && a / q * 1 == a / q;
    } else {
      assert q == 1 && a / 1 == a && x / 1 == x;
    }
  }

  lemma CancelScale(x: nat, p: int, q: int)
    requires p > 0 && q > 0
    ensures x * p >= 0 && q * p > 0 && (x * p) / (q * p) == x / q
  {
    DivModUnique(x * p, p, x, 0);
    DivDiv(x * p, p, q);
    assert p * q == q * p;
    MulMono(0, x, p);
  }

  /** The text with its terminator, its number part as the code writes it after scaling to a * 10^(z + tz). */
  lemma TextIs(v: nat, prefix: seq<u8>, suffix: seq<u8>, exponent: int, trailing: bool, thousands: u8,
               a: nat, n: nat, z: nat, tz: nat)
    requires n == 0 || z == 0
    requires if exponent >= 0 then a == v && z + tz == exponent else a == Scaled(v, exponent) && z + tz == 0
    ensures Formatted(v, prefix, suffix, n + tz, exponent, trailing, thousands)
         == prefix + FromRight(IntegerDigits(Whole(a, n), z), 0, thousands)
            + (Remaining(a, n, trailing && tz > 0, trailing) + Noughts(if trailing then tz else 0)) + suffix
  {
    ScaledIs(v, exponent, a, z + tz);
    hide Pow, Scaled, DecimalPart, Remaining, FromRight, Grouped, Decimal, IntegerDigits, Noughts, Whole, Fraction;
    FractionIs(a, n, z, tz, trailing, Scaled(v, exponent));
    IntegerIs(a, n, z, tz, Scaled(v, exponent));
    GroupedIs(IntegerDigits(Whole(a, n), z), thousands);
  }

  lemma ScaledIs(v: nat, exponent: int, a: nat, e: nat)
    requires if exponent >= 0 then a == v && e == exponent else a == Scaled(v, exponent) && e == 0
    ensures Scaled(v, exponent) == a * Pow(10, e)
  {
    assert Pow(10, 0) == 1 && a * 1 == a;
  }

  // bn_format
  method Format(amount: array<u32>, prefix: seq<u8>, suffix: seq<u8>, decimals: nat, exponent: int, trailing: bool,
                thousands: u8, output: array<u8>)
      returns (length: nat)
    requires IsBignum(amount)
    modifies output
    ensures old(Value(amount[..])) >= 0
    ensures var t := Formatted(old(Value(amount[..])), prefix, suffix, decimals, exponent, trailing, thousands);
      if |t| < output.Length then length == |t| && output[..length + 1] == t + [0]
      else length == 0 && forall j :: 0 <= j < output.Length ==> output[j] == 0
  {
    hide Writing, Wiped, Value, Formatted, Remaining, FromRight, IntegerDigits, Noughts, Scaled, Pow, Whole;
    ValueBound(amount[..]);
    ghost var v := Value(amount[..]);
    ghost var t := Formatted(v, prefix, suffix, decimals, exponent, trailing, thousands);
    var temp := CopyOf(amount);
    var ok, p := WriteNumber(temp, prefix, suffix, decimals, exponent, trailing, thousands, output, t, v);
    if !ok {
      WipedAll(t, output[..]);
      return 0;
    }
    ghost var was := output[..];
    AllWritten(t, was, p);
    length := output.Length - p - 1;
    forall i | 0 <= i <= length {
      output[i] := output[p + i];
    }
    assert output[..length + 1] == was[p..];
  }

  method CopyOf(x: array<u32>) returns (y: array<u32>)
    requires IsBignum(x)
    ensures fresh(y) && IsBignum(y) && Value(y[..]) == Value(x[..])
  {
    y := new u32[LIMBS](_ => 0);
    Copy(x, y);
  }

  lemma WipedAll(t: seq<u8>, out: seq<u8>)
    requires Wiped(t + [0], out)
    ensures |t| >= |out| && forall j :: 0 <= j < |out| ==> out[j] == 0
  {
  }

  lemma AllWritten(t: seq<u8>, out: seq<u8>, p: nat)
    requires Writing(t + [0], [], out, p)
    ensures p <= |out| && out[p..] == t + [0] && |t| == |out| - p - 1
  {
  }

  // everything up to the final move: the text, from its end to its start
  method WriteNumber(temp: array<u32>, prefix: seq<u8>, suffix: seq<u8>, decimals: nat, exponent: int, trailing: bool,
                     thousands: u8, output: array<u8>, ghost t: seq<u8>, ghost v: nat)
      returns (ok: bool, p: nat)
    requires IsBignum(temp) && Value(temp[..]) == v
    requires t == Formatted(v, prefix, suffix, decimals, exponent, trailing, thousands)
    modifies temp, output
    ensures ok ==> Writing(t + [0], [], output[..], p)
    ensures !ok ==> Wiped(t + [0], output[..])
  {
    hide Wiped, IsBignum, Value, Formatted, Remaining, FromRight, IntegerDigits, Noughts, Scaled, Pow, Whole;
    ghost var text := t + [0];
    ghost var e := if exponent >= 0 then exponent else 0;
    ghost var a := if exponent >= 0 then v else Scaled(v, exponent);
    ghost var tz0 := if decimals < e then decimals else e;
    ghost var n, z := decimals - tz0, e - tz0;
    TextIs(v, prefix, suffix, exponent, trailing, thousands, a, n, z, tz0);
    ghost var integer := prefix + FromRight(IntegerDigits(Whole(a, n), z), 0, thousands);
    ghost var fraction := integer + Remaining(a, n, trailing && tz0 > 0, trailing);
    ghost var noughts := Noughts(if trailing then tz0 else 0);
    assert t == (fraction + noughts) + suffix;
    assert text + output[output.Length..] == text;
    hide Writing;
    ok, p := AddChar(output, output.Length, 0, text, t);
    if !ok {
      return;
    }
    ok, p := AddText(output, p, suffix, text, fraction + noughts);
    if !ok {
      return;
    }
    var exponentLeft := ScaleDown(temp, exponent, v);
    var trailingZeros := if decimals < exponentLeft then decimals else exponentLeft;
    var started := trailing && trailingZeros > 0;
    if started {
      ok, p := AddText(output, p, Noughts(trailingZeros), text, fraction);
      if !ok {
        return;
      }
    } else {
      NoNoughts(fraction);
    }
    ok, p := AddFraction(temp, decimals - trailingZeros, trailing, started, output, p, text, integer, a);
    if !ok {
      return;
    }
    ok, p := AddInteger(temp, exponentLeft - trailingZeros, thousands, output, p, text, prefix, Whole(a, n));
    if !ok {
      return;
    }
    assert [] + prefix == prefix;
    ok, p := AddText(output, p, prefix, text, []);
  }

  lemma NoNoughts(s: seq<u8>)
    ensures s + Noughts(0) == s
  {
  }
}

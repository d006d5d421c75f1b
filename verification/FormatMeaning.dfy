/** What the formatted text says: reading it back gives the amount. */
module FormatMeaning {
  import opened Arith
  import opened Words
  import opened Digits
  import opened BitStrings
  import opened FormatSpec

  predicate IsDecimal(s: seq<u8>) { forall j :: 0 <= j < |s| ==> '0' as int <= s[j] <= '9' as int }

  /** The number that decimal characters write. */
  function Read(s: seq<u8>): int {
    if s == [] then 0 else Read(s[..|s| - 1]) * 10 + (s[|s| - 1] - '0' as int)
  }

  lemma {:induction false} ReadText(t: seq<int>)
    requires Digital(10, t)
    ensures IsDecimal(Text(t)) && Read(Text(t)) == Num(10, t)
  {
    if t != [] {
      var n := |t| - 1;
      ReadText(t[..n]);
      assert Text(t)[..n] == Text(t[..n]);
    }
  }

  lemma {:induction false} ReadZeros(s: seq<u8>, k: nat)
    ensures Read(s + seq(k, _ => '0' as int)) == Read(s) * Pow(10, k)
  {
    var z: seq<u8> := seq(k, _ => '0' as int);
    if k == 0 {
      assert s + z == s;
    } else {
      ReadZeros(s, k - 1);
      assert (s + z)[..|s| + k - 1] == s + seq(k - 1, _ => '0' as int);
      Regroup(Read(s), 10, Pow(10, k - 1));
    }
  }

  lemma {:induction false} RStripShape(s: seq<u8>, c: u8) returns (k: nat)
    ensures s == RStrip(s, c) + seq(k, _ => c)
    ensures RStrip(s, c) != [] ==> RStrip(s, c)[|RStrip(s, c)| - 1] != c
  {
    k := 0;
    if s != [] && s[|s| - 1] == c {
      var rest := RStripShape(s[..|s| - 1], c);
      k := rest + 1;
      assert seq(k, _ => c) == seq(rest, _ => c) + [c];
    }
  }

  lemma {:induction false} StripBehind(d: u8, s: seq<u8>, c: u8)
    requires d != c
    ensures RStrip([d] + s, c) == [d] + RStrip(s, c)
  {
    if s != [] && s[|s| - 1] == c {
      StripBehind(d, s[..|s| - 1], c);
      assert ([d] + s)[..|s|] == [d] + s[..|s| - 1];
    } else if s == [] {
      assert [d] + s == [d];
    }
  }

  /** The text of a number has no leading zeros, and reading it gives the number. */
  lemma DecimalMeans(n: nat)
    ensures var w := Decimal(n);
      IsDecimal(w) && Read(w) == n && w != [] && (|w| > 1 ==> w[0] != '0' as int)
  {
    MinimalDigital(10, n);
    MinimalLead(10, n);
    if n == 0 {
      assert [ZERO][..0] == [];
    } else {
      ReadText(Minimal(10, n));
    }
  }

  /** The fraction digits, read at their place, are the number behind the point. */
  lemma FractionMeans(v: nat, decimals: nat, trailing: bool) returns (f: seq<u8>)
    requires v < Pow(10, decimals)
    ensures DecimalPart(v, decimals, trailing) == if f == [] then [] else ['.' as int] + f
    ensures IsDecimal(f) && |f| <= decimals && Read(f) * Pow(10, decimals - |f|) == v
    ensures if trailing then |f| == decimals else f != [] ==> f[|f| - 1] != '0' as int
  {
    FixedIs(10, decimals, v);
    var s := Text(Fixed(10, decimals, v));
    ReadText(Fixed(10, decimals, v));
    assert Pow(10, 0) == 1;
    hide Fixed, Text, Read, Pow;
    if trailing || decimals == 0 {
      f := s;
    } else {
      f := RStrip(s, ZERO);
      Stripped(s);
    }
  }

  lemma Stripped(s: seq<u8>)
    requires IsDecimal(s)
    ensures var f := RStrip(s, ZERO);
      && RStrip(RStrip([DOT] + s, ZERO), DOT) == (if f == [] then [] else ['.' as int] + f)
      && IsDecimal(f) && |f| <= |s| && Read(f) * Pow(10, |s| - |f|) == Read(s)
      && (f != [] ==> f[|f| - 1] != '0' as int)
  {
    hide Read, Pow, RStrip;
    var f := RStrip(s, ZERO);
    var k := RStripShape(s, ZERO);
    assert |s| == |f| + k;
    ReadZeros(f, k);
    DecimalFront(f, s);
    StripBehind(DOT, s, ZERO);
    Unpointed(f);
  }

  lemma DecimalFront(f: seq<u8>, s: seq<u8>)
    requires f <= s && IsDecimal(s)
    ensures IsDecimal(f)
  {
    assert forall j :: 0 <= j < |f| ==> f[j] == s[j];
  }

  lemma Unpointed(f: seq<u8>)
    requires IsDecimal(f)
    ensures RStrip([DOT] + f, DOT) == if f == [] then [] else [DOT] + f
  {
    if f == [] {
      assert [DOT] + f == [DOT] && [DOT][..0] == [];
    }
  }

  /** Counted from the right, every fourth character is a separator, and the others are the digits in their order. */
  lemma {:induction false} GroupedMeans(w: seq<u8>, separator: u8)
    requires w != []
    ensures separator == 0 ==> Grouped(w, separator) == w
    ensures separator != 0 ==> IsGrouped(w, Grouped(w, separator), separator)
  {
    hide IsGrouped;
    if separator != 0 {
      if |w| > 3 {
        var n := |w| - 3;
        GroupedMeans(w[..n], separator);
        MoreGroups(w, Grouped(w[..n], separator), separator);
        assert Grouped(w, separator) == Grouped(w[..n], separator) + [separator] + w[n..];
      } else {
        OneGroup(w, separator);
      }
    }
  }

  lemma OneGroup(w: seq<u8>, separator: u8)
    requires 0 < |w| <= 3
    ensures IsGrouped(w, w, separator)
  {
  }

  ghost predicate IsGrouped(w: seq<u8>, g: seq<u8>, separator: u8)
    requires w != []
  {
    && |g| == |w| + (|w| - 1) / 3
    && forall r :: 0 <= r < |g| ==>
      g[|g| - 1 - r] == if r % 4 == 3 then separator else w[|w| - 1 - (r - r / 4)]
  }

  lemma MoreGroups(w: seq<u8>, g: seq<u8>, separator: u8)
    requires |w| > 3 && IsGrouped(w[..|w| - 3], g, separator)
    ensures IsGrouped(w, g + [separator] + w[|w| - 3..], separator)
  {
    var n := |w| - 3;
    var h := g + [separator] + w[n..];
    forall r | 0 <= r < |h|
      ensures h[|h| - 1 - r] == if r % 4 == 3 then separator else w[|w| - 1 - (r - r / 4)]
    {
      if r >= 4 {
        var q := r - 4;
        assert h[|h| - 1 - r] == g[|g| - 1 - q];
        assert q % 4 == r % 4 && q / 4 == r / 4 - 1;
      }
    }
  }

  /** Reading the formatted text back gives the amount, scaled by the exponent and cut to whole units. */
  lemma FormattedMeans(amount: nat, prefix: seq<u8>, suffix: seq<u8>, decimals: nat, exponent: int, trailing: bool,
                       thousands: u8)
      returns (w: seq<u8>, g: seq<u8>, f: seq<u8>)
    ensures Formatted(amount, prefix, suffix, decimals, exponent, trailing, thousands)
         == prefix + g + (if f == [] then [] else ['.' as int] + f) + suffix
    ensures IsDecimal(w) && w != [] && (|w| > 1 ==> w[0] != '0' as int)
    ensures if thousands == 0 then g == w else IsGrouped(w, g, thousands)
    ensures IsDecimal(f) && |f| <= decimals
    ensures if trailing then |f| == decimals else f != [] ==> f[|f| - 1] != '0' as int
    ensures Pow(10, if exponent >= 0 then exponent else -exponent) > 0
    ensures Read(w) * Pow(10, decimals) + Read(f) * Pow(10, decimals - |f|)
         == if exponent >= 0 then amount * Pow(10, exponent) else amount / Pow(10, -exponent)
  {
    var v := Scaled(amount, exponent);
    PowPositive(10, decimals);
    PowPositive(10, if exponent >= 0 then exponent else -exponent);
    DivMod(v, Pow(10, decimals));
    w := Decimal(Whole(v, decimals));
    DecimalMeans(Whole(v, decimals));
    g := Grouped(w, thousands);
    GroupedMeans(w, thousands);
    f := FractionMeans(Fraction(v, decimals), decimals, trailing);
    hide Read, Pow, Decimal, Grouped, DecimalPart, IsGrouped;
  }
}

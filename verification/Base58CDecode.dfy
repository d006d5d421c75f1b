/** The Base58 decoder of base58.c: the number is built in 32-bit words. */
module Base58CDecode {
  import opened Arith
  import opened Words
  import opened Digits
  import opened DigitPass
  import opened Base58Spec
  import opened Options

  // one digit of b58tobin: outi = 58 * outi + digit, returning what does not fit
  method DecodePass(outi: array<u32>, digit: u32) returns (c: u32)
    requires digit < 58
    modifies outi
    ensures Num(0x1_0000_0000, outi[..]) + c * Pow(0x1_0000_0000, outi.Length)
         == 58 * old(Num(0x1_0000_0000, outi[..])) + digit
  {
    ghost var was: seq<int> := outi[..];
    c := digit;
    var j := outi.Length;
    PassStart(0x1_0000_0000, 58, digit, was);
    while j > 0
      invariant 0 <= j <= outi.Length && c < 58
      invariant Pass(0x1_0000_0000, 58, digit, was, outi[..], j, c)
    {
      ghost var now: seq<int> := outi[..];
      assert now[..j][j - 1] == was[..j][j - 1];
      var t: u64 := W64(outi[j - 1] as int * 58 + c);
      PassStep(0x1_0000_0000, 58, digit, was, now, j, c, t % 0x1_0000_0000, t / 0x1_0000_0000);
      j := j - 1;
      c, outi[j] := t / 0x1_0000_0000, t % 0x1_0000_0000;
    }
    assert outi[0..] == outi[..] && was[0..] == was;
  }

  /** The first word may use only the bytes that the buffer has beyond a multiple of four. */
  function FirstWordLimit(binsz: nat): int {
    if binsz % 4 == 0 then 0x1_0000_0000 else Pow(256, binsz % 4)
  }

  lemma WordPower(n: nat)
    ensures Pow(0x1_0000_0000, n) == Pow(256, 4 * n)
  {
    assert Pow(256, 2) == 0x1_0000;
    assert Pow(256, 4) == 0x1_0000_0000;
    PowPow(256, 4, n);
  }

  lemma LimitIs(binsz: nat, n: nat)
    requires binsz > 0 && n == (binsz + 3) / 4
    ensures FirstWordLimit(binsz) * Pow(0x1_0000_0000, n - 1) == Pow(256, binsz)
  {
    WordPower(n - 1);
    WordPower(1);
    assert Pow(0x1_0000_0000, 1) == 0x1_0000_0000;
    var k := if binsz % 4 == 0 then 4 else binsz % 4;
    PowAdd(256, k, 4 * (n - 1));
    assert binsz == k + 4 * (n - 1);
  }

  lemma Comparison(d: int, limit: int, p: int, low: int)
    requires 0 <= low < p
    ensures d < limit <==> d * p + low < limit * p
  {
    if d < limit {
      MulMono(d + 1, limit, p);
    } else {
      MulMono(limit, d, p);
    }
  }

  /** The mask test finds exactly the numbers with more than binsz bytes. */
  lemma WordsFit(outi: seq<u32>, binsz: nat)
    requires binsz > 0 && |outi| == (binsz + 3) / 4
    ensures outi[0] < FirstWordLimit(binsz) <==> Num(0x1_0000_0000, outi) < Pow(256, binsz)
  {
    hide FirstWordLimit;
    var d, rest := outi[0], outi[1..];
    LimitIs(binsz, |outi|);
    NumCons(0x1_0000_0000, d, rest);
    assert [d] + rest == outi;
    NumBound(0x1_0000_0000, rest);
    Comparison(d, FirstWordLimit(binsz), Pow(0x1_0000_0000, |rest|), Num(0x1_0000_0000, rest));
  }

  /** Digits still to come cannot make a number smaller. */
  lemma StillTooBig(s: seq<u8>, i: nat, limit: nat)
    requires i <= |s| && Valid(s[..i]) && Num(58, DigitsOf(s[..i])) >= limit
    ensures Valid(s) ==> Num(58, DigitsOf(s)) >= limit
  {
    if Valid(s) {
      var d := DigitsOf(s);
      assert DigitsOf(s[..i]) == d[..i] && d == d[..i] + d[i..];
      NumConcat(58, d[..i], d[i..]);
      NumBound(58, d[i..]);
      MulMono2(limit, Num(58, d[..i]), 1, Pow(58, |s| - i));
    }
  }

  // the digit loop of b58tobin: outi becomes the number, unless that needs more than binsz bytes
  method FillWords(outi: array<u32>, binsz: nat, b58: seq<u8>, zerocount: nat) returns (ok: bool)
    requires binsz > 0 && outi.Length == (binsz + 3) / 4 && outi[..] == Zeros(outi.Length)
    requires zerocount <= |b58| && forall k :: 0 <= k < zerocount ==> b58[k] == ONE
    modifies outi
    ensures ok <==> Valid(b58) && Num(58, DigitsOf(b58)) < Pow(256, binsz)
    ensures ok ==> Num(0x1_0000_0000, outi[..]) == Num(58, DigitsOf(b58))
  {
    hide FirstWordLimit, Num, Pow;
    var i := zerocount;
    OnesAreZero(b58[..i]);
    NumZeros(0x1_0000_0000, outi.Length);
    PowPositive(256, binsz);
    while i < |b58|
      invariant zerocount <= i <= |b58| && Valid(b58[..i])
      invariant Num(0x1_0000_0000, outi[..]) == Num(58, DigitsOf(b58[..i])) < Pow(256, binsz)
    {
      if b58[i] >= 0x80 {
        return false;
      }
      if DigitOf(b58[i]) == -1 {
        return false;
      }
      NextDigit(b58, i);
      var c := DecodePass(outi, DigitOf(b58[i]));
      i := i + 1;
      Overflow(outi[..], c, binsz);
      if c != 0 || outi[0] >= FirstWordLimit(binsz) {
        StillTooBig(b58, i, Pow(256, binsz));
        return false;
      }
    }
    assert b58[..i] == b58;
    return true;
  }

  lemma OnesAreZero(s: seq<u8>)
    requires forall k :: 0 <= k < |s| ==> s[k] == ONE
    ensures Valid(s) && Num(58, DigitsOf(s)) == 0
  {
    assert DigitsOf(s) == Zeros(|s|);
    NumZeros(58, |s|);
  }

  lemma NextDigit(s: seq<u8>, i: nat)
    requires i < |s| && Valid(s[..i]) && DigitOf(s[i]) >= 0
    ensures Valid(s[..i + 1]) && Num(58, DigitsOf(s[..i + 1])) == 58 * Num(58, DigitsOf(s[..i])) + DigitOf(s[i])
  {
    assert DigitsOf(s[..i + 1]) == DigitsOf(s[..i]) + [DigitOf(s[i])];
    NumSnoc(58, DigitsOf(s[..i]), DigitOf(s[i]));
  }

  /** A carry out of the words, or a first word that is too large, means more than binsz bytes. */
  lemma Overflow(outi: seq<u32>, c: nat, binsz: nat)
    requires binsz > 0 && |outi| == (binsz + 3) / 4
    ensures c == 0 && outi[0] < FirstWordLimit(binsz)
       <==> Num(0x1_0000_0000, outi) + c * Pow(0x1_0000_0000, |outi|) < Pow(256, binsz)
  {
    hide FirstWordLimit, Num, Pow;
    WordsFit(outi, binsz);
    NumBound(0x1_0000_0000, outi);
    WordPower(|outi|);
    PowMono(256, binsz, 4 * |outi|);
    CarryCounts(Num(0x1_0000_0000, outi), c, Pow(0x1_0000_0000, |outi|));
  }

  lemma CarryCounts(low: int, c: nat, p: int)
    requires 0 <= low && 0 < p
    ensures if c == 0 then low + c * p == low else low + c * p >= p
  {
    if c > 0 {
      MulMono(1, c, p);
    }
  }

  // the low n bytes of w, most significant first
  method WriteBytes(bin: array<u8>, at: nat, w: u32, n: nat)
    requires at + n <= bin.Length && w < Pow(256, n)
    modifies bin
    ensures Num(256, bin[..at + n]) == old(Num(256, bin[..at])) * Pow(256, n) + w
  {
    hide Num, Pow;
    ghost var front := bin[..at];
    var i := n;
    NoBytes(w, n);
    assert bin[at..at] == [];
    while i > 0
      invariant 0 <= i <= n
      invariant bin[..at] == front
      invariant Pow(256, i) > 0 && Num(256, bin[at..at + n - i]) == w as int / Pow(256, i)
    {
      var p := at + n - i;
      ghost var done: seq<int> := bin[at..p];
      i := i - 1;
      PowPositive(256, i);
      bin[p] := w as int / Pow(256, i) % 0x100;
      NextByte(w, i, done);
      assert bin[at..p + 1] == done + [bin[p]];
    }
    NoBytes(w, 0);
    NumConcat(256, front, bin[at..at + n]);
    assert bin[..at + n] == front + bin[at..at + n];
  }

  lemma NoBytes(w: nat, n: nat)
    ensures Num(256, []) == 0 && Pow(256, n) > 0
    ensures w < Pow(256, n) ==> w / Pow(256, n) == 0
    ensures Pow(256, 0) == 1 && w / 1 == w
  {
    PowPositive(256, n);
    if w < Pow(256, n) {
      DivModUnique(w, Pow(256, n), 0, w);
    }
  }

  lemma NextByte(w: nat, i: nat, done: seq<int>)
    requires Pow(256, i + 1) > 0 && Pow(256, i) > 0 && Num(256, done) == w / Pow(256, i + 1)
    ensures Num(256, done + [w / Pow(256, i) % 0x100]) == w / Pow(256, i)
  {
    var p := Pow(256, i);
    assert Pow(256, i + 1) == p * 256;
    DivDiv(w, p, 256);
    NumSnoc(256, done, w / p % 0x100);
  }

  // the bytes of a partial first word
  method FirstWord(bin: array<u8>, outi: array<u32>) returns (at: nat, j: nat)
    requires bin.Length > 0 && outi.Length == (bin.Length + 3) / 4
    requires Num(0x1_0000_0000, outi[..]) < Pow(256, bin.Length)
    modifies bin
    ensures j <= outi.Length && at + 4 * (outi.Length - j) == bin.Length
    ensures Num(256, bin[..at]) == Num(0x1_0000_0000, outi[..j])
  {
    var bytesleft := bin.Length % 4;
    at, j := 0, 0;
    EmptyNumber();
    assert bin[..0] == [] && outi[..0] == [];
    WordsFit(outi[..], bin.Length);
    hide Num, Pow;
    if bytesleft != 0 {
      var w := outi[0];
      WriteBytes(bin, 0, w, bytesleft);
      at, j := bytesleft, 1;
      NumSnoc(0x1_0000_0000, [], w);
      assert outi[..1] == [] + [w] && outi[0] == w;
    }
  }

  lemma EmptyNumber()
    ensures Num(256, []) == 0 == Num(0x1_0000_0000, [])
  {
  }

  // the output loops of b58tobin: the words as bytes, the first word perhaps a partial one
  method WordsToBytes(bin: array<u8>, outi: array<u32>)
    requires bin.Length > 0 && outi.Length == (bin.Length + 3) / 4
    requires Num(0x1_0000_0000, outi[..]) < Pow(256, bin.Length)
    modifies bin
    ensures Num(256, bin[..]) == Num(0x1_0000_0000, outi[..])
  {
    hide Num;
    var at, j := FirstWord(bin, outi);
    WordPower(1);
    while j < outi.Length
      invariant 0 <= j <= outi.Length && at + 4 * (outi.Length - j) == bin.Length
      invariant Num(256, bin[..at]) == Num(0x1_0000_0000, outi[..j])
    {
      WriteBytes(bin, at, outi[j], 4);
      NumSnoc(0x1_0000_0000, outi[..j], outi[j]);
      assert outi[..j + 1] == outi[..j] + [outi[j]];
      at, j := at + 4, j + 1;
    }
    assert bin[..at] == bin[..] && outi[..j] == outi[..];
  }

  /** Whether b58tobin accepts a text for a buffer of n bytes. */
  ghost predicate Accepts(s: seq<u8>, n: nat) {
    n > 0 && Decode(s).Some? && |Decode(s).value| <= n
  }

  // b58tobin; the result is written at the end of bin
  method B58ToBin(bin: array<u8>, b58: seq<u8>) returns (ok: bool, binsz: nat)
    requires forall k :: 0 <= k < |b58| ==> b58[k] != 0
    modifies bin
    ensures ok <==> bin.Length > 0 && Decode(b58).Some? && |Decode(b58).value| <= bin.Length
    ensures ok ==> binsz == |Decode(b58).value| && bin[bin.Length - binsz..] == Decode(b58).value
  {
    if bin.Length == 0 {
      return false, 0;
    }
    var outi := new u32[(bin.Length + 3) / 4](_ => 0);
    hide Num, Decode, Zeros, Valid;
    var zerocount := CountLeading(b58, ONE);
    assert outi[..] == Zeros(outi.Length);
    var fits := FillWords(outi, bin.Length, b58, zerocount);
    DecodedLength(b58, bin.Length);
    if !fits {
      return false, bin.Length;
    }
    WordsToBytes(bin, outi);
    var i := CountLeading(bin[..], 0);
    Located(b58, bin[..]);
    if zerocount > i {
      return false, bin.Length;
    }
    return true, bin.Length - i + zerocount;
  }

  lemma DecodedLength(s: seq<u8>, n: nat)
    ensures Decode(s).Some? && |Decode(s).value| <= n ==> Num(58, DigitsOf(s)) < Pow(256, n)
  {
    if Valid(s) {
      MinimalDigital(256, Num(58, DigitsOf(s)));
      MinimalLength(256, Num(58, DigitsOf(s)), n);
    }
  }

  /** Where the decoded bytes end up in a buffer that holds the number. */
  lemma Located(s: seq<u8>, bin: seq<u8>)
    requires Valid(s) && Num(256, bin) == Num(58, DigitsOf(s))
    ensures var zerocount, i := Leading(s, ONE), Leading(bin, 0);
            && Decode(s).Some? && |Decode(s).value| == zerocount + |bin| - i
            && (zerocount <= i ==> bin[i - zerocount..] == Decode(s).value)
  {
    var zerocount, i := Leading(s, ONE), Leading(bin, 0);
    hide Num, Minimal, Leading;
    Stripped(256, bin);
    MinimalDigital(256, Num(256, bin));
    assert Decode(s) == Some(Bytes(Zeros(zerocount) + Minimal(256, Num(256, bin))));
    hide Decode;
    Placed(bin, Minimal(256, Num(256, bin)), zerocount, i);
  }

  lemma Placed(bin: seq<u8>, t: seq<int>, zerocount: nat, i: nat)
    requires Digital(256, t) && bin == Zeros(i) + t
    ensures |Bytes(Zeros(zerocount) + t)| == zerocount + |bin| - i
    ensures zerocount <= i ==> bin[i - zerocount..] == Bytes(Zeros(zerocount) + t)
  {
  }
}

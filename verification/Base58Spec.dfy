/** What a Base58 string means: one '1' per leading zero byte, then the number in base 58. */
module Base58Spec {
  import opened Words
  import opened Digits
  import opened Options

  const ONE: u8 := 49  // '1'

  /** The character for a digit: the alphabet without 0, I, O and l. */
  function CharOf(d: int): u8
    requires 0 <= d < 58
  {
    if d < 9 then 49 + d          // 1..9
    else if d < 17 then 65 + d - 9  // A..H
    else if d < 22 then 74 + d - 17 // J..N
    else if d < 33 then 80 + d - 22 // P..Z
    else if d < 44 then 97 + d - 33 // a..k
    else 109 + d - 44               // m..z
  }

  /** The digit for a character, -1 for a character outside the alphabet. */
  function DigitOf(c: u8): (d: int)
    ensures -1 <= d < 58
    ensures d >= 0 ==> CharOf(d) == c
  {
    if 49 <= c <= 57 then c - 49
    else if 65 <= c <= 72 then c - 65 + 9
    else if 74 <= c <= 78 then c - 74 + 17
    else if 80 <= c <= 90 then c - 80 + 22
    else if 97 <= c <= 107 then c - 97 + 33
    else if 109 <= c <= 122 then c - 109 + 44
    else -1
  }

  /** The alphabet is made of the digits and letters other than 0, I, O and l, in the order of their codes. */
  lemma Alphabet(c: u8)
    ensures ONE == '1' as int
    ensures forall d, e :: 0 <= d < e < 58 ==> CharOf(d) < CharOf(e)
    ensures DigitOf(c) >= 0 <==>
      && ('0' as int <= c <= '9' as int || 'A' as int <= c <= 'Z' as int || 'a' as int <= c <= 'z' as int)
      && c != '0' as int && c != 'I' as int && c != 'O' as int && c != 'l' as int
    ensures DigitOf(c) >= 0 ==> CharOf(DigitOf(c)) == c
  {
  }

  lemma DigitOfChar(d: int)
    requires 0 <= d < 58
    ensures DigitOf(CharOf(d)) == d
  {
  }

  predicate Valid(s: seq<u8>) { forall j :: 0 <= j < |s| ==> DigitOf(s[j]) >= 0 }

  function DigitsOf(s: seq<u8>): (t: seq<int>)
    ensures |t| == |s| && forall j :: 0 <= j < |s| ==> t[j] == DigitOf(s[j])
  {
    seq(|s|, j requires 0 <= j < |s| => DigitOf(s[j]))
  }

  function CharsOf(t: seq<int>): (s: seq<u8>)
    requires Digital(58, t)
    ensures |s| == |t| && forall j :: 0 <= j < |t| ==> s[j] == CharOf(t[j])
  {
    seq(|t|, j requires 0 <= j < |t| => CharOf(t[j]))
  }

  /** How many elements at the front equal v. */
  function Leading(s: seq<int>, v: int): (n: nat)
    ensures n <= |s| && (forall j :: 0 <= j < n ==> s[j] == v) && (n < |s| ==> s[n] != v)
  {
    if s == [] || s[0] != v then 0 else 1 + Leading(s[1..], v)
  }

  /** Base-58 text of a byte string. */
  function Encode(bytes: seq<u8>): seq<u8> {
    MinimalDigital(58, Num(256, bytes));
    seq(Leading(bytes, 0), _ => ONE) + CharsOf(Minimal(58, Num(256, bytes)))
  }

  /** The byte string a text stands for. */
  function Decode(s: seq<u8>): Option<seq<u8>> {
    if Valid(s) then
      MinimalDigital(256, Num(58, DigitsOf(s)));
      Some(Bytes(Zeros(Leading(s, ONE)) + Minimal(256, Num(58, DigitsOf(s)))))
    else None
  }

  function Bytes(t: seq<int>): (s: seq<u8>)
    requires Digital(256, t)
    ensures |s| == |t| && forall j :: 0 <= j < |t| ==> s[j] == t[j]
  {
    seq(|t|, j requires 0 <= j < |t| => t[j])
  }

  // ------------------------------------------------------------ round trips

  lemma LeadingUnique(s: seq<int>, v: int, n: nat)
    requires n <= |s| && (forall j :: 0 <= j < n ==> s[j] == v) && (n < |s| ==> s[n] != v)
    ensures Leading(s, v) == n
  {
  }

  // the loop that counts leading zeros or ones
  method CountLeading(s: seq<u8>, v: u8) returns (n: nat)
    ensures n == Leading(s, v)
  {
    n := 0;
    while n < |s| && s[n] == v
      invariant n <= |s| && forall k :: 0 <= k < n ==> s[k] == v
    {
      n := n + 1;
    }
    LeadingUnique(s, v, n);
  }

  /** A digit string is its leading zeros and the minimal digits of its number. */
  lemma Stripped(b: int, s: seq<int>)
    requires b > 1 && Digital(b, s)
    ensures Num(b, s) >= 0 && s == Zeros(Leading(s, 0)) + Minimal(b, Num(b, s))
  {
    var n := Leading(s, 0);
    assert s == Zeros(n) + s[n..];
    NumPad(b, n, s[n..]);
    MinimalUnique(b, s[n..]);
  }

  lemma TextShape(z: nat, t: seq<int>)
    requires Digital(58, t) && (t == [] || t[0] > 0)
    ensures var s := seq(z, _ => ONE) + CharsOf(t);
            Valid(s) && DigitsOf(s) == Zeros(z) + t && Leading(s, ONE) == z
  {
    var s: seq<u8> := seq(z, _ => ONE) + CharsOf(t);
    forall j | 0 <= j < |s|
      ensures DigitOf(s[j]) == if j < z then 0 else t[j - z]
    {
      if j >= z {
        assert s[j] == CharOf(t[j - z]);
        DigitOfChar(t[j - z]);
      }
    }
    LeadingUnique(s, ONE, z);
  }

  lemma EncodeShape(bytes: seq<u8>)
    ensures Num(256, bytes) >= 0 && Valid(Encode(bytes))
    ensures Leading(Encode(bytes), ONE) == Leading(bytes, 0)
    ensures DigitsOf(Encode(bytes)) == Zeros(Leading(bytes, 0)) + Minimal(58, Num(256, bytes))
  {
    var n := Num(256, bytes);
    NumBound(256, bytes);
    MinimalDigital(58, n);
    MinimalLead(58, n);
    TextShape(Leading(bytes, 0), Minimal(58, n));
  }

  /** Decoding an encoding gives the bytes back, leading zeros included. */
  lemma DecodeEncode(bytes: seq<u8>)
    ensures Decode(Encode(bytes)) == Some(bytes)
  {
    var n, z := Num(256, bytes), Leading(bytes, 0);
    EncodeShape(bytes);
    NumPad(58, z, Minimal(58, n));
    MinimalDigital(256, n);
    Stripped(256, bytes);
    hide Num, Minimal, Leading, DigitOf;
    var out := Zeros(z) + Minimal(256, n);
    assert Decode(Encode(bytes)) == Some(Bytes(out));
    assert Bytes(out) == bytes;
  }

  lemma DecodeShape(s: seq<u8>)
    requires Valid(s)
    ensures var bytes := Decode(s).value;
            && Leading(bytes, 0) == Leading(s, ONE) == Leading(DigitsOf(s), 0)
            && Num(256, bytes) == Num(58, DigitsOf(s)) >= 0
  {
    var d, z := DigitsOf(s), Leading(s, ONE);
    var n := Num(58, d);
    NumBound(58, d);
    MinimalDigital(256, n);
    MinimalLead(256, n);
    NumPad(256, z, Minimal(256, n));
    var bytes := Decode(s).value;
    assert bytes == Zeros(z) + Minimal(256, n);
    LeadingUnique(bytes, 0, z);
    LeadingUnique(d, 0, z);
  }

  /** Encoding what was decoded gives the text back. */
  lemma EncodeDecode(s: seq<u8>)
    requires Decode(s).Some?
    ensures Encode(Decode(s).value) == s
  {
    var d, bytes := DigitsOf(s), Decode(s).value;
    DecodeShape(s);
    Stripped(58, d);
    MinimalDigital(58, Num(58, d));
    forall j | 0 <= j < |s|
      ensures Encode(bytes)[j] == s[j]
    {
      assert d[j] == DigitOf(s[j]);
    }
  }

  /**
    * A text stands for a byte string exactly when it is made of digits, writes the same number in base 58 as the bytes
    * in base 256, and starts with as many '1's as there are leading zero bytes.
    */
  lemma StandsFor(s: seq<u8>, bytes: seq<u8>)
    ensures Decode(s) == Some(bytes) <==>
      && (forall j :: 0 <= j < |s| ==> DigitOf(s[j]) >= 0)
      && Num(58, DigitsOf(s)) == Num(256, bytes) && Leading(s, '1' as int) == Leading(bytes, 0)
    ensures Encode(bytes) == s <==> Decode(s) == Some(bytes)
  {
    if Valid(s) {
      DecodeShape(s);
      Stripped(256, bytes);
      Stripped(256, Decode(s).value);
    }
    hide Num, Leading, DigitOf;
    if Encode(bytes) == s {
      DecodeEncode(bytes);
    }
    if Decode(s) == Some(bytes) {
      EncodeDecode(s);
    }
  }

  /** No two byte strings share a text, and no two texts share a byte string. */
  lemma EncodeInjective(a: seq<u8>, b: seq<u8>)
    requires Encode(a) == Encode(b)
    ensures a == b
  {
    DecodeEncode(a);
    DecodeEncode(b);
  }
}

/** The Base58 codec of Base58.hpp: both directions keep bytes and a count of significant digits. */
module Base58Cpp {
  import opened Arith
  import opened Words
  import opened Digits
  import opened DigitPass
  import opened Base58Spec
  import opened Options
  import opened Base58Size
  import Base58C
  import Base58CDecode

  predicate IsSpace(c: u8) { c == 32 || 9 <= c <= 13 }

  predicate NoSpace(s: seq<u8>) { forall k :: 0 <= k < |s| ==> !IsSpace(s[k]) }

  function TrimLeft(s: seq<u8>): seq<u8> {
    if s != [] && IsSpace(s[0]) then TrimLeft(s[1..]) else s
  }

  function TrimRight(s: seq<u8>): seq<u8> {
    if s != [] && IsSpace(s[|s| - 1]) then TrimRight(s[..|s| - 1]) else s
  }

  /** The text without white space around it. */
  function Trim(s: seq<u8>): seq<u8> { TrimRight(TrimLeft(s)) }

  /** Whether DecodeBase58 accepts a trimmed text; an empty one is never checked against the limit. */
  ghost predicate Accepts(s: seq<u8>, maxRetLen: int) {
    Decode(s).Some? && (|Decode(s).value| <= maxRetLen || s == [])
  }

  /** The white space characters of the C locale. */
  lemma SpacesAre(c: u8)
    ensures IsSpace(c) <==>
      c as char == ' ' || c as char == '\t' || c as char == '\n' || c as char == '\U{B}' || c as char == '\U{C}'
      || c as char == '\r'
  {
  }

  /** Trimming takes away white space only, and all of it at both ends. */
  lemma TrimIs(s: seq<u8>) returns (before: seq<u8>, after: seq<u8>)
    ensures s == before + Trim(s) + after
    ensures forall k :: 0 <= k < |before| ==> IsSpace(before[k])
    ensures forall k :: 0 <= k < |after| ==> IsSpace(after[k])
    ensures Trim(s) != [] ==> !IsSpace(Trim(s)[0]) && !IsSpace(Trim(s)[|Trim(s)| - 1])
  {
    before := TrimLeftShape(s);
    var t := TrimLeft(s);
    TrimRightShape(t);
    after := t[|TrimRight(t)|..];
    assert t == TrimRight(t) + after;
  }

  lemma {:induction false} TrimLeftShape(s: seq<u8>) returns (before: seq<u8>)
    ensures s == before + TrimLeft(s) && forall k :: 0 <= k < |before| ==> IsSpace(before[k])
    ensures TrimLeft(s) != [] ==> !IsSpace(TrimLeft(s)[0])
  {
    before := [];
    if s != [] && IsSpace(s[0]) {
      var rest := TrimLeftShape(s[1..]);
      before := [s[0]] + rest;
    }
  }

  lemma {:induction false} TrimRightShape(s: seq<u8>)
    ensures var e := |TrimRight(s)|;
            && e <= |s| && TrimRight(s) == s[..e] && (forall k :: e <= k < |s| ==> IsSpace(s[k]))
            && (e > 0 ==> !IsSpace(s[e - 1]))
  {
    if s != [] && IsSpace(s[|s| - 1]) {
      TrimRightShape(s[..|s| - 1]);
    }
  }

  // the inner loop of both directions: buf = m * buf + c, where only length digits are in use
  method AppendDigit(buf: array<u8>, b: int, m: int, c: u8, length0: nat) returns (length: nat)
    requires (b == 256 && m == 58 && c < 58) || (b == 58 && m == 256)
    requires length0 <= buf.Length && Digital(b, buf[..])
    requires forall k :: 0 <= k < buf.Length - length0 ==> buf[k] == 0
    requires m * Num(b, buf[..]) + c < Pow(b, buf.Length)
    modifies buf
    ensures Digital(b, buf[..]) && Num(b, buf[..]) == m * old(Num(b, buf[..])) + c
    ensures length0 <= length <= buf.Length && forall k :: 0 <= k < buf.Length - length ==> buf[k] == 0
    ensures length > length0 ==> buf[buf.Length - length] != 0
  {
    hide Num, Pow;
    ghost var was: seq<int> := buf[..];
    var carry: int := c;
    var i := 0;
    PassStart(b, m, c, was);
    while (carry != 0 || i < length0) && i < buf.Length
      invariant 0 <= i <= buf.Length && 0 <= carry < 256
      invariant Digital(b, buf[..]) && Pass(b, m, c, was, buf[..], buf.Length - i, carry)
      invariant i > length0 ==> carry != 0 || buf[buf.Length - i] != 0
    {
      carry := PassDigit(buf, b, m, buf.Length - 1 - i, carry, c, was);
      i := i + 1;
    }
    if i == buf.Length {
      PassFits(b, m, c, was, buf[..], 0, carry, buf.Length);
    }
    assert carry == 0;
    PassEnd(b, m, c, was, buf[..], buf.Length - i);
    length := i;
  }

  /** The count of digits in use is the number of significant digits. */
  lemma SignificantDigits(buf: seq<u8>, before: int, length0: nat, length: nat)
    requires length0 == |Minimal(256, before)| && length0 <= length <= |buf| && before <= Num(256, buf)
    requires forall k :: 0 <= k < |buf| - length ==> buf[k] == 0
    requires length > length0 ==> buf[|buf| - length] != 0
    ensures length == |Minimal(256, Num(256, buf))|
  {
    var n := Num(256, buf);
    Stripped(256, buf);
    if length > length0 {
      LeadingUnique(buf, 0, |buf| - length);
    } else {
      MinimalLength(256, n, |Minimal(256, n)|);
      MinimalLength(256, before, |Minimal(256, n)|);
      assert Leading(buf, 0) >= |buf| - length;
    }
  }

  /** 733 / 1000 bytes for each digit after the ones are enough. */
  lemma Room(t: seq<u8>, z: nat, p: nat)
    requires z <= p <= |t| && Valid(t[..p]) && forall k :: 0 <= k < z ==> t[k] == ONE
    ensures 0 <= Num(58, DigitsOf(t[..p])) < Pow(256, (|t| - z) * 733 / 1000 + 1)
  {
    hide Num, Pow;
    var d := DigitsOf(t[..p]);
    var rest := d[z..];
    AfterOnes(t[..p], z);
    NumBound(58, rest);
    PowMono(58, |rest|, |t| - z);
    DecodeFits(|t| - z);
  }

  lemma AfterOnes(s: seq<u8>, z: nat)
    requires z <= |s| && Valid(s) && forall k :: 0 <= k < z ==> s[k] == ONE
    ensures Num(58, DigitsOf(s)) == Num(58, DigitsOf(s)[z..])
  {
    var d := DigitsOf(s);
    assert d == Zeros(z) + d[z..];
    NumPad(58, z, d[z..]);
  }

  /** A text whose first p characters need too many bytes is too long itself. */
  lemma TooLong(t: seq<u8>, p: nat, e: nat, maxRetLen: int)
    requires p <= e <= |t| && Valid(t[..p]) && 0 <= Num(58, DigitsOf(t[..p]))
    requires Leading(t[..e], ONE) + |Minimal(256, Num(58, DigitsOf(t[..p])))| > maxRetLen
    requires e > 0
    ensures !Accepts(t[..e], maxRetLen)
  {
    var s := t[..e];
    assert s[..p] == t[..p];
    if Valid(s) {
      var n, all := Num(58, DigitsOf(t[..p])), Num(58, DigitsOf(s));
      Base58CDecode.StillTooBig(s, p, n);
      MinimalLength(256, all, |Minimal(256, all)|);
      MinimalLength(256, n, |Minimal(256, all)|);
      MinimalDigital(256, all);
    }
  }

  /** buf holds the number of the text s, in its last length bytes. */
  ghost predicate BytesOf(buf: seq<u8>, length: nat, s: seq<u8>)
    requires Valid(s)
  {
    && length <= |buf| && (forall k :: 0 <= k < |buf| - length ==> buf[k] == 0)
    && 0 <= Num(256, buf) == Num(58, DigitsOf(s)) && length == |Minimal(256, Num(256, buf))|
  }

  // one character of DecodeBase58
  method DecodeCharacter(t: seq<u8>, zeroes: nat, p: nat, b256: array<u8>, length0: nat) returns (length: nat)
    requires zeroes <= p < |t| && Valid(t[..p]) && DigitOf(t[p]) >= 0
    requires forall k :: 0 <= k < zeroes ==> t[k] == ONE
    requires b256.Length == (|t| - zeroes) * 733 / 1000 + 1 && BytesOf(b256[..], length0, t[..p])
    modifies b256
    ensures Valid(t[..p + 1]) && BytesOf(b256[..], length, t[..p + 1])
  {
    hide Num, Minimal, DigitOf;
    ghost var before := Num(256, b256[..]);
    Base58CDecode.NextDigit(t, p);
    Room(t, zeroes, p);
    Room(t, zeroes, p + 1);
    length := AppendDigit(b256, 256, 58, DigitOf(t[p]), length0);
    SignificantDigits(b256[..], before, length0, length);
  }

  // the digit loop of DecodeBase58 on the text t, of which p characters are used
  method DecodeDigits(t: seq<u8>, zeroes: nat, maxRetLen: int)
      returns (ok: bool, p: nat, b256: array<u8>, length: nat)
    requires zeroes == Leading(t, ONE) && (zeroes <= maxRetLen || zeroes == 0)
    ensures fresh(b256)
    ensures !ok ==> !Accepts(TrimRight(t), maxRetLen)
    ensures ok ==> zeroes <= p <= |t| && Valid(t[..p]) && (p < |t| ==> IsSpace(t[p]))
    ensures ok ==> (zeroes + length <= maxRetLen || p == 0) && BytesOf(b256[..], length, t[..p])
  {
    hide Num, Minimal, Leading, Accepts, TrimRight, Decode;
    var size := (|t| - zeroes) * 733 / 1000 + 1;
    b256 := new u8[size](_ => 0);
    p, length := zeroes, 0;
    Base58CDecode.OnesAreZero(t[..p]);
    assert b256[..] == Zeros(size);
    NumZeros(256, size);
    NoDigits();
    TrimRightShape(t);
    while p < |t| && !IsSpace(t[p])
      invariant zeroes <= p <= |t| && Valid(t[..p])
      invariant zeroes + length <= maxRetLen || p == 0
      invariant BytesOf(b256[..], length, t[..p])
    {
      var digit := DigitOf(t[p]);
      if digit == -1 {
        InvalidInside(t, p, maxRetLen);
        return false, p, b256, length;
      }
      length := DecodeCharacter(t, zeroes, p, b256, length);
      p := p + 1;
      if length + zeroes > maxRetLen {
        OnesInside(t);
        TooLong(t, p, |TrimRight(t)|, maxRetLen);
        return false, p, b256, length;
      }
    }
    return true, p, b256, length;
  }

  lemma NoDigits()
    ensures Minimal(256, 0) == []
  {
  }

  /** An invalid character that is no space outlives trimming; so does a space before one. */
  lemma InvalidInside(t: seq<u8>, p: nat, maxRetLen: int)
    requires p < |TrimRight(t)| <= |t| && DigitOf(t[p]) == -1
    ensures !Accepts(TrimRight(t), maxRetLen)
  {
    TrimRightShape(t);
    assert TrimRight(t)[p] == t[p];
  }

  lemma OnesInside(t: seq<u8>)
    ensures Leading(TrimRight(t), ONE) == Leading(t, ONE)
  {
    TrimRightShape(t);
    var z, e := Leading(t, ONE), |TrimRight(t)|;
    if z > 0 {
      assert !IsSpace(t[z - 1]);
    }
    LeadingUnique(t[..e], ONE, z);
  }

  lemma AcceptsIs(s: seq<u8>, maxRetLen: int)
    ensures Accepts(s, maxRetLen) <==> Decode(s).Some? && (|Decode(s).value| <= maxRetLen || s == [])
  {
  }

  // DecodeBase58 on a C string: spaces around the text are skipped
  method DecodeBase58(psz: seq<u8>, maxRetLen: int) returns (ok: bool, vch: seq<u8>)
    requires forall k :: 0 <= k < |psz| ==> psz[k] != 0
    ensures ok <==> Decode(Trim(psz)).Some? && (|Decode(Trim(psz)).value| <= maxRetLen || Trim(psz) == [])
    ensures ok ==> vch == Decode(Trim(psz)).value
  {
    AcceptsIs(Trim(psz), maxRetLen);
    hide Num, Minimal, Leading, Accepts, TrimRight, Decode;
    var t := SkipSpaces(psz);
    var zeroes := 0;
    while zeroes < |t| && t[zeroes] == ONE
      invariant zeroes <= |t| && (zeroes <= maxRetLen || zeroes == 0)
      invariant forall k :: 0 <= k < zeroes ==> t[k] == ONE
    {
      zeroes := zeroes + 1;
      if zeroes > maxRetLen {
        TooManyOnes(t, zeroes, maxRetLen);
        return false, [];
      }
    }
    LeadingUnique(t, ONE, zeroes);
    var valid, p, b256, length := DecodeDigits(t, zeroes, maxRetLen);
    if !valid {
      return false, [];
    }
    var q := p;
    while q < |t| && IsSpace(t[q])
      invariant p <= q <= |t| && forall k :: p <= k < q ==> IsSpace(t[k])
    {
      q := q + 1;
    }
    TrimRightShape(t);
    if q != |t| {
      InvalidInside(t, p, maxRetLen);
      return false, [];
    }
    NothingToTrim(t, p);
    Result(t, p, zeroes, b256[..], length, maxRetLen);
    vch := seq(zeroes, _ => 0) + b256[b256.Length - length..];
    ok := true;
  }

  method SkipSpaces(s: seq<u8>) returns (t: seq<u8>)
    ensures t == TrimLeft(s)
  {
    t := s;
    while t != [] && IsSpace(t[0])
      invariant TrimLeft(t) == TrimLeft(s)
      decreases |t|
    {
      t := t[1..];
    }
  }

  lemma TooManyOnes(t: seq<u8>, z: nat, maxRetLen: int)
    requires 0 < z <= |t| && z > maxRetLen && forall k :: 0 <= k < z ==> t[k] == ONE
    ensures !Accepts(TrimRight(t), maxRetLen)
  {
    TrimRightShape(t);
    var e := |TrimRight(t)|;
    assert !IsSpace(t[z - 1]);
    var l := Leading(t[..e], ONE);
    assert l < e ==> t[l] != ONE;
    if Valid(t[..e]) {
      MinimalDigital(256, Num(58, DigitsOf(t[..e])));
    }
  }

  lemma NothingToTrim(t: seq<u8>, p: nat)
    requires p <= |t| && Valid(t[..p]) && forall k :: p <= k < |t| ==> IsSpace(t[k])
    ensures TrimRight(t) == t[..p]
  {
    TrimRightShape(t);
    assert p > 0 ==> DigitOf(t[..p][p - 1]) >= 0;
  }

  /** The zeros and the digits in use are the decoded bytes. */
  lemma Result(t: seq<u8>, p: nat, zeroes: nat, buf: seq<u8>, length: nat, maxRetLen: int)
    requires p <= |t| && zeroes == Leading(t, ONE) && Valid(t[..p]) && TrimRight(t) == t[..p]
    requires Num(256, buf) == Num(58, DigitsOf(t[..p])) && length == |Minimal(256, Num(256, buf))| <= |buf|
    requires zeroes + length <= maxRetLen || p == 0
    ensures Accepts(TrimRight(t), maxRetLen)
    ensures seq(zeroes, _ => 0) + buf[|buf| - length..] == Decode(TrimRight(t)).value
  {
    hide Num, Minimal, Leading, TrimRight;
    OnesInside(t);
    Stripped(256, buf);
    MinimalDigital(256, Num(256, buf));
    assert Decode(t[..p]) == Some(Bytes(Zeros(zeroes) + Minimal(256, Num(256, buf))));
  }

  // the overload for strings that may contain NUL characters
  method DecodeBase58String(str: seq<u8>, maxRetLen: int) returns (ok: bool, vch: seq<u8>)
    ensures ok <==>
      && (forall k :: 0 <= k < |str| ==> str[k] != 0)
      && Decode(Trim(str)).Some? && (|Decode(Trim(str)).value| <= maxRetLen || Trim(str) == [])
    ensures ok ==> vch == Decode(Trim(str)).value
  {
    var i := 0;
    while i < |str|
      invariant 0 <= i <= |str| && forall k :: 0 <= k < i ==> str[k] != 0
    {
      if str[i] == 0 {
        return false, [];
      }
      i := i + 1;
    }
    ok, vch := DecodeBase58(str, maxRetLen);
  }

  // the conversion loop of EncodeBase58
  method EncodeBytes(body: seq<u8>) returns (b58: array<u8>, length: nat)
    ensures fresh(b58) && length <= b58.Length && forall k :: 0 <= k < b58.Length - length ==> b58[k] == 0
    ensures Digital(58, b58[..]) && Num(58, b58[..]) == Num(256, body)
  {
    hide Num;
    var size := |body| * 138 / 100 + 1;
    b58 := new u8[size](_ => 0);
    NumZeros(58, size);
    assert b58[..] == Zeros(size);
    var i := 0;
    length := 0;
    EmptyNumber(body);
    while i < |body|
      invariant 0 <= i <= |body| && length <= b58.Length && Digital(58, b58[..])
      invariant forall k :: 0 <= k < b58.Length - length ==> b58[k] == 0
      invariant Num(58, b58[..]) == Num(256, body[..i])
    {
      Base58C.Room(body, i, size);
      length := AppendDigit(b58, 58, 256, body[i], length);
      i := i + 1;
    }
    assert body[..i] == body;
  }

  // EncodeBase58
  method EncodeBase58(input: seq<u8>) returns (str: seq<u8>)
    ensures str == Encode(input)
  {
    hide Num, Leading, Encode, CharOf;
    var zeroes := CountLeading(input, 0);
    var body := input[zeroes..];
    var b58, length := EncodeBytes(body);
    var size := b58.Length;
    var it := size - length;
    while it < size && b58[it] == 0
      invariant size - length <= it <= size && forall k :: 0 <= k < it ==> b58[k] == 0
    {
      it := it + 1;
    }
    LeadingUnique(b58[..], 0, it);
    Base58C.EncodeIs(input, zeroes, b58[..], it);
    str := seq(zeroes, _ => ONE);
    ghost var digits := b58[it..];
    ghost var first := it;
    while it < size
      invariant first <= it <= size && digits == b58[first..] && Digital(58, digits)
      invariant str == seq(zeroes, _ => ONE) + CharsOf(digits)[..it - first]
    {
      assert b58[it] == digits[it - first];
      str := str + [CharOf(b58[it])];
      it := it + 1;
    }
  }

  lemma EmptyNumber(s: seq<u8>)
    ensures Num(256, s[..0]) == 0
  {
  }

  // --------------------------------------------------- the two codecs agree

  lemma TrimNothing(s: seq<u8>)
    requires NoSpace(s)
    ensures Trim(s) == s
  {
  }

  /**
   * Without white space both decoders accept the same texts for a buffer of n bytes, except that
   * only DecodeBase58 accepts the empty text for n = 0; the bytes are Decode's in both cases.
   */
  lemma DecodersAgree(s: seq<u8>, n: nat)
    requires NoSpace(s)
    ensures (Accepts(Trim(s), n) <==> Base58CDecode.Accepts(s, n)) <==> n > 0 || s != []
  {
    TrimNothing(s);
    assert Decode([]) == Some([]) by { EmptyText(); }
    if Decode(s) == Some([]) {
      DecodeEmpty(s);
    }
  }

  lemma EmptyText()
    ensures Decode([]) == Some([])
  {
    assert Num(58, DigitsOf([])) == 0;
  }

  /** Only the empty text stands for no bytes. */
  lemma DecodeEmpty(s: seq<u8>)
    requires Decode(s) == Some([])
    ensures s == []
  {
    EncodeDecode(s);
    EmptyText();
    assert Encode([]) == [];
  }
}

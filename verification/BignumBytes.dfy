/** Reading and writing bignums as 32 big-endian bytes. */
module BignumBytes {
  import opened Arith
  import opened Limbs
  import opened Words
  import opened Bits
  import opened Bignum
  import opened Digits
  import opened BigEndian

  function ReadWord(s: seq<u8>, at: nat): (w: u32)
    requires at + 4 <= |s|
    ensures w == Num(256, s[at..at + 4])
  {
    NumFour(256, s[at..at + 4]);
    s[at] as int * 0x100_0000 + s[at + 1] as int * 0x1_0000 + s[at + 2] as int * 0x100 + s[at + 3] as int
  }

  lemma ShiftParts(i: nat)
    requires i < 8
    ensures Pow(2, 3 * i) * Pow(2, 29 - 3 * i) == 0x2000_0000
    ensures Pow(2, 3 * i + 3) * Pow(2, 29 - 3 * i) == 0x1_0000_0000
    ensures 1 <= Pow(2, 3 * i) && 1 <= Pow(2, 29 - 3 * i) && Pow(2, 3 * i + 3) == 8 * Pow(2, 3 * i)
  {
    TwoTo32();
    PowAdd(2, 3 * i, 29 - 3 * i);
    PowAdd(2, 3 * i + 3, 29 - 3 * i);
    PowAdd(2, 3, 3 * i);
    PowPositive(2, 3 * i);
    PowPositive(2, 29 - 3 * i);
    assert Pow(2, 3) == 8;
  }

  /** One word enters the limb under construction; what does not fit is carried on. */
  lemma ReadStep(word: u32, temp: nat, i: nat)
    requires i < 8 && temp < Pow(2, 3 * i)
    ensures Pow(2, 29 - 3 * i) > 0
    ensures var full := temp + word * Pow(2, 3 * i);
            && Low(Or(temp, W32(word * Pow(2, 3 * i)))) == Low(full)
            && 0 <= word / Pow(2, 29 - 3 * i) == High(full) < Pow(2, 3 * i + 3)
    ensures word / Pow(2, 29 - 3 * i) <= word
  {
    ShiftParts(i);
    HighPart(word, temp, Pow(2, 3 * i), Pow(2, 29 - 3 * i));
    WrappedOr(word, temp, i);
  }

  lemma HighPart(word: u32, temp: nat, c: int, d: int)
    requires c * d == 0x2000_0000 && 1 <= d && temp < c
    ensures 0 <= word / d == High(temp + word * c) < 8 * c && word / d <= word
  {
    var q, m := word / d, word % d;
    assert word == q * d + m;
    Expand(q, d, m, c);
    MulMono(0, q, d - 1);
    assert q * (d - 1) == q * d - q;
    MulMono(m, d - 1, c);
    assert (d - 1) * c == c * d - c;
    DivModUnique(temp + word * c, 0x2000_0000, q, m * c + temp);
    if q >= 8 * c {
      MulMono(8 * c, q, d);
      Assoc(8, c, d);
    }
  }

  lemma WrappedOr(word: u32, temp: nat, i: nat)
    requires i < 8 && temp < Pow(2, 3 * i)
    ensures Low(Or(temp, W32(word * Pow(2, 3 * i)))) == Low(temp + word * Pow(2, 3 * i))
  {
    var c, d := Pow(2, 3 * i), Pow(2, 29 - 3 * i);
    ShiftParts(i);
    var e := WrapMultiple(word, c, d);
    OrDisjoint(temp, e, 3 * i);
    LowSame(temp, word * c);
  }

  /** A multiple of c stays one when the bits from 32 up are dropped, because c divides 2^32. */
  lemma WrapMultiple(word: nat, c: int, d: int) returns (e: nat)
    requires c * d == 0x2000_0000 && 1 <= c
    ensures W32(word * c) == e * c
  {
    var z := word * c;
    var k := z / 0x1_0000_0000;
    Expand(-8 * k, d, word, c);
    var t := word - 8 * k * d;
    assert W32(z) == t * c;
    if t < 0 { MulMono(t, -1, c); }
    e := t;
  }

  lemma LowSame(temp: int, z: int)
    ensures Low(temp + W32(z)) == Low(temp + z)
  {
    var t := temp + W32(z);
    DivModUnique(temp + z, 0x2000_0000, High(t) + 8 * (z / 0x1_0000_0000), Low(t));
  }

  /** The limbs of the last 4 n bytes, with the bits still to be placed. */
  ghost predicate ReadSoFar(bytes: seq<u8>, limbs: seq<int>, temp: int, n: nat)
    requires |bytes| == 32 && |limbs| == LIMBS && n <= 8
  {
    && 0 <= temp < Pow(2, 3 * n)
    && Prefix(limbs, n) + Shift(temp, n) == Num(256, bytes[32 - 4 * n..])
  }

  lemma ReadKeeps(bytes: seq<u8>, limbs: seq<int>, temp: int, n: nat, word: u32)
    requires |bytes| == 32 && |limbs| == LIMBS && n < 8 && ReadSoFar(bytes, limbs, temp, n)
    requires word == Num(256, bytes[28 - 4 * n..32 - 4 * n])
    ensures Prefix(limbs, n) + Shift(temp + word * Pow(2, 3 * n), n) == Num(256, bytes[28 - 4 * n..])
  {
    var c := Pow(2, 3 * n);
    assert bytes[28 - 4 * n..] == bytes[28 - 4 * n..32 - 4 * n] + bytes[32 - 4 * n..];
    NumConcat(256, bytes[28 - 4 * n..32 - 4 * n], bytes[32 - 4 * n..]);
    WeightOfWord(n);
    ShiftAdd(temp, word * c, n);
    ShiftTimes(word, c, n);
  }

  lemma ReadStart(bytes: seq<u8>, limbs: seq<int>)
    requires |bytes| == 32 && |limbs| == LIMBS
    ensures ReadSoFar(bytes, limbs, 0, 0)
  {
  }

  lemma ReadNext(bytes: seq<u8>, limbs: seq<int>, temp: nat, n: nat, word: u32, low: nat, next: nat)
    requires |bytes| == 32 && |limbs| == LIMBS && n < 8 && ReadSoFar(bytes, limbs, temp, n)
    requires word == Num(256, bytes[28 - 4 * n..32 - 4 * n])
    requires low + 0x2000_0000 * next == temp + word * Pow(2, 3 * n) && next < Pow(2, 3 * n + 3)
    ensures ReadSoFar(bytes, limbs[n := low], next, n + 1)
  {
    ReadKeeps(bytes, limbs, temp, n, word);
    ShiftSum(low + 0x2000_0000 * next, low, 0x2000_0000 * next, n);
    ShiftUp(next, n);
    PrefixSame(limbs, limbs[n := low], n);
  }

  /** 2^(3 n) at limb n is 256^(4 n). */
  lemma {:induction false} WeightOfWord(n: nat)
    ensures Shift(Pow(2, 3 * n), n) == Pow(256, 4 * n)
  {
    if n > 0 {
      WeightOfWord(n - 1);
      var m := n - 1;
      PowAdd(2, 3, 3 * m);
      assert Pow(2, 3) == 8;
      ShiftTimes(8, Pow(2, 3 * m), n);
      PowAdd(256, 4, 4 * m);
      assert Pow(256, 2) == 0x1_0000;
      assert Pow(256, 4) == 0x1_0000_0000;
    }
  }

  // temp |= limb << (3 * i), of which one limb is stored and the rest kept
  method SplitWord(temp: u32, limb: u32, i: nat) returns (low: u32, next: u32)
    requires i < 8 && temp < Pow(2, 3 * i)
    ensures low + 0x2000_0000 * next as int == temp + limb as int * Pow(2, 3 * i)
    ensures low < BASE && next < Pow(2, 3 * i + 3)
  {
    ReadStep(limb, temp, i);
    low := Low(Or(temp, W32(limb as int * Pow(2, 3 * i))));
    next := limb / Pow(2, 29 - 3 * i);
  }

  // out = the number of 32 big-endian bytes
  method ReadBe(bytes: seq<u8>, out: array<u32>)
    requires |bytes| == 32 && out.Length == LIMBS
    modifies out
    ensures IsBignum(out) && Value(out[..]) == Num(256, bytes)
    ensures Value(out[..]) < TWO256
  {
    hide ReadSoFar;
    var temp: u32 := 0;
    ReadStart(bytes, out[..]);
    for i := 0 to LIMBS - 1
      invariant forall j :: 0 <= j < i ==> 0 <= out[j] < BASE
      invariant temp < Pow(2, 3 * i)
      invariant ReadSoFar(bytes, out[..], temp, i)
    {
      var limb := ReadWord(bytes, 28 - 4 * i);
      var low, next := SplitWord(temp, limb, i);
      ReadNext(bytes, out[..], temp, i, limb, low, next);
      out[i], temp := low, next;
    }
    ReadEnd(bytes, out[..], temp);
    out[LIMBS - 1] := temp;
  }

  lemma ReadEnd(bytes: seq<u8>, limbs: seq<int>, temp: nat)
    requires |bytes| == 32 && |limbs| == LIMBS && ReadSoFar(bytes, limbs, temp, LIMBS - 1)
    requires forall j :: 0 <= j < LIMBS - 1 ==> 0 <= limbs[j] < BASE
    ensures var s := limbs[LIMBS - 1 := temp]; Normalized(s) && Value(s) == Num(256, bytes) < TWO256
  {
    var s := limbs[LIMBS - 1 := temp];
    PrefixSame(limbs, s, LIMBS - 1);
    TwoTo32();
    PowAdd(2, 8, 16);
    assert bytes[0..] == bytes;
    PrefixBound(s, LIMBS - 1);
    ShiftConst(1);
    ShiftConst(temp);
  }

  // ---------------------------------------------------------------- writing

  /** The word written for limb i joins the low bits of limb i + 1 with the high bits of limb i. */
  function JoinWord(high: u32, low: u32, i: nat): nat
    requires i < 8
  {
    ShiftParts(i);
    DivMod(low, Pow(2, 3 * i));
    Or(W32(high as int * Pow(2, 29 - 3 * i)), low / Pow(2, 3 * i))
  }

  lemma WriteStep(n: nat, high: u32, low: u32, i: nat)
    requires i < 8 && low < BASE && high < BASE
    requires Pow(2, 3 * i + 3) > 0 && Pow(2, 3 * i) > 0 && n % Pow(2, 3 * i + 3) == high % Pow(2, 3 * i + 3)
    ensures JoinWord(high, low, i) < 0x1_0000_0000
    ensures (low + 0x2000_0000 * n) / Pow(2, 3 * i) == n / Pow(2, 3 * i + 3) * 0x1_0000_0000 + JoinWord(high, low, i)
  {
    var c, d, e := Pow(2, 3 * i), Pow(2, 29 - 3 * i), Pow(2, 3 * i + 3);
    ShiftParts(i);
    var r, q, h := high % e, n / e, high / e;
    DivMod(high, e);
    DivMod(n, e);
    HighBits(high, h, r, c, d, e);
    LowBits(low, c, d);
    OrDisjoint(low / c, r, 29 - 3 * i);
    assert JoinWord(high, low, i) == r * d + low / c;
    JoinParts(low, n, q, r, c, d, e);
  }

  lemma HighBits(high: int, h: int, r: int, c: int, d: int, e: int)
    requires c * d == 0x2000_0000 && 1 <= d && e == 8 * c && 0 <= r < e && high == h * e + r
    ensures W32(high * d) == r * d <= 0x1_0000_0000 - d
  {
    Expand(h, e, r, d);
    Assoc(8, c, d);
    MulMono(r, e - 1, d);
    assert (e - 1) * d == e * d - d;
    MulMono(0, r, d);
    DivModUnique(high * d, 0x1_0000_0000, h, r * d);
  }

  lemma LowBits(low: nat, c: int, d: int)
    requires c * d == 0x2000_0000 && 1 <= c && low < BASE
    ensures 0 <= low / c < d
  {
    assert low == low / c * c + low % c;
    if low / c >= d { MulMono(d, low / c, c); }
  }

  lemma JoinParts(low: nat, n: nat, q: int, r: int, c: int, d: int, e: int)
    requires c * d == 0x2000_0000 && 1 <= c && e == 8 * c && n == q * e + r
    ensures (low + 0x2000_0000 * n) / c == q * 0x1_0000_0000 + (r * d + low / c)
  {
    var l, m := low / c, low % c;
    assert low == l * c + m;
    Expand(r, d, l, c);
    Expand(q, 0x1_0000_0000, r * d + l, c);
    assert 0x2000_0000 * (q * e) == q * (c * 0x1_0000_0000);
    DivModUnique(low + 0x2000_0000 * n, c, q * 0x1_0000_0000 + (r * d + l), m);
  }

  // out = the 32 big-endian bytes of a number below 2^256
  method WriteBe(x: array<u32>, out: array<u8>)
    requires IsBignum(x) && Value(x[..]) < TWO256 && out.Length == 32 && out as object != x as object
    modifies out
    ensures Num(256, out[..]) == Value(x[..])
  {
    ghost var s := x[..];
    var temp: u32 := x[LIMBS - 1];
    var i := LIMBS - 1;
    WriteStart(s);
    while i > 0
      invariant 0 <= i <= LIMBS - 1 && x[..] == s && temp == s[i]
      invariant Pow(2, 3 * i) > 0 && Num(256, out[..32 - 4 * i]) == Suffix(s, i) / Pow(2, 3 * i)
    {
      i := i - 1;
      var limb := x[i];
      NextWord(s, i);
      temp := JoinWord(temp, limb, i);
      ghost var done: seq<int>, w := out[..28 - 4 * i], Be32(temp);
      PutWord(out, 28 - 4 * i, temp);
      assert out[..32 - 4 * i] == done + w;
      NumConcat(256, done, w);
      FourBytes();
      temp := limb;
    }
    ValueIsSuffix(s);
    assert out[..32] == out[..];
    assert Pow(2, 0) == 1;
  }

  // write_be
  method PutWord(out: array<u8>, at: nat, w: u32)
    requires at + 4 <= out.Length
    modifies out
    ensures out[..] == old(out[..at]) + Be32(w) + old(out[at + 4..])
  {
    var s := Be32(w);
    out[at], out[at + 1], out[at + 2], out[at + 3] := s[0], s[1], s[2], s[3];
  }

  lemma FourBytes()
    ensures Pow(256, 4) == 0x1_0000_0000
  {
    assert Pow(256, 2) == 0x1_0000;
  }

  lemma WriteStart(s: seq<int>)
    requires |s| == LIMBS && Normalized(s) && Value(s) < TWO256
    ensures Pow(2, 24) > 0 && Suffix(s, LIMBS - 1) / Pow(2, 24) == 0 && 0 <= Suffix(s, LIMBS - 1)
  {
    TwoTo32();
    PowAdd(2, 8, 16);
    PrefixBound(s, LIMBS - 1);
    ShiftConst(s[LIMBS - 1]);
    assert Value(s) == Prefix(s, LIMBS - 1) + Shift(s[LIMBS - 1], LIMBS - 1);
    assert Suffix(s, LIMBS - 1) == s[LIMBS - 1];
  }

  /** What WriteStep says about the limbs i and i + 1 of a number. */
  lemma NextWord(s: seq<u32>, i: nat)
    requires |s| == LIMBS && Normalized(s) && i < 8
    ensures Pow(2, 3 * i) > 0 && Pow(2, 3 * i + 3) > 0
    ensures var word := JoinWord(s[i + 1], s[i], i);
            && word < 0x1_0000_0000
            && Suffix(s, i) / Pow(2, 3 * i) == Suffix(s, i + 1) / Pow(2, 3 * (i + 1)) * 0x1_0000_0000 + word
  {
    ShiftParts(i);
    var n := Suffix(s, i + 1);
    SuffixZero(s, i + 1);
    PowAdd(2, 3 * i + 3, 26 - 3 * i);
    TwoTo32();
    hide Pow;
    SameLowBits(n, s[i + 1], if i < 7 then Suffix(s, i + 2) else 0, Pow(2, 3 * i + 3), Pow(2, 26 - 3 * i));
    WriteStep(n, s[i + 1], s[i], i);
  }

  lemma SameLowBits(n: int, h: int, m: int, e: int, t: int)
    requires n == h + 0x2000_0000 * m && 1 <= e && e * t == 0x2000_0000
    ensures n % e == h % e
  {
    DividesIntro(e, 0x2000_0000, t);
    DividesProduct(e, 0x2000_0000, m);
    CongMod(n, h, e);
  }
}

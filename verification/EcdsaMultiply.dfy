/** The scalar side of point_multiply in ecdsa.c: which multiple of the point it computes. */
module EcdsaMultiply {
  import opened Arith
  import opened Words
  import opened Bits
  import opened Limbs
  import opened Bignum
  import opened SignedWindow

  // a = k + 2^256, less order if k is even
  method Recode(k: array<u32>, order: array<u32>, a: array<u32>) returns (isNonZero: bool)
    requires IsBignum(k) && IsBignum(order) && a.Length == LIMBS && a != k && a != order
    requires Value(k[..]) < Value(order[..]) <= TWO256 && Value(order[..]) % 2 == 1
    modifies a
    ensures IsBignum(a) && Value(a[..]) % 2 == 1
    ensures Value(a[..]) == Value(k[..]) + TWO256 - if Value(k[..]) % 2 == 0 then Value(order[..]) else 0
    ensures isNonZero <==> Value(k[..]) != 0
  {
    hide Or, Prefix, Shift, Suffix, Value;
    ghost var k0: seq<int>, o0: seq<int> := k[..], order[..];
    Parity(k0);
    Parity(o0);
    var even := k[0] % 2 == 0;
    ghost var c := if even then 1 else 0;
    ghost var e := seq(LIMBS, j requires 0 <= j < LIMBS => 0x1FFF_FFFF + k0[j] - c * o0[j]);
    var tmp: u32 := 1;
    var nonZero := 0;
    PrefixStart(e, 1);
    PrefixStart(a[..], 1);
    for j := 0 to LIMBS - 1
      invariant 0 <= tmp <= 7 && k[..] == k0 && order[..] == o0
      invariant forall i :: 0 <= i < j ==> 0 <= a[i] < BASE
      invariant Prefix(a[..], j) + Shift(tmp, j) == Prefix(e, j) + 1
      invariant nonZero == 0 <==> forall i :: 0 <= i < j ==> k[i] == 0
    {
      OrZero(nonZero, k[j]);
      nonZero := Or(nonZero, k[j]);
      var sum := W32(tmp + (BASE - 1) + k[j] - if even then order[j] else 0);
      ShiftSum(sum, tmp, e[j], j);
      PrefixNext(e, j);
      tmp := StoreLimb(a, j, sum);
    }
    OrZero(nonZero, k[LIMBS - 1]);
    nonZero := Or(nonZero, k[LIMBS - 1]);
    ghost var low: seq<int> := a[..];
    TopLimb(k0, o0, c, e, low, tmp);
    a[LIMBS - 1] := W32(tmp + 0xff_ffff + k[LIMBS - 1] - if even then order[LIMBS - 1] else 0);
    assert a[..] == low[LIMBS - 1 := a[LIMBS - 1]];
    isNonZero := nonZero != 0;
    ZeroNumber(k0);
    OddNumber(Value(k0), Value(o0));
  }

  lemma ZeroNumber(s: seq<int>)
    requires Normalized(s)
    ensures Value(s) == 0 <==> forall j :: 0 <= j < |s| ==> s[j] == 0
  {
    ValueIsSuffix(s);
    SuffixZero(s, 0);
  }

  lemma OddNumber(k: int, n: int)
    requires n % 2 == 1
    ensures (k + TWO256 - if k % 2 == 0 then n else 0) % 2 == 1
  {
  }

  /** The top limb completes the number, and the wrapping sum for it is exact. */
  lemma TopLimb(k: seq<int>, o: seq<int>, c: int, e: seq<int>, low: seq<int>, tmp: int)
    requires |k| == |o| == |e| == |low| == LIMBS && Normalized(k) && Normalized(o) && 0 <= c <= 1
    requires forall j :: 0 <= j < LIMBS ==> e[j] == 0x1FFF_FFFF + k[j] - c * o[j]
    requires forall j :: 0 <= j < LIMBS - 1 ==> 0 <= low[j] < BASE
    requires Value(k) < Value(o) <= TWO256
    requires Prefix(low, LIMBS - 1) + Shift(tmp, LIMBS - 1) == Prefix(e, LIMBS - 1) + 1
    ensures var top := tmp + 0xff_ffff + k[LIMBS - 1] - c * o[LIMBS - 1];
            && 0 <= top < BASE && Value(low[LIMBS - 1 := top]) == Value(k) + TWO256 - c * Value(o)
  {
    var n := LIMBS - 1;
    var top := tmp + 0xff_ffff + k[n] - c * o[n];
    var s := low[n := top];
    PrefixCombine(e, 1, k, c, o, n);
    PrefixBound(low, n);
    PrefixSame(low, s, n);
    PrefixNext(s, n);
    PrefixNext(k, n);
    PrefixNext(o, n);
    ValueBound(k);
    ValueBound(o);
    ShiftConst(1);
    ShiftConst(top);
    ShiftConst(tmp);
    ShiftConst(k[n]);
    ShiftConst(o[n]);
    hide Prefix, Shift, Value;
    CaseOne(c, Prefix(o, n), Value(o), o[n]);
  }

  lemma CaseOne(c: int, x: int, y: int, z: int)
    requires 0 <= c <= 1
    ensures c * x == (if c == 1 then x else 0) && c * y == (if c == 1 then y else 0) && c * z == if c == 1 then z else 0
  {
  }

  // ------------------------------------------------------------ the digit loop

  /** The index bits and the sign that a window stands for. */
  lemma Magnitude(w: nat)
    requires w < 32
    ensures var bits := (if w / 16 == 0 then 0xFFFF_FFFF - w else w) % 16;
            0 <= bits / 2 < 8 && 2 * (bits / 2) + 1 == if w / 16 == 0 then -Digit(w) else Digit(w)
  {
  }

  // the next five bits below position ashift of limb aptr
  method NextBits(a: array<u32>, aptr0: nat, ashift0: nat, ghost i: nat) returns (bits: nat, aptr: nat, ashift: nat)
    requires IsBignum(a) && aptr0 < LIMBS && ashift0 <= 28 && 29 * aptr0 + ashift0 == 4 * (i + 1)
    ensures Value(a[..]) >= 0 && bits == Window(Value(a[..]), i)
    ensures aptr < LIMBS && ashift <= 28 && 29 * aptr + ashift == 4 * i
  {
    hide Window, Or, Pow, Value;
    aptr := aptr0;
    var shift: int := ashift0 - 4;
    if shift < 0 {
      Across(a[..], aptr0 - 1, -shift, i);
      var high := W32(a[aptr] as int * Pow(2, -shift));
      aptr := aptr - 1;
      shift := shift + 29;
      bits := Or(high, a[aptr] as int / Pow(2, shift)) % 32;
    } else {
      Inside(a[..], aptr, shift, i);
      bits := a[aptr] as int / Pow(2, shift) % 32;
    }
    ashift := shift;
  }

  // pmult[i] = (2 i + 1) p, points being written as multiples of p
  method OddMultiples() returns (pmult: array<int>)
    ensures fresh(pmult) && pmult.Length == 8 && forall i :: 0 <= i < 8 ==> pmult[i] == 2 * i + 1
  {
    pmult := new int[8](_ => 0);
    pmult[7] := 1;
    pmult[7] := pmult[7] + pmult[7];
    pmult[0] := 1;
    for i := 1 to 8
      invariant i < 8 ==> pmult[7] == 2
      invariant forall j :: 0 <= j < i ==> pmult[j] == 2 * j + 1
    {
      pmult[i] := pmult[7];
      pmult[i] := pmult[i - 1] + pmult[i];
    }
  }

  // the evaluation loop: the digits of a from the top one down
  method Evaluate(a: array<u32>) returns (jres: int)
    requires IsBignum(a) && 0 <= Value(a[..]) < 2 * TWO256
    ensures jres == Tail(Value(a[..]), 0)
  {
    hide Window, Pow, Value, Digit;
    ghost var v := Value(a[..]);
    var pmult := OddMultiples();
    TopWindow(a[..]);
    var aptr, ashift := LIMBS - 1, 20;
    var bits := a[aptr] as int / 0x10_0000;
    Magnitude(bits);
    var negative := bits / 16 == 0;
    bits := (if negative then 0xFFFF_FFFF - bits else bits) % 16;
    jres := pmult[bits / 2];
    var i := 63;
    assert Tail(v, 64) == 0;
    while i > 0
      invariant 0 <= i <= 63 && aptr < LIMBS && ashift <= 28 && 29 * aptr + ashift == 4 * i
      invariant jres == if negative then -Tail(v, i) else Tail(v, i)
      invariant forall j :: 0 <= j < 8 ==> pmult[j] == 2 * j + 1
    {
      i := i - 1;
      jres := 2 * (2 * (2 * (2 * jres)));
      bits, aptr, ashift := NextBits(a, aptr, ashift, i);
      Magnitude(bits);
      var negativeNow := bits / 16 == 0;
      bits := (if negativeNow then 0xFFFF_FFFF - bits else bits) % 16;
      if negative != negativeNow {
        jres := -jres;
      }
      jres := jres + pmult[bits / 2];
      negative := negativeNow;
    }
    if negative {
      jres := -jres;
    }
  }

  lemma TopWindow(s: seq<int>)
    requires |s| == LIMBS && Normalized(s) && 0 <= Value(s) < 2 * TWO256
    ensures 0 <= s[8] / 0x10_0000 == Window(Value(s), 63) < 32
  {
    PrefixNext(s, 8);
    PrefixBound(s, 8);
    ShiftConst(s[8]);
    ShiftConst(1);
    hide Prefix, Shift, Window, Value;
    assert s[8] < 0x200_0000;
    Inside(s, 8, 20, 63);
    Pow20();
  }

  lemma Pow20()
    ensures Pow(2, 20) == 0x10_0000
  {
    TwoTo32();
    assert Pow(2, 4) == 16;
    PowAdd(2, 16, 4);
  }

  // point_multiply, with points written as multiples of p
  method PointMultiply(k: array<u32>, order: array<u32>) returns (status: int, multiple: int)
    requires IsBignum(k) && IsBignum(order) && Value(order[..]) <= TWO256 && Value(order[..]) % 2 == 1
    ensures status == if 0 < Value(k[..]) < Value(order[..]) then 0 else 1
    ensures Value(k[..]) < Value(order[..]) ==>
      && Cong(multiple, Value(k[..]), Value(order[..]))
      && multiple == Value(k[..]) - if Value(k[..]) % 2 == 0 && Value(k[..]) > 0 then Value(order[..]) else 0
  {
    hide Tail, Value, Pow;
    ghost var v, n := Value(k[..]), Value(order[..]);
    ValueBound(k[..]);
    var less := IsLess(k, order);
    if !less {
      return 1, 0;
    }
    var a := new u32[LIMBS](_ => 0);
    var isNonZero := Recode(k, order, a);
    if !isNonZero {
      CongRefl(0, n);
      return 1, 0;
    }
    multiple := Evaluate(a);
    SumOfDigits(Value(a[..]));
    CongDrop(v, if v % 2 == 0 then 1 else 0, n);
    status := 0;
  }

  lemma SumOfDigits(v: nat)
    requires v < 2 * TWO256 && v % 2 == 1
    ensures Tail(v, 0) == v - TWO256
  {
    var n: nat :| n == 64;
    SixteenTo64(n);
    TailIs(v, 0);
    assert v / 1 == v && Pow(16, 0) == 1;
  }

  lemma SixteenTo64(n: nat)
    requires n == 64
    ensures Pow(16, n) == TWO256
  {
    var b: nat :| b == 8;
    TwoTo32();
    Sixteen(b);
    assert 4 * b == 32;
    PowAdd(16, b, b);
    PowAdd(16, 2 * b, 2 * b);
    PowAdd(16, 4 * b, 4 * b);
  }
}

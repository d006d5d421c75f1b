/** Why the buffers of both Base58 codecs are large enough. */
module Base58Size {
  import opened Arith

  /** From a^s <= b^t, n digits in base a fit m digits in base b whenever t n <= s m. */
  lemma PowerRatio(a: nat, b: nat, s: nat, t: nat, n: nat, m: nat)
    requires 0 < a && 1 < b && 0 < s && Pow(a, s) <= Pow(b, t) && t * n <= s * m
    ensures Pow(a, n) <= Pow(b, m)
  {
    PowPositive(a, n);
    PowPositive(b, m);
    Below(a, b, s, t, n);
    Above(b, s, t, n, m);
    RootMono(Pow(a, n), Pow(b, m), s);
  }

  lemma Below(a: nat, b: nat, s: nat, t: nat, n: nat)
    requires 0 < a && Pow(a, s) <= Pow(b, t)
    ensures t * n >= 0 && Pow(Pow(a, n), s) <= Pow(b, t * n)
  {
    Commute(a, n, s);
    PowPositive(a, s);
    PowBaseMono(Pow(a, s), Pow(b, t), n);
    PowPow(b, t, n);
  }

  lemma Above(b: nat, s: nat, t: nat, n: nat, m: nat)
    requires 1 < b && 0 <= t * n <= s * m
    ensures Pow(b, t * n) <= Pow(Pow(b, m), s)
  {
    Commute(b, m, s);
    PowPow(b, s, m);
    PowMono(b, t * n, s * m);
  }

  lemma Commute(a: int, m: nat, n: nat)
    ensures Pow(Pow(a, m), n) == Pow(Pow(a, n), m)
  {
    PowPow(a, m, n);
    PowPow(a, n, m);
    assert m * n == n * m;
  }

  lemma PowBaseMono(a: nat, b: nat, e: nat)
    requires a <= b
    ensures Pow(a, e) <= Pow(b, e)
  {
    if a < b && e > 0 {
      PowBaseStrict(a, b, e);
    }
  }

  /** 256^8 <= 58^11, so 138 base-58 digits per 100 bytes are enough. */
  lemma EncodeFits(n: nat)
    ensures Pow(256, n) <= Pow(58, n * 138 / 100 + 1)
    ensures n > 0 ==> Pow(256, n - 1) <= Pow(58, n * 138 / 100)
  {
    assert Pow(256, 4) == 0x1_0000_0000;
    PowAdd(256, 4, 4);
    assert Pow(58, 5) == 656356768;
    PowAdd(58, 5, 5);
    PowAdd(58, 10, 1);
    PowerRatio(256, 58, 8, 11, n, n * 138 / 100 + 1);
    if n > 0 {
      PowerRatio(256, 58, 8, 11, n - 1, n * 138 / 100);
    }
  }

  /** 58^71 <= 256^52, so 733 bytes per 1000 base-58 digits are enough. */
  lemma DecodeFits(n: nat)
    ensures Pow(58, n) <= Pow(256, n * 733 / 1000 + 1)
  {
    Large();
    PowerRatio(58, 256, 71, 52, n, n * 733 / 1000 + 1);
  }

  lemma Large()
    ensures 0 < Pow(58, 71) <= Pow(256, 52)
  {
    var a, c := Pow(58, 8), Pow(256, 8);
    assert Pow(58, 4) == 11316496;
    PowAdd(58, 4, 4);
    assert a == 0x7479027ea100;
    PowAdd(58, 8, 8);
    PowAdd(58, 16, 16);
    assert Pow(58, 32) == 0xaf820335d9b3d9cf58b911d87035677fb7f528100000000;
    PowAdd(58, 32, 32);
    PowAdd(58, 3, 4);
    assert Pow(58, 3) == 195112;
    PowAdd(58, 64, 7);
    assert Pow(256, 4) == 0x1_0000_0000;
    PowAdd(256, 4, 4);
    PowAdd(256, 8, 8);
    assert Pow(256, 16) == 0x1_00000000_00000000_00000000_00000000;
    PowAdd(256, 16, 16);
    PowAdd(256, 32, 16);
    PowAdd(256, 48, 4);
  }
}

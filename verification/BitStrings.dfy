/** Fixed-width digit strings, and the bits of a byte string, most significant bit first. */
module BitStrings {
  import opened Arith
  import opened Words
  import opened Bits
  import opened Digits

  /** The n lowest digits of v in base b. */
  function Fixed(b: int, n: nat, v: nat): (s: seq<int>)
    requires b > 1
    ensures |s| == n && forall j :: 0 <= j < n ==> 0 <= s[j] < b
  {
    if n == 0 then []
    else
      DivMod(v, b);
      Fixed(b, n - 1, v / b) + [v % b]
  }

  lemma {:induction false} FixedIs(b: int, n: nat, v: nat)
    requires b > 1 && v < Pow(b, n)
    ensures Num(b, Fixed(b, n, v)) == v
  {
    if n > 0 {
      DivMod(v, b);
      DivBelow(v, b, Pow(b, n - 1));
      FixedIs(b, n - 1, v / b);
      NumSnoc(b, Fixed(b, n - 1, v / b), v % b);
    }
  }

  /** A digit string is the fixed-width form of its number. */
  lemma FixedOfNum(b: int, s: seq<int>)
    requires b > 1 && Digital(b, s)
    ensures 0 <= Num(b, s) < Pow(b, |s|) && Fixed(b, |s|, Num(b, s)) == s
  {
    NumBound(b, s);
    FixedIs(b, |s|, Num(b, s));
    NumUnique(b, s, Fixed(b, |s|, Num(b, s)));
  }

  /** Digit j is what the mask test for it reads. */
  lemma {:induction false} FixedAt(b: int, n: nat, v: nat, j: nat)
    requires b > 1 && j < n
    ensures Pow(b, n - 1 - j) > 0 && Fixed(b, n, v)[j] == v / Pow(b, n - 1 - j) % b
  {
    PowPositive(b, n - 1 - j);
    DivMod(v, b);
    if j < n - 1 {
      FixedAt(b, n - 1, v / b, j);
      PowPositive(b, n - 2 - j);
      DivDiv(v, b, Pow(b, n - 2 - j));
    }
  }

  /** Setting the first of the zero digits at the end adds its weight. */
  lemma NumUpdate(b: int, s: seq<int>, r: nat)
    requires r < |s| && forall j :: r <= j < |s| ==> s[j] == 0
    ensures Num(b, s[r := 1]) == Num(b, s) + Pow(b, |s| - 1 - r)
    ensures Num(b, s) == Num(b, s[..r]) * Pow(b, |s| - r)
  {
    var low := |s| - 1 - r;
    assert s == s[..r] + Zeros(low + 1) && s[r := 1] == s[..r] + ([1] + Zeros(low));
    NumConcat(b, s[..r], Zeros(low + 1));
    NumConcat(b, s[..r], [1] + Zeros(low));
    NumCons(b, 1, Zeros(low));
    NumZeros(b, low + 1);
    NumZeros(b, low);
  }

  /** x |= 1 << (n - 1 - r) on a number of n bits that are clear from r on. */
  lemma SetBit(n: nat, x: nat, r: nat)
    requires x < Pow(2, n) && r < n && forall j :: r <= j < n ==> Fixed(2, n, x)[j] == 0
    ensures Pow(2, n - 1 - r) > 0 && Or(x, Pow(2, n - 1 - r)) == x + Pow(2, n - 1 - r) < Pow(2, n)
    ensures Fixed(2, n, x + Pow(2, n - 1 - r)) == Fixed(2, n, x)[r := 1]
  {
    hide Num, Pow;
    var s := Fixed(2, n, x);
    FixedIs(2, n, x);
    NumUpdate(2, s, r);
    FixedOfNum(2, s[r := 1]);
    NumBound(2, s[..r]);
    OrWeight(x, Num(2, s[..r]), n - 1 - r);
  }

  lemma OrWeight(v: nat, c: nat, k: nat)
    requires v == c * Pow(2, k + 1)
    ensures Pow(2, k) > 0 && Or(v, Pow(2, k)) == v + Pow(2, k)
  {
    PowPositive(2, k);
    OrDisjoint(Pow(2, k), c, k + 1);
  }

  /** All bits of a byte string. */
  function BitsOf(s: seq<u8>): (t: seq<int>)
    ensures |t| == 8 * |s| && forall j :: 0 <= j < |t| ==> 0 <= t[j] < 2
  {
    if s == [] then [] else BitsOf(s[..|s| - 1]) + Fixed(2, 8, s[|s| - 1])
  }

  lemma {:induction false} BitsConcat(s: seq<u8>, t: seq<u8>)
    ensures BitsOf(s + t) == BitsOf(s) + BitsOf(t)
  {
    if t == [] {
      assert s + t == s;
    } else {
      var front, last := t[..|t| - 1], t[|t| - 1];
      BitsConcat(s, front);
      hide Fixed;
      assert (s + t)[..|s + t| - 1] == s + front;
    }
  }

  /** The bits of a byte string write its number. */
  lemma {:induction false} BitsNumber(s: seq<u8>)
    ensures Num(2, BitsOf(s)) == Num(256, s)
  {
    if s != [] {
      var n := |s| - 1;
      BitsNumber(s[..n]);
      TwoTo32();
      FixedIs(2, 8, s[n]);
      hide Fixed;
      NumConcat(2, BitsOf(s[..n]), Fixed(2, 8, s[n]));
    }
  }

  lemma BitsOfByte(v: u8)
    ensures BitsOf([v]) == Fixed(2, 8, v)
  {
    assert [v][..0] == [];
  }

  /** Where bit k is. */
  lemma BitAt(s: seq<u8>, i: nat, r: nat)
    requires i < |s| && r < 8
    ensures BitsOf(s)[8 * i + r] == Fixed(2, 8, s[i])[r]
  {
    hide BitsOf, Fixed;
    var front, back := s[..i], s[i + 1..];
    Around(s, i);
    BitsConcat(front + [s[i]], back);
    BitsConcat(front, [s[i]]);
    BitsOfByte(s[i]);
    MiddleAt(BitsOf(front), BitsOf([s[i]]), BitsOf(back), r);
  }

  lemma Around(s: seq<u8>, i: nat)
    requires i < |s|
    ensures s == (s[..i] + [s[i]]) + s[i + 1..]
  {
  }

  lemma MiddleAt(a: seq<int>, b: seq<int>, c: seq<int>, r: nat)
    requires r < |b|
    ensures (a + b + c)[|a| + r] == b[r]
  {
  }

  lemma BitsSnoc(s: seq<u8>)
    requires s != []
    ensures BitsOf(s) == BitsOf(s[..|s| - 1]) + Fixed(2, 8, s[|s| - 1])
  {
  }

  lemma SplitEqual(a: seq<int>, b: seq<int>, c: seq<int>, d: seq<int>)
    requires a + b == c + d && |a| == |c|
    ensures a == c && b == d
  {
    assert (a + b)[..|a|] == a && (c + d)[..|c|] == c;
    assert (a + b)[|a|..] == b && (c + d)[|c|..] == d;
  }

  /** Byte strings with the same bits are the same. */
  lemma {:induction false} BitsUnique(s: seq<u8>, t: seq<u8>)
    requires BitsOf(s) == BitsOf(t)
    ensures s == t
  {
    hide BitsOf, Fixed;
    if s != [] {
      var n := |s| - 1;
      BitsSnoc(s);
      BitsSnoc(t);
      SplitEqual(BitsOf(s[..n]), Fixed(2, 8, s[n]), BitsOf(t[..n]), Fixed(2, 8, t[n]));
      BitsUnique(s[..n], t[..n]);
      TwoTo32();
      FixedIs(2, 8, s[n]);
      FixedIs(2, 8, t[n]);
      assert s == s[..n] + [s[n]] && t == t[..n] + [t[n]];
    }
  }

  lemma BitsUpdate(s: seq<u8>, i: nat, r: nat, v: u8)
    requires i < |s| && r < 8 && Fixed(2, 8, v) == Fixed(2, 8, s[i])[r := 1]
    ensures BitsOf(s[i := v]) == BitsOf(s)[8 * i + r := 1]
  {
    hide BitsOf, Fixed;
    var front, back := s[..i], s[i + 1..];
    assert s == (front + [s[i]]) + back && s[i := v] == (front + [v]) + back;
    BitsConcat(front + [s[i]], back);
    BitsConcat(front, [s[i]]);
    BitsOfByte(s[i]);
    BitsConcat(front + [v], back);
    BitsConcat(front, [v]);
    BitsOfByte(v);
  }

  lemma {:induction false} BitsOfZeros(n: nat)
    ensures BitsOf(Zeros(n)) == Zeros(8 * n)
  {
    if n > 0 {
      BitsOfZeros(n - 1);
      assert Zeros(n)[..n - 1] == Zeros(n - 1);
      TwoTo32();
      NumZeros(2, 8);
      FixedOfNum(2, Zeros(8));
    }
  }

  /** The first k of n digits are the number without its n - k lowest digits. */
  lemma {:induction false} FixedPrefix(b: int, n: nat, v: nat, k: nat)
    requires b > 1 && k <= n
    ensures Pow(b, n - k) > 0 && v / Pow(b, n - k) >= 0
    ensures Fixed(b, n, v)[..k] == Fixed(b, k, v / Pow(b, n - k))
  {
    if k == n {
      assert v / 1 == v;
    } else {
      DivMod(v, b);
      FixedPrefix(b, n - 1, v / b, k);
      DivDiv(v, b, Pow(b, n - 1 - k));
      assert Fixed(b, n, v)[..k] == Fixed(b, n - 1, v / b)[..k];
    }
  }

  /** Comparing masked bytes compares their first k bits. */
  lemma HighBits(x: u8, y: u8, k: nat)
    requires k <= 8
    ensures Pow(2, 8 - k) > 0
    ensures x / Pow(2, 8 - k) == y / Pow(2, 8 - k) <==> Fixed(2, 8, x)[..k] == Fixed(2, 8, y)[..k]
  {
    hide Fixed;
    var p := Pow(2, 8 - k);
    PowPositive(2, 8 - k);
    TwoTo32();
    PowAdd(2, 8 - k, k);
    FixedPrefix(2, 8, x, k);
    FixedPrefix(2, 8, y, k);
    DivBelow(x, p, Pow(2, k));
    DivBelow(y, p, Pow(2, k));
    FixedIs(2, k, x / p);
    FixedIs(2, k, y / p);
  }
}

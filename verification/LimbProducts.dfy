/** Products of numbers in 30-bit limbs, column by column, as the scalar arithmetic of Ed25519 adds them up. */
module LimbProducts {
  import opened Words
  import opened Arith
  import opened Bits
  import opened Digits

  predicate Limbs30(s: seq<int>) { |s| == 9 && forall j :: 0 <= j < 9 ==> 0 <= s[j] < 0x4000_0000 }

  /** The number in 30-bit limbs, lowest first. */
  function Number(s: seq<int>): int {
    if s == [] then 0 else s[0] + 0x4000_0000 * Number(s[1..])
  }

  lemma NineLimbs(s: seq<int>)
    requires |s| == 9
    ensures Number(s) == s[0] + 0x4000_0000 * (s[1] + 0x4000_0000 * (s[2] + 0x4000_0000 * (s[3] + 0x4000_0000 * (s[4]
      + 0x4000_0000 * (s[5] + 0x4000_0000 * (s[6] + 0x4000_0000 * (s[7] + 0x4000_0000 * s[8])))))))
  {
    ThreeLimbs(s);
    ThreeLimbs(s[3..]);
    ThreeLimbs(s[6..]);
    assert s[3..][3..] == s[6..] && s[6..][3..] == [];
  }

  lemma TenLimbs(s: seq<int>)
    requires |s| == 10
    ensures Number(s) == s[0] + 0x4000_0000 * (s[1] + 0x4000_0000 * (s[2] + 0x4000_0000 * (s[3] + 0x4000_0000 * (s[4]
      + 0x4000_0000 * (s[5] + 0x4000_0000 * (s[6] + 0x4000_0000 * (s[7] + 0x4000_0000 * (s[8]
      + 0x4000_0000 * s[9]))))))))
  {
    NineLimbs(s[1..]);
  }

  lemma ThreeLimbs(s: seq<int>)
    requires |s| >= 3
    ensures Number(s) == s[0] + 0x4000_0000 * (s[1] + 0x4000_0000 * (s[2] + 0x4000_0000 * Number(s[3..])))
  {
    assert s[1..][1..] == s[2..] && s[2..][1..] == s[3..];
  }

  lemma AllNine(s: seq<int>)
    requires |s| == 9 && 0 <= s[0] < 0x4000_0000 && 0 <= s[1] < 0x4000_0000 && 0 <= s[2] < 0x4000_0000
    requires 0 <= s[3] < 0x4000_0000 && 0 <= s[4] < 0x4000_0000 && 0 <= s[5] < 0x4000_0000
    requires 0 <= s[6] < 0x4000_0000 && 0 <= s[7] < 0x4000_0000 && 0 <= s[8] < 0x4000_0000
    ensures Limbs30(s)
  {
  }

  lemma NumberBound(s: seq<int>)
    requires Limbs30(s)
    ensures 0 <= Number(s) < 0x10000_00000000_00000000_00000000_00000000_00000000_00000000_00000000 * (s[8] + 1)
  {
    NineLimbs(s);
    hide Number;
  }

  lemma NumberCons(d: int, s: seq<int>)
    ensures Number([d] + s) == d + 0x4000_0000 * Number(s)
  {
    assert ([d] + s)[1..] == s;
  }

  lemma {:induction false} NumberConcat(s: seq<int>, t: seq<int>)
    ensures Number(s + t) == Number(s) + Pow(0x4000_0000, |s|) * Number(t)
  {
    if s == [] {
      assert s + t == t;
    } else {
      NumberConcat(s[1..], t);
      assert (s + t)[1..] == s[1..] + t;
      Assoc(0x4000_0000, Pow(0x4000_0000, |s| - 1), Number(t));
    }
  }

  // ------------------------------------------------------------------- columns

  /** The sum of all a[i] * b[j] with i + j == k. */
  function Column(a: seq<int>, b: seq<int>, k: int): int {
    if a == [] then 0 else (if 0 <= k < |b| then a[0] * b[k] else 0) + Column(a[1..], b, k - 1)
  }

  /** The n columns from the k-th on. */
  function Columns(a: seq<int>, b: seq<int>, k: int, n: nat): (col: seq<int>)
    ensures |col| == n
    decreases n
  {
    if n == 0 then [] else [Column(a, b, k)] + Columns(a, b, k + 1, n - 1)
  }

  lemma {:induction false} ColumnsAt(a: seq<int>, b: seq<int>, k: int, n: nat)
    ensures forall j :: 0 <= j < n ==> Columns(a, b, k, n)[j] == Column(a, b, k + j)
    decreases n
  {
    if n > 0 {
      ColumnsAt(a, b, k + 1, n - 1);
    }
  }

  /** The limbs of b from the k-th on, cut or padded to n. */
  function Slice(b: seq<int>, k: int, n: nat): seq<int>
    decreases n
  {
    if n == 0 then [] else [if 0 <= k < |b| then b[k] else 0] + Slice(b, k + 1, n - 1)
  }

  lemma {:induction false} FirstRow(a: seq<int>, b: seq<int>, k: int, n: nat)
    requires a != []
    ensures Number(Columns(a, b, k, n)) == a[0] * Number(Slice(b, k, n)) + Number(Columns(a[1..], b, k - 1, n))
    decreases n
  {
    if n > 0 {
      FirstRow(a, b, k + 1, n - 1);
      var d, s := if 0 <= k < |b| then b[k] else 0, Slice(b, k + 1, n - 1);
      NumberCons(Column(a, b, k), Columns(a, b, k + 1, n - 1));
      NumberCons(Column(a[1..], b, k - 1), Columns(a[1..], b, k, n - 1));
      NumberCons(d, s);
      assert Column(a, b, k) == a[0] * d + Column(a[1..], b, k - 1);
      hide Number, Column;
      Distribute(a[0], d, 0x4000_0000 * Number(s));
      Regroup(a[0], 0x4000_0000, Number(s));
    }
  }

  lemma {:induction false} SliceIs(b: seq<int>, k: nat, n: nat)
    requires k <= |b| <= k + n
    ensures Number(Slice(b, k, n)) == Number(b[k..])
    decreases n
  {
    if k < |b| {
      SliceIs(b, k + 1, n - 1);
      assert b[k..][1..] == b[k + 1..];
    } else {
      SliceZero(b, k, n);
    }
  }

  lemma {:induction false} SliceZero(b: seq<int>, k: nat, n: nat)
    requires |b| <= k
    ensures Number(Slice(b, k, n)) == 0
    decreases n
  {
    if n > 0 {
      SliceZero(b, k + 1, n - 1);
    }
  }

  lemma {:induction false} NoColumn(a: seq<int>, b: seq<int>, k: int)
    requires k < 0
    ensures Column(a, b, k) == 0
  {
    if a != [] {
      NoColumn(a[1..], b, k - 1);
    }
  }

  lemma {:induction false} EmptyColumns(b: seq<int>, k: int, n: nat)
    ensures Number(Columns([], b, k, n)) == 0
    decreases n
  {
    if n > 0 {
      EmptyColumns(b, k + 1, n - 1);
    }
  }

  /** All columns together are the product. */
  lemma {:induction false} Product(a: seq<int>, b: seq<int>, n: nat)
    requires |b| > 0 && |a| + |b| <= n + 1
    ensures Number(Columns(a, b, 0, n)) == Number(a) * Number(b)
    decreases |a|
  {
    if a == [] {
      EmptyColumns(b, 0, n);
    } else {
      FirstRow(a, b, 0, n);
      SliceIs(b, 0, n);
      assert b[0..] == b;
      NoColumn(a[1..], b, -1);
      Product(a[1..], b, n - 1);
      assert Columns(a[1..], b, -1, n)[1..] == Columns(a[1..], b, 0, n - 1);
      Row(a[0], Number(a[1..]), Number(b));
    }
  }

  lemma Row(d: int, rest: int, y: int)
    ensures d * y + 0x4000_0000 * (rest * y) == (d + 0x4000_0000 * rest) * y
  {
    Assoc(0x4000_0000, rest, y);
  }

  lemma {:induction false} ColumnsConcat(a: seq<int>, b: seq<int>, k: int, m: nat, n: nat)
    ensures Columns(a, b, k, m + n) == Columns(a, b, k, m) + Columns(a, b, k + m, n)
    decreases m
  {
    if m > 0 {
      ColumnsConcat(a, b, k + 1, m - 1, n);
    }
  }

  /** The product of two nine-limb numbers, cut between two columns. */
  lemma SplitProduct(a: seq<int>, b: seq<int>, m: nat)
    requires |a| == |b| == 9 && m <= 17
    ensures Number(a) * Number(b)
         == Number(Columns(a, b, 0, m)) + Pow(0x4000_0000, m) * Number(Columns(a, b, m, 17 - m))
  {
    hide Number, Columns, Pow;
    Product(a, b, 17);
    ColumnsConcat(a, b, 0, m, 17 - m);
    NumberConcat(Columns(a, b, 0, m), Columns(a, b, m, 17 - m));
  }

  lemma {:induction false} ColumnSum(a: seq<int>, b: seq<int>, k: int)
    requires forall j :: 0 <= j < |a| ==> 0 <= a[j] < 0x4000_0000
    requires forall j :: 0 <= j < |b| ==> 0 <= b[j] < 0x4000_0000
    ensures 0 <= Column(a, b, k) <= 0x1000_0000_0000_0000 * |a|
  {
    if a != [] {
      ColumnSum(a[1..], b, k - 1);
      if 0 <= k < |b| {
        MulMono2(a[0], 0x3FFF_FFFF, b[k], 0x3FFF_FFFF);
      }
    }
  }

  lemma ColumnBound(a: seq<int>, b: seq<int>, k: int)
    requires Limbs30(a) && Limbs30(b)
    ensures 0 <= Column(a, b, k) <= 0x9000_0000_0000_0000
  {
    ColumnSum(a, b, k);
  }

  /** The highest column has one term. */
  lemma {:induction false} TopColumn(a: seq<int>, b: seq<int>)
    requires a != [] && b != []
    ensures Column(a, b, |a| + |b| - 2) == a[|a| - 1] * b[|b| - 1]
  {
    if |a| > 1 {
      TopColumn(a[1..], b);
    }
  }

  lemma SevenBound(a: seq<int>, b: seq<int>)
    requires Limbs30(a) && Limbs30(b)
    ensures 0 <= Number(Columns(a, b, 0, 7)) < 0x100000_00000000_00000000_00000000_00000000_00000000_00000000_00000000
  {
    forall j | 0 <= j < 7
      ensures 0 <= Column(a, b, j) <= 0x9000_0000_0000_0000
    {
      ColumnBound(a, b, j);
    }
    ColumnsAt(a, b, 0, 7);
    var s := Columns(a, b, 0, 7);
    ThreeLimbs(s);
    ThreeLimbs(s[3..]);
    assert s[3..][3..] == [s[6]];
    assert Number([s[6]]) == s[6];
    hide Number, Column, Columns;
  }

  lemma Powers(b: nat)
    requires b == 30
    ensures Pow(0x4000_0000, 7) == 0x40000_00000000_00000000_00000000_00000000_00000000_00000000
    ensures Pow(0x4000_0000, 9) == 0x4000_00000000_00000000_00000000_00000000_00000000_00000000_00000000_00000000
  {
    assert Pow(0x4000_0000, 3) == 0x4000_0000 * 0x4000_0000 * 0x4000_0000;
    PowAdd(0x4000_0000, 3, 3);
    PowAdd(0x4000_0000, 6, 1);
    PowAdd(0x4000_0000, 6, 3);
  }

  // -------------------------------------------------------------------- pieces

  /** Shifting and masking a column cuts a limb in two pieces. */
  lemma Pieces(c: nat, digit: nat, sum: nat, u: nat, v: nat)
    requires u * v == 0x4000_0000 && u > 0 && digit < 0x4000_0000 && sum == 0x4000_0000 * c + digit
    ensures v > 0 && digit / u < v && digit == u * (digit / u) + digit % u
    ensures W32(sum) / u % v == digit / u && W32(W32(sum) * v) % 0x4000_0000 == v * (digit % u)
  {
    LowWord(c, digit);
    hide W32;
    PiecesOf(c % 4, digit, u, v);
  }

  lemma PiecesOf(d: nat, digit: nat, u: nat, v: nat)
    requires u * v == 0x4000_0000 && u > 0 && digit < 0x4000_0000
    ensures v > 0 && digit / u < v && digit == u * (digit / u) + digit % u
    ensures (0x4000_0000 * d + digit) / u % v == digit / u
    ensures W32((0x4000_0000 * d + digit) * v) % 0x4000_0000 == v * (digit % u)
  {
    hide W32;
    DivMod(digit, u);
    DivBelow(digit, u, v);
    UpperPiece(d, digit / u, digit % u, u, v);
    LowerPiece(v * d + digit / u, digit % u, u, v);
  }

  lemma LowWord(c: nat, digit: nat)
    requires digit < 0x4000_0000
    ensures W32(0x4000_0000 * c + digit) == 0x4000_0000 * (c % 4) + digit
  {
    DivModUnique(0x4000_0000 * c + digit, 0x1_0000_0000, c / 4, 0x4000_0000 * (c % 4) + digit);
  }

  lemma UpperPiece(d: nat, h: nat, r: nat, u: nat, v: nat)
    requires u * v == 0x4000_0000 && h < v && r < u
    ensures 0x4000_0000 * d + u * h + r == u * (v * d + h) + r
    ensures (0x4000_0000 * d + u * h + r) / u % v == h
  {
    Distribute(u, v * d, h);
    Assoc(u, v, d);
    DivModUnique(u * (v * d + h) + r, u, v * d + h, r);
    DivModUnique(v * d + h, v, d, h);
  }

  lemma LowerPiece(w: nat, r: nat, u: nat, v: nat)
    requires u * v == 0x4000_0000 && r < u
    ensures W32((u * w + r) * v) % 0x4000_0000 == v * r
  {
    Distribute(v, u * w, r);
    Assoc(v, u, w);
    MulMono(r + 1, u, v);
    MulMono(0, r, v);
    assert (r + 1) * v == v * r + v;
    assert u > 0 && v > 0;
    assert (u * w + r) * v == 0x4000_0000 * w + v * r;
    hide W32;
    LowThirty(w, v * r);
  }

  lemma LowThirty(w: nat, y: nat)
    requires y < 0x4000_0000
    ensures W32(0x4000_0000 * w + y) % 0x4000_0000 == y
  {
    DivModUnique(0x4000_0000 * w + y, 0x1_0000_0000, w / 4, 0x4000_0000 * (w % 4) + y);
    DivModUnique(0x4000_0000 * (w % 4) + y, 0x4000_0000, w % 4, y);
  }

  /** What a line of a product does: column and carry make the next carry and the two pieces of a limb. */
  ghost predicate Line(c0: int, column: int, c: int, high: int, rest: int, u: int) {
    c0 + column == 0x4000_0000 * c + u * high + rest
  }

  /** A limb is the upper piece of one line and the lower one of the next. */
  ghost predicate Pieced(x: int, high: int, rest: int, v: int) { x == high + v * rest }

  // one line: c += column, the two pieces of c, and c >>= 30
  method NextColumn(c0: u64, a: seq<u32>, b: seq<u32>, k: nat, u: u32, v: u32)
      returns (c: u64, high: u32, low: u32, ghost rest: nat)
    requires Limbs30(a) && Limbs30(b) && c0 < 0x4_0000_0000 && u * v == 0x4000_0000
    ensures c < 0x4_0000_0000 && high < v && rest < u && low == v * rest
    ensures Line(c0, Column(a, b, k), c, high, rest, u)
  {
    ColumnBound(a, b, k);
    hide Column;
    c := W64(c0 + Column(a, b, k));
    var f := W32(c);
    ghost var digit := c % 0x4000_0000;
    rest := digit % u;
    Pieces(c / 0x4000_0000, digit, c, u, v);
    hide W32;
    high := f as int / u as int % v as int;
    low := W32(f as int * v as int) % 0x4000_0000;
    c := c / 0x4000_0000;
  }

  // the two pieces of neighbouring lines: x |= low
  method Join(high: u32, low: u32, ghost rest: nat, ghost u: nat, ghost bits: nat) returns (x: u32)
    requires high < Pow(2, bits) && rest < u && u * Pow(2, bits) == 0x4000_0000 && low == rest * Pow(2, bits)
    ensures Pieced(x, high, rest, Pow(2, bits)) && x < 0x4000_0000
  {
    hide Or, Pow;
    ghost var v := Pow(2, bits);
    PowPositive(2, bits);
    OrDisjoint(high, rest, bits);
    MulMono(rest + 1, u, v);
    assert (rest + 1) * v == v * rest + v;
    x := Or(high, low);
  }

  /** What a line does that keeps a whole limb. */
  ghost predicate LowLine(c0: int, column: int, c: int, limb: int) { c0 + column == 0x4000_0000 * c + limb }

  // such a line: c += column, the next limb, and c >>= 30
  method LowColumn(c0: u64, a: seq<u32>, b: seq<u32>, k: nat) returns (c: u64, limb: u32)
    requires Limbs30(a) && Limbs30(b) && c0 < 0x4_0000_0000
    ensures LowLine(c0, Column(a, b, k), c, limb) && c < 0x4_0000_0000 && limb < 0x4000_0000
  {
    ColumnBound(a, b, k);
    hide Column;
    c := W64(c0 + Column(a, b, k));
    limb := c % 0x4000_0000;
    c := c / 0x4000_0000;
  }

  /** Nine such lines, of which 264 bits are kept. */
  lemma LowLines(col: seq<int>, c: seq<int>, r: seq<int>, last: nat)
    requires |col| == |c| == |r| == 9 && r[8] == last % 0x100_0000
    requires LowLine(0, col[0], c[0], r[0]) && LowLine(c[0], col[1], c[1], r[1]) && LowLine(c[1], col[2], c[2], r[2])
    requires LowLine(c[2], col[3], c[3], r[3]) && LowLine(c[3], col[4], c[4], r[4]) && LowLine(c[4], col[5], c[5], r[5])
    requires LowLine(c[5], col[6], c[6], r[6]) && LowLine(c[6], col[7], c[7], r[7]) && LowLine(c[7], col[8], c[8], last)
    ensures Number(col) == Number(r)
      + 0x100_00000000_00000000_00000000_00000000_00000000_00000000_00000000_00000000
        * (0x40 * c[8] + last / 0x100_0000)
  {
    NineLimbs(col);
    NineLimbs(r);
    hide Number;
  }
}

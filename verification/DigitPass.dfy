/** One pass of long multiplication over a digit buffer, the inner loop of every Base58 routine. */
module DigitPass {
  import opened Arith
  import opened Words
  import opened Digits

  /**
   * A pass from the right over a digit buffer replaces its number by m times it plus c.
   * From digit j on the pass is done, and carry is what it owes to digit j - 1.
   */
  ghost predicate Pass(b: int, m: int, c: int, was: seq<int>, now: seq<int>, j: nat, carry: int) {
    && |was| == |now| && j <= |now|
    && now[..j] == was[..j]
    && Num(b, now[j..]) + carry * Pow(b, |now| - j) == m * Num(b, was[j..]) + c
  }

  lemma PassStart(b: int, m: int, c: int, s: seq<int>)
    ensures Pass(b, m, c, s, s, |s|, c)
  {
    assert Pow(b, 0) == 1;
    assert s[|s|..] == [];
  }

  lemma PassStep(b: int, m: int, c: int, was: seq<int>, now: seq<int>, j: nat, carry: int, digit: int, next: int)
    requires b > 0 && j > 0 && Pass(b, m, c, was, now, j, carry)
    requires m * was[j - 1] + carry == next * b + digit
    ensures Pass(b, m, c, was, now[j - 1 := digit], j - 1, next)
  {
    var p, done := Pow(b, |now| - j), now[j - 1 := digit];
    assert done[j - 1..] == [digit] + now[j..];
    assert was[j - 1..] == [was[j - 1]] + was[j..];
    NumCons(b, digit, now[j..]);
    NumCons(b, was[j - 1], was[j..]);
    PassSum(b, m, was[j - 1], carry, next, digit, p, Num(b, was[j..]));
  }

  lemma PassSum(b: int, m: int, d: int, carry: int, next: int, digit: int, p: int, n: int)
    requires m * d + carry == next * b + digit
    ensures digit * p + next * (b * p) - carry * p == m * (d * p + n) - m * n
  {
    assert (m * d + carry) * p == m * (d * p) + carry * p;
    assert (next * b + digit) * p == next * (b * p) + digit * p;
    Distribute(m, d * p, n);
  }

  /** Once nothing is owed and only zeros are left, the pass is complete. */
  lemma PassEnd(b: int, m: int, c: int, was: seq<int>, now: seq<int>, j: nat)
    requires Pass(b, m, c, was, now, j, 0) && forall k :: 0 <= k < j ==> was[k] == 0
    ensures Num(b, now) == m * Num(b, was) + c
  {
    assert was == Zeros(j) + was[j..] && now == Zeros(j) + now[j..];
    NumPad(b, j, was[j..]);
    NumPad(b, j, now[j..]);
  }

  /** A pass whose result fits owes nothing at the front. */
  lemma PassFits(b: int, m: int, c: int, was: seq<int>, now: seq<int>, j: nat, carry: int, k: nat)
    requires b > 1 && m >= 0 && carry >= 0 && Pass(b, m, c, was, now, j, carry) && Digital(b, was) && Digital(b, now)
    requires m * Num(b, was) + c < Pow(b, k) && |now| - j >= k
    ensures carry == 0
  {
    NumBound(b, now[j..]);
    PartBound(b, was, j);
    PowMono(b, k, |now| - j);
    NothingOwed(Num(b, now[j..]), carry, Pow(b, |now| - j), m, Num(b, was[j..]), Num(b, was), c, Pow(b, k));
  }

  lemma NothingOwed(done: int, carry: int, p: int, m: int, part: int, all: int, c: int, limit: int)
    requires done >= 0 && carry >= 0 && m >= 0 && part <= all && 0 < limit <= p
    requires done + carry * p == m * part + c && m * all + c < limit
    ensures carry == 0
  {
    MulMono(part, all, m);
    if carry > 0 && p > 0 {
      MulMono(1, carry, p);
    }
  }

  lemma PartBound(b: int, s: seq<int>, j: nat)
    requires b > 1 && Digital(b, s) && j <= |s|
    ensures Num(b, s[j..]) <= Num(b, s)
  {
    NumBound(b, s[..j]);
    assert s == s[..j] + s[j..];
    NumConcat(b, s[..j], s[j..]);
    PowPositive(b, |s| - j);
    MulMono2(0, Num(b, s[..j]), 0, Pow(b, |s| - j));
  }

  /** A number with room for one digit less starts with a zero. */
  lemma FirstZero(b: int, s: seq<int>)
    requires b > 1 && s != [] && Digital(b, s) && Num(b, s) < Pow(b, |s| - 1)
    ensures s[0] == 0
  {
    NumBound(b, s[1..]);
    assert s == [s[0]] + s[1..];
    NumCons(b, s[0], s[1..]);
    if s[0] > 0 {
      MulMono(1, s[0], Pow(b, |s| - 1));
    }
  }

  // carry += m * buf[j]; buf[j] = carry % b; carry /= b
  method PassDigit(buf: array<u8>, b: int, m: int, j: nat, carry: nat, ghost c: int, ghost was: seq<int>)
      returns (next: nat)
    requires (b == 256 && m == 58) || (b == 58 && m == 256)
    requires j < buf.Length && carry < 256 && Digital(b, buf[..])
    requires Pass(b, m, c, was, buf[..], j + 1, carry)
    modifies buf
    ensures Digital(b, buf[..]) && buf[..] == old(buf[..])[j := buf[j]]
    ensures next < 256 && Pass(b, m, c, was, buf[..], j, next)
    ensures carry != 0 ==> next != 0 || buf[j] != 0
  {
    ghost var now: seq<int> := buf[..];
    assert now[..j + 1][j] == was[..j + 1][j];
    var t := carry + m * buf[j];
    DigitAndCarry(b, m, carry, buf[j]);
    PassStep(b, m, c, was, now, j + 1, carry, t % b, t / b);
    buf[j] := t % b;
    next := t / b;
  }

  lemma DigitAndCarry(b: int, m: int, carry: int, d: int)
    requires (b == 256 && m == 58) || (b == 58 && m == 256)
    requires 0 <= carry < 256 && 0 <= d < b
    ensures var t := carry + m * d;
            && 0 <= t % b < b && 0 <= t / b < 256 && m * d + carry == t / b * b + t % b
            && (carry > 0 ==> t / b != 0 || t % b != 0)
  {
  }
}

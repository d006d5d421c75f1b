/** The Base58 encoder of base58.c: base-58 digits in a byte buffer. */
module Base58C {
  import opened Arith
  import opened Words
  import opened Digits
  import opened DigitPass
  import opened Base58Spec
  import opened Base58Size

  // one byte of b58enc: buf = 256 * buf + byte, touching only digits above high while no carry is left
  method EncodePass(buf: array<u8>, high: nat, byte: u8) returns (j: nat)
    requires high < buf.Length && Digital(58, buf[..]) && forall k :: 0 <= k <= high ==> buf[k] == 0
    requires 256 * Num(58, buf[..]) + byte < Pow(58, buf.Length)
    modifies buf
    ensures Digital(58, buf[..]) && j < buf.Length
    ensures Num(58, buf[..]) == 256 * old(Num(58, buf[..])) + byte
    ensures Num(58, buf[..]) < Pow(58, buf.Length - 1) ==> forall k :: 0 <= k <= j ==> buf[k] == 0
  {
    hide Num, Pow;
    ghost var was: seq<int>, rest := buf[..], buf.Length;
    var carry: int := byte;
    j := buf.Length - 1;
    PassStart(58, 256, byte, was);
    while j > high || carry != 0
      invariant 0 <= j < buf.Length && 0 <= carry <= 0xFF
      invariant rest == j + 1
      invariant Digital(58, buf[..]) && Pass(58, 256, byte, was, buf[..], rest, carry)
      decreases j
    {
      carry := PassDigit(buf, 58, 256, j, carry, byte, was);
      rest := j;
      if j == 0 {
        break;
      }
      j := j - 1;
    }
    if rest == 0 {
      PassFits(58, 256, byte, was, buf[..], 0, carry, buf.Length);
      PassEnd(58, 256, byte, was, buf[..], 0);
      if Num(58, buf[..]) < Pow(58, buf.Length - 1) {
        FirstZero(58, buf[..]);
      }
    } else {
      assert forall k :: 0 <= k < rest ==> buf[..][..rest][k] == was[..rest][k];
      PassEnd(58, 256, byte, was, buf[..], rest);
    }
  }

  // the conversion loop of b58enc; size = n * 138 / 100 + 1 digits are always enough
  method EncodeDigits(body: seq<u8>) returns (buf: array<u8>)
    ensures fresh(buf) && buf.Length == |body| * 138 / 100 + 1
    ensures Digital(58, buf[..]) && Num(58, buf[..]) == Num(256, body)
  {
    var size := |body| * 138 / 100 + 1;
    buf := new u8[size](_ => 0);
    NumZeros(58, size);
    assert buf[..] == Zeros(size);
    var i, high := 0, size - 1;
    while i < |body|
      invariant 0 <= i <= |body| && 0 <= high < size
      invariant Digital(58, buf[..]) && Num(58, buf[..]) == Num(256, body[..i])
      invariant i < |body| ==> forall k :: 0 <= k <= high ==> buf[k] == 0
    {
      Room(body, i, size);
      high := EncodePass(buf, high, body[i]);
      i := i + 1;
    }
    assert body[..|body|] == body;
  }

  /** After i + 1 bytes the number fits the buffer, and before the last byte one digit less. */
  lemma Room(body: seq<u8>, i: nat, size: nat)
    requires i < |body| && size == |body| * 138 / 100 + 1
    ensures Num(256, body[..i + 1]) == 256 * Num(256, body[..i]) + body[i] < Pow(58, size)
    ensures i + 1 < |body| ==> Num(256, body[..i + 1]) < Pow(58, size - 1)
  {
    EncodeFits(|body|);
    assert body[..i + 1] == body[..i] + [body[i]];
    NumSnoc(256, body[..i], body[i]);
    NumBound(256, body[..i + 1]);
    PowMono(256, i + 1, |body|);
    if i + 1 < |body| {
      PowMono(256, i + 1, |body| - 1);
    }
  }

  // the end of b58enc: leading ones, the digits from j on, and a terminating 0
  method WriteText(b58: array<u8>, zcount: nat, buf: array<u8>, j0: nat)
    requires b58 != buf && j0 <= buf.Length && zcount + buf.Length - j0 < b58.Length
    requires Digital(58, buf[j0..])
    modifies b58
    ensures b58[..] == seq(zcount, _ => ONE) + CharsOf(buf[j0..]) + [0] + old(b58[zcount + buf.Length - j0 + 1..])
  {
    hide CharOf;
    ghost var text, was := CharsOf(buf[j0..]), b58[..];
    for k := 0 to zcount
      invariant forall l :: 0 <= l < k ==> b58[l] == ONE
      invariant forall l :: k <= l < b58.Length ==> b58[l] == was[l]
      invariant buf[..] == old(buf[..])
    {
      b58[k] := ONE;
    }
    var i, j := zcount, j0;
    while j < buf.Length
      invariant j0 <= j <= buf.Length && i == zcount + (j - j0)
      invariant buf[..] == old(buf[..])
      invariant forall l :: 0 <= l < zcount ==> b58[l] == ONE
      invariant forall l :: zcount <= l < i ==> b58[l] == text[l - zcount]
      invariant forall l :: i <= l < b58.Length ==> b58[l] == was[l]
    {
      b58[i] := CharOf(buf[j]);
      i, j := i + 1, j + 1;
    }
    b58[i] := 0;
  }

  // b58enc
  method B58Enc(b58: array<u8>, b58sz: nat, bin: seq<u8>) returns (ok: bool, newsz: nat)
    requires b58sz <= b58.Length
    modifies b58
    ensures newsz == |Encode(bin)| + 1
    ensures ok <==> |Encode(bin)| < b58sz
    ensures ok ==> b58[..] == Encode(bin) + [0] + old(b58[newsz..])
    ensures !ok ==> b58[..] == old(b58[..])
  {
    hide Num, Leading, Encode;
    var zcount := CountLeading(bin, 0);
    var buf := EncodeDigits(bin[zcount..]);
    var size := buf.Length;
    var j := CountLeading(buf[..], 0);
    EncodeIs(bin, zcount, buf[..], j);
    newsz := zcount + size - j + 1;
    if b58sz <= zcount + size - j {
      return false, newsz;
    }
    WriteText(b58, zcount, buf, j);
    return true, newsz;
  }

  /** The digits found for the bytes after the zeros are those of the specification. */
  lemma EncodeIs(bin: seq<u8>, z: nat, buf: seq<u8>, j: nat)
    requires z == Leading(bin, 0) && j == Leading(buf, 0)
    requires Digital(58, buf) && Num(58, buf) == Num(256, bin[z..])
    ensures Digital(58, buf[j..]) && Encode(bin) == seq(z, _ => ONE) + CharsOf(buf[j..])
  {
    assert bin == Zeros(z) + bin[z..] && buf == Zeros(j) + buf[j..];
    NumPad(256, z, bin[z..]);
    NumPad(58, j, buf[j..]);
    MinimalUnique(58, buf[j..]);
  }
}

/** BLAKE-256 as defined: pad the message, split it into blocks, iterate the compression function. */
module Blake256Spec {
  import opened Arith
  import opened Words
  import opened Digits
  import opened BigEndian
  import opened BitStrings

  type Chain = h: seq<u32> | |h| == 8 witness INITIAL
  type Block = b: seq<u8> | |b| == 64 witness seq(64, _ => 0)

  /** The compression function without salt; its last two arguments are the low and high counter words. */
  type Compression = (Chain, Block, u32, u32) -> Chain

  const INITIAL: seq<u32> := [0x6a09e667, 0xbb67ae85, 0x3c6ef372, 0xa54ff53a,
                              0x510e527f, 0x9b05688c, 0x1f83d9ab, 0x5be0cd19]

  function Be64(v: u64): (s: seq<u8>)
    ensures |s| == 8
  {
    Be32(v / 0x1_0000_0000) + Be32(v % 0x1_0000_0000)
  }

  /** The length field really is the number, most significant byte first. */
  lemma Be64Is(v: u64)
    ensures Num(256, Be64(v)) == v
  {
    NumConcat(256, Be32(v / 0x1_0000_0000), Be32(v % 0x1_0000_0000));
    assert Pow(256, 2) == 0x1_0000;
    assert Pow(256, 4) == 0x1_0000_0000;
  }

  /** The least positive number of bytes that leaves eight bytes of the last block free. */
  function PadLength(n: nat): (z: nat)
    ensures 1 <= z <= 64 && (n + z) % 64 == 56
  {
    if n % 64 < 56 then 56 - n % 64 else 120 - n % 64
  }

  /** A one bit, zero bits and another one bit, in z bytes. */
  function OnesAndZeros(z: nat): (s: seq<u8>)
    ensures |s| == z
  {
    seq(z, i => (if i == 0 then 0x80 else 0) + (if i == z - 1 then 1 else 0))
  }

  function Padded(m: seq<u8>): (p: seq<u8>)
    requires 8 * |m| < 0x1_0000_0000_0000_0000
    ensures |p| % 64 == 0 && m <= p
  {
    EightMore(|m| + PadLength(|m|));
    m + OnesAndZeros(PadLength(|m|)) + Be64(8 * |m|)
  }

  lemma EightMore(n: nat)
    requires n % 64 == 56
    ensures (n + 8) % 64 == 0
  {
  }

  /** The number of message bits up to the end of block i, but 0 for a block without message bits. */
  function Counter(n: nat, i: nat): (c: nat)
    ensures c <= 8 * n
  {
    if 64 * i >= n then 0 else if 64 * (i + 1) <= n then 512 * (i + 1) else 8 * n
  }

  /** The chain value after the first i blocks. */
  function Chained(c: Compression, m: seq<u8>, i: nat): Chain
    requires 8 * |m| < 0x1_0000_0000_0000_0000 && 64 * i <= |Padded(m)|
  {
    if i == 0 then INITIAL
    else
      var t: u64 := Counter(|m|, i - 1);
      c(Chained(c, m, i - 1), Padded(m)[64 * (i - 1)..64 * i], t % 0x1_0000_0000, t / 0x1_0000_0000)
  }

  /** The hash of m. */
  function Hash(c: Compression, m: seq<u8>): seq<u8>
    requires 8 * |m| < 0x1_0000_0000_0000_0000
  {
    Output(Chained(c, m, |Padded(m)| / 64))
  }

  function Output(h: seq<u32>): (s: seq<u8>)
    ensures |s| == 4 * |h|
  {
    if h == [] then [] else Output(h[..|h| - 1]) + Be32(h[|h| - 1])
  }

  // ------------------------------------------------ what the definition says

  /** r is the fractional part of the square root of p, cut to 32 bits; a is the whole part. */
  ghost predicate RootFraction(r: u32, p: nat, a: nat) {
    var x := a * 0x1_0000_0000 + r;
    x * x <= p * 0x1_0000_0000_0000_0000 < (x + 1) * (x + 1)
  }

  /** The initial chain value is made of the square roots of the first eight primes. */
  lemma InitialIs()
    ensures |INITIAL| == 8
    ensures RootFraction(INITIAL[0], 2, 1) && RootFraction(INITIAL[1], 3, 1) && RootFraction(INITIAL[2], 5, 2)
    ensures RootFraction(INITIAL[3], 7, 2) && RootFraction(INITIAL[4], 11, 3) && RootFraction(INITIAL[5], 13, 3)
    ensures RootFraction(INITIAL[6], 17, 4) && RootFraction(INITIAL[7], 19, 4)
  {
  }

  /** The bytes of a hash are the words of the chain value in their order, each most significant byte first. */
  lemma {:induction false} OutputIs(h: seq<u32>)
    ensures Num(256, Output(h)) == Num(0x1_0000_0000, h)
  {
    if h != [] {
      var n := |h| - 1;
      OutputIs(h[..n]);
      NumConcat(256, Output(h[..n]), Be32(h[n]));
      FourBytes();
    }
  }

  /** So the hash is the chain value after the last block, in 32 bytes. */
  lemma HashIs(c: Compression, m: seq<u8>)
    requires 8 * |m| < 0x1_0000_0000_0000_0000
    ensures |Hash(c, m)| == 32 && Num(256, Hash(c, m)) == Num(0x1_0000_0000, Chained(c, m, |Padded(m)| / 64))
  {
    hide Num, Output, Padded;
    OutputIs(Chained(c, m, |Padded(m)| / 64));
  }

  lemma FourBytes()
    ensures Pow(256, 4) == 0x1_0000_0000
  {
    assert Pow(256, 2) == 0x1_0000;
    PowAdd(256, 2, 2);
  }

  /**
    * One more block: the counter words lo and hi stand for the message bits up to the end of the block, or for 0 if
    * the block has none.
    */
  lemma ChainedNext(c: Compression, m: seq<u8>, i: nat, lo: u32, hi: u32)
    requires 8 * |m| < 0x1_0000_0000_0000_0000 && 64 * i + 64 <= |Padded(m)|
    requires lo + 0x1_0000_0000 * hi
          == if 64 * i >= |m| then 0 else if 512 * (i + 1) <= 8 * |m| then 512 * (i + 1) else 8 * |m|
    ensures Chained(c, m, 0) == INITIAL
    ensures Chained(c, m, i + 1) == c(Chained(c, m, i), Padded(m)[64 * i..64 * i + 64], lo, hi)
  {
    hide Padded;
    assert Counter(|m|, i) == lo + 0x1_0000_0000 * hi;
    assert 64 * (i + 1 - 1) == 64 * i;
  }

  /**
    * In bits: the message, a one, the least number of zeros that leaves 65 bits of the last block free, another one,
    * and the length of the message in 64 bits.
    */
  lemma PaddedBits(m: seq<u8>) returns (zeros: nat)
    requires 8 * |m| < 0x1_0000_0000_0000_0000
    ensures zeros < 512 && 8 * |Padded(m)| % 512 == 0
    ensures BitsOf(Padded(m)) == BitsOf(m) + [1] + Zeros(zeros) + [1] + Fixed(2, 64, 8 * |m|)
  {
    var z := PadLength(|m|);
    zeros := 8 * z - 2;
    var p := Padded(m);
    Whole(|p|);
    PaddedParts(m);
    OnesAndZerosBits(z);
    Be64Bits(8 * |m|);
    hide BitsOf, Fixed, OnesAndZeros, PadLength, Be64, Padded;
    Assemble(BitsOf(m), Zeros(zeros), Fixed(2, 64, 8 * |m|));
  }

  lemma Whole(n: nat)
    requires n % 64 == 0
    ensures 8 * n % 512 == 0
  {
  }

  lemma PaddedParts(m: seq<u8>)
    requires 8 * |m| < 0x1_0000_0000_0000_0000
    ensures BitsOf(Padded(m)) == BitsOf(m) + BitsOf(OnesAndZeros(PadLength(|m|))) + BitsOf(Be64(8 * |m|))
  {
    hide BitsOf, OnesAndZeros, PadLength, Be64;
    BitsConcat(m + OnesAndZeros(PadLength(|m|)), Be64(8 * |m|));
    BitsConcat(m, OnesAndZeros(PadLength(|m|)));
  }

  lemma Assemble(a: seq<int>, z: seq<int>, f: seq<int>)
    ensures a + ([1] + z + [1]) + f == a + [1] + z + [1] + f
  {
    assert a + ([1] + z + [1]) == a + [1] + z + [1];
  }

  lemma OnesAndZerosBits(z: nat)
    requires z >= 1
    ensures BitsOf(OnesAndZeros(z)) == [1] + Zeros(8 * z - 2) + [1]
  {
    ByteBits();
    if z == 1 {
      BitsOfByte(0x81);
      assert OnesAndZeros(1) == [0x81];
    } else {
      PaddingBytes(z);
      hide OnesAndZeros, Fixed, BitsOf;
      LongPadding(z - 2);
    }
  }

  lemma PaddingBytes(z: nat)
    requires z >= 2
    ensures OnesAndZeros(z) == ([0x80] + seq(z - 2, _ => 0)) + [1]
  {
  }

  lemma LongPadding(n: nat)
    ensures BitsOf(([0x80] + seq(n, _ => 0)) + [1]) == [1] + Zeros(8 * n + 14) + [1]
  {
    var middle: seq<u8> := seq(n, _ => 0);
    ByteBits();
    BitsOfByte(0x80);
    BitsOfByte(1);
    hide BitsOf, Fixed;
    BitsOfZeros(n);
    assert middle == Zeros(n);
    BitsConcat([0x80] + middle, [1]);
    BitsConcat([0x80], middle);
    MoreZeros(n);
  }

  lemma MoreZeros(n: nat)
    ensures [1] + Zeros(7) + Zeros(8 * n) + (Zeros(7) + [1]) == [1] + Zeros(8 * n + 14) + [1]
  {
    assert Zeros(7) + Zeros(8 * n) + Zeros(7) == Zeros(8 * n + 14);
  }

  lemma ByteBits()
    ensures Fixed(2, 8, 0x80) == [1] + Zeros(7) && Fixed(2, 8, 1) == Zeros(7) + [1]
    ensures Fixed(2, 8, 0x81) == [1] + Zeros(6) + [1]
  {
  }

  lemma Be64Bits(v: u64)
    ensures BitsOf(Be64(v)) == Fixed(2, 64, v)
  {
    hide Be64, BitsOf;
    Be64Is(v);
    BitsNumber(Be64(v));
    FixedOfNum(2, BitsOf(Be64(v)));
  }
}

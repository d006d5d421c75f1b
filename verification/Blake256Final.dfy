/** Finishing a BLAKE-256 stream: the padding calls of blake256_Final feed the blocks of the definition. */
module Blake256Final {
  import opened Arith
  import opened Words
  import opened BigEndian
  import opened Blake256Spec
  import opened Blake256

  /** The padding table. */
  function Padding(): (s: seq<u8>)
    ensures |s| == 129
  {
    seq(129, i => if i == 0 then 0x80 else 0)
  }

  /** S->t[0] -= n */
  function Rewound(st: State, n: int): State { st.(t0 := W32(st.t0 - n)) }

  /** msglen: the bit count with the buffered bytes included. */
  function LengthField(st: State): (s: seq<u8>)
    ensures |s| == 8
  {
    var lo := W32(st.t0 + 8 * |st.buf|);
    var hi := if lo < 8 * |st.buf| then W32(st.t1 + 1) else st.t1;
    Be32(hi) + Be32(lo)
  }

  /** The padding calls up to byte 56 of the last block. */
  function PaddedTo56(c: Compression, st: State): (r: State)
    requires |st.buf| < 64
    ensures |r.buf| == 56
  {
    var b := |st.buf|;
    if b == 55 then Updated(c, Rewound(st, 8), [0x81])
    else
      var r :=
        if b < 55 then
          var first := if b == 0 then st.(nullt := true) else st;
          Updated(c, Rewound(first, 440 - 8 * b), Padding()[..55 - b])
        else
          var first := Updated(c, Rewound(st, 512 - 8 * b), Padding()[..64 - b]);
          Updated(c, Rewound(first, 440), Padding()[1..56]).(nullt := true);
      Rewound(Updated(c, r, [0x01]), 8)
  }

  /** The state at the end of blake256_Final. */
  function Finished(c: Compression, st: State): State
    requires |st.buf| < 64
  {
    Updated(c, Rewound(PaddedTo56(c, st), 64), LengthField(st))
  }

  lemma OneBlock(c: Compression, st: State, input: seq<u8>)
    requires |st.buf| + |input| == 64 && |st.buf| < 64
    ensures Updated(c, st, input) == Absorb(c, st, st.buf + input)
  {
    hide Absorb;
    var fill := 64 - |st.buf|;
    assert input[..fill] == input && input[fill..] == [];
    var r := Absorb(c, st, st.buf + input);
    assert Updated(c, r, []) == r.(buf := r.buf + []) == r;
  }

  /** The rewinds before the last block leave the counter at the message bits, and no word wraps to 0. */
  lemma Rewinds(t0: u32, b: nat)
    requires t0 % 512 == 0 && b < 64
    ensures t0 + 8 * b < 0x1_0000_0000
    ensures b <= 55 ==> W32(W32(W32(W32(t0 - (440 - 8 * b)) - 8) - 64) + 512) == t0 + 8 * b
    ensures b == 55 ==> W32(W32(W32(t0 - 8) - 64) + 512) == t0 + 8 * b
    ensures b > 55 ==> W32(W32(t0 - (512 - 8 * b)) + 512) == t0 + 8 * b
    ensures b > 0 ==> t0 + 8 * b != 0
  {
    hide W32;
    RewindAndCount(t0, 440 - 8 * b + 8 + 64, t0 - (440 - 8 * b), -8, -64);
    RewindAndCount(t0, 8 + 64, t0 - 8, -64, 0);
    RewindAndCount(t0, 512 - 8 * b, t0 - (512 - 8 * b), 0, 0);
    assert t0 <= 0x1_0000_0000 - 512;
  }

  lemma WrapAdd(x: int, y: int)
    ensures W32(W32(x) + y) == W32(x + y)
  {
  }

  lemma RewindAndCount(t0: u32, n: int, a: int, b: int, c: int)
    requires a + b + c == t0 - n
    ensures W32(W32(W32(W32(a) + b) + c) + 512) == W32(W32(W32(a) + b + c) + 512) == W32(t0 - n + 512)
    ensures W32(W32(a) + b + c + 512) == W32(t0 - n + 512)
  {
    hide W32;
    WrapAdd(a, b);
    WrapAdd(a + b, c);
    WrapAdd(a + b + c, 512);
    WrapAdd(a, b + c);
    WrapAdd(a, b + c + 512);
  }

  lemma LengthIs(st: State)
    requires st.t0 % 512 == 0 && |st.buf| < 64
    ensures st.t0 + 8 * |st.buf| < 0x1_0000_0000
    ensures LengthField(st) == Be32(st.t1) + Be32(st.t0 + 8 * |st.buf|)
  {
    hide W32, Be32;
    Room(st.t0, st.t0 / 512, |st.buf|);
  }

  lemma Room(t0: u32, q: int, b: nat)
    requires t0 % 512 == 0 && q == t0 / 512 && b < 64
    ensures t0 + 8 * b < 0x1_0000_0000
  {
    assert t0 == 512 * q && q < 0x80_0000;
  }

  lemma OneBit(b: nat)
    requires b < 55
    ensures Padding()[..55 - b] + [0x01] == OnesAndZeros(56 - b)
  {
  }

  lemma TwoPieces(b: nat)
    requires 55 < b < 64
    ensures Padding()[..64 - b] == OnesAndZeros(120 - b)[..64 - b]
    ensures Padding()[1..56] + [0x01] == OnesAndZeros(120 - b)[64 - b..]
  {
  }

  /** One block, with message bits in it. */
  lemma FinishShort(c: Compression, st: State)
    requires 0 < |st.buf| <= 55 && !st.nullt && st.t0 % 512 == 0
    ensures st.t0 + 8 * |st.buf| < 0x1_0000_0000
    ensures Finished(c, st).h == c(st.h, st.buf + OnesAndZeros(56 - |st.buf|) + LengthField(st),
                                   st.t0 + 8 * |st.buf|, st.t1)
  {
    var b := |st.buf|;
    Rewinds(st.t0, b);
    PaddedShort(c, st);
    hide PaddedTo56, LengthField, OnesAndZeros, Updated, W32;
    OneBlock(c, Rewound(PaddedTo56(c, st), 64), LengthField(st));
  }

  lemma PaddedShort(c: Compression, st: State)
    requires |st.buf| <= 55
    ensures var r, b := PaddedTo56(c, st), |st.buf|;
            && r.h == st.h && r.t1 == st.t1 && r.nullt == (st.nullt || b == 0)
            && r.t0 == (if b == 55 then W32(st.t0 - 8) else W32(W32(st.t0 - (440 - 8 * b)) - 8))
            && r.buf == st.buf + OnesAndZeros(56 - b)
  {
    var b := |st.buf|;
    if b < 55 {
      OneBit(b);
      assert PaddedTo56(c, st).buf == st.buf + Padding()[..55 - b] + [0x01] == st.buf + OnesAndZeros(56 - b);
    } else {
      assert [0x81] == OnesAndZeros(1);
    }
  }

  /** One block without message bits. */
  lemma FinishEmpty(c: Compression, st: State)
    requires |st.buf| == 0 && !st.nullt
    ensures Finished(c, st).h == c(st.h, st.buf + OnesAndZeros(56) + LengthField(st), 0, 0)
  {
    PaddedShort(c, st);
    hide PaddedTo56, LengthField, OnesAndZeros, Updated;
    OneBlock(c, Rewound(PaddedTo56(c, st), 64), LengthField(st));
  }

  /** Two blocks, of which the second has no message bits. */
  lemma FinishLong(c: Compression, st: State)
    requires 55 < |st.buf| < 64 && !st.nullt && st.t0 % 512 == 0
    ensures st.t0 + 8 * |st.buf| < 0x1_0000_0000
    ensures var pad := OnesAndZeros(120 - |st.buf|);
            Finished(c, st).h == c(c(st.h, st.buf + pad[..64 - |st.buf|], st.t0 + 8 * |st.buf|, st.t1),
                                   pad[64 - |st.buf|..] + LengthField(st), 0, 0)
  {
    var b := |st.buf|;
    Rewinds(st.t0, b);
    TwoPieces(b);
    var first := Updated(c, Rewound(st, 512 - 8 * b), Padding()[..64 - b]);
    OneBlock(c, Rewound(st, 512 - 8 * b), Padding()[..64 - b]);
    var r := PaddedTo56(c, st);
    assert r.buf == [] + Padding()[1..56] + [0x01] == Padding()[1..56] + [0x01];
    OneBlock(c, Rewound(r, 64), LengthField(st));
  }

  /** The counter words after one more block. */
  lemma NextCounter(x: nat)
    requires x + 512 < 0x1_0000_0000_0000_0000 && x % 512 == 0
    ensures var t0 := W32(x % 0x1_0000_0000 + 512);
            && t0 == (x + 512) % 0x1_0000_0000
            && (if t0 == 0 then W32(x / 0x1_0000_0000 + 1) else x / 0x1_0000_0000) == (x + 512) / 0x1_0000_0000
  {
  }

  /** The state after k full blocks of the message. */
  function AtBlock(c: Compression, m: seq<u8>, k: nat): State
    requires 8 * |m| < 0x1_0000_0000_0000_0000 && 64 * k <= |m|
  {
    State(Chained(c, m, k), 512 * k % 0x1_0000_0000, 512 * k / 0x1_0000_0000, false, [])
  }

  lemma {:induction false} BlocksBefore(c: Compression, m: seq<u8>, k: nat)
    requires 8 * |m| < 0x1_0000_0000_0000_0000 && 64 * k <= |m|
    ensures Updated(c, INIT, m[..64 * k]) == AtBlock(c, m, k)
  {
    hide Absorb, Chained, Padded;
    if k == 0 {
      StartsAtInitial(c, m);
    } else {
      BlocksBefore(c, m, k - 1);
      var front, block := m[..64 * (k - 1)], m[64 * (k - 1)..64 * k];
      assert m[..64 * k] == front + block;
      SplitInvariant(c, INIT, front, block);
      assert [] + block == block;
      OneBlock(c, AtBlock(c, m, k - 1), block);
      NextBlock(c, m, k);
    }
  }

  lemma StartsAtInitial(c: Compression, m: seq<u8>)
    requires 8 * |m| < 0x1_0000_0000_0000_0000
    ensures AtBlock(c, m, 0) == INIT
  {
  }

  lemma NextBlock(c: Compression, m: seq<u8>, k: nat)
    requires 8 * |m| < 0x1_0000_0000_0000_0000 && 0 < k && 64 * k <= |m|
    ensures Absorb(c, AtBlock(c, m, k - 1), m[64 * (k - 1)..64 * k]) == AtBlock(c, m, k)
  {
    NextCounter(512 * (k - 1));
    hide W32;
    assert m[64 * (k - 1)..64 * k] == Padded(m)[64 * (k - 1)..64 * k];
  }

  lemma Step(c: Compression, m: seq<u8>, i: nat, block: Block, lo: u32, hi: u32)
    requires 8 * |m| < 0x1_0000_0000_0000_0000 && 64 * i + 64 <= |Padded(m)|
    requires block == Padded(m)[64 * i..64 * (i + 1)]
    requires lo + 0x1_0000_0000 * hi == Counter(|m|, i)
    ensures Chained(c, m, i + 1) == c(Chained(c, m, i), block, lo, hi)
  {
    DivModUnique(Counter(|m|, i), 0x1_0000_0000, hi, lo);
    hide Padded, Counter;
  }

  lemma PadLengthIs(k: nat, b: nat)
    requires b < 64
    ensures PadLength(64 * k + b) == if b < 56 then 56 - b else 120 - b
  {
    DivModUnique(64 * k + b, 64, k, b);
  }

  lemma LastBlockAt(c: Compression, m: seq<u8>, n: nat)
    requires 8 * |m| < 0x1_0000_0000_0000_0000 && |Padded(m)| == 64 * n
    ensures Hash(c, m) == Output(Chained(c, m, n))
  {
  }

  lemma LastSlice(m: seq<u8>, pad: seq<u8>, len: seq<u8>, k: nat)
    requires 64 * k <= |m| && |m| + |pad| + |len| == 64 * (k + 1)
    ensures (m + pad + len)[64 * k..64 * (k + 1)] == m[64 * k..] + pad + len
  {
  }

  lemma LastSlices(m: seq<u8>, pad: seq<u8>, len: seq<u8>, k: nat, n: nat)
    requires 64 * k <= |m| && n <= |pad| && |m| + n == 64 * (k + 1) && |pad| - n + |len| == 64
    ensures (m + pad + len)[64 * k..64 * (k + 1)] == m[64 * k..] + pad[..n]
    ensures (m + pad + len)[64 * (k + 1)..64 * (k + 2)] == pad[n..] + len
  {
  }

  /** The definition's last block, when padding and length fit behind the message bytes. */
  lemma LastShort(c: Compression, m: seq<u8>, k: nat, b: nat, lo: u32, hi: u32)
    requires 8 * |m| < 0x1_0000_0000_0000_0000 && |m| == 64 * k + b && b <= 55
    requires lo + 0x1_0000_0000 * hi == if b == 0 then 0 else 8 * |m|
    ensures Hash(c, m) == Output(c(Chained(c, m, k), m[64 * k..] + OnesAndZeros(56 - b) + Be64(8 * |m|), lo, hi))
  {
    hide Be64, OnesAndZeros, Output, Chained, PadLength;
    PadLengthIs(k, b);
    var pad, len := OnesAndZeros(56 - b), Be64(8 * |m|);
    assert Padded(m) == m + pad + len;
    hide Padded, Hash;
    LastSlice(m, pad, len, k);
    LastBlockAt(c, m, k + 1);
    var block: Block := m[64 * k..] + pad + len;
    Step(c, m, k, block, lo, hi);
  }

  lemma LastLong(c: Compression, m: seq<u8>, k: nat, b: nat, lo: u32, hi: u32)
    requires 8 * |m| < 0x1_0000_0000_0000_0000 && |m| == 64 * k + b && 55 < b < 64
    requires lo + 0x1_0000_0000 * hi == 8 * |m|
    ensures var pad := OnesAndZeros(120 - b);
            Hash(c, m) == Output(c(c(Chained(c, m, k), m[64 * k..] + pad[..64 - b], lo, hi),
                                   pad[64 - b..] + Be64(8 * |m|), 0, 0))
  {
    hide Be64, OnesAndZeros, Output, Chained, PadLength;
    PadLengthIs(k, b);
    var pad, len := OnesAndZeros(120 - b), Be64(8 * |m|);
    assert Padded(m) == m + pad + len;
    hide Padded, Hash;
    LastSlices(m, pad, len, k, 64 - b);
    LastBlockAt(c, m, k + 2);
    var first: Block, second: Block := m[64 * k..] + pad[..64 - b], pad[64 - b..] + len;
    Step(c, m, k, first, lo, hi);
    Step(c, m, k + 1, second, 0, 0);
  }

  /** The words of the length field after k full blocks and b more bytes. */
  lemma LengthFieldIs(st: State, k: nat, b: nat)
    requires b == |st.buf| < 64 && st.t0 + 0x1_0000_0000 * st.t1 == 512 * k
    requires 8 * (64 * k + b) < 0x1_0000_0000_0000_0000
    ensures st.t0 % 512 == 0 && st.t0 + 8 * b < 0x1_0000_0000
    ensures LengthField(st) == Be64(8 * (64 * k + b))
  {
    assert st.t0 == 512 * (k - st.t1 * 0x80_0000);
    LengthIs(st);
    DivModUnique(8 * (64 * k + b), 0x1_0000_0000, st.t1, st.t0 + 8 * b);
  }

  /** The state once m is in: k full blocks are compressed and b bytes are buffered. */
  ghost predicate Holds(c: Compression, m: seq<u8>, st: State, k: nat, b: nat) {
    && 8 * |m| < 0x1_0000_0000_0000_0000 && |m| == 64 * k + b && b < 64
    && st.h == Chained(c, m, k) && st.buf == m[64 * k..] && !st.nullt
    && st.t0 % 512 == 0 && st.t0 + 8 * b < 0x1_0000_0000
    && st.t0 + 8 * b + 0x1_0000_0000 * st.t1 == 8 * |m|
    && LengthField(st) == Be64(8 * |m|)
  }

  lemma AfterMessage(c: Compression, m: seq<u8>, k: nat, b: nat)
    requires 8 * |m| < 0x1_0000_0000_0000_0000 && |m| == 64 * k + b && b < 64
    ensures Holds(c, m, Updated(c, INIT, m), k, b)
  {
    hide Absorb, Chained, Padded, Updated, LengthField, Be64;
    StateAfter(c, m, k);
    BlockWords(c, m, k);
    LengthFieldIs(Updated(c, INIT, m), k, b);
  }

  lemma StateAfter(c: Compression, m: seq<u8>, k: nat)
    requires 8 * |m| < 0x1_0000_0000_0000_0000 && 64 * k <= |m| < 64 * k + 64
    ensures Updated(c, INIT, m) == AtBlock(c, m, k).(buf := m[64 * k..])
  {
    hide Absorb, Chained, Padded, Updated;
    var tail := m[64 * k..];
    assert m == m[..64 * k] + tail;
    BlocksBefore(c, m, k);
    SplitInvariant(c, INIT, m[..64 * k], tail);
    hide AtBlock;
    Keeps(c, AtBlock(c, m, k), tail);
    assert [] + tail == tail;
  }

  lemma BlockWords(c: Compression, m: seq<u8>, k: nat)
    requires 8 * |m| < 0x1_0000_0000_0000_0000 && 64 * k <= |m|
    ensures var s := AtBlock(c, m, k);
            s.h == Chained(c, m, k) && !s.nullt && s.buf == [] && s.t0 + 0x1_0000_0000 * s.t1 == 512 * k
  {
    hide Chained;
    DivMod(512 * k, 0x1_0000_0000);
  }

  lemma FinishedOne(c: Compression, m: seq<u8>, st: State, k: nat, b: nat)
    requires Holds(c, m, st, k, b) && b <= 55
    ensures Output(Finished(c, st).h) == Hash(c, m)
  {
    hide Finished, LengthField, Updated, Be64, OnesAndZeros, Output, Chained, Hash, Padded;
    if b == 0 {
      FinishEmpty(c, st);
      LastShort(c, m, k, b, 0, 0);
    } else {
      FinishShort(c, st);
      LastShort(c, m, k, b, st.t0 + 8 * b, st.t1);
    }
  }

  lemma FinishedTwo(c: Compression, m: seq<u8>, st: State, k: nat, b: nat)
    requires Holds(c, m, st, k, b) && b > 55
    ensures Output(Finished(c, st).h) == Hash(c, m)
  {
    hide Finished, LengthField, Updated, Be64, OnesAndZeros, Output, Chained, Hash, Padded;
    FinishLong(c, st);
    LastLong(c, m, k, b, st.t0 + 8 * b, st.t1);
  }

  /** blake256_Final after a message below 2^64 bits yields the hash of the message. */
  lemma FinishedIsHash(c: Compression, m: seq<u8>)
    requires 8 * |m| < 0x1_0000_0000_0000_0000
    ensures Output(Finished(c, Updated(c, INIT, m)).h) == Hash(c, m)
  {
    hide Finished, Chained, Hash, Padded, Updated;
    var k, b := |m| / 64, |m| % 64;
    AfterMessage(c, m, k, b);
    hide Holds;
    if b <= 55 {
      FinishedOne(c, m, Updated(c, INIT, m), k, b);
    } else {
      FinishedTwo(c, m, Updated(c, INIT, m), k, b);
    }
  }
}

/** The streaming hasher of blake256.c. */
module Blake256 {
  import opened Words
  import opened Blake256Spec

  /** What the context holds: chain value, counter words, null flag and the buffered bytes. */
  datatype State = State(h: Chain, t0: u32, t1: u32, nullt: bool, buf: seq<u8>)

  const INIT := State(INITIAL, 0, 0, false, [])

  /** Counting and compressing one block. */
  function Absorb(c: Compression, st: State, block: Block): (r: State)
    ensures r.buf == []
  {
    var t0 := W32(st.t0 + 512);
    var t1 := if t0 == 0 then W32(st.t1 + 1) else st.t1;
    // a null counter leaves the compression function's initial state alone, as a zero counter does
    var h := if st.nullt then c(st.h, block, 0, 0) else c(st.h, block, t0, t1);
    State(h, t0, t1, st.nullt, [])
  }

  /** Taking in bytes: every full block is absorbed, the rest is kept. */
  function Updated(c: Compression, st: State, input: seq<u8>): (r: State)
    requires |st.buf| < 64
    ensures |r.buf| == (|st.buf| + |input|) % 64
    decreases |input|
  {
    var fill := 64 - |st.buf|;
    if |input| < fill then st.(buf := st.buf + input)
    else Updated(c, Absorb(c, st, st.buf + input[..fill]), input[fill..])
  }

  /** A buffer filled up is a block absorbed. */
  lemma Fills(c: Compression, st: State, input: seq<u8>, fill: nat)
    requires fill == 64 - |st.buf| <= |input| && fill > 0
    ensures Updated(c, st, input) == Updated(c, Absorb(c, st.(buf := []), st.buf + input[..fill]), input[fill..])
  {
    BufferReplaced(c, st, [], st.buf + input[..fill]);
  }

  lemma Keeps(c: Compression, st: State, input: seq<u8>)
    requires |st.buf| + |input| < 64
    ensures Updated(c, st, input) == st.(buf := st.buf + input)
  {
  }

  /** Cutting the input into two calls makes no difference. */
  lemma {:induction false} SplitInvariant(c: Compression, st: State, a: seq<u8>, b: seq<u8>)
    requires |st.buf| < 64
    ensures Updated(c, Updated(c, st, a), b) == Updated(c, st, a + b)
    decreases |a|
  {
    hide Absorb;
    var fill := 64 - |st.buf|;
    if |a| < fill {
      if |a| + |b| >= fill {
        var rest := fill - |a|;
        assert (st.buf + a) + b[..rest] == st.buf + (a + b)[..fill];
        assert b[rest..] == (a + b)[fill..];
        BufferReplaced(c, st, st.buf + a, st.buf + (a + b)[..fill]);
      } else {
        assert (st.buf + a) + b == st.buf + (a + b);
      }
    } else {
      assert (a + b)[..fill] == a[..fill] && (a + b)[fill..] == a[fill..] + b;
      SplitInvariant(c, Absorb(c, st, st.buf + a[..fill]), a[fill..], b);
    }
  }

  lemma BufferReplaced(c: Compression, st: State, buf: seq<u8>, block: Block)
    ensures Absorb(c, st.(buf := buf), block) == Absorb(c, st, block)
  {
  }

  /** Any cut at all: a sequence of calls is one call on the concatenation. */
  function UpdatedAll(c: Compression, st: State, parts: seq<seq<u8>>): (r: State)
    requires |st.buf| < 64
    ensures |r.buf| < 64
    decreases |parts|
  {
    if parts == [] then st else UpdatedAll(c, Updated(c, st, parts[0]), parts[1..])
  }

  function Flat(parts: seq<seq<u8>>): seq<u8> {
    if parts == [] then [] else parts[0] + Flat(parts[1..])
  }

  lemma {:induction false} AnyCut(c: Compression, st: State, parts: seq<seq<u8>>)
    requires |st.buf| < 64
    ensures UpdatedAll(c, st, parts) == Updated(c, st, Flat(parts))
    decreases |parts|
  {
    if parts == [] {
      assert st.buf + [] == st.buf;
    } else {
      AnyCut(c, Updated(c, st, parts[0]), parts[1..]);
      SplitInvariant(c, st, parts[0], Flat(parts[1..]));
    }
  }

  function Bits(st: State): nat { st.t0 + 0x1_0000_0000 * st.t1 }

  function FullBlocks(n: nat): nat { n / 64 }

  /** The two counter words count 512 bits for every compressed block, modulo 2^64. */
  lemma {:induction false} CountsBlocks(c: Compression, st: State, input: seq<u8>)
    requires |st.buf| < 64 && st.t0 % 512 == 0
    ensures var r := Updated(c, st, input);
            r.t0 % 512 == 0 &&
            Bits(r) == W64(Bits(st) + 512 * FullBlocks(|st.buf| + |input|))
    decreases |input|
  {
    hide Absorb, Bits, W64, FullBlocks;
    var fill, n := 64 - |st.buf|, |st.buf| + |input|;
    if |input| < fill {
      CountsNone(st, st.buf + input, n);
    } else {
      var next := Absorb(c, st, st.buf + input[..fill]);
      CountsOne(c, st, st.buf + input[..fill]);
      CountsBlocks(c, next, input[fill..]);
      AddWraps(Bits(st) + 512, 512 * FullBlocks(n - 64));
      OneMore(n);
    }
  }

  lemma OneMore(n: nat)
    requires n >= 64
    ensures FullBlocks(n) == 1 + FullBlocks(n - 64)
  {
  }

  lemma CountsNone(st: State, buf: seq<u8>, n: nat)
    requires n < 64
    ensures Bits(st.(buf := buf)) == W64(Bits(st) + 512 * FullBlocks(n))
  {
  }

  lemma CountsOne(c: Compression, st: State, block: Block)
    requires st.t0 % 512 == 0
    ensures var r := Absorb(c, st, block);
            r.t0 % 512 == 0 && Bits(r) == W64(Bits(st) + 512)
  {
  }

  lemma AddWraps(a: nat, b: nat)
    ensures W64(W64(a) + b) == W64(a + b)
  {
  }
}

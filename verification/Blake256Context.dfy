/** The hashing context of blake256.c and the calls on it. */
module Blake256Context {
  import opened Words
  import opened Digits
  import opened BigEndian
  import opened Blake256Spec
  import opened Blake256
  import opened Blake256Final

  class Context {
    const compress: Compression
    const buf: array<u8>
    var h: Chain
    var t0: u32
    var t1: u32
    var buflen: nat
    var nullt: bool
    ghost var message: seq<u8>  // everything taken in since blake256_Init

    ghost predicate Sized()
      reads this, buf
    {
      buf.Length == 64 && buflen < 64
    }

    ghost function Contents(): State
      reads this, buf
      requires Sized()
    {
      State(h, t0, t1, nullt, buf[..buflen])
    }

    /** The context is where one single call with the whole message would have brought it. */
    ghost predicate Valid()
      reads this, buf
    {
      Sized() && Contents() == Updated(compress, INIT, message)
    }

    // blake256_Init
    constructor (compress: Compression)
      ensures Valid() && fresh(buf) && message == [] && this.compress == compress
    {
      this.compress := compress;
      h := INITIAL;
      t0, t1, buflen, nullt := 0, 0, 0, false;
      buf := new u8[64](_ => 0);
      message := [];
    }

    // t += 512, then blake256_compress
    method CountAndCompress(block: Block)
      modifies `h, `t0, `t1
      ensures State(h, t0, t1, nullt, []) == Absorb(compress, old(State(h, t0, t1, nullt, [])), block)
    {
      t0 := W32(t0 + 512);
      if t0 == 0 {
        t1 := W32(t1 + 1);
      }
      h := if nullt then compress(h, block, 0, 0) else compress(h, block, t0, t1);
    }

    // the loop of blake256_Update over whole blocks of the input
    method FeedBlocks(input: seq<u8>) returns (rest: seq<u8>)
      modifies `h, `t0, `t1
      ensures |rest| < 64 && nullt == old(nullt)
      ensures |input| < 64 ==> rest == input && h == old(h) && t0 == old(t0) && t1 == old(t1)
      ensures Updated(compress, State(h, t0, t1, nullt, []), rest)
           == Updated(compress, old(State(h, t0, t1, nullt, [])), input)
    {
      hide Updated, Absorb;
      rest := input;
      while |rest| >= 64
        invariant |input| < 64 ==> rest == input && h == old(h) && t0 == old(t0) && t1 == old(t1)
        invariant Updated(compress, State(h, t0, t1, nullt, []), rest)
               == Updated(compress, old(State(h, t0, t1, nullt, [])), input)
      {
        Fills(compress, State(h, t0, t1, nullt, []), rest, 64);
        assert [] + rest[..64] == rest[..64];
        CountAndCompress(rest[..64]);
        rest := rest[64..];
      }
    }

    // the start of blake256_Update, where the buffered bytes become a block if the input fills it up
    method FillUp(input: seq<u8>) returns (left: nat, rest: seq<u8>)
      requires Sized()
      modifies `h, `t0, `t1, buf
      ensures left < 64 && (left == 0 || left + |rest| < 64)
      ensures Updated(compress, State(h, t0, t1, nullt, buf[..left]), rest)
           == Updated(compress, old(Contents()), input)
    {
      hide Updated, Absorb;
      ghost var start := Contents();
      left, rest := buflen, input;
      var fill := 64 - left;
      if left != 0 && |input| >= fill {
        forall k | 0 <= k < fill {
          buf[left + k] := input[k];
        }
        assert buf[..] == start.buf + input[..fill];
        Fills(compress, start, input, fill);
        CountAndCompress(buf[..]);
        left, rest := 0, input[fill..];
        assert buf[..left] == [];
      }
    }

    // the end of blake256_Update, where bytes are buffered
    method Keep(left: nat, rest: seq<u8>)
      requires buf.Length == 64 && left + |rest| < 64
      modifies `buflen, buf
      ensures Sized() && buflen == left + |rest| && buf[..buflen] == old(buf[..left]) + rest
    {
      forall k | 0 <= k < |rest| {
        buf[left + k] := rest[k];
      }
      buflen := left + |rest|;
    }

    // blake256_Update on any context, also one that blake256_Final has rewound
    method Feed(input: seq<u8>)
      requires Sized()
      modifies this, buf
      ensures Sized() && Contents() == Updated(compress, old(Contents()), input)
      ensures message == old(message)
    {
      hide Updated, Absorb;
      var left, rest := FillUp(input);
      ghost var kept := buf[..left];
      assert left == 0 ==> kept == [];
      rest := FeedBlocks(rest);
      Keeps(compress, State(h, t0, t1, nullt, kept), rest);
      Keep(left, rest);
    }

    // blake256_Update
    method Update(input: seq<u8>)
      requires Valid()
      modifies this, buf
      ensures Valid() && message == old(message) + input
      ensures Contents() == Updated(compress, old(Contents()), input)
    {
      Feed(input);
      SplitInvariant(compress, INIT, message, input);
      message := message + input;
    }

    // S->t[0] -= n
    method Rewind(n: int)
      requires Sized()
      modifies `t0
      ensures Sized() && Contents() == Rewound(old(Contents()), n)
    {
      t0 := W32(t0 - n);
    }

    // S->t[0] -= n, then blake256_Update
    method RewindAndFeed(n: int, input: seq<u8>)
      requires Sized()
      modifies this, buf
      ensures Sized() && Contents() == Updated(compress, Rewound(old(Contents()), n), input)
      ensures message == old(message)
    {
      Rewind(n);
      Feed(input);
    }

    // the padding calls of blake256_Final up to byte 56 of the last block
    method PadTo56()
      requires Sized()
      modifies this, buf
      ensures Sized() && Contents() == PaddedTo56(compress, old(Contents())) && message == old(message)
    {
      hide Updated, Rewound, Padding;
      if buflen == 55 {
        RewindAndFeed(8, [0x81]);
      } else {
        if buflen < 55 {
          if buflen == 0 {
            nullt := true;
          }
          RewindAndFeed(440 - 8 * buflen, Padding()[..55 - buflen]);
        } else {
          RewindAndFeed(512 - 8 * buflen, Padding()[..64 - buflen]);
          RewindAndFeed(440, Padding()[1..56]);
          nullt := true;
        }
        Feed([0x01]);
        Rewind(8);
      }
    }

    // blake256_Final after a message below 2^64 bits
    method Final() returns (out: seq<u8>)
      requires Valid() && 8 * |message| < 0x1_0000_0000_0000_0000
      modifies this, buf
      ensures out == Hash(compress, old(message)) && |out| == 32
      ensures Num(256, out)
           == Num(0x1_0000_0000, Chained(compress, old(message), |Padded(old(message))| / 64))
    {
      hide Updated, Output, Hash, PaddedTo56, Num, Padded, Chained;
      HashIs(compress, message);
      ghost var start := Contents();
      FinishedIsHash(compress, message);
      var lo := W32(t0 + 8 * buflen);
      var hi: u32 := t1;
      if lo < 8 * buflen {
        hi := W32(t1 + 1);
      }
      var msglen := Be32(hi) + Be32(lo);
      assert msglen == LengthField(start);
      PadTo56();
      RewindAndFeed(64, msglen);
      out := Output(h);
    }
  }

  // blake256
  method HashOf(c: Compression, input: seq<u8>) returns (out: seq<u8>)
    requires 8 * |input| < 0x1_0000_0000_0000_0000
    ensures out == Hash(c, input) && |out| == 32
    ensures Num(256, out) == Num(0x1_0000_0000, Chained(c, input, |Padded(input)| / 64))
  {
    hide Num, Padded, Chained, Hash;
    var s := new Context(c);
    s.Update(input);
    assert [] + input == input;
    out := s.Final();
  }
}

/** Hash functions with 32-byte digests, as arbitrary functions. */
module Hashes {
  import opened Words

  type Digest = d: seq<u8> | |d| == 32 witness seq(32, _ => 0)
  type Hash = seq<u8> -> Digest
}

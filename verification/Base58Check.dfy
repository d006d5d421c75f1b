/** Base58Check of base58.c, for an arbitrary hash function. */
module Base58Check {
  import opened Words
  import opened Hashes
  import opened Base58Spec
  import opened Options
  import Base58C
  import Base58CDecode

  /** The payload with its four checksum bytes. */
  function WithChecksum(data: seq<u8>, hash: Hash): seq<u8> { data + hash(data)[..4] }

  predicate HasChecksum(bytes: seq<u8>, hash: Hash) {
    |bytes| >= 4 && bytes[|bytes| - 4..] == hash(bytes[..|bytes| - 4])[..4]
  }

  /** The payload of a checked text. */
  function Payload(s: seq<u8>, hash: Hash): Option<seq<u8>> {
    if Decode(s).Some? && HasChecksum(Decode(s).value, hash) then
      Some(Decode(s).value[..|Decode(s).value| - 4])
    else None
  }

  /** The payload is what stands before its own hash's first four bytes. */
  lemma PayloadIs(s: seq<u8>, hash: Hash, data: seq<u8>)
    ensures Payload(s, hash) == Some(data) <==> Decode(s) == Some(data + hash(data)[..4])
  {
    hide Decode;
    var bytes := data + hash(data)[..4];
    assert bytes[|bytes| - 4..] == hash(data)[..4] && bytes[..|bytes| - 4] == data;
    if Payload(s, hash) == Some(data) {
      var v := Decode(s).value;
      assert v == v[..|v| - 4] + v[|v| - 4..];
    }
  }

  /** Some byte is not zero or not matched by a leading one, so that a count of both ends inside the buffer. */
  predicate StaysInside(bytes: seq<u8>, s: seq<u8>, hash: Hash) {
    HasChecksum(bytes, hash) ==> Leading(bytes, 0) < |bytes| || Leading(s, ONE) < |bytes|
  }

  /** What a read at i finds: a byte of the buffer, or whatever stands behind it in memory. */
  function ByteAt(bytes: seq<u8>, beyond: nat -> u8, i: nat): u8 {
    if i < |bytes| then bytes[i] else beyond(i - |bytes|)
  }

  /** As many zero bytes as leading ones, counted in memory. */
  ghost predicate ZerosMatch(bytes: seq<u8>, beyond: nat -> u8, s: seq<u8>) {
    && (forall j :: 0 <= j < Leading(s, ONE) ==> ByteAt(bytes, beyond, j) == 0)
    && ByteAt(bytes, beyond, Leading(s, ONE)) != 0
  }

  // b58check; the end of the string reads as 0, beyond is the memory behind the buffer, and inside says whether no
  // byte of that memory was read
  method B58Check(bin: seq<u8>, base58str: seq<u8>, hash: Hash, beyond: nat -> u8) returns (r: int, ghost inside: bool)
    ensures r >= 0 <==> HasChecksum(bin, hash) && ZerosMatch(bin, beyond, base58str)
    ensures r >= 0 ==> bin != [] && r == bin[0]
    ensures r < 0 ==>
      r == if |bin| < 4 then -4 else if bin[|bin| - 4..] == hash(bin[..|bin| - 4])[..4] then -3 else -1
    ensures HasChecksum(bin, hash) <==> |bin| >= 4 && bin[|bin| - 4..] == hash(bin[..|bin| - 4])[..4]
    ensures inside <==> StaysInside(bin, base58str, hash)
  {
    inside := true;
    if |bin| < 4 {
      return -4, inside;
    }
    var buf := hash(bin[..|bin| - 4]);
    if bin[|bin| - 4..] != buf[..4] {
      return -1, inside;
    }
    var i := 0;
    while ByteAt(bin, beyond, i) == 0 && i < |base58str| && base58str[i] == ONE
      invariant 0 <= i <= |base58str|
      invariant forall k :: 0 <= k < i ==> ByteAt(bin, beyond, k) == 0 && base58str[k] == ONE
      invariant inside <==> i < |bin|
      decreases |base58str| - i
    {
      i := i + 1;
      inside := inside && i < |bin|;
    }
    LeadingAtLeast(base58str, ONE, i);
    assert forall k :: 0 <= k < i && k < |bin| ==> ByteAt(bin, beyond, k) == bin[k];
    LeadingAtLeast(bin, 0, if i < |bin| then i else |bin|);
    if ByteAt(bin, beyond, i) == 0 || (i < |base58str| && base58str[i] == ONE) {
      return -3, inside;
    }
    return bin[0], inside;
  }

  lemma LeadingAtLeast(s: seq<int>, v: int, n: nat)
    requires n <= |s| && forall k :: 0 <= k < n ==> s[k] == v
    ensures Leading(s, v) >= n
    ensures n < |s| ==> (Leading(s, v) == n <==> s[n] != v)
  {
    var l := Leading(s, v);
    assert l < |s| ==> s[l] != v;
    assert l > n ==> s[n] == v;
  }

  // base58_encode_check
  method EncodeCheck(data: seq<u8>, hash: Hash, str: array<u8>, strsize: nat) returns (r: nat)
    requires strsize <= str.Length
    modifies str
    ensures var text := Encode(data + hash(data)[..4]);
            && r == (if |data| <= 128 && |text| < strsize then |text| + 1 else 0)
            && (r > 0 ==> str[..] == text + [0] + old(str[r..]))
            && (r == 0 ==> str[..] == old(str[..]))
  {
    hide Encode;
    if |data| > 128 {
      return 0;
    }
    var buf := data + hash(data);
    assert buf[..|data| + 4] == WithChecksum(data, hash);
    var success, res := Base58C.B58Enc(str, strsize, buf[..|data| + 4]);
    return if success then res else 0;
  }

  /** Whether a text yields a payload of up to datalen bytes; for bytes that are all zero the next one decides. */
  ghost predicate Decodes(s: seq<u8>, hash: Hash, datalen: nat, beyond: nat -> u8) {
    && datalen <= 128 && Payload(s, hash).Some? && |Payload(s, hash).value| <= datalen
    && (Leading(Decode(s).value, 0) < |Decode(s).value| || beyond(0) != 0)
  }

  // base58_decode_check
  method DecodeCheck(str: seq<u8>, hash: Hash, data: array<u8>, datalen: nat, beyond: nat -> u8)
      returns (r: nat, ghost inside: bool)
    requires datalen <= data.Length && forall k :: 0 <= k < |str| ==> str[k] != 0
    modifies data
    ensures Decodes(str, hash, datalen, beyond) ==>
      r == |Payload(str, hash).value| && data[..] == Payload(str, hash).value + old(data[r..])
      && Decode(str) == Some(Payload(str, hash).value + hash(Payload(str, hash).value)[..4])
    ensures !Decodes(str, hash, datalen, beyond) ==> r == 0 && data[..] == old(data[..])
    ensures Decodes(str, hash, datalen, beyond) <==>
      && datalen <= 128 && Payload(str, hash).Some? && |Payload(str, hash).value| <= datalen
      && (Leading(Decode(str).value, 0) < |Decode(str).value| || beyond(0) != 0)
    ensures inside <==> (datalen <= 128 && Decode(str).Some? && |Decode(str).value| <= datalen + 4 ==>
                           StaysInside(Decode(str).value, str, hash))
  {
    if Payload(str, hash).Some? { PayloadIs(str, hash, Payload(str, hash).value); }
    hide Decode, Leading;
    inside := true;
    if datalen > 128 {
      return 0, inside;
    }
    var d := new u8[datalen + 4](_ => 0);
    var valid, res := Base58CDecode.B58ToBin(d, str);
    if !valid {
      return 0, inside;
    }
    var nd := d[datalen + 4 - res..];
    ZerosAndOnes(str, beyond);
    var checked;
    checked, inside := B58Check(nd, str, hash, beyond);
    if checked < 0 {
      return 0, inside;
    }
    forall i | 0 <= i < res - 4 {
      data[i] := nd[i];
    }
    return res - 4, inside;
  }

  /** The leading-zero check never rejects what b58tobin produced, unless only zeros are found in memory. */
  lemma ZerosAndOnes(s: seq<u8>, beyond: nat -> u8)
    ensures Decode(s).Some? ==>
      (ZerosMatch(Decode(s).value, beyond, s) <==>
        Leading(Decode(s).value, 0) < |Decode(s).value| || beyond(0) != 0)
  {
    if Decode(s).Some? {
      DecodeShape(s);
      hide Decode, Leading, ZerosMatch;
      MatchIs(Decode(s).value, beyond, s);
    }
  }

  lemma MatchIs(bytes: seq<u8>, beyond: nat -> u8, s: seq<u8>)
    requires Leading(bytes, 0) == Leading(s, ONE)
    ensures ZerosMatch(bytes, beyond, s) <==> Leading(bytes, 0) < |bytes| || beyond(0) != 0
  {
    var z := Leading(bytes, 0);
    assert forall j :: 0 <= j < z ==> ByteAt(bytes, beyond, j) == bytes[j] == 0;
    assert ByteAt(bytes, beyond, z) == if z < |bytes| then bytes[z] else beyond(0);
    hide Leading;
  }

  /** Decoding an honest encoding gives the payload back, whatever the hash function. */
  lemma PayloadOfEncoding(data: seq<u8>, hash: Hash)
    ensures Payload(Encode(WithChecksum(data, hash)), hash) == Some(data)
  {
    hide Decode, Encode;
    DecodeEncode(WithChecksum(data, hash));
    assert WithChecksum(data, hash)[..|data|] == data;
  }

  /** A text that decodes to a payload is the encoding of that payload: no second text is accepted. */
  lemma EncodingOfPayload(s: seq<u8>, hash: Hash)
    requires Payload(s, hash).Some?
    ensures s == Encode(WithChecksum(Payload(s, hash).value, hash))
  {
    hide Decode, Encode;
    EncodeDecode(s);
    var v := Decode(s).value;
    assert v == WithChecksum(v[..|v| - 4], hash);
  }

  /** An honest encoding makes b58check run past the buffer exactly when payload and checksum are all zero. */
  lemma HonestStaysInside(data: seq<u8>, hash: Hash)
    ensures var bytes := WithChecksum(data, hash);
            StaysInside(bytes, Encode(bytes), hash) <==> exists k :: 0 <= k < |bytes| && bytes[k] != 0
  {
    hide Encode;
    var bytes := WithChecksum(data, hash);
    EncodeShape(bytes);
    assert bytes[..|bytes| - 4] == data;
    var z := Leading(bytes, 0);
    assert z < |bytes| ==> bytes[z] != 0;
  }

  /** The byte 0 is such a payload for every hash that maps it to zeros. */
  lemma ZeroPayloadRunsOut(hash: Hash)
    requires forall k :: 0 <= k < 32 ==> hash([0])[k] == 0
    ensures var bytes := WithChecksum([0], hash); !StaysInside(bytes, Encode(bytes), hash)
  {
    HonestStaysInside([0], hash);
  }

  // encoding and then decoding with the same length
  method RoundTrip(data: seq<u8>, hash: Hash, str: array<u8>, out: array<u8>, beyond: nat -> u8)
      returns (r: nat, ghost inside: bool)
    requires 1 <= |data| <= 128 && |data| <= out.Length && str != out
    requires |Encode(WithChecksum(data, hash))| < str.Length
    modifies str, out
    ensures var bytes := WithChecksum(data, hash);
            if (exists k :: 0 <= k < |bytes| && bytes[k] != 0) || beyond(0) != 0
            then r == |data| && out[..|data|] == data else r == 0 && out[..] == old(out[..])
    ensures var bytes := WithChecksum(data, hash); inside <==> exists k :: 0 <= k < |bytes| && bytes[k] != 0
  {
    hide Encode, Payload;
    ghost var bytes := WithChecksum(data, hash);
    ghost var text := Encode(bytes);
    var n := EncodeCheck(data, hash, str, str.Length);
    assert str[..n - 1] == text;
    NoNul(bytes);
    PayloadOfEncoding(data, hash);
    DecodeEncode(bytes);
    NonzeroByte(bytes);
    HonestStaysInside(data, hash);
    r, inside := DecodeCheck(str[..n - 1], hash, out, |data|, beyond);
  }

  lemma NonzeroByte(bytes: seq<u8>)
    ensures Leading(bytes, 0) < |bytes| <==> exists k :: 0 <= k < |bytes| && bytes[k] != 0
  {
    var z := Leading(bytes, 0);
    assert z < |bytes| ==> bytes[z] != 0;
  }

  lemma NoNul(bytes: seq<u8>)
    ensures forall k :: 0 <= k < |Encode(bytes)| ==> Encode(bytes)[k] != 0
  {
    EncodeShape(bytes);
    assert DigitOf(0) == -1;
  }
}

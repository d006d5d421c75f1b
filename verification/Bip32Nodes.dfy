/** Extended private keys as values: the MACs, one derivation step, and what a whole path does to the key. */
module Bip32Nodes {
  import opened Arith
  import opened Limbs
  import opened Words
  import opened Digits
  import opened BitStrings
  import opened BigEndian
  import opened Options
  import opened Hashes
  import opened Bip32Path

  type Key = s: seq<u8> | |s| == 32 witness seq(32, _ => 0)
  type PublicKey = s: seq<u8> | |s| == 33 witness seq(33, _ => 0)
  type Mac = s: seq<u8> | |s| == 64 witness seq(64, _ => 0)

  /** HMAC-SHA512, the public key of a private key on a named curve, and the hashers, as arbitrary functions. */
  datatype Primitives = Primitives(
    hmac: (seq<u8>, seq<u8>) -> Mac,
    public: (seq<u8>, Key) -> Option<PublicKey>,
    digest: (nat, PublicKey) -> Digest)

  /** The number that the left half of a MAC stands for. */
  function Left(mac: Mac): int { Num(256, mac[..32]) }

  // ------------------------------------------------------------- master keys

  /** The MAC after k rejected ones. */
  function SeedMac(p: Primitives, name: seq<u8>, seed: seq<u8>, k: nat): Mac {
    if k == 0 then p.hmac(name, seed) else p.hmac(name, SeedMac(p, name, seed, k - 1))
  }

  predicate GoodSeedMac(mac: Mac, n: int) { 1 <= Left(mac) < n }

  /** Attempt k is the first one that is accepted. */
  ghost predicate FirstGoodSeed(p: Primitives, name: seq<u8>, seed: seq<u8>, n: int, k: nat) {
    GoodSeedMac(SeedMac(p, name, seed, k), n) && NoGoodSeed(p, name, seed, n, k)
  }

  ghost predicate NoGoodSeed(p: Primitives, name: seq<u8>, seed: seq<u8>, n: int, k: nat) {
    forall j: nat :: j < k ==> !GoodSeedMac(SeedMac(p, name, seed, j), n)
  }

  // -------------------------------------------------------------- child keys

  function ZeroKey(): Key { seq(32, _ => 0) }

  predicate Hardened(i: u32) { i >= 0x8000_0000 }

  /** The MAC for child i after k rejected ones, from the first 33 bytes of data. */
  function ChildMac(p: Primitives, chainCode: Key, head: PublicKey, i: u32, k: nat): Mac {
    if k == 0 then p.hmac(chainCode, head + Be32(i))
    else p.hmac(chainCode, [1] + ChildMac(p, chainCode, head, i, k - 1)[32..] + Be32(i))
  }

  predicate GoodChildMac(mac: Mac, parent: int, n: int)
    requires n > 0
  {
    Left(mac) < n && (Left(mac) + parent) % n != 0
  }

  /** Attempt k is the first one that is accepted. */
  ghost predicate FirstGood(p: Primitives, chainCode: Key, head: PublicKey, i: u32, parent: int, n: int, k: nat)
    requires n > 0
  {
    && GoodChildMac(ChildMac(p, chainCode, head, i, k), parent, n)
    && NoneGood(p, chainCode, head, i, parent, n, k)
  }

  ghost predicate NoneGood(p: Primitives, chainCode: Key, head: PublicKey, i: u32, parent: int, n: int, k: nat)
    requires n > 0
  {
    forall j: nat :: j < k ==> !GoodChildMac(ChildMac(p, chainCode, head, i, j), parent, n)
  }

  lemma FirstMac(p: Primitives, chainCode: Key, head: PublicKey, i: u32)
    ensures ChildMac(p, chainCode, head, i, 0) == p.hmac(chainCode, head + Be32(i))
  {
  }

  lemma NextMac(p: Primitives, chainCode: Key, head: PublicKey, i: u32, k: nat)
    ensures ChildMac(p, chainCode, head, i, k + 1)
         == p.hmac(chainCode, [1] + ChildMac(p, chainCode, head, i, k)[32..] + Be32(i))
  {
  }

  lemma MacIs(p: Primitives, chainCode: Key, head: PublicKey, i: u32, k: nat)
    ensures ChildMac(p, chainCode, head, i, k)
         == p.hmac(chainCode, if k == 0 then head + Be32(i)
                              else [1] + ChildMac(p, chainCode, head, i, k - 1)[32..] + Be32(i))
  {
    if k == 0 { FirstMac(p, chainCode, head, i); } else { NextMac(p, chainCode, head, i, k - 1); }
  }

  /** Some attempt is accepted, so that the retry loop ends. */
  ghost predicate SomeGood(p: Primitives, chainCode: Key, head: PublicKey, i: u32, parent: int, n: int)
    requires n > 0
  {
    exists k: nat :: GoodChildMac(ChildMac(p, chainCode, head, i, k), parent, n)
  }

  lemma {:induction false} FirstExists(p: Primitives, chainCode: Key, head: PublicKey, i: u32, parent: int, n: int,
                                       k: nat)
    requires n > 0 && GoodChildMac(ChildMac(p, chainCode, head, i, k), parent, n)
    ensures exists j: nat :: FirstGood(p, chainCode, head, i, parent, n, j)
  {
    if !NoneGood(p, chainCode, head, i, parent, n, k) {
      var j: nat :| j < k && GoodChildMac(ChildMac(p, chainCode, head, i, j), parent, n);
      FirstExists(p, chainCode, head, i, parent, n, j);
    } else {
      assert FirstGood(p, chainCode, head, i, parent, n, k);
    }
  }

  lemma FirstUnique(p: Primitives, chainCode: Key, head: PublicKey, i: u32, parent: int, n: int, j: nat, k: nat)
    requires n > 0 && FirstGood(p, chainCode, head, i, parent, n, j) && FirstGood(p, chainCode, head, i, parent, n, k)
    ensures j == k
  {
  }

  /** The number of rejected attempts. */
  ghost function FirstAttempt(p: Primitives, chainCode: Key, head: PublicKey, i: u32, parent: int, n: int): (k: nat)
    requires n > 0 && SomeGood(p, chainCode, head, i, parent, n)
    ensures FirstGood(p, chainCode, head, i, parent, n, k)
  {
    var t: nat :| GoodChildMac(ChildMac(p, chainCode, head, i, t), parent, n);
    FirstExists(p, chainCode, head, i, parent, n, t);
    var k: nat :| FirstGood(p, chainCode, head, i, parent, n, k);
    k
  }

  // ------------------------------------------------------------------- nodes

  /** The contents of an HDNode with what it needs of its curve; order is missing for the curves without one. */
  datatype Node = Node(depth: u32, childNum: u32, chainCode: Key, privateKey: Key, privateKeyExtension: Key,
                       publicKey: PublicKey, isPublicKeySet: bool, name: seq<u8>, order: Option<nat>, hasher: nat)

  /** A private key in range, and the matching public key if one is set. */
  ghost predicate NodeOk(p: Primitives, node: Node) {
    && (node.order.Some? ==> 1 < node.order.value <= TWO256 && 1 <= Num(256, node.privateKey) < node.order.value)
    && (node.isPublicKeySet ==> p.public(node.name, node.privateKey) == Some(node.publicKey))
  }

  /** The first 33 bytes that are hashed for child i. */
  function Head(p: Primitives, node: Node, i: u32): Option<PublicKey> {
    if Hardened(i) then
      var head: PublicKey := [0] + node.privateKey;
      Some(head)
    else if node.order.None? then None
    else p.public(node.name, node.privateKey)
  }

  lemma TwoTo256(n: nat)
    requires n == 32
    ensures Pow(256, n) == TWO256
  {
    var b: nat :| b == 4;
    assert Pow(256, 2) == 0x1_0000;
    PowAdd(256, 2, 2);
    PowAdd(256, b, b);
    PowAdd(256, 2 * b, 2 * b);
    PowAdd(256, 4 * b, 4 * b);
  }

  /** The 32 bytes of a number. */
  function KeyOf(x: nat): (key: Key)
    requires x < TWO256
    ensures Num(256, key) == x
  {
    var n: nat := 32;
    TwoTo256(n);
    FixedIs(256, n, x);
    var s: seq<u8> := seq(n, j requires 0 <= j < n => Fixed(256, n, x)[j]);
    assert s == Fixed(256, n, x);
    s
  }

  lemma KeyUnique(a: Key, b: Key)
    requires Num(256, a) == Num(256, b)
    ensures a == b
  {
    NumUnique(256, a, b);
  }

  /** The node with a new private key, below the old one. */
  function Below(node: Node, mac: Mac, key: Key, i: u32): Node {
    node.(depth := W32(node.depth + 1), childNum := i, chainCode := mac[32..], privateKey := key,
          publicKey := seq(33, _ => 0), isPublicKeySet := false)
  }

  /** The MAC that is accepted for child i. */
  ghost function AcceptedMac(p: Primitives, node: Node, head: PublicKey, i: u32): Mac
    requires node.order.Some? && node.order.value > 0
    requires SomeGood(p, node.chainCode, head, i, Num(256, node.privateKey), node.order.value)
  {
    ChildMac(p, node.chainCode, head, i,
             FirstAttempt(p, node.chainCode, head, i, Num(256, node.privateKey), node.order.value))
  }

  /** Child i of a node; a node for which no attempt is accepted, so that the code does not return, counts as failed. */
  ghost function Child(p: Primitives, node: Node, i: u32): Step<Node> {
    var head := Head(p, node, i);
    if head.None? then Step(false, node)
    else if node.order.None? then
      var mac := ChildMac(p, node.chainCode, head.value, i, 0);
      Step(true, Below(node, mac, mac[..32], i))
    else
      var n, parent := node.order.value, Num(256, node.privateKey);
      if 0 < n <= TWO256 && SomeGood(p, node.chainCode, head.value, i, parent, n) then
        var mac := AcceptedMac(p, node, head.value, i);
        DivMod(Left(mac) + parent, n);
        Step(true, Below(node, mac, KeyOf((Left(mac) + parent) % n), i))
      else Step(false, node)
  }

  /** The first accepted attempt and its key make the child. */
  lemma ChildIs(p: Primitives, node: Node, i: u32, k: nat, mac: Mac, key: Key)
    requires Head(p, node, i).Some? && node.order.Some? && 0 < node.order.value <= TWO256
    requires mac == ChildMac(p, node.chainCode, Head(p, node, i).value, i, k)
    requires FirstGood(p, node.chainCode, Head(p, node, i).value, i, Num(256, node.privateKey), node.order.value, k)
    requires Num(256, key) == (Left(mac) + Num(256, node.privateKey)) % node.order.value
    ensures Child(p, node, i) == Step(true, Below(node, mac, key, i))
  {
    hide Num, ChildMac, Left, KeyOf;
    var head, n, parent := Head(p, node, i).value, node.order.value, Num(256, node.privateKey);
    assert SomeGood(p, node.chainCode, head, i, parent, n);
    FirstUnique(p, node.chainCode, head, i, parent, n, k, FirstAttempt(p, node.chainCode, head, i, parent, n));
    DivMod(Left(mac) + parent, n);
    KeyUnique(key, KeyOf((Left(mac) + parent) % n));
  }

  /** Every child of a node in range is in range. */
  lemma ChildOk(p: Primitives, node: Node, i: u32)
    requires NodeOk(p, node)
    ensures NodeOk(p, Child(p, node, i).node) && Child(p, node, i).node.order == node.order
  {
    hide Num, ChildMac, Left, KeyOf;
    var head := Head(p, node, i);
    if head.Some? && node.order.Some? {
      var n, parent := node.order.value, Num(256, node.privateKey);
      if SomeGood(p, node.chainCode, head.value, i, parent, n) {
        DivMod(Left(AcceptedMac(p, node, head.value, i)) + parent, n);
      }
    }
  }

  /** A node with its public key filled in, where that is possible. */
  function Filled(p: Primitives, node: Node): Node {
    var key := p.public(node.name, node.privateKey);
    if node.isPublicKeySet || key.None? then node else node.(publicKey := key.value, isPublicKeySet := true)
  }

  /** The number of the first four bytes, which fits a word. */
  function FirstFour(d: Digest): (x: u32)
    ensures x == d[0] as int * 0x100_0000 + d[1] as int * 0x1_0000 + d[2] as int * 0x100 + d[3]
  {
    NumFour(256, d[..4]);
    Num(256, d[..4])
  }

  /** hdnode_fingerprint: the first four bytes of the public key's hash. */
  function Fingerprint(p: Primitives, node: Node): (Node, u32) {
    var f := Filled(p, node);
    (f, FirstFour(p.digest(f.hasher, f.publicKey)))
  }

  /** Private derivation, for the path functions. */
  ghost function KeyDerivation(p: Primitives): Derivation<Node> {
    Derivation((node, i) => Child(p, node, i), node => Fingerprint(p, node))
  }

  // ------------------------------------------------------------- whole paths

  /** The retry loop for child i of this node ends. */
  ghost predicate Ends(p: Primitives, node: Node, i: u32) {
    Head(p, node, i).Some? && node.order.Some? ==>
      && node.order.value > 0
      && SomeGood(p, node.chainCode, Head(p, node, i).value, i, Num(256, node.privateKey), node.order.value)
  }

  /** Every retry loop that derivation along the path gets to ends. */
  ghost predicate PathEnds(p: Primitives, node: Node, path: seq<u32>) {
    forall k :: 0 <= k < |path| && Derive(KeyDerivation(p), node, path[..k]).ok ==>
      Ends(p, Derive(KeyDerivation(p), node, path[..k]).node, path[k])
  }

  lemma FilledEnds(p: Primitives, node: Node, i: u32)
    ensures Ends(p, Filled(p, node), i) <==> Ends(p, node, i)
  {
    hide Num, SomeGood;
  }

  lemma PrefixEnds(p: Primitives, node: Node, path: seq<u32>, n: nat)
    requires n <= |path| && PathEnds(p, node, path)
    ensures PathEnds(p, node, path[..n])
  {
    hide Derive, Ends, KeyDerivation;
    forall k | 0 <= k < n && Derive(KeyDerivation(p), node, path[..n][..k]).ok
      ensures Ends(p, Derive(KeyDerivation(p), node, path[..n][..k]).node, path[..n][k])
    {
      assert path[..n][..k] == path[..k];
    }
  }

  /** Where derivation succeeds, all its loops end: nothing but a failure or an endless loop is left out. */
  lemma {:induction false} SuccessEnds(p: Primitives, node: Node, path: seq<u32>)
    requires Derive(KeyDerivation(p), node, path).ok
    ensures PathEnds(p, node, path)
  {
    var d := KeyDerivation(p);
    forall k | 0 <= k < |path|
      ensures Ends(p, Derive(d, node, path[..k]).node, path[k])
    {
      DeriveSnoc(d, node, path[..k], path[k]);
      assert path[..k + 1] == path[..k] + [path[k]];
      if !Derive(d, node, path[..k + 1]).ok {
        DeriveStops(d, node, path, k + 1);
      }
      hide Derive, Num, SomeGood, KeyOf, ChildMac;
    }
  }

  function Sum(s: seq<int>): int {
    if s == [] then 0 else s[0] + Sum(s[1..])
  }

  /** The left halves of the accepted MACs along a path. */
  ghost function Lefts(p: Primitives, node: Node, path: seq<u32>): (s: seq<int>)
    requires NodeOk(p, node) && node.order.Some? && Derive(KeyDerivation(p), node, path).ok
    ensures |s| == |path|
    decreases |path|
  {
    if path == [] then []
    else
      ChildOk(p, node, path[0]);
      [Left(AcceptedMac(p, node, Head(p, node, path[0]).value, path[0]))]
      + Lefts(p, Child(p, node, path[0]).node, path[1..])
  }

  /** In every run of derivations the key stays in range, and is the first key plus all left halves, modulo n. */
  lemma {:induction false} PathIsSum(p: Primitives, node: Node, path: seq<u32>)
    requires NodeOk(p, node)
    ensures var s := Derive(KeyDerivation(p), node, path);
            && NodeOk(p, s.node) && s.node.order == node.order
            && (s.ok && node.order.Some? ==>
                  Num(256, s.node.privateKey)
                  == (Num(256, node.privateKey) + Sum(Lefts(p, node, path))) % node.order.value)
    decreases |path|
  {
    hide Num, Left, ChildMac, SomeGood, KeyOf;
    if path == [] {
      if node.order.Some? {
        DivModUnique(Num(256, node.privateKey), node.order.value, 0, Num(256, node.privateKey));
      }
    } else {
      var child := Child(p, node, path[0]);
      ChildOk(p, node, path[0]);
      if child.ok {
        PathIsSum(p, child.node, path[1..]);
        if node.order.Some? && Derive(KeyDerivation(p), node, path).ok {
          var left := Left(AcceptedMac(p, node, Head(p, node, path[0]).value, path[0]));
          AddReduced(Sum(Lefts(p, child.node, path[1..])), left + Num(256, node.privateKey), node.order.value);
        }
      }
    }
  }

  lemma AddReduced(y: int, x: int, n: int)
    requires n > 0
    ensures (x % n + y) % n == (x + y) % n
  {
    DivMod(x, n);
    CongDrop(x + y, x / n, n);
    CongMod(x + y - x / n * n, x + y, n);
  }

  /** The fingerprint on the way makes no difference to the last child. */
  lemma PlainIsDerive(p: Primitives, node: Node, path: seq<u32>, wanted: bool, before: u32)
    requires NodeOk(p, node)
    ensures var o, s := Plain(KeyDerivation(p), node, path, wanted, before), Derive(KeyDerivation(p), node, path);
            NodeOk(p, o.node) && o.ok == s.ok && (o.ok ==> o.node == s.node)
  {
    hide Num, SomeGood, ChildMac, KeyOf, Left;
    if path != [] {
      var n := |path| - 1;
      DeriveSnoc(KeyDerivation(p), node, path[..n], path[n]);
      assert path == path[..n] + [path[n]];
      PathIsSum(p, node, path[..n]);
      var parent := Derive(KeyDerivation(p), node, path[..n]).node;
      ChildOk(p, parent, path[n]);
      FilledChild(p, parent, path[n]);
    }
  }

  lemma FilledChild(p: Primitives, node: Node, i: u32)
    requires NodeOk(p, node)
    ensures NodeOk(p, Filled(p, node)) && NodeOk(p, Child(p, Filled(p, node), i).node)
    ensures var c, f := Child(p, node, i), Child(p, Filled(p, node), i); c.ok == f.ok && (c.ok ==> c.node == f.node)
  {
    hide Num, SomeGood, ChildMac, KeyOf, Left;
    ChildOk(p, Filled(p, node), i);
  }

  /** Without an order there are no retry loops. */
  lemma NoLoops(p: Primitives, node: Node, path: seq<u32>)
    requires NodeOk(p, node) && node.order.None?
    ensures PathEnds(p, node, path)
  {
    hide Derive, SomeGood, Num, Child;
    forall k | 0 <= k < |path|
      ensures Ends(p, Derive(KeyDerivation(p), node, path[..k]).node, path[k])
    {
      PathIsSum(p, node, path[..k]);
    }
  }

  /** Derivation by hdnode_private_ckd_cached, too, adds up the left halves. */
  lemma PlainIsSum(p: Primitives, node: Node, path: seq<u32>, wanted: bool, before: u32)
    requires NodeOk(p, node)
    ensures var o := Plain(KeyDerivation(p), node, path, wanted, before);
            && NodeOk(p, o.node) && o.ok == Derive(KeyDerivation(p), node, path).ok
            && (o.ok && node.order.Some? ==>
                  Num(256, o.node.privateKey)
                  == (Num(256, node.privateKey) + Sum(Lefts(p, node, path))) % node.order.value)
  {
    hide Num, Derive, Plain, Sum, Lefts, KeyDerivation;
    PlainIsDerive(p, node, path, wanted, before);
    PathIsSum(p, node, path);
  }

  /**
    * The fingerprint on the way: unchanged unless wanted and the parent is reached, and then the first four bytes of
    * the hash of the parent's public key.
    */
  lemma PlainFingerprint(p: Primitives, node: Node, path: seq<u32>, wanted: bool, before: u32)
    requires NodeOk(p, node)
    ensures var fp := Plain(KeyDerivation(p), node, path, wanted, before).fingerprint;
      && (!wanted || path == [] ==> fp == before)
      && (path != [] ==>
            var parent := Derive(KeyDerivation(p), node, path[..|path| - 1]);
            var key := p.public(parent.node.name, parent.node.privateKey);
            && (!parent.ok ==> fp == before)
            && (wanted && parent.ok ==>
                  fp == Num(256, p.digest(parent.node.hasher,
                                          if key.Some? then key.value else parent.node.publicKey)[..4])))
  {
    hide Num, Derive, Child;
    if path != [] {
      PathIsSum(p, node, path[..|path| - 1]);
      var parent := Derive(KeyDerivation(p), node, path[..|path| - 1]).node;
      FirstFourIs(p.digest(Filled(p, parent).hasher, Filled(p, parent).publicKey));
    }
  }

  lemma FirstFourIs(d: Digest)
    ensures FirstFour(d) == Num(256, d[..4])
  {
  }
}

/** Private keys in bip32.c: where they come from and why they stay in range. */
module Bip32Keys {
  import opened Arith
  import opened Limbs
  import opened Words
  import opened Digits
  import opened BigEndian
  import opened Bignum
  import opened BignumReduce
  import opened BignumBytes
  import opened Options
  import opened Bip32Path
  import opened Bip32Nodes

  /**
    * A pointer to a curve_info: which one, its name and public key hasher, and the order of its curve in params, which
    * is null for the curves without one.
    */
  datatype Curve = Curve(id: nat, name: seq<u8>, hasher: nat, params: array?<u32>)

  ghost predicate GoodCurve(c: Curve)
    reads if c.params != null then {c.params} else {}
  {
    c.params != null ==> IsBignum(c.params) && 1 < Value(c.params[..]) <= TWO256
  }

  ghost function Order(c: Curve): int
    reads if c.params != null then {c.params} else {}
    requires c.params != null
  {
    Value(c.params[..])
  }

  ghost predicate InRange(c: Curve, key: Key)
    reads if c.params != null then {c.params} else {}
  {
    c.params != null ==> 1 <= Num(256, key) < Order(c)
  }

  // bn_read_be, then 0 < a < n
  method KeyInRange(key: Key, order: array<u32>) returns (ok: bool)
    requires IsBignum(order)
    ensures ok == (1 <= Num(256, key) < Value(order[..]))
  {
    var a := new u32[LIMBS](_ => 0);
    ReadBe(key, a);
    var zero := IsZero(a);
    var less := IsLess(a, order);
    NumBound(256, key);
    return !zero && less;
  }

  // the retry loop of hdnode_from_seed; it ends because attempt number tries would be accepted
  method AcceptedSeed(p: Primitives, name: seq<u8>, seed: seq<u8>, order: array<u32>, ghost tries: nat)
      returns (mac: Mac, ghost k: nat)
    requires IsBignum(order) && GoodSeedMac(SeedMac(p, name, seed, tries), Value(order[..]))
    ensures mac == SeedMac(p, name, seed, k) && FirstGoodSeed(p, name, seed, Value(order[..]), k)
    ensures mac == p.hmac(name, if k == 0 then seed else SeedMac(p, name, seed, k - 1))
    ensures 1 <= Num(256, mac[..32]) < Value(order[..])
  {
    hide Num, Prefix;
    k := 0;
    mac := p.hmac(name, seed);
    var inRange := KeyInRange(mac[..32], order);
    while !inRange
      invariant k <= tries && mac == SeedMac(p, name, seed, k)
      invariant inRange == GoodSeedMac(mac, Value(order[..])) && NoGoodSeed(p, name, seed, Value(order[..]), k)
      decreases tries - k
    {
      mac := p.hmac(name, mac);
      k := k + 1;
      inRange := KeyInRange(mac[..32], order);
    }
  }

  // one attempt at a child key: fails for I_L >= n and for a zero sum
  method ChildKey(mac: Mac, a: array<u32>, order: array<u32>) returns (ok: bool, key: Key)
    requires IsBignum(order) && 1 < Value(order[..]) <= TWO256
    requires IsBignum(a) && 1 <= Value(a[..]) < Value(order[..])
    ensures ok == GoodChildMac(mac, Value(a[..]), Value(order[..]))
    ensures ok == (Num(256, mac[..32]) < Value(order[..])
                   && (Num(256, mac[..32]) + Value(a[..])) % Value(order[..]) != 0)
    ensures Left(mac) == Num(256, mac[..32])
    ensures ok ==> Num(256, key) == (Left(mac) + Value(a[..])) % Value(order[..])
  {
    key := seq(32, _ => 0);
    var b := new u32[LIMBS](_ => 0);
    ReadBe(mac[..32], b);
    var less := IsLess(b, order);
    if !less {
      return false, key;
    }
    Add(b, a);
    Mod(b, order);
    var zero := IsZero(b);
    if zero {
      return false, key;
    }
    var out := new u8[32](_ => 0);
    DivMod(Left(mac) + Value(a[..]), Value(order[..]));
    WriteBe(b, out);
    return true, out[..];
  }

  // the retry loop of hdnode_private_ckd_bip32; it ends because attempt number tries would be accepted
  method AcceptedKey(p: Primitives, chainCode: Key, head: PublicKey, i: u32, a: array<u32>, order: array<u32>,
                     ghost tries: nat)
      returns (mac: Mac, key: Key, ghost k: nat)
    requires IsBignum(order) && 1 < Value(order[..]) <= TWO256
    requires IsBignum(a) && 1 <= Value(a[..]) < Value(order[..])
    requires GoodChildMac(ChildMac(p, chainCode, head, i, tries), Value(a[..]), Value(order[..]))
    ensures mac == ChildMac(p, chainCode, head, i, k)
    ensures FirstGood(p, chainCode, head, i, Value(a[..]), Value(order[..]), k)
    ensures 1 <= Num(256, key) == (Left(mac) + Value(a[..])) % Value(order[..]) < Value(order[..])
  {
    hide Num, ChildMac, Prefix, Left;
    ghost var parent, n := Value(a[..]), Value(order[..]);
    FirstMac(p, chainCode, head, i);
    k := 0;
    mac := p.hmac(chainCode, head + Be32(i));
    var ok;
    ok, key := ChildKey(mac, a, order);
    while !ok
      invariant k <= tries && mac == ChildMac(p, chainCode, head, i, k)
      invariant ok == GoodChildMac(mac, parent, n) && NoneGood(p, chainCode, head, i, parent, n, k)
      invariant ok ==> Num(256, key) == (Left(mac) + parent) % n
      decreases tries - k
    {
      NextMac(p, chainCode, head, i, k);
      mac := p.hmac(chainCode, [1] + mac[32..] + Be32(i));
      k := k + 1;
      ok, key := ChildKey(mac, a, order);
    }
    DivMod(Left(mac) + parent, n);
  }

  /** The bytes of an HDNode. */
  datatype Image = Image(depth: u32, childNum: u32, chainCode: Key, privateKey: Key, privateKeyExtension: Key,
                         publicKey: PublicKey, isPublicKeySet: bool, curve: Curve)

  /** What derivation sees of those bytes. */
  ghost function NodeOf(im: Image): Node
    reads if im.curve.params != null then {im.curve.params} else {}
    requires GoodCurve(im.curve)
  {
    Node(im.depth, im.childNum, im.chainCode, im.privateKey, im.privateKeyExtension, im.publicKey, im.isPublicKeySet,
         im.curve.name, if im.curve.params == null then None else Some(Order(im.curve)), im.curve.hasher)
  }

  class HDNode {
    var depth: u32
    var childNum: u32
    var chainCode: Key
    var privateKey: Key
    var privateKeyExtension: Key
    var publicKey: PublicKey
    var isPublicKeySet: bool
    var curve: Curve

    /** A node with a private key in range, and with the matching public key if one is set. */
    ghost predicate Valid(p: Primitives)
      reads this, if curve.params != null then {curve.params} else {}
    {
      && GoodCurve(curve) && InRange(curve, privateKey)
      && (isPublicKeySet ==> p.public(curve.name, privateKey) == Some(publicKey))
    }

    function Contents(): Image
      reads this
    {
      Image(depth, childNum, chainCode, privateKey, privateKeyExtension, publicKey, isPublicKeySet, curve)
    }

    /** The node as a value. */
    ghost function Abstract(): Node
      reads this, if curve.params != null then {curve.params} else {}
      requires GoodCurve(curve)
    {
      NodeOf(Contents())
    }

    lemma ValidIs(p: Primitives)
      ensures Valid(p) <==> GoodCurve(curve) && NodeOk(p, Abstract())
    {
      hide Num, Prefix;
    }

    // memcpy of a whole node
    method Load(im: Image)
      modifies this
      ensures Contents() == im
    {
      depth, childNum, chainCode, privateKey := im.depth, im.childNum, im.chainCode, im.privateKey;
      privateKeyExtension, publicKey, isPublicKeySet := im.privateKeyExtension, im.publicKey, im.isPublicKeySet;
      curve := im.curve;
    }

    /** No public key is set. */
    ghost predicate Cleared()
      reads this
    {
      !isPublicKeySet && publicKey == seq(33, _ => 0)
    }

    // hdnode_from_xprv; curve lookup by name is the caller's
    method FromXprv(depth: u32, childNum: u32, chainCode: Key, privateKey: Key, info: Option<Curve>, p: Primitives)
        returns (ok: bool)
      requires info.Some? ==> GoodCurve(info.value)
      modifies this
      ensures ok == (info.Some? && InRange(info.value, privateKey))
      ensures ok ==> Valid(p) && curve == info.value && this.privateKey == privateKey && this.chainCode == chainCode
      ensures ok ==> this.depth == depth && this.childNum == childNum && Cleared() && privateKeyExtension == ZeroKey()
      ensures !ok ==> unchanged(this)
    {
      if info.None? {
        return false;
      }
      if info.value.params != null {
        var inRange := KeyInRange(privateKey, info.value.params);
        if !inRange {
          return false;
        }
      }
      curve := info.value;
      this.depth, this.childNum, this.chainCode, this.privateKey := depth, childNum, chainCode, privateKey;
      publicKey, isPublicKeySet := seq(33, _ => 0), false;
      privateKeyExtension := seq(32, _ => 0);
      return true;
    }

    // memzero of a whole node but for its curve
    method Clear()
      modifies this
      ensures depth == 0 && childNum == 0 && chainCode == privateKey == privateKeyExtension == ZeroKey() && Cleared()
      ensures curve == old(curve)
    {
      depth, childNum, isPublicKeySet, publicKey := 0, 0, false, seq(33, _ => 0);
      chainCode, privateKey, privateKeyExtension := seq(32, _ => 0), seq(32, _ => 0), seq(32, _ => 0);
    }

    // hdnode_from_seed; curve lookup by name is the caller's
    method FromSeed(seed: seq<u8>, info: Option<Curve>, p: Primitives, ghost tries: nat)
        returns (ok: bool, ghost k: nat)
      requires info.Some? ==> GoodCurve(info.value)
      requires info.Some? && info.value.params != null ==>
        GoodSeedMac(SeedMac(p, info.value.name, seed, tries), Order(info.value))
      modifies this
      ensures ok == info.Some? && depth == 0 && childNum == 0 && Cleared() && privateKeyExtension == ZeroKey()
      ensures !ok ==> privateKey == chainCode == ZeroKey()
      ensures ok ==> Valid(p) && curve == info.value && privateKey + chainCode == SeedMac(p, curve.name, seed, k)
      ensures ok && curve.params != null ==> FirstGoodSeed(p, curve.name, seed, Order(curve), k)
      ensures ok && curve.params == null ==> k == 0
      ensures ok ==>
        privateKey + chainCode == p.hmac(curve.name, if k == 0 then seed else SeedMac(p, curve.name, seed, k - 1))
    {
      hide Num, Prefix, GoodSeedMac, FirstGoodSeed;
      k := 0;
      Clear();
      if info.None? {
        return false, k;
      }
      curve := info.value;
      var mac := p.hmac(curve.name, seed);
      if curve.params != null {
        mac, k := AcceptedSeed(p, curve.name, seed, curve.params, tries);
      }
      privateKey, chainCode := mac[..32], mac[32..];
      assert privateKey + chainCode == mac;
      return true, k;
    }

    // hdnode_fill_public_key
    method FillPublicKey(p: Primitives) returns (ok: bool)
      requires Valid(p)
      modifies this`publicKey, this`isPublicKeySet
      ensures Valid(p) && ok == p.public(curve.name, privateKey).Some? && (!ok ==> unchanged(this))
      ensures ok ==> publicKey == p.public(curve.name, privateKey).value && isPublicKeySet
    {
      if isPublicKeySet {
        return true;
      }
      var key := p.public(curve.name, privateKey);
      if key.None? {
        return false;
      }
      publicKey, isPublicKeySet := key.value, true;
      return true;
    }

    // the start of hdnode_private_ckd_bip32, where the public key is filled in if it is hashed
    method FillHead(i: u32, p: Primitives) returns (head: Option<PublicKey>)
      requires Valid(p)
      modifies this`publicKey, this`isPublicKeySet
      ensures Valid(p) && head == old(Head(p, Abstract(), i)) && (head.None? ==> unchanged(this))
      ensures head.Some? == (i >= 0x8000_0000 || (curve.params != null && p.public(curve.name, privateKey).Some?))
      ensures head.Some? ==>
        head.value == if i >= 0x8000_0000 then [0] + privateKey else p.public(curve.name, privateKey).value
    {
      if Hardened(i) {
        var data: PublicKey := [0] + privateKey;
        return Some(data);
      }
      if curve.params == null {
        return None;
      }
      var filled := FillPublicKey(p);
      return if filled then Some(publicKey) else None;
    }

    // the MAC for child i and the key it makes
    method Secret(i: u32, p: Primitives, head: PublicKey, ghost tries: nat) returns (mac: Mac, key: Key, ghost k: nat)
      requires GoodCurve(curve) && InRange(curve, privateKey)
      requires curve.params != null ==>
        GoodChildMac(ChildMac(p, chainCode, head, i, tries), Num(256, privateKey), Order(curve))
      ensures mac == ChildMac(p, chainCode, head, i, k) && InRange(curve, key)
      ensures mac == p.hmac(chainCode, if k == 0 then head + Be32(i)
                                       else [1] + ChildMac(p, chainCode, head, i, k - 1)[32..] + Be32(i))
      ensures curve.params == null ==> k == 0 && key == mac[..32]
      ensures curve.params != null ==>
        && FirstGood(p, chainCode, head, i, Num(256, privateKey), Order(curve), k)
        && Num(256, key) == (Left(mac) + Num(256, privateKey)) % Order(curve)
    {
      hide Num, ChildMac, Prefix, Left, GoodChildMac, FirstGood;
      k := 0;
      if curve.params != null {
        var a := new u32[LIMBS](_ => 0);
        ReadBe(privateKey, a);
        mac, key, k := AcceptedKey(p, chainCode, head, i, a, curve.params, tries);
      } else {
        mac := p.hmac(chainCode, head + Be32(i));
        FirstMac(p, chainCode, head, i);
        key := mac[..32];
      }
      MacIs(p, chainCode, head, i, k);
    }

    // the end of hdnode_private_ckd_bip32, where the fields are overwritten
    method Become(mac: Mac, key: Key, i: u32)
      modifies this
      ensures chainCode == mac[32..] && privateKey == key && privateKeyExtension == old(privateKeyExtension)
      ensures depth == W32(old(depth) + 1) && childNum == i && Cleared() && curve == old(curve)
    {
      privateKey, chainCode := key, mac[32..];
      depth, childNum := W32(depth + 1), i;
      publicKey, isPublicKeySet := seq(33, _ => 0), false;
    }

    // hdnode_private_ckd_bip32: child i in place
    method PrivateCkd(i: u32, p: Primitives, ghost tries: nat) returns (ok: bool, ghost k: nat)
      requires Valid(p)
      requires Head(p, Abstract(), i).Some? && curve.params != null ==>
        GoodChildMac(ChildMac(p, chainCode, Head(p, Abstract(), i).value, i, tries), Num(256, privateKey), Order(curve))
      modifies this
      ensures Valid(p) && curve == old(curve) && ok == old(Head(p, Abstract(), i)).Some?
      ensures ok == (i >= 0x8000_0000 || (curve.params != null && p.public(curve.name, old(privateKey)).Some?))
      ensures !ok ==> unchanged(this)
      ensures ok ==> depth == W32(old(depth) + 1) && childNum == i && Cleared()
      ensures privateKeyExtension == old(privateKeyExtension)
      // the private key is hashed for a hardened child, and the public key for the others
      ensures ok ==> var head := old(Head(p, Abstract(), i)).value;
        && head == (if i >= 0x8000_0000 then [0] + old(privateKey) else p.public(curve.name, old(privateKey)).value)
        && chainCode == p.hmac(old(chainCode),
                               if k == 0 then head + Be32(i)
                               else [1] + ChildMac(p, old(chainCode), head, i, k - 1)[32..] + Be32(i))[32..]
      ensures ok ==> var mac := ChildMac(p, old(chainCode), old(Head(p, Abstract(), i)).value, i, k);
        && chainCode == mac[32..]
        && (curve.params == null ==> k == 0 && privateKey == mac[..32])
        && (curve.params != null ==> Num(256, privateKey) == (Left(mac) + Num(256, old(privateKey))) % Order(curve))
      ensures ok && curve.params != null ==>
        FirstGood(p, old(chainCode), old(Head(p, Abstract(), i)).value, i, Num(256, old(privateKey)), Order(curve), k)
    {
      hide Num, ChildMac, Prefix, Left, GoodChildMac, FirstGood, Head, Be32, W32;
      k := 0;
      var head := FillHead(i, p);
      if head.None? {
        return false, k;
      }
      var mac, key;
      mac, key, k := Secret(i, p, head.value, tries);
      Become(mac, key, i);
      return true, k;
    }

    // hdnode_fingerprint
    method FingerprintOf(p: Primitives) returns (fingerprint: u32)
      requires Valid(p)
      modifies this`publicKey, this`isPublicKeySet
      ensures Valid(p) && (Abstract(), fingerprint) == Fingerprint(p, old(Abstract()))
      ensures fingerprint == Num(256, p.digest(curve.hasher, publicKey)[..4])
      ensures var key := p.public(curve.name, privateKey);
        if key.Some? then publicKey == key.value && isPublicKeySet else unchanged(this)
    {
      var filled := FillPublicKey(p);
      var digest := p.digest(curve.hasher, publicKey);
      ghost var first := FirstFour(digest);
      fingerprint := W32(digest[0] as int * 0x100_0000 + digest[1] as int * 0x1_0000
                         + digest[2] as int * 0x100 + digest[3]);
    }

    // hdnode_private_ckd
    method Ckd(i: u32, p: Primitives) returns (ok: bool)
      requires Valid(p) && Ends(p, Abstract(), i)
      modifies this
      ensures Valid(p) && curve == old(curve) && Step(ok, Abstract()) == Child(p, old(Abstract()), i)
    {
      hide Num, ChildMac, Left, KeyOf, FirstGood, Prefix, GoodChildMac;
      ghost var node, head := Abstract(), Head(p, Abstract(), i);
      ghost var tries: nat := 0;
      if head.Some? && curve.params != null {
        assert SomeGood(p, chainCode, head.value, i, Num(256, privateKey), Order(curve));
        tries :| GoodChildMac(ChildMac(p, chainCode, head.value, i, tries), Num(256, privateKey), Order(curve));
      }
      hide SomeGood;
      ghost var k;
      ok, k := PrivateCkd(i, p, tries);
      if ok {
        ghost var mac := ChildMac(p, node.chainCode, head.value, i, k);
        if curve.params != null {
          ChildIs(p, node, i, k, mac, privateKey);
        }
        assert Abstract() == Below(node, mac, privateKey, i);
      }
    }

    // one hdnode_private_ckd after the other, up to the first failure
    method DerivePath(path: seq<u32>, p: Primitives) returns (ok: bool)
      requires Valid(p) && PathEnds(p, Abstract(), path)
      modifies this
      ensures Valid(p) && curve == old(curve) && NodeOk(p, old(Abstract()))
      ensures Step(ok, Abstract()) == Derive(KeyDerivation(p), old(Abstract()), path)
      ensures curve.params != null ==> 1 <= Num(256, privateKey) < Order(curve)
      ensures ok && curve.params != null ==>
        Num(256, privateKey) == (Num(256, old(privateKey)) + Sum(Lefts(p, old(Abstract()), path))) % Order(curve)
    {
      hide Child, Ends, Num, Prefix, Sum, Lefts, Derive;
      ghost var node, d := Abstract(), KeyDerivation(p);
      ok := true;
      DeriveNothing(d, node);
      for k := 0 to |path|
        invariant Valid(p) && curve == old(curve) && ok
        invariant Derive(d, node, path[..k]) == Step(true, Abstract())
      {
        DeriveSnoc(d, node, path[..k], path[k]);
        assert path[..k + 1] == path[..k] + [path[k]];
        ok := Ckd(path[k], p);
        if !ok {
          DeriveStops(d, node, path, k + 1);
          break;
        }
      }
      assert path[..|path|] == path;
      PathIsSum(p, node, path);
    }
  }

  /** The root that a MAC of a seed makes. */
  ghost function Master(c: Curve, mac: Mac): Node
    reads if c.params != null then {c.params} else {}
    requires GoodCurve(c)
  {
    NodeOf(Image(0, 0, mac[32..], mac[..32], ZeroKey(), seq(33, _ => 0), false, c))
  }

  // any run: a node from a seed, then any number of private derivations
  method SeedThenPath(node: HDNode, seed: seq<u8>, info: Option<Curve>, path: seq<u32>, p: Primitives, ghost tries: nat)
      returns (ok: bool, ghost k: nat)
    requires info.Some? ==> GoodCurve(info.value)
    requires info.Some? && info.value.params != null ==>
      && GoodSeedMac(SeedMac(p, info.value.name, seed, tries), Order(info.value))
      && forall j: nat :: FirstGoodSeed(p, info.value.name, seed, Order(info.value), j) ==>
           PathEnds(p, Master(info.value, SeedMac(p, info.value.name, seed, j)), path)
    modifies node
    ensures ok ==> info.Some?
    ensures info.Some? ==> node.Valid(p) && node.curve == info.value
    ensures info.Some? ==> var root := Master(info.value, SeedMac(p, info.value.name, seed, k));
      && NodeOk(p, root) && Step(ok, node.Abstract()) == Derive(KeyDerivation(p), root, path)
      && (ok && info.value.params != null ==>
            Num(256, node.privateKey)
            == (Left(SeedMac(p, info.value.name, seed, k)) + Sum(Lefts(p, root, path))) % Order(info.value))
    ensures info.Some? && info.value.params != null ==>
      && FirstGoodSeed(p, info.value.name, seed, Order(info.value), k)
      && 1 <= Num(256, node.privateKey) < Order(info.value)
    ensures info.Some? ==>
      SeedMac(p, info.value.name, seed, k)
      == p.hmac(info.value.name, if k == 0 then seed else SeedMac(p, info.value.name, seed, k - 1))
  {
    hide Num, SeedMac, Derive, Prefix, Ends, FirstGoodSeed, GoodSeedMac, Sum, Lefts;
    ok, k := node.FromSeed(seed, info, p, tries);
    if !ok {
      return;
    }
    ghost var mac := SeedMac(p, info.value.name, seed, k);
    assert mac[..32] == node.privateKey && mac[32..] == node.chainCode;
    assert node.Abstract() == Master(info.value, mac);
    if info.value.params == null {
      NoLoops(p, node.Abstract(), path);
    }
    ok := node.DerivePath(path, p);
  }

  /** The node that an imported private key makes. */
  ghost function Imported(c: Curve, depth: u32, childNum: u32, chainCode: Key, privateKey: Key): Node
    reads if c.params != null then {c.params} else {}
    requires GoodCurve(c)
  {
    NodeOf(Image(depth, childNum, chainCode, privateKey, ZeroKey(), seq(33, _ => 0), false, c))
  }

  // the same from an imported private key
  method XprvThenPath(node: HDNode, depth: u32, childNum: u32, chainCode: Key, privateKey: Key, info: Option<Curve>,
                      path: seq<u32>, p: Primitives)
      returns (imported: bool, ok: bool)
    requires info.Some? ==> GoodCurve(info.value)
    requires info.Some? && info.value.params != null && InRange(info.value, privateKey) ==>
      PathEnds(p, Imported(info.value, depth, childNum, chainCode, privateKey), path)
    modifies node
    ensures imported == (info.Some? && InRange(info.value, privateKey)) && (ok ==> imported)
    ensures imported ==> node.Valid(p) && node.curve == info.value
    ensures imported ==> var root := Imported(info.value, depth, childNum, chainCode, privateKey);
      && NodeOk(p, root) && Step(ok, node.Abstract()) == Derive(KeyDerivation(p), root, path)
      && (info.value.params != null ==> 1 <= Num(256, node.privateKey) < Order(info.value))
      && (ok && info.value.params != null ==>
            Num(256, node.privateKey) == (Num(256, privateKey) + Sum(Lefts(p, root, path))) % Order(info.value))
    ensures !imported ==> unchanged(node)
  {
    hide Num, Derive, Prefix, Ends, Sum, Lefts;
    imported := node.FromXprv(depth, childNum, chainCode, privateKey, info, p);
    ok := false;
    if !imported {
      return;
    }
    if info.value.params == null {
      NoLoops(p, node.Abstract(), path);
    }
    ok := node.DerivePath(path, p);
  }
}

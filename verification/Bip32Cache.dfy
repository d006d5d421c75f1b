/** The cache of parent nodes in bip32.c. */
module Bip32Cache {
  import opened Limbs
  import opened Words
  import opened Digits
  import opened Bip32Path
  import opened Bip32Nodes
  import opened Bip32Keys

  const CACHE_SIZE := 10
  const CACHE_MAXDEPTH := 8

  /** A slot: the node that the first depth indices of path lead to from the root. */
  datatype Slot = Slot(isSet: bool, depth: nat, path: seq<u32>, node: Image)

  datatype Call = ClearCache | Request(node: Image, path: seq<u32>, wanted: bool, before: u32, sameBytes: bool)

  /** What a request returns and leaves in its node. */
  datatype Reply = Reply(ok: bool, node: Image, fingerprint: u32)

  function NoCurve(): Curve { Curve(0, [], 0, null) }

  function ZeroImage(): Image { Image(0, 0, ZeroKey(), ZeroKey(), ZeroKey(), seq(33, _ => 0), false, NoCurve()) }

  class Cache {
    const p: Primitives
    ghost const orders: set<array<u32>>   // of the known curves
    const slots: array<Slot>
    var rootSet: bool
    var root: Image
    var index: nat

    /** A node with a private key in range, on one of the known curves. */
    ghost predicate Good(im: Image)
      reads orders
    {
      (im.curve.params == null || im.curve.params in orders) && GoodCurve(im.curve) && NodeOk(p, NodeOf(im))
    }

    ghost predicate SlotOk(e: Slot, from: Image)
      reads orders
    {
      e.isSet ==>
        && e.depth <= |e.path| == CACHE_MAXDEPTH && Good(from) && Good(e.node) && e.node.curve == from.curve
        && Derive(KeyDerivation(p), NodeOf(from), e.path[..e.depth]) == Step(true, NodeOf(e.node))
    }

    /** Every set slot holds what plain derivation along its path from the stored root gives. */
    ghost predicate Valid()
      reads this, slots, orders
    {
      && slots.Length == CACHE_SIZE && index < CACHE_SIZE
      && forall j :: 0 <= j < slots.Length ==> SlotOk(slots[j], root) && (slots[j].isSet ==> rootSet)
    }

    constructor (p: Primitives, ghost orders: set<array<u32>>)
      ensures Valid() && fresh(slots) && slots.Length == 10
      ensures this.p == p && this.orders == orders && !rootSet
    {
      this.p, this.orders := p, orders;
      rootSet, root, index := false, ZeroImage(), 0;
      slots := new Slot[CACHE_SIZE](_ => Slot(false, 0, [], ZeroImage()));
    }

    // memzero(private_ckd_cache, ...)
    method Wipe()
      requires slots.Length == CACHE_SIZE
      modifies slots
      ensures forall j :: 0 <= j < slots.Length ==> !slots[j].isSet
    {
      forall j | 0 <= j < slots.Length {
        slots[j] := Slot(false, 0, seq(CACHE_MAXDEPTH, _ => 0), ZeroImage());
      }
    }

    // bip32_cache_clear
    method Clear()
      requires Valid()
      modifies this, slots
      ensures Valid() && !rootSet && index == 0 && forall j :: 0 <= j < slots.Length ==> !slots[j].isSet
    {
      rootSet, index, root := false, 0, ZeroImage();
      Wipe();
    }

    /** Whether a slot is taken by the node at the end of path. */
    ghost predicate IsFor(e: Slot, path: seq<u32>) {
      e.isSet && e.depth == |path| <= |e.path| && e.path[..e.depth] == path
    }

    ghost predicate Holds(path: seq<u32>)
      reads slots
    {
      exists j :: 0 <= j < slots.Length && IsFor(slots[j], path)
    }

    // the search for the parent of path, which is copied into the node
    method Find(inout: HDNode, path: seq<u32>) returns (found: bool)
      requires Valid() && 2 <= |path| <= CACHE_MAXDEPTH + 1
      modifies inout
      ensures found ==> rootSet && Good(root) && Good(inout.Contents()) && inout.curve == old(inout.curve) == root.curve
      ensures found ==> Derive(KeyDerivation(p), NodeOf(root), path[..|path| - 1]) == Step(true, inout.Abstract())
      ensures found ==> Holds(path[..|path| - 1])
      ensures !found ==> unchanged(inout)
      ensures !found ==> forall j :: 0 <= j < slots.Length ==>
        !(IsFor(slots[j], path[..|path| - 1]) && slots[j].node.curve == inout.curve)
    {
      hide Derive, KeyDerivation, NodeOk;
      var n := |path| - 1;
      for j := 0 to CACHE_SIZE
        invariant unchanged(inout)
        invariant forall i :: 0 <= i < j ==> !(IsFor(slots[i], path[..n]) && slots[i].node.curve == inout.curve)
      {
        var e := slots[j];
        assert SlotOk(e, root);
        if e.isSet && e.depth == n && e.path[..n] == path[..n] && e.node.curve == inout.curve {
          assert IsFor(slots[j], path[..n]);
          inout.Load(e.node);
          return true;
        }
      }
      return false;
    }

    // memzero the slot at index and fill it
    method Save(path: seq<u32>, node: HDNode)
      requires Valid() && rootSet && |path| <= CACHE_MAXDEPTH
      requires Good(root) && Good(node.Contents()) && node.curve == root.curve
      requires Derive(KeyDerivation(p), NodeOf(root), path) == Step(true, node.Abstract())
      modifies this`index, slots
      ensures Valid() && index == (old(index) + 1) % CACHE_SIZE
      ensures IsFor(slots[old(index)], path) && slots[old(index)].node == node.Contents()
      ensures forall j :: 0 <= j < slots.Length && j != old(index) ==> slots[j] == old(slots[j])
    {
      hide Derive, KeyDerivation, NodeOk;
      var padded := path + seq(CACHE_MAXDEPTH - |path|, _ => 0);
      assert padded[..|path|] == path;
      slots[index] := Slot(true, |path|, padded, node.Contents());
      index := (index + 1) % CACHE_SIZE;
    }

    // the part of hdnode_private_ckd_cached that finds or derives the parent
    method ToParent(inout: HDNode, path: seq<u32>, sameBytes: bool) returns (ok: bool)
      requires Valid() && Good(inout.Contents()) && 2 <= |path| <= CACHE_MAXDEPTH + 1
      requires PathEnds(p, inout.Abstract(), path)
      modifies this, slots, inout
      ensures Valid() && Good(inout.Contents()) && inout.curve == old(inout.curve)
      ensures Step(ok, inout.Abstract()) == Derive(KeyDerivation(p), old(inout.Abstract()), path[..|path| - 1])
      ensures rootSet && root == old(inout.Contents()) && (ok ==> Holds(path[..|path| - 1]))
      ensures old(rootSet) && old(root) == old(inout.Contents()) && sameBytes ==>
        forall j :: 0 <= j < slots.Length && j != old(index) ==> slots[j] == old(slots[j])
    {
      hide Derive, KeyDerivation, NodeOk, Child, Ends, PathEnds, Num, Prefix;
      ghost var node := inout.Abstract();
      var n := |path| - 1;
      var found := false;
      if !rootSet || root != inout.Contents() || !sameBytes {
        index := 0;
        Wipe();
        root, rootSet := inout.Contents(), true;
      } else {
        found := Find(inout, path);
      }
      ok := true;
      if !found {
        PrefixEnds(p, node, path, n);
        inout.ValidIs(p);
        ok := inout.DerivePath(path[..n], p);
        inout.ValidIs(p);
        if ok {
          Save(path[..n], inout);
          assert IsFor(slots[old(index)], path[..n]) || IsFor(slots[0], path[..n]);
        }
      }
    }

    // hdnode_private_ckd_cached; sameBytes says whether the padding bytes that memcmp also compares agree
    method PrivateCkdCached(inout: HDNode, path: seq<u32>, wanted: bool, before: u32, sameBytes: bool)
        returns (ok: bool, fp: u32)
      requires Valid() && Good(inout.Contents()) && |path| <= CACHE_MAXDEPTH + 1
      requires PathEnds(p, inout.Abstract(), path)
      modifies this, slots, inout
      ensures Valid() && Good(inout.Contents()) && inout.curve == old(inout.curve)
      ensures Outcome(ok, inout.Abstract(), fp) == Plain(KeyDerivation(p), old(inout.Abstract()), path, wanted, before)
      // the fingerprint is written exactly if it is wanted and the parent is reached
      ensures !wanted || path == [] ==> fp == before
      ensures path != [] ==>
        var parent := Derive(KeyDerivation(p), old(inout.Abstract()), path[..|path| - 1]);
        var key := p.public(parent.node.name, parent.node.privateKey);
        && (!parent.ok ==> fp == before)
        && (wanted && parent.ok ==>
              fp == Num(256, p.digest(parent.node.hasher,
                                      if key.Some? then key.value else parent.node.publicKey)[..4]))
      ensures |path| <= 1 ==> unchanged(this) && unchanged(slots)
      ensures |path| >= 2 ==> rootSet && root == old(inout.Contents())
      ensures old(rootSet) && old(root) == old(inout.Contents()) && sameBytes ==>
        forall j :: 0 <= j < slots.Length && j != old(index) ==> slots[j] == old(slots[j])
      ensures |path| >= 2 && Derive(KeyDerivation(p), old(inout.Abstract()), path[..|path| - 1]).ok ==>
        Holds(path[..|path| - 1])
    {
      hide Derive, NodeOk, Child, Ends, Holds, IsFor, SlotOk, Num, Prefix, Filled;
      PlainFingerprint(p, inout.Abstract(), path, wanted, before);
      fp := before;
      if |path| == 0 {
        return true, fp;
      }
      ghost var node, n := inout.Abstract(), |path| - 1;
      if |path| == 1 {
        DeriveNothing(KeyDerivation(p), node);
      } else {
        ok := ToParent(inout, path, sameBytes);
        if !ok {
          return;
        }
      }
      assert Derive(KeyDerivation(p), node, path[..n]) == Step(true, inout.Abstract());
      FilledEnds(p, inout.Abstract(), path[n]);
      inout.ValidIs(p);
      if wanted {
        fp := inout.FingerprintOf(p);
      }
      ok := inout.Ckd(path[|path| - 1], p);
      inout.ValidIs(p);
    }

    /** A request that hdnode_private_ckd_cached is made for: a good node, a short path, and loops that end. */
    ghost predicate Proper(call: Call)
      reads orders
    {
      call.Request? ==>
        Good(call.node) && |call.path| <= CACHE_MAXDEPTH + 1 && PathEnds(p, NodeOf(call.node), call.path)
    }

    /** The reply that derivation without a cache gives, with a key in range that is the sum of the left halves. */
    ghost predicate Answers(call: Call, reply: Reply)
      reads orders
    {
      call.Request? ==>
        && Good(call.node) && Good(reply.node) && reply.node.curve == call.node.curve
        && Outcome(reply.ok, NodeOf(reply.node), reply.fingerprint)
           == Plain(KeyDerivation(p), NodeOf(call.node), call.path, call.wanted, call.before)
        && reply.ok == Derive(KeyDerivation(p), NodeOf(call.node), call.path).ok
        && (!call.wanted || call.path == [] ==> reply.fingerprint == call.before)
        && (call.path != [] ==>
              var parent := Derive(KeyDerivation(p), NodeOf(call.node), call.path[..|call.path| - 1]);
              var key := p.public(parent.node.name, parent.node.privateKey);
              && (!parent.ok ==> reply.fingerprint == call.before)
              && (call.wanted && parent.ok ==>
                    reply.fingerprint
                    == Num(256, p.digest(parent.node.hasher,
                                         if key.Some? then key.value else parent.node.publicKey)[..4])))
        && (reply.ok && call.node.curve.params != null ==>
              Num(256, reply.node.privateKey)
              == (Num(256, call.node.privateKey) + Sum(Lefts(p, NodeOf(call.node), call.path)))
                 % Order(call.node.curve))
    }

    // one request
    method Answer(inout: HDNode, call: Call) returns (reply: Reply)
      requires Valid() && Proper(call) && call.Request?
      modifies this, slots, inout
      ensures Valid() && Answers(call, reply)
    {
      hide Derive, KeyDerivation, NodeOk, Plain, PathEnds, Num, Sum, Lefts, SlotOk;
      inout.Load(call.node);
      var ok, fp := PrivateCkdCached(inout, call.path, call.wanted, call.before, call.sameBytes);
      PlainIsSum(p, NodeOf(call.node), call.path, call.wanted, call.before);
      reply := Reply(ok, inout.Contents(), fp);
    }

    // any run at all: whatever the requests and their order, each one is answered as without a cache
    method Session(inout: HDNode, calls: seq<Call>) returns (replies: seq<Reply>)
      requires Valid() && forall j :: 0 <= j < |calls| ==> Proper(calls[j])
      modifies this, slots, inout
      ensures Valid() && |replies| == |calls|
      ensures forall j :: 0 <= j < |calls| ==> Answers(calls[j], replies[j])
    {
      hide PathEnds, NodeOk, Plain, Derive, Sum, Lefts, Num, SlotOk;
      replies := [];
      for j := 0 to |calls|
        invariant Valid() && |replies| == j
        invariant forall i :: 0 <= i < j ==> Answers(calls[i], replies[i])
      {
        var reply;
        if calls[j].Request? {
          reply := Answer(inout, calls[j]);
        } else {
          Clear();
          reply := Reply(true, ZeroImage(), 0);
        }
        replies := replies + [reply];
      }
    }
  }
}

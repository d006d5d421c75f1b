/** Derivation along a path of child numbers, for any kind of node. */
module Bip32Path {
  import opened Words

  /** What a derivation step returns and leaves in its node. */
  datatype Step<Node> = Step(ok: bool, node: Node)

  /** hdnode_private_ckd and hdnode_fingerprint, as arbitrary functions; a fingerprint may fill in the public key. */
  datatype Derivation<!Node> = Derivation(ckd: (Node, u32) -> Step<Node>, fingerprint: Node -> (Node, u32))

  /** One hdnode_private_ckd after the other, up to the first failure. */
  function Derive<Node>(d: Derivation<Node>, node: Node, path: seq<u32>): Step<Node> {
    if path == [] then Step(true, node)
    else
      var s := d.ckd(node, path[0]);
      if s.ok then Derive(d, s.node, path[1..]) else s
  }

  datatype Outcome<Node> = Outcome(ok: bool, node: Node, fingerprint: u32)

  /** Derivation along a path without a cache, with the fingerprint of the parent of the last node. */
  function Plain<Node>(d: Derivation<Node>, node: Node, path: seq<u32>, wanted: bool, before: u32): Outcome<Node> {
    if path == [] then Outcome(true, node, before)
    else
      var parent := Derive(d, node, path[..|path| - 1]);
      if !parent.ok then Outcome(false, parent.node, before)
      else
        var (start, fp) := if wanted then d.fingerprint(parent.node) else (parent.node, before);
        var s := d.ckd(start, path[|path| - 1]);
        Outcome(s.ok, s.node, fp)
  }

  lemma DeriveNothing<Node>(d: Derivation<Node>, node: Node)
    ensures Derive(d, node, []) == Step(true, node)
  {
  }

  lemma {:induction false} DeriveSnoc<Node>(d: Derivation<Node>, node: Node, path: seq<u32>, i: u32)
    ensures Derive(d, node, path + [i])
         == if Derive(d, node, path).ok then d.ckd(Derive(d, node, path).node, i) else Derive(d, node, path)
  {
    if path == [] {
      var s := d.ckd(node, i);
      assert ([] + [i])[1..] == [];
    } else {
      var s := d.ckd(node, path[0]);
      assert (path + [i])[1..] == path[1..] + [i];
      if s.ok {
        DeriveSnoc(d, s.node, path[1..], i);
      }
    }
  }

  /** A failure in the middle of a path is the outcome of the whole path. */
  lemma {:induction false} DeriveStops<Node>(d: Derivation<Node>, node: Node, path: seq<u32>, k: nat)
    requires k <= |path| && !Derive(d, node, path[..k]).ok
    ensures Derive(d, node, path) == Derive(d, node, path[..k])
    decreases |path| - k
  {
    if k < |path| {
      DeriveSnoc(d, node, path[..k], path[k]);
      assert path[..k + 1] == path[..k] + [path[k]];
      DeriveStops(d, node, path, k + 1);
    } else {
      assert path[..k] == path;
    }
  }
}

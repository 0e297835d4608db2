/**
 * The binary Merkle commitment: a root built level by level from 32-byte
 * leaves, duplicating the last node of an odd level, and inclusion proofs
 * checked by re-hashing towards the root.
 *
 * SHA-256 is not modelled; every operation takes the hash as a parameter
 * `H` from byte strings to 32-byte digests and assumes nothing else of it.
 */
module Merkle {
  import opened Field

  /** A 32-byte SHA-256 output. */
  type Digest = s: seq<bv8> | |s| == 32 witness seq(32, _ => 0 as bv8)

  /** The hash of the concatenation left ‖ right. */
  function HashPair(H: seq<bv8> -> Digest, left: Digest, right: Digest): Digest
  {
    H(left + right)
  }

  /**
   * One level up: the nodes taken two at a time, each pair hashed, and a
   * lone last node hashed with itself.
   */
  function NextLevel(H: seq<bv8> -> Digest, level: seq<Digest>): (r: seq<Digest>)
    ensures |r| == (|level| + 1) / 2
    ensures forall k :: 0 <= k < |r| && 2 * k + 1 < |level| ==> r[k] == HashPair(H, level[2 * k], level[2 * k + 1])
    ensures forall k :: 0 <= k < |r| && 2 * k + 1 == |level| ==> r[k] == HashPair(H, level[2 * k], level[2 * k])
    decreases |level|
  {
    if |level| == 0 then []
    else if |level| == 1 then [HashPair(H, level[0], level[0])]
    else
      var rest := NextLevel(H, level[2..]);
      assert forall k :: 1 <= k < 1 + |rest| ==> level[2 * k] == level[2..][2 * (k - 1)];
      [HashPair(H, level[0], level[1])] + rest
  }

  /**
   * `MerkleTree::build_tree`: the root of the leaves. The Rust code recurses
   * forever on an empty list, so the leaves must be non-empty.
   */
  function BuildTree(H: seq<bv8> -> Digest, leaves: seq<Digest>): (root: Digest)
    requires |leaves| > 0
    ensures |leaves| == 1 ==> root == leaves[0]
    decreases |leaves|
  {
    if |leaves| == 1 then leaves[0] else BuildTree(H, NextLevel(H, leaves))
  }

  /** Two leaves: the root is the hash of their concatenation. */
  lemma BuildTwo(H: seq<bv8> -> Digest, a: Digest, b: Digest)
    ensures BuildTree(H, [a, b]) == HashPair(H, a, b)
  {
    assert NextLevel(H, [a, b]) == [HashPair(H, a, b)];
  }

  /** Three leaves: the lone third leaf is paired with itself. */
  lemma BuildThree(H: seq<bv8> -> Digest, a: Digest, b: Digest, c: Digest)
    ensures BuildTree(H, [a, b, c]) == HashPair(H, HashPair(H, a, b), HashPair(H, c, c))
  {
    var up := NextLevel(H, [a, b, c]);
    assert up == [HashPair(H, a, b), HashPair(H, c, c)];
    assert NextLevel(H, up) == [HashPair(H, up[0], up[1])];
  }

  /** The stored tree: its leaves and root. */
  datatype MerkleTree = MerkleTree(leaves: seq<Digest>, root: Digest)

  /** `get_root`: a read of the stored root. */
  function GetRoot(t: MerkleTree): Digest
  {
    t.root
  }

  /** An inclusion proof for one leaf. */
  datatype MerkleProof = MerkleProof(leafIndex: u64, leafValue: Digest, siblingHashes: seq<Digest>)

  /**
   * Re-hash `current` with each sibling in turn, current on the left when
   * `currentIsLeft` holds and on the right otherwise.
   */
  function Climb(H: seq<bv8> -> Digest, current: Digest, siblings: seq<Digest>, currentIsLeft: bool): Digest
    decreases |siblings|
  {
    if |siblings| == 0 then current
    else
      var up := if currentIsLeft then HashPair(H, current, siblings[0]) else HashPair(H, siblings[0], current);
      Climb(H, up, siblings[1..], currentIsLeft)
  }

  /**
   * `MerkleProof::verify`. The parity test reads `leafIndex` at every level
   * and the index is never halved, so one parity decides the order of every
   * concatenation on the path.
   */
  function Verify(H: seq<bv8> -> Digest, proof: MerkleProof, root: Digest): (ok: bool)
    ensures |proof.siblingHashes| == 0 ==> (ok <==> proof.leafValue == root)
  {
    Climb(H, proof.leafValue, proof.siblingHashes, proof.leafIndex % 2 == 0) == root
  }

  /** Verification consumes the first sibling and continues from the combined hash, index unchanged. */
  lemma VerifyStep(H: seq<bv8> -> Digest, proof: MerkleProof, root: Digest)
    requires |proof.siblingHashes| > 0
    ensures var s := proof.siblingHashes[0];
            var up := if proof.leafIndex % 2 == 0 then HashPair(H, proof.leafValue, s) else HashPair(H, s, proof.leafValue);
            Verify(H, proof, root) == Verify(H, MerkleProof(proof.leafIndex, up, proof.siblingHashes[1..]), root)
  {
  }

  /** Only the parity of the leaf index matters to the verdict. */
  lemma VerifyDependsOnlyOnParity(H: seq<bv8> -> Digest, p: MerkleProof, q: MerkleProof, root: Digest)
    requires p.leafValue == q.leafValue && p.siblingHashes == q.siblingHashes
    requires p.leafIndex % 2 == q.leafIndex % 2
    ensures Verify(H, p, root) == Verify(H, q, root)
  {
  }

  /** The authentication path of leaf 0: node 1 of every level below the root. */
  function ZeroPath(H: seq<bv8> -> Digest, level: seq<Digest>): (path: seq<Digest>)
    requires |level| > 0
    ensures |level| == 1 <==> |path| == 0
    ensures |level| > 1 ==> path[0] == level[1]
    decreases |level|
  {
    if |level| == 1 then [] else [level[1]] + ZeroPath(H, NextLevel(H, level))
  }

  /** Climbing from leaf 0 along its path, always on the left, reaches the root. */
  lemma {:induction false} ClimbZeroPath(H: seq<bv8> -> Digest, level: seq<Digest>)
    requires |level| > 0
    ensures Climb(H, level[0], ZeroPath(H, level), true) == BuildTree(H, level)
    decreases |level|
  {
    if |level| > 1 {
      var up := NextLevel(H, level);
      ClimbZeroPath(H, up);
      assert ZeroPath(H, level)[1..] == ZeroPath(H, up);
      assert up[0] == HashPair(H, level[0], level[1]);
    }
  }

  /**
   * Round trip for leaf 0: the proof made of node 1 of each level verifies
   * against the tree's root, for any non-empty list of leaves. Since only the
   * parity is read, the same proof verifies under any even index.
   */
  lemma RoundTripZero(H: seq<bv8> -> Digest, leaves: seq<Digest>, index: u64)
    requires |leaves| > 0 && index % 2 == 0
    ensures Verify(H, MerkleProof(index, leaves[0], ZeroPath(H, leaves)), BuildTree(H, leaves))
  {
    ClimbZeroPath(H, leaves);
  }

  /** Round trip in a two-leaf tree, for both leaves. */
  lemma RoundTripTwoLeaves(H: seq<bv8> -> Digest, a: Digest, b: Digest)
    ensures Verify(H, MerkleProof(0, a, [b]), BuildTree(H, [a, b]))
    ensures Verify(H, MerkleProof(1, b, [a]), BuildTree(H, [a, b]))
  {
    BuildTwo(H, a, b);
  }

  /**
   * Leaf 3 of four leaves: its index is odd, and it is the right child at
   * both levels, so the fixed parity happens to order both hashes correctly.
   */
  lemma RoundTripLastOfFour(H: seq<bv8> -> Digest, a: Digest, b: Digest, c: Digest, d: Digest)
    ensures Verify(H, MerkleProof(3, d, [c, HashPair(H, a, b)]), BuildTree(H, [a, b, c, d]))
  {
    BuildFour(H, a, b, c, d);
    var ab, cd := HashPair(H, a, b), HashPair(H, c, d);
    assert [c, ab][1..] == [ab];
    assert Climb(H, d, [c, ab], false) == Climb(H, cd, [ab], false);
    assert Climb(H, cd, [ab], false) == Climb(H, HashPair(H, ab, cd), [], false);
  }

  /**
   * Leaf 1 of four leaves: the index is odd at the leaf but its parent is a
   * left child, and the unhalved index still puts it on the right. The proof
   * made of its true siblings verifies only if the two level-one hashes
   * commute under HashPair.
   */
  lemma UnhalvedIndexLeafOne(H: seq<bv8> -> Digest, a: Digest, b: Digest, c: Digest, d: Digest)
    ensures Verify(H, MerkleProof(1, b, [a, HashPair(H, c, d)]), BuildTree(H, [a, b, c, d]))
            <==> HashPair(H, HashPair(H, c, d), HashPair(H, a, b)) == HashPair(H, HashPair(H, a, b), HashPair(H, c, d))
  {
    BuildFour(H, a, b, c, d);
    var ab, cd := HashPair(H, a, b), HashPair(H, c, d);
    assert [a, cd][1..] == [cd];
    assert Climb(H, b, [a, cd], false) == Climb(H, ab, [cd], false);
    assert Climb(H, ab, [cd], false) == Climb(H, HashPair(H, cd, ab), [], false);
  }

  /** Four leaves: two pairs hashed, then the two parents hashed. */
  lemma BuildFour(H: seq<bv8> -> Digest, a: Digest, b: Digest, c: Digest, d: Digest)
    ensures BuildTree(H, [a, b, c, d]) == HashPair(H, HashPair(H, a, b), HashPair(H, c, d))
  {
    var up := NextLevel(H, [a, b, c, d]);
    assert up == [HashPair(H, a, b), HashPair(H, c, d)];
    BuildTwo(H, up[0], up[1]);
  }
}

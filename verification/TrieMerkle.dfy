/** The recursive Merklization of a set of leaves (Gray Paper v0.7.2, Appendix D.2). */
module TrieMerkle {
  import opened TrieKeys
  import opened TrieNodes

  /** How sub-tries are hashed; `H` is the type of hashes and nothing is assumed about the functions. */
  datatype Hashing<!H> = Hashing(zero: H, leaf: LeafNode -> H, branch: (H, H) -> H)

  /** The hashing of the source: a hasher applied to the 64 bytes of a node. */
  function NodeHashing(hasher: RawNode -> Hash): Hashing<Hash> {
    Hashing(Zero(), (leaf: LeafNode) => hasher(Raw(Leaf(leaf))),
            (left: Hash, right: Hash) => hasher(Raw(BranchOf(left, right))))
  }

  /** The leaves whose bit at depth `d` is `bit`. */
  ghost function Side(s: set<LeafNode>, d: nat, bit: bool): set<LeafNode>
    requires d < KEY_BITS
  {
    set l | l in s && l.key[d] == bit
  }

  /**
   Root of the sub-trie at depth `d`: nothing, a single leaf, or a branch over the two sides.
   Two leaves that still collide after all 248 bits cannot have different keys (`DepthSuffices`).
   */
  ghost function MerkleRoot<H>(hs: Hashing<H>, s: set<LeafNode>, d: nat): H
    requires d <= KEY_BITS
    decreases KEY_BITS - d
  {
    if s == {} then hs.zero
    else
      var l :| l in s;
      if s == {l} then hs.leaf(l)
      else if d == KEY_BITS then hs.zero
      else hs.branch(MerkleRoot(hs, Side(s, d, false), d + 1), MerkleRoot(hs, Side(s, d, true), d + 1))
  }

  ghost predicate DistinctKeys(s: set<LeafNode>) {
    forall a, b | a in s && b in s && a.key == b.key :: a == b
  }

  lemma DistinctKeysSplit(s: set<LeafNode>, l: LeafNode)
    requires DistinctKeys(s) && l in s
    requires forall a | a in s :: a.key[..KEY_BITS] == l.key[..KEY_BITS]
    ensures s == {l}
  {
    forall a | a in s
      ensures a == l
    {
      assert a.key == a.key[..KEY_BITS] && l.key == l.key[..KEY_BITS];
    }
  }

  lemma MerkleSingle<H>(hs: Hashing<H>, l: LeafNode, d: nat)
    requires d <= KEY_BITS
    ensures MerkleRoot(hs, {l}, d) == hs.leaf(l)
  {
  }

  lemma MerkleBranch<H>(hs: Hashing<H>, s: set<LeafNode>, d: nat, a: LeafNode, b: LeafNode)
    requires d < KEY_BITS && a in s && b in s && a != b
    ensures MerkleRoot(hs, s, d)
         == hs.branch(MerkleRoot(hs, Side(s, d, false), d + 1), MerkleRoot(hs, Side(s, d, true), d + 1))
  {
  }

  /**
   Leaves with different keys: the recursion is that of the definition, and the bound on the depth never cuts it short.
   */
  lemma DepthSuffices<H>(hs: Hashing<H>, s: set<LeafNode>, d: nat, p: seq<bool>, l: LeafNode)
    requires DistinctKeys(s) && |p| == d <= KEY_BITS && l in s && forall a | a in s :: a.key[..d] == p
    ensures if s == {l} then MerkleRoot(hs, s, d) == hs.leaf(l)
            else
              && d < KEY_BITS
              && MerkleRoot(hs, s, d) ==
                  hs.branch(MerkleRoot(hs, Side(s, d, false), d + 1), MerkleRoot(hs, Side(s, d, true), d + 1))
              && forall bit, a | a in Side(s, d, bit) :: a.key[..d + 1] == p + [bit]
  {
    if s == {l} {
      MerkleSingle(hs, l, d);
    } else {
      if d == KEY_BITS {
        DistinctKeysSplit(s, l);
      }
      var a :| a in s && a != l;
      MerkleBranch(hs, s, d, a, l);
    }
  }

  /** The root depends on what the hash functions give only. */
  lemma {:induction false} SameHashing<H>(g: Hashing<H>, h: Hashing<H>, s: set<LeafNode>, d: nat)
    requires g.zero == h.zero && (forall l :: g.leaf(l) == h.leaf(l)) &&
        (forall a, b :: g.branch(a, b) == h.branch(a, b))
    requires d <= KEY_BITS
    ensures MerkleRoot(g, s, d) == MerkleRoot(h, s, d)
    decreases KEY_BITS - d
  {
    if d < KEY_BITS {
      SameHashing(g, h, Side(s, d, false), d + 1);
      SameHashing(g, h, Side(s, d, true), d + 1);
    }
  }
}

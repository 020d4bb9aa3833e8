/** The trie object: its root hash is the Merkle root of the last value written at each key. */
module Trie {
  import opened Bytes
  import opened TrieKeys
  import opened TrieNodes
  import opened TrieMerkle
  import opened TrieTree
  import opened TrieStore
  import opened TrieInsert
  import opened TrieRoot

  lemma {:induction false} NodesAreStored<H(!new)>(hs: Hashes<H>, db: map<H, Node<H>>, all: set<Node<H>>, t: Tree)
    requires Holds(hs, db, all, t)
    ensures NodesOf(hs, t) <= db.Values
  {
    if t != Nil {
      StoredNode(hs, db, all, t);
    }
    if t.Fork? {
      NodesAreStored(hs, db, all, t.left);
      NodesAreStored(hs, db, all, t.right);
    }
  }

  class InMemoryTrie<H(==,!new)> {
    const nodes: NodesDb<H>
    var root: Option<Node<H>>
    /** The trie that the stored nodes represent. */
    ghost var tree: Tree

    ghost predicate Valid()
      reads this, nodes
    {
      && nodes.hs.MaskLaws()
      && Canonical(tree, [])
      && root == (if tree == Nil then None else Some(NodeOf(nodes.hs, tree)))
      && Consistent(nodes.hs, nodes.nodes, nodes.nodes.Values)
      && NodesOf(nodes.hs, tree) <= nodes.nodes.Values
      && Slots(nodes.hs, tree) <= nodes.nodes.Keys
    }

    /** The leaves currently in the trie. */
    ghost function Entries(): set<LeafNode>
      reads this
    {
      Leaves(tree)
    }

    /** The store holds the nodes of the trie and nothing else. */
    ghost predicate Exact()
      reads this, nodes
    {
      nodes.nodes.Keys == Slots(nodes.hs, tree)
    }

    constructor (hs: Hashes<H>)
      requires hs.MaskLaws()
      ensures Valid() && Exact() && nodes.hs == hs && fresh(nodes) && Entries() == {} && nodes.nodes == map[] &&
          tree == Nil
    {
      nodes := new NodesDb(hs);
      root := None;
      tree := Nil;
    }

    /** `set`, for a leaf already built: no hash collision among the nodes involved is assumed. */
    method Set(leaf: LeafNode)
      requires Valid() && nodes.hs.CollisionFree(nodes.nodes.Values + NodesOf(nodes.hs, TreeWith(leaf)))
      modifies this, nodes`nodes
      ensures Valid() && tree == old(TreeWith(leaf)) && Entries() == Written(old(Entries()), leaf)
      ensures nodes.nodes.Values <= old(nodes.nodes.Values) + NodesOf(nodes.hs, tree)
      ensures old(Exact()) ==> (Exact() <==> !HeadOnlyChange(old(Entries()), leaf))
    {
      ghost var hs, t, all := nodes.hs, tree, nodes.nodes.Values + NodesOf(nodes.hs, TreeWith(leaf));
      assert leaf.key[..0] == [];
      var node := InsertLeaf(root, nodes, leaf, tree, all);
      root := Some(node);
      tree := TreeWith(leaf);
      PutCanonical(t, 0, leaf);
      NodesAreStored(hs, nodes.nodes, all, tree);
      LeftBehindIsForeign(hs, t, leaf, all);
    }

    /** The trie after `leaf` is written. */
    ghost function TreeWith(leaf: LeafNode): Tree
      requires Canonical(tree, [])
      reads this
    {
      assert leaf.key[..0] == [];
      Put(tree, 0, leaf)
    }

    /**
     A store that is exact holds the leaf nodes of the trie and no others, which is what iterating over its leaves
     gives.
     */
    lemma StoredLeaves(l: LeafNode)
      requires Valid() && Exact()
      ensures Leaf(l) in nodes.nodes.Values <==> l in Entries()
    {
      if l in Entries() {
        LeafHasNode(nodes.hs, tree, l);
      }
      if Leaf(l) in nodes.nodes.Values {
        var k :| k in nodes.nodes && nodes.nodes[k] == Leaf(l);
        var s := SlotHasTree(nodes.hs, tree, k);
        assert NodeOf(nodes.hs, s) in nodes.nodes.Values;
        var k' :| k' in nodes.nodes && nodes.nodes[k'] == NodeOf(nodes.hs, s);
        assert k' == k;
        SubSmaller(tree, s);
      }
    }

    method GetRootHash() returns (hash: H)
      requires Valid()
      ensures hash == MerkleRoot(nodes.hs.Merkle(), Entries(), 0)
    {
      CanonicalRoot(nodes.hs.Merkle(), tree, []);
      TreeHashIsRoot(nodes.hs, tree);
      hash := match root case None => nodes.hs.zero case Some(node) => nodes.hs.hash(node);
    }

    /** `fromLeaves`: leaves inserted one by one. */
    constructor FromLeaves(hs: Hashes<H>, leaves: seq<LeafNode>)
      requires hs.MaskLaws() && hs.CollisionFree(RunNodes(hs, leaves))
      ensures Valid() && nodes.hs == hs && fresh(nodes) && tree == RunTree(leaves) && Entries() == LastWritten(leaves)
      ensures NoHeadOnlyChange(leaves) ==> Exact()
    {
      hide RunTree, LastWritten, RunNodes, NoHeadOnlyChange;
      nodes := new NodesDb(hs);
      root := None;
      tree := Nil;
      new;
      assert leaves[..0] == [];
      EmptyRun(hs);
      for i := 0 to |leaves|
        invariant Valid() && nodes.hs == hs && fresh(nodes) && tree == RunTree(leaves[..i]) &&
            Entries() == LastWritten(leaves[..i])
        invariant nodes.nodes.Values <= RunNodes(hs, leaves[..i])
        invariant NoHeadOnlyChange(leaves[..i]) ==> Exact()
      {
        RunStep(hs, leaves, i);
        Set(leaves[i]);
      }
      assert leaves[..|leaves|] == leaves;
    }
  }

  /** A leaf of the same key and payload is there, differing in the head byte only. */
  ghost predicate HeadOnlyChange(s: set<LeafNode>, leaf: LeafNode) {
    exists l | l in s :: l.key == leaf.key && l.payload == leaf.payload && l != leaf
  }

  /** Writing the value [0] over an empty value is such a change: both are padded to the same 32 bytes. */
  lemma HeadOnlyChangeExample(key: Key, valueHash: Hash)
    ensures HeadOnlyChange({LeafOf(key, [], valueHash)}, LeafOf(key, [0], valueHash))
  {
    PayloadDoesNotDetermineLeaf(key, valueHash);
    var empty := LeafOf(key, [], valueHash);
    assert empty in {empty};
  }

  /** What is left behind belongs to no sub-trie of the new trie. */
  lemma LeftBehindIsForeign<H(!new)>(hs: Hashes<H>, t: Tree, leaf: LeafNode, all: set<Node<H>>)
    requires Canonical(t, leaf.key[..0]) && hs.MaskLaws() && hs.CollisionFree(all)
    requires NodesOf(hs, t) <= all && NodesOf(hs, Put(t, 0, leaf)) <= all
    ensures LeftBehind(hs, t, leaf) !! Slots(hs, Put(t, 0, leaf))
    ensures LeftBehind(hs, t, leaf) == {} <==> !HeadOnlyChange(Leaves(t), leaf)
  {
    PutCanonical(t, 0, leaf);
    forall l | l in Leaves(t) && l.key == leaf.key && l != leaf
      ensures hs.Slot(Leaf(l)) !in Slots(hs, Put(t, 0, leaf))
    {
      LeafHasNode(hs, t, l);
      assert l in Leaves(Single(l)) && l !in Leaves(Put(t, 0, leaf));
      if Single(l) in Subs(Put(t, 0, leaf)) {
        SubSmaller(Put(t, 0, leaf), Single(l));
      }
      SlotElsewhere(hs, all, Single(l), Put(t, 0, leaf));
    }
    if HeadOnlyChange(Leaves(t), leaf) {
      var l :| l in Leaves(t) && l.key == leaf.key && l.payload == leaf.payload && l != leaf;
      assert hs.Slot(Leaf(l)) in LeftBehind(hs, t, leaf);
    }
  }

  // ----- whole runs -----

  ghost function RunTree(leaves: seq<LeafNode>): (t: Tree)
    ensures Canonical(t, [])
  {
    if leaves == [] then Nil
    else
      var n, leaf := |leaves| - 1, leaves[|leaves| - 1];
      assert leaf.key[..0] == [];
      PutCanonical(RunTree(leaves[..n]), 0, leaf);
      Put(RunTree(leaves[..n]), 0, leaf)
  }

  /** The leaves left when each is written over earlier ones of the same key. */
  ghost function LastWritten(leaves: seq<LeafNode>): set<LeafNode> {
    if leaves == [] then {} else Written(LastWritten(leaves[..|leaves| - 1]), leaves[|leaves| - 1])
  }

  /** All nodes that ever exist while the leaves are inserted. */
  ghost function RunNodes<H(!new)>(hs: Hashes<H>, leaves: seq<LeafNode>): set<Node<H>> {
    NodesOf(hs, RunTree(leaves)) + if leaves == [] then {} else RunNodes(hs, leaves[..|leaves| - 1])
  }

  lemma {:induction false} RunNodesGrow<H(!new)>(hs: Hashes<H>, leaves: seq<LeafNode>, i: nat)
    requires i <= |leaves|
    ensures RunNodes(hs, leaves[..i]) <= RunNodes(hs, leaves)
    decreases |leaves| - i
  {
    if i < |leaves| {
      RunNodesGrow(hs, leaves, i + 1);
      assert leaves[..i + 1][..i] == leaves[..i];
    } else {
      assert leaves[..i] == leaves;
    }
  }

  /** Leaf `l` is written at position `i` and its key is not written again later. */
  ghost predicate LastAt(leaves: seq<LeafNode>, l: LeafNode, i: nat) {
    i < |leaves| && leaves[i] == l && forall j | i < j < |leaves| :: leaves[j].key != l.key
  }

  /** No write of the run replaces a leaf by one that differs in the head byte only. */
  ghost predicate NoHeadOnlyChange(leaves: seq<LeafNode>) {
    leaves == [] ||
    (NoHeadOnlyChange(leaves[..|leaves| - 1]) &&
        !HeadOnlyChange(LastWritten(leaves[..|leaves| - 1]), leaves[|leaves| - 1]))
  }

  lemma EmptyRun<H(!new)>(hs: Hashes<H>)
    ensures RunTree([]) == Nil && LastWritten([]) == {} && NoHeadOnlyChange([])
  {
  }

  lemma RunStep<H(!new)>(hs: Hashes<H>, leaves: seq<LeafNode>, i: nat)
    requires i < |leaves|
    ensures leaves[i].key[..0] == []
    ensures RunTree(leaves[..i + 1]) == Put(RunTree(leaves[..i]), 0, leaves[i])
    ensures LastWritten(leaves[..i + 1]) == Written(LastWritten(leaves[..i]), leaves[i])
    ensures RunNodes(hs, leaves[..i]) + NodesOf(hs, RunTree(leaves[..i + 1])) ==
        RunNodes(hs, leaves[..i + 1]) <= RunNodes(hs, leaves)
    ensures NoHeadOnlyChange(leaves[..i + 1]) <==>
            NoHeadOnlyChange(leaves[..i]) && !HeadOnlyChange(LastWritten(leaves[..i]), leaves[i])
  {
    assert leaves[..i + 1][..i] == leaves[..i];
    assert leaves[i].key[..0] == [];
    RunNodesGrow(hs, leaves, i + 1);
  }

  /** A leaf survives a run exactly when no later leaf has its key. */
  lemma {:induction false} LastWriteWins(leaves: seq<LeafNode>, l: LeafNode)
    ensures l in LastWritten(leaves) <==> exists i :: LastAt(leaves, l, i)
  {
    if leaves != [] {
      var n := |leaves| - 1;
      LastWriteWins(leaves[..n], l);
      LastAtLonger(leaves, l);
    }
  }

  lemma LastAtLonger(leaves: seq<LeafNode>, l: LeafNode)
    requires leaves != []
    ensures var n := |leaves| - 1;
            (exists i :: LastAt(leaves, l, i)) <==>
                leaves[n] == l || (leaves[n].key != l.key && exists i :: LastAt(leaves[..n], l, i))
  {
    var n := |leaves| - 1;
    assert leaves[n] == l ==> LastAt(leaves, l, n);
    forall i: nat | i < n
      ensures LastAt(leaves, l, i) <==> leaves[n].key != l.key && LastAt(leaves[..n], l, i)
    {
      assert forall j | i <= j < n :: leaves[..n][j] == leaves[j];
    }
  }

  lemma {:induction false} RunLeaves(leaves: seq<LeafNode>)
    ensures Leaves(RunTree(leaves)) == LastWritten(leaves)
  {
    if leaves != [] {
      var n, leaf := |leaves| - 1, leaves[|leaves| - 1];
      assert leaf.key[..0] == [];
      RunLeaves(leaves[..n]);
      PutCanonical(RunTree(leaves[..n]), 0, leaf);
    }
  }

  /** Runs that end with the same leaves end with the same trie, so neither order nor overwritten values matter. */
  lemma OrderDoesNotMatter(a: seq<LeafNode>, b: seq<LeafNode>)
    requires LastWritten(a) == LastWritten(b)
    ensures RunTree(a) == RunTree(b)
  {
    RunLeaves(a);
    RunLeaves(b);
    CanonicalUnique(RunTree(a), RunTree(b), []);
  }

  lemma {:induction false} DistinctLastWritten(leaves: seq<LeafNode>)
    requires forall i, j | 0 <= i < j < |leaves| :: leaves[i].key != leaves[j].key
    ensures LastWritten(leaves) == LeafSet(leaves)
  {
    if leaves != [] {
      var n := |leaves| - 1;
      DistinctLastWritten(leaves[..n]);
      assert leaves == leaves[..n] + [leaves[n]];
      assert forall l | l in LeafSet(leaves[..n]) :: l.key != leaves[n].key;
    }
  }

  lemma SortedKeysDistinct(leaves: seq<LeafNode>)
    requires Sorted(leaves)
    ensures forall i, j | 0 <= i < j < |leaves| :: leaves[i].key != leaves[j].key
  {
    forall i, j | 0 <= i < j < |leaves|
      ensures leaves[i].key != leaves[j].key
    {
      assert Before(leaves[i].key, leaves[j].key);
      SharedPrefixUnique(leaves[i].key, leaves[i].key, KEY_BITS);
    }
  }

  /** The stack pass and the incremental trie agree, outside the one family where the pass goes wrong. */
  method BothRoots<H(==,!new)>(hs: Hashes<H>, leaves: seq<LeafNode>) returns (passRoot: H, trieRoot: H)
    requires Sorted(leaves) && hs.MaskLaws() && hs.CollisionFree(RunNodes(hs, leaves))
    ensures trieRoot == MerkleRoot(hs.Merkle(), LeafSet(leaves), 0)
    ensures passRoot == if LoneLeft(leaves) then hs.Merkle().branch(hs.Merkle().leaf(leaves[0]), hs.zero) else trieRoot
  {
    SortedKeysDistinct(leaves);
    DistinctLastWritten(leaves);
    passRoot := ComputeStateRoot(hs.Merkle(), leaves);
    var trie := new InMemoryTrie<H>.FromLeaves(hs, leaves);
    trieRoot := trie.GetRootHash();
  }

  // ----- the hashes of the source -----

  /** The hashing of the source is the one both computations use with its node hashes. */
  lemma SourceMerkle(hasher: RawNode -> Hash, s: set<LeafNode>)
    ensures MerkleRoot(SourceHashes(hasher).Merkle(), s, 0) == MerkleRoot(NodeHashing(hasher), s, 0)
  {
    SourceHashesLaws(hasher);
    SameHashing(SourceHashes(hasher).Merkle(), NodeHashing(hasher), s, 0);
  }

  ghost predicate AllWellFormed(nodes: set<Node<Hash>>) {
    forall n | n in nodes :: WellFormed(n)
  }

  lemma {:induction false} TreeWellFormed(hasher: RawNode -> Hash, t: Tree)
    requires forall l | l in Leaves(t) :: WellFormed(Leaf(l))
    ensures AllWellFormed(NodesOf(SourceHashes(hasher), t))
  {
    match t
    case Nil =>
    case Single(_) =>
    case Fork(a, b) =>
      TreeWellFormed(hasher, a);
      TreeWellFormed(hasher, b);
      BranchFieldsRoundTrip(TreeHash(SourceHashes(hasher), a), TreeHash(SourceHashes(hasher), b));
  }

  lemma {:induction false} RunWellFormed(hasher: RawNode -> Hash, leaves: seq<LeafNode>)
    requires forall l | l in leaves :: WellFormed(Leaf(l))
    ensures AllWellFormed(RunNodes(SourceHashes(hasher), leaves)) && forall l | l in LastWritten(leaves) :: l in leaves
  {
    if leaves != [] {
      RunWellFormed(hasher, leaves[..|leaves| - 1]);
    }
    RunLeaves(leaves);
    TreeWellFormed(hasher, RunTree(leaves));
  }

  /** No two of the byte strings hash alike but for the first bit, and none hashes to zero but for it. */
  ghost predicate BytesCollisionFree(hasher: RawNode -> Hash, raws: set<RawNode>) {
    && (forall a, b | a in raws && b in raws && Masked(hasher(a)) == Masked(hasher(b)) :: a == b)
    && (forall a | a in raws :: Masked(hasher(a)) != Zero())
  }

  /** The 64-byte strings hashed while the leaves are inserted. */
  ghost function RunBytes(hasher: RawNode -> Hash, leaves: seq<LeafNode>): set<RawNode> {
    set n | n in RunNodes(SourceHashes(hasher), leaves) :: Raw(n)
  }

  /** Collisions of nodes are collisions of bytes. */
  lemma NodesFromBytes(hasher: RawNode -> Hash, leaves: seq<LeafNode>)
    requires forall l | l in leaves :: WellFormed(Leaf(l))
    requires BytesCollisionFree(hasher, RunBytes(hasher, leaves))
    ensures SourceHashes(hasher).MaskLaws() &&
        SourceHashes(hasher).CollisionFree(RunNodes(SourceHashes(hasher), leaves))
  {
    hide Raw, Masked, WellFormed;
    SourceHashesLaws(hasher);
    RunWellFormed(hasher, leaves);
    var nodes := RunNodes(SourceHashes(hasher), leaves);
    assert forall n | n in nodes :: Raw(n) in RunBytes(hasher, leaves);
    forall a, b | a in nodes && b in nodes && SourceHashes(hasher).Slot(a) == SourceHashes(hasher).Slot(b)
      ensures a == b
    {
      RawInjective(a, b);
    }
  }

  /**
   Both computations with 32-byte hashes of 64-byte nodes: the Merkle root with the source's hashing, but for the stack
   pass over leaves whose smallest is alone on the left.
   */
  method SourceRoots(hasher: RawNode -> Hash, leaves: seq<LeafNode>) returns (passRoot: Hash, trieRoot: Hash)
    requires Sorted(leaves) && forall l | l in leaves :: WellFormed(Leaf(l))
    requires BytesCollisionFree(hasher, RunBytes(hasher, leaves))
    ensures trieRoot == MerkleRoot(NodeHashing(hasher), LeafSet(leaves), 0)
    ensures passRoot == if LoneLeft(leaves) then hasher(Raw(BranchOf(hasher(Raw(Leaf(leaves[0]))), Zero())))
        else trieRoot
  {
    NodesFromBytes(hasher, leaves);
    SourceHashesLaws(hasher);
    SourceMerkle(hasher, LeafSet(leaves));
    passRoot, trieRoot := BothRoots(SourceHashes(hasher), leaves);
  }
}

/**
 The hash-addressed node store of the in-memory trie, and the walk that looks a key up in it.
 The store is keyed by hashes whose first bit is cleared, because a branch keeps its left hash that way.
 */
module TrieStore {
  import opened Bytes
  import opened TrieKeys
  import opened TrieNodes
  import opened TrieMerkle
  import opened TrieTree

  /** Hashing of nodes: `mask` clears the first bit, `hash` hashes the 64 bytes of a node. */
  datatype Hashes<!H(!new)> = Hashes(zero: H, mask: H -> H, hash: Node<H> -> H) {
    /** `BranchNode.fromSubNodes`. */
    function Branch(left: H, right: H): Node<H> {
      Node.Branch(mask(left), right)
    }

    /** The same hashing as the recursive Merklization sees it. */
    function Merkle(): Hashing<H> {
      Hashing(zero, (leaf: LeafNode) => hash(Leaf(leaf)), (left: H, right: H) => hash(Branch(left, right)))
    }

    ghost predicate MaskLaws() {
      && mask(zero) == zero
      && forall x :: mask(mask(x)) == mask(x)
    }

    /** Where a node is stored. */
    function Slot(n: Node<H>): H {
      mask(hash(n))
    }

    /** No two of the given nodes share a slot and none sits at zero. */
    ghost predicate CollisionFree(nodes: set<Node<H>>) {
      && (forall a, b | a in nodes && b in nodes && Slot(a) == Slot(b) :: a == b)
      && (forall a | a in nodes :: Slot(a) != zero)
    }
  }

  // ----- what a tree occupies in the store -----

  ghost function TreeHash<H(!new)>(hs: Hashes<H>, t: Tree): H
    decreases t, 1
  {
    if t == Nil then hs.zero else hs.hash(NodeOf(hs, t))
  }

  ghost function NodeOf<H(!new)>(hs: Hashes<H>, t: Tree): Node<H>
    requires t != Nil
    decreases t, 0
  {
    match t
    case Single(l) => Leaf(l)
    case Fork(a, b) => hs.Branch(TreeHash(hs, a), TreeHash(hs, b))
  }

  ghost function NodesOf<H(!new)>(hs: Hashes<H>, t: Tree): set<Node<H>> {
    match t
    case Nil => {}
    case Single(_) => {NodeOf(hs, t)}
    case Fork(a, b) => {NodeOf(hs, t)} + NodesOf(hs, a) + NodesOf(hs, b)
  }

  ghost function Slots<H(!new)>(hs: Hashes<H>, t: Tree): set<H> {
    match t
    case Nil => {}
    case Single(_) => {hs.Slot(NodeOf(hs, t))}
    case Fork(a, b) => {hs.Slot(NodeOf(hs, t))} + Slots(hs, a) + Slots(hs, b)
  }

  lemma {:induction false} TreeHashIsRoot<H(!new)>(hs: Hashes<H>, t: Tree)
    ensures TreeHash(hs, t) == RootOf(hs.Merkle(), t)
  {
    match t
    case Nil =>
    case Single(_) =>
    case Fork(a, b) =>
      TreeHashIsRoot(hs, a);
      TreeHashIsRoot(hs, b);
  }

  lemma {:induction false} SlotHasTree<H(!new)>(hs: Hashes<H>, t: Tree, k: H) returns (s: Tree)
    requires k in Slots(hs, t)
    ensures s in Subs(t) && s != Nil && k == hs.Slot(NodeOf(hs, s)) && NodeOf(hs, s) in NodesOf(hs, t)
  {
    if k == hs.Slot(NodeOf(hs, t)) {
      s := t;
    } else if k in Slots(hs, t.left) {
      s := SlotHasTree(hs, t.left, k);
    } else {
      s := SlotHasTree(hs, t.right, k);
    }
  }

  lemma {:induction false} TreeHasSlot<H(!new)>(hs: Hashes<H>, t: Tree, s: Tree)
    requires s in Subs(t)
    ensures s != Nil && hs.Slot(NodeOf(hs, s)) in Slots(hs, t) && NodesOf(hs, s) <= NodesOf(hs, t) &&
        Slots(hs, s) <= Slots(hs, t)
    ensures NodeOf(hs, s) in NodesOf(hs, s)
  {
    if s != t {
      TreeHasSlot(hs, if s in Subs(t.left) then t.left else t.right, s);
    }
  }

  /** Without collisions a slot determines the whole sub-trie. */
  lemma {:induction false} SlotDeterminesTree<H(!new)>(hs: Hashes<H>, nodes: set<Node<H>>, s: Tree, t: Tree)
    requires hs.MaskLaws() && hs.CollisionFree(nodes) && NodesOf(hs, s) <= nodes && NodesOf(hs, t) <= nodes
    requires hs.mask(TreeHash(hs, s)) == hs.mask(TreeHash(hs, t))
    ensures s == t
  {
    NodeInOwn(hs, s);
    NodeInOwn(hs, t);
    if s != Nil && t != Nil {
      assert NodeOf(hs, s) == NodeOf(hs, t);
      if s.Fork? {
        SlotDeterminesTree(hs, nodes, s.left, t.left);
        SlotDeterminesTree(hs, nodes, s.right, t.right);
      }
    }
  }

  lemma NodeInOwn<H(!new)>(hs: Hashes<H>, t: Tree)
    ensures t != Nil ==> NodeOf(hs, t) in NodesOf(hs, t)
  {
  }

  /** Trees without a common sub-trie occupy different slots. */
  lemma SlotsDisjoint<H(!new)>(hs: Hashes<H>, nodes: set<Node<H>>, s: Tree, t: Tree)
    requires hs.MaskLaws() && hs.CollisionFree(nodes) && NodesOf(hs, s) <= nodes && NodesOf(hs, t) <= nodes
    requires Subs(s) !! Subs(t)
    ensures Slots(hs, s) !! Slots(hs, t)
  {
    forall k | k in Slots(hs, s) && k in Slots(hs, t)
      ensures false
    {
      var s' := SlotHasTree(hs, s, k);
      var t' := SlotHasTree(hs, t, k);
      TreeHasSlot(hs, s, s');
      TreeHasSlot(hs, t, t');
      SlotDeterminesTree(hs, nodes, s', t');
    }
  }

  lemma SlotElsewhere<H(!new)>(hs: Hashes<H>, nodes: set<Node<H>>, s: Tree, t: Tree)
    requires hs.MaskLaws() && hs.CollisionFree(nodes) && NodesOf(hs, s) <= nodes && NodesOf(hs, t) <= nodes
    requires s != Nil && s !in Subs(t)
    ensures hs.Slot(NodeOf(hs, s)) !in Slots(hs, t)
  {
    var k := hs.Slot(NodeOf(hs, s));
    if k in Slots(hs, t) {
      var t' := SlotHasTree(hs, t, k);
      TreeHasSlot(hs, t, t');
      SlotDeterminesTree(hs, nodes, s, t');
    }
  }

  /** The instance the source uses: 32-byte hashes, first bit cleared by `& 0x7f`. */
  function SourceHashes(hasher: RawNode -> Hash): Hashes<Hash> {
    Hashes(Zero(), (x: Hash) => Masked(x), (n: Node<Hash>) => hasher(Raw(n)))
  }

  lemma SourceHashesLaws(hasher: RawNode -> Hash)
    ensures SourceHashes(hasher).MaskLaws()
    ensures forall l, r :: SourceHashes(hasher).Branch(l, r) == BranchOf(l, r)
  {
    MaskedTwice(Zero());
    forall x: Hash
      ensures Masked(Masked(x)) == Masked(x)
    {
      MaskedTwice(x);
    }
  }

  // ----- the store -----

  class NodesDb<H(==,!new)> {
    const hs: Hashes<H>
    var nodes: map<H, Node<H>>

    constructor (hs: Hashes<H>)
      ensures this.hs == hs && nodes == map[]
    {
      this.hs := hs;
      nodes := map[];
    }

    method Get(hash: H) returns (node: Option<Node<H>>)
      ensures node == if hs.mask(hash) in nodes then Some(nodes[hs.mask(hash)]) else None
    {
      var key := hs.mask(hash);
      node := if key in nodes then Some(nodes[key]) else None;
    }

    method Remove(hash: H)
      modifies this`nodes
      ensures nodes == old(nodes) - {hs.mask(hash)}
    {
      nodes := nodes - {hs.mask(hash)};
    }

    method Insert(node: Node<H>) returns (hash: H)
      modifies this`nodes
      ensures hash == hs.hash(node) && nodes == old(nodes)[hs.Slot(node) := node]
    {
      hash := hs.hash(node);
      nodes := nodes[hs.mask(hash) := node];
    }
  }

  /** Every stored node sits at its own slot and belongs to the given nodes. */
  ghost predicate Consistent<H(!new)>(hs: Hashes<H>, db: map<H, Node<H>>, all: set<Node<H>>) {
    forall k | k in db :: db[k] in all && k == hs.Slot(db[k])
  }

  /** What a walk needs to find its way: nothing collides, all of `t` is stored. */
  ghost predicate Holds<H(!new)>(hs: Hashes<H>, db: map<H, Node<H>>, all: set<Node<H>>, t: Tree) {
    && hs.MaskLaws() && hs.CollisionFree(all)
    && Consistent(hs, db, all)
    && NodesOf(hs, t) <= all
    && Slots(hs, t) <= db.Keys
  }

  lemma StoredNode<H(!new)>(hs: Hashes<H>, db: map<H, Node<H>>, all: set<Node<H>>, t: Tree)
    requires Holds(hs, db, all, t) && t != Nil
    ensures var k := hs.Slot(NodeOf(hs, t)); k in db && db[k] == NodeOf(hs, t) && k != hs.zero
  {
    NodeInOwn(hs, t);
  }

  // ----- walking down -----

  datatype Visited<H> = Visited(branch: Node<H>, hash: H, bit: bool)

  /** The sub-trie reached after `i` steps along `key`. */
  ghost function Walk(t: Tree, key: Path, i: nat): Tree
    requires i <= KEY_BITS
  {
    if i == 0 then t
    else
      var above := Walk(t, key, i - 1);
      if above.Fork? then Toward(above, key[i - 1]) else Nil
  }

  lemma {:induction false} WalkHolds<H(!new)>(hs: Hashes<H>, db: map<H, Node<H>>, all: set<Node<H>>, t: Tree,
      key: Path, i: nat)
    requires i <= KEY_BITS && Canonical(t, []) && Holds(hs, db, all, t)
    ensures Canonical(Walk(t, key, i), key[..i]) && Holds(hs, db, all, Walk(t, key, i))
  {
    if i > 0 {
      WalkHolds(hs, db, all, t, key, i - 1);
      assert key[..i] == key[..i - 1] + [key[i - 1]];
    }
  }

  /** The `i`-th entry of the history is the branch the walk passes at depth `i`, with a hash that finds it. */
  ghost predicate Visits<H(!new)>(hs: Hashes<H>, t: Tree, key: Path, i: nat, v: Visited<H>)
    requires i < KEY_BITS
  {
    var u := Walk(t, key, i);
    u.Fork? && v.branch == NodeOf(hs, u) && hs.mask(v.hash) == hs.Slot(NodeOf(hs, u)) && v.bit == key[i]
  }

  /** After `i` steps the walk stands at a node with a hash that finds it; only a left hash lacks its first bit. */
  ghost predicate Reaches<H(!new)>(hs: Hashes<H>, t: Tree, key: Path, i: nat, node: Node<H>, hash: H)
    requires i <= KEY_BITS
  {
    var u := Walk(t, key, i);
    && u != Nil && node == NodeOf(hs, u)
    && hs.mask(hash) == hs.Slot(node)
    && (i == 0 || key[i - 1] ==> hash == hs.hash(node))
  }

  /** One step down: the child is found in the store, or it is empty and its hash is zero. */
  lemma StepDown<H(!new)>(hs: Hashes<H>, db: map<H, Node<H>>, all: set<Node<H>>, t: Tree, key: Path, i: nat,
      node: Node<H>, hash: H)
    requires Canonical(t, []) && Holds(hs, db, all, t) && i <= KEY_BITS && Reaches(hs, t, key, i, node, hash) &&
        node.Branch?
    ensures i < KEY_BITS && Visits(hs, t, key, i, Visited(node, hash, key[i]))
    ensures var nextHash := if key[i] then node.right else node.left;
            if hs.mask(nextHash) in db then Reaches(hs, t, key, i + 1, db[hs.mask(nextHash)], nextHash)
            else Walk(t, key, i + 1) == Nil && nextHash == hs.zero
  {
    WalkHolds(hs, db, all, t, key, i);
    var u := Walk(t, key, i);
    WalkHolds(hs, db, all, t, key, i + 1);
    var next := Toward(u, key[i]);
    ZeroIsEmpty(hs, db, all);
    if next != Nil {
      StoredNode(hs, db, all, next);
    }
  }

  /** `findNodeToReplace`: no node on the way is missing, and the walk ends within 248 bits. */
  method FindNodeToReplace<H(==,!new)>(root: Node<H>, nodes: NodesDb<H>, key: Path, ghost t: Tree,
      ghost all: set<Node<H>>)
    returns (history: seq<Visited<H>>, leafToReplace: Option<(LeafNode, H)>)
    requires t != Nil && Canonical(t, []) && Holds(nodes.hs, nodes.nodes, all, t) && root == NodeOf(nodes.hs, t)
    ensures |history| <= KEY_BITS
    ensures forall i | 0 <= i < |history| :: Visits(nodes.hs, t, key, i, history[i])
    ensures match leafToReplace
            case None => Walk(t, key, |history|) == Nil
            case Some((x, hash)) =>
                Walk(t, key, |history|) == Single(x) &&
                Reaches(nodes.hs, t, key, |history|, Leaf(x), hash)
  {
    var currentNode := root;
    var currentNodeHash := nodes.hs.hash(root);
    history := [];
    while true
      invariant |history| <= KEY_BITS
      invariant forall i | 0 <= i < |history| :: Visits(nodes.hs, t, key, i, history[i])
      invariant Reaches(nodes.hs, t, key, |history|, currentNode, currentNodeHash)
      decreases KEY_BITS - |history|
    {
      if currentNode.Leaf? {
        return history, Some((currentNode.leaf, currentNodeHash));
      }
      StepDown(nodes.hs, nodes.nodes, all, t, key, |history|, currentNode, currentNodeHash);
      var currBit := key[|history|];
      var nextHash := if currBit then currentNode.right else currentNode.left;
      history := history + [Visited(currentNode, currentNodeHash, currBit)];
      var nextNode := nodes.Get(nextHash);
      if nextNode.None? {
        // the source reports a missing node unless the hash is zero
        assert nextHash == nodes.hs.zero;
        return history, None;
      }
      currentNode := nextNode.value;
      currentNodeHash := nextHash;
    }
  }

  lemma ZeroIsEmpty<H(!new)>(hs: Hashes<H>, db: map<H, Node<H>>, all: set<Node<H>>)
    requires hs.CollisionFree(all) && Consistent(hs, db, all)
    ensures hs.zero !in db
  {
  }
}

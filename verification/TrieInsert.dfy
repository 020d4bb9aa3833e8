/** The in-memory trie: every insertion rewrites the nodes on one path from the root. */
module TrieInsert {
  import opened Bytes
  import opened TrieKeys
  import opened TrieNodes
  import opened TrieMerkle
  import opened TrieTree
  import opened TrieStore

  /**
   Slots left behind when `leaf` is written over a different leaf with the same key and the same payload:
   the source compares payloads only, so it does not remove the old node.
   */
  ghost function LeftBehind<H(!new)>(hs: Hashes<H>, t: Tree, leaf: LeafNode): set<H> {
    set l | l in Leaves(t) && l.key == leaf.key && l.payload == leaf.payload && l != leaf :: hs.Slot(Leaf(l))
  }

  /** Slots in use after `t` has been replaced by `u`, given those in use before. */
  ghost function SlotsAfter<H(!new)>(hs: Hashes<H>, before: set<H>, t: Tree, u: Tree, stale: set<H>): set<H> {
    (before - Slots(hs, t)) + Slots(hs, u) + stale
  }

  // ----- replacing a leaf at the end of the walk -----

  /** The bits both keys have in common from depth `d` on, and the first bit of `y` that differs. */
  method CommonBits(x: Path, y: Path, d: nat) returns (commonBits: seq<bool>, divergingBit: bool)
    requires x != y && d < KEY_BITS && x[..d] == y[..d]
    ensures var m := d + |commonBits|;
            m < KEY_BITS && x[..m] == y[..m] && commonBits == y[d..m] && divergingBit == y[m] != x[m]
  {
    commonBits := [];
    var bitIndex := d;
    divergingBit := y[bitIndex];
    while divergingBit == x[bitIndex]
      invariant d <= bitIndex < KEY_BITS && x[..bitIndex] == y[..bitIndex]
      invariant commonBits == y[d..bitIndex] && divergingBit == y[bitIndex]
      decreases KEY_BITS - bitIndex
    {
      AgreeLonger(x, y, bitIndex);
      commonBits := commonBits + [divergingBit];
      bitIndex := bitIndex + 1;
      divergingBit := y[bitIndex];
    }
  }

  /** The fork at the bit where the keys part. */
  lemma JoinParts<H(!new)>(hs: Hashes<H>, x: LeafNode, y: LeafNode, d: nat)
    requires x.key != y.key && d < KEY_BITS && x.key[..d] == y.key[..d] && x.key[d] != y.key[d]
    ensures var t := Join(x, y, d);
            && t.Fork?
            && NodeOf(hs, t) == (if y.key[d] then hs.Branch(hs.hash(Leaf(x)), hs.hash(Leaf(y)))
                                 else hs.Branch(hs.hash(Leaf(y)), hs.hash(Leaf(x))))
            && Slots(hs, t) == {hs.Slot(NodeOf(hs, t)), hs.Slot(Leaf(x)), hs.Slot(Leaf(y))}
  {
    assert TreeHash(hs, Single(x)) == hs.hash(Leaf(x)) && TreeHash(hs, Single(y)) == hs.hash(Leaf(y));
    assert Slots(hs, Single(x)) == {hs.Slot(Leaf(x))} && Slots(hs, Single(y)) == {hs.Slot(Leaf(y))};
  }

  /** A branch above it, with nothing on the other side. */
  lemma JoinChain<H(!new)>(hs: Hashes<H>, x: LeafNode, y: LeafNode, d: nat)
    requires x.key != y.key && d < KEY_BITS && x.key[..d] == y.key[..d] && x.key[d] == y.key[d]
    ensures d + 1 < KEY_BITS && x.key[..d + 1] == y.key[..d + 1]
    ensures var t, below := Join(x, y, d), Join(x, y, d + 1);
            && t.Fork?
            && NodeOf(hs, t) == (if y.key[d] then hs.Branch(hs.zero, TreeHash(hs, below))
                                 else hs.Branch(TreeHash(hs, below), hs.zero))
            && Slots(hs, t) == {hs.Slot(NodeOf(hs, t))} + Slots(hs, below)
            && NodesOf(hs, below) <= NodesOf(hs, t)
  {
    AgreeLonger(x.key, y.key, d);
    assert TreeHash(hs, Nil) == hs.zero;
  }

  lemma {:induction false} JoinNodes<H(!new)>(hs: Hashes<H>, x: LeafNode, y: LeafNode, d: nat, i: nat)
    requires x.key != y.key && d <= i < KEY_BITS && x.key[..i] == y.key[..i]
    ensures x.key[..d] == y.key[..d] && NodesOf(hs, Join(x, y, i)) <= NodesOf(hs, Join(x, y, d))
    decreases i - d
  {
    assert x.key[..i][..d] == x.key[..d] && y.key[..i][..d] == y.key[..d];
    if d < i {
      assert x.key[..i][d] == y.key[..i][d];
      JoinChain(hs, x, y, d);
      JoinNodes(hs, x, y, d + 1, i);
    }
  }

  /** The branches down from depth `i` are built and stored, and nothing else has changed. */
  ghost predicate Built<H(!new)>(hs: Hashes<H>, x: LeafNode, y: LeafNode, i: nat, top: Node<H>, db: map<H, Node<H>>,
      before: set<H>,
                                 all: set<Node<H>>)
    requires x.key != y.key && i < KEY_BITS && x.key[..i] == y.key[..i]
  {
    && Join(x, y, i) != Nil && top == NodeOf(hs, Join(x, y, i))
    && Consistent(hs, db, all)
    && db.Keys == before + Slots(hs, Join(x, y, i))
  }

  lemma BuildFirst<H(!new)>(hs: Hashes<H>, x: LeafNode, y: LeafNode, d: nat, i: nat, top: Node<H>, db: map<H, Node<H>>,
                            all: set<Node<H>>)
    requires x.key != y.key && d <= i < KEY_BITS && x.key[..i] == y.key[..i] && x.key[i] != y.key[i]
    requires x.key[..d] == y.key[..d]
    requires Consistent(hs, db, all) && NodesOf(hs, Join(x, y, d)) <= all
    requires hs.Slot(Leaf(x)) in db && hs.Slot(Leaf(y)) in db
    requires top == if y.key[i] then hs.Branch(hs.hash(Leaf(x)), hs.hash(Leaf(y)))
        else hs.Branch(hs.hash(Leaf(y)), hs.hash(Leaf(x)))
    ensures Built(hs, x, y, i, top, db[hs.Slot(top) := top], db.Keys, all)
  {
    JoinParts(hs, x, y, i);
    JoinNodes(hs, x, y, d, i);
    NodeInOwn(hs, Join(x, y, i));
  }

  lemma BuildNext<H(!new)>(hs: Hashes<H>, x: LeafNode, y: LeafNode, d: nat, i: nat, below: Node<H>, top: Node<H>,
                           db: map<H, Node<H>>, before: set<H>, all: set<Node<H>>)
    requires x.key != y.key && d <= i && i + 1 < KEY_BITS && x.key[..i + 1] == y.key[..i + 1] &&
        x.key[..d] == y.key[..d]
    requires NodesOf(hs, Join(x, y, d)) <= all && Built(hs, x, y, i + 1, below, db, before, all)
    requires top == if y.key[i] then hs.Branch(hs.zero, hs.hash(below)) else hs.Branch(hs.hash(below), hs.zero)
    ensures x.key[..i] == y.key[..i] && Built(hs, x, y, i, top, db[hs.Slot(top) := top], before, all)
  {
    assert x.key[..i + 1][..i] == x.key[..i] && y.key[..i + 1][..i] == y.key[..i];
    assert x.key[..i + 1][i] == y.key[..i + 1][i];
    JoinChain(hs, x, y, i);
    JoinNodes(hs, x, y, d, i);
    NodeInOwn(hs, Join(x, y, i));
  }

  /** `createSubtreeForBothLeaves` for different keys: build the branches that separate the leaves, deepest first. */
  method CreateSubtree<H(==,!new)>(nodes: NodesDb<H>, x: LeafNode, oldHash: H, leafWasInLeftBranch: bool,
      leaf: LeafNode,
                                   leafHash: H, d: nat, ghost all: set<Node<H>>)
    returns (lastBranch: Node<H>, lastHash: H)
    requires x.key != leaf.key && d < KEY_BITS && x.key[..d] == leaf.key[..d]
    requires nodes.hs.MaskLaws() && nodes.hs.mask(oldHash) == nodes.hs.Slot(Leaf(x))
    requires !leafWasInLeftBranch ==> oldHash == nodes.hs.hash(Leaf(x))
    requires leafHash == nodes.hs.hash(Leaf(leaf))
    requires Consistent(nodes.hs, nodes.nodes, all) && NodesOf(nodes.hs, Join(x, leaf, d)) <= all
    requires nodes.hs.Slot(Leaf(x)) in nodes.nodes && nodes.hs.Slot(Leaf(leaf)) in nodes.nodes
    modifies nodes`nodes
    ensures Built(nodes.hs, x, leaf, d, lastBranch, nodes.nodes, old(nodes.nodes.Keys), all)
    ensures lastHash == nodes.hs.hash(lastBranch)
  {
    hide Built, Join, Consistent;
    var commonBits, divergingBit := CommonBits(x.key, leaf.key, d);
    ghost var i := d + |commonBits|;
    // a leaf that moves from a left to a right branch needs its first hash bit back
    var existingHash := if leafWasInLeftBranch && !divergingBit then nodes.hs.hash(Leaf(x)) else oldHash;
    lastBranch := if divergingBit then nodes.hs.Branch(existingHash, leafHash)
        else nodes.hs.Branch(leafHash, existingHash);
    BuildFirst(nodes.hs, x, leaf, d, i, lastBranch, nodes.nodes, all);
    lastHash := nodes.Insert(lastBranch);
    while |commonBits| > 0
      invariant i == d + |commonBits| < KEY_BITS && x.key[..i] == leaf.key[..i] && commonBits == leaf.key[d..i]
      invariant Built(nodes.hs, x, leaf, i, lastBranch, nodes.nodes, old(nodes.nodes.Keys), all)
      invariant lastHash == nodes.hs.hash(lastBranch)
      decreases |commonBits|
    {
      var bit := commonBits[|commonBits| - 1];
      commonBits := commonBits[..|commonBits| - 1];
      i := i - 1;
      ghost var below := lastBranch;
      lastBranch := if bit then nodes.hs.Branch(nodes.hs.zero, lastHash) else nodes.hs.Branch(lastHash, nodes.hs.zero);
      BuildNext(nodes.hs, x, leaf, d, i, below, lastBranch, nodes.nodes, old(nodes.nodes.Keys), all);
      lastHash := nodes.Insert(lastBranch);
    }
  }

  /** The sub-trie `u` at depth `d` has been replaced in the store by `u` with `leaf` written to it. */
  ghost predicate Rewritten<H(!new)>(hs: Hashes<H>, u: Tree, d: nat, leaf: LeafNode, top: Node<H>, db: map<H,
      Node<H>>, before: set<H>,
                                     stale: set<H>, all: set<Node<H>>)
    requires d <= KEY_BITS && Canonical(u, leaf.key[..d])
  {
    var w := Put(u, d, leaf);
    && w != Nil && top == NodeOf(hs, w)
    && Consistent(hs, db, all)
    && db.Keys == SlotsAfter(hs, before, u, w, stale)
  }

  /** What is known before the leaf is placed at the end of the walk. */
  ghost predicate Placeable<H(!new)>(hs: Hashes<H>, u: Tree, d: nat, leaf: LeafNode, db: map<H, Node<H>>,
      all: set<Node<H>>) {
    && d <= KEY_BITS && Canonical(u, leaf.key[..d])
    && Holds(hs, db, all, u) && NodesOf(hs, Put(u, d, leaf)) <= all
  }

  /** `createSubtreeForBothLeaves`, or the plain insertion at an empty spot. */
  method PlaceLeaf<H(==,!new)>(nodes: NodesDb<H>, leafToReplace: Option<(LeafNode, H)>, leafWasInLeftBranch: bool,
      d: nat,
                               leaf: LeafNode, ghost u: Tree, ghost all: set<Node<H>>)
    returns (node: Node<H>, hash: H)
    requires Placeable(nodes.hs, u, d, leaf, nodes.nodes, all)
    requires match leafToReplace
             case None => u == Nil
             case Some((x, oldHash)) =>
               && u == Single(x)
               && nodes.hs.mask(oldHash) == nodes.hs.Slot(Leaf(x))
               && (!leafWasInLeftBranch ==> oldHash == nodes.hs.hash(Leaf(x)))
    modifies nodes`nodes
    ensures Rewritten(nodes.hs, u, d, leaf, node, nodes.nodes, old(nodes.nodes.Keys), LeftBehind(nodes.hs, u, leaf),
        all)
    ensures hash == nodes.hs.hash(node)
  {
    node := Leaf(leaf);
    LeafIsPlaced(nodes.hs, u, d, leaf);
    match leafToReplace {
      case None =>
        hash := nodes.Insert(node);
      case Some((x, oldHash)) =>
        var leafHash := nodes.Insert(node);
        if x.key == leaf.key {
          SameKeySlots(nodes.hs, x, leaf, all);
          if x.payload != leaf.payload {
            nodes.Remove(oldHash);
          }
          return node, leafHash;
        }
        BelowAllBits(x.key, leaf.key, d);
        JoinHoldsLeaves(nodes.hs, x, leaf, d);
        node, hash := CreateSubtree(nodes, x, oldHash, leafWasInLeftBranch, leaf, leafHash, d, all);
    }
  }

  lemma {:induction false} JoinHoldsLeaves<H(!new)>(hs: Hashes<H>, x: LeafNode, y: LeafNode, d: nat)
    requires x.key != y.key && d < KEY_BITS && x.key[..d] == y.key[..d]
    ensures hs.Slot(Leaf(x)) in Slots(hs, Join(x, y, d)) && hs.Slot(Leaf(y)) in Slots(hs, Join(x, y, d))
    ensures Leaf(x) in NodesOf(hs, Join(x, y, d)) && Leaf(y) in NodesOf(hs, Join(x, y, d))
    decreases KEY_BITS - d
  {
    if x.key[d] != y.key[d] {
      JoinParts(hs, x, y, d);
    } else {
      JoinChain(hs, x, y, d);
      JoinHoldsLeaves(hs, x, y, d + 1);
    }
  }

  lemma LeafIsPlaced<H(!new)>(hs: Hashes<H>, u: Tree, d: nat, leaf: LeafNode)
    requires !u.Fork? && d <= KEY_BITS && Canonical(u, leaf.key[..d])
    ensures Leaf(leaf) in NodesOf(hs, Put(u, d, leaf)) && hs.Slot(Leaf(leaf)) in Slots(hs, Put(u, d, leaf))
    ensures LeftBehind(hs, u, leaf)
         == if u.Single? && u.leaf.key == leaf.key && u.leaf.payload == leaf.payload &&
             u.leaf != leaf then {hs.Slot(Leaf(u.leaf))} else {}
  {
    if u.Single? && u.leaf.key != leaf.key {
      BelowAllBits(u.leaf.key, leaf.key, d);
      JoinHoldsLeaves(hs, u.leaf, leaf, d);
    }
  }

  lemma SameKeySlots<H(!new)>(hs: Hashes<H>, x: LeafNode, leaf: LeafNode, all: set<Node<H>>)
    requires hs.CollisionFree(all) && Leaf(x) in all && Leaf(leaf) in all
    ensures hs.Slot(Leaf(x)) == hs.Slot(Leaf(leaf)) <==> x == leaf
  {
  }

  // ----- updating the path to the root -----

  lemma {:induction false} LeafHasNode<H(!new)>(hs: Hashes<H>, t: Tree, l: LeafNode)
    requires l in Leaves(t)
    ensures Leaf(l) in NodesOf(hs, t) && hs.Slot(Leaf(l)) in Slots(hs, t) && Single(l) in Subs(t)
  {
    if t.Fork? {
      LeafHasNode(hs, if l in Leaves(t.left) then t.left else t.right, l);
    }
  }

  /** A leaf with the written key can only be on the path. */
  lemma LeftBehindOnPath<H(!new)>(hs: Hashes<H>, t: Tree, d: nat, leaf: LeafNode)
    requires d < KEY_BITS && t.Fork? && Canonical(t, leaf.key[..d])
    ensures LeftBehind(hs, t, leaf) == LeftBehind(hs, Toward(t, leaf.key[d]), leaf)
  {
    SidesOfFork(t.left, t.right, leaf.key[..d]);
    var c := Toward(t, leaf.key[d]);
    forall l | l in Leaves(t) && l.key == leaf.key
      ensures l in Leaves(c)
    {
      assert l in Side(Leaves(t), d, leaf.key[d]);
    }
  }

  lemma {:induction false} LeftBehindDown<H(!new)>(hs: Hashes<H>, t: Tree, leaf: LeafNode, i: nat)
    requires i <= KEY_BITS && Canonical(t, []) && forall j | 0 <= j < i :: Walk(t, leaf.key, j).Fork?
    ensures LeftBehind(hs, t, leaf) == LeftBehind(hs, Walk(t, leaf.key, i), leaf)
  {
    if i > 0 {
      LeftBehindDown(hs, t, leaf, i - 1);
      WalkCanonical(t, leaf.key, i - 1);
      LeftBehindOnPath(hs, Walk(t, leaf.key, i - 1), i - 1, leaf);
    }
  }

  lemma {:induction false} WalkCanonical(t: Tree, key: Path, i: nat)
    requires i <= KEY_BITS && Canonical(t, [])
    ensures Canonical(Walk(t, key, i), key[..i])
  {
    if i > 0 {
      WalkCanonical(t, key, i - 1);
      assert key[..i] == key[..i - 1] + [key[i - 1]];
    }
  }

  lemma ForkSlots<H(!new)>(hs: Hashes<H>, t: Tree, bit: bool)
    requires t.Fork?
    ensures Slots(hs, t) == {hs.Slot(NodeOf(hs, t))} + Slots(hs, Toward(t, bit)) + Slots(hs, Toward(t, !bit))
    ensures NodesOf(hs, t) == {NodeOf(hs, t)} + NodesOf(hs, Toward(t, bit)) + NodesOf(hs, Toward(t, !bit))
  {
  }

  /** The written fork keeps the sibling and takes the written child. */
  lemma PutFork<H(!new)>(hs: Hashes<H>, t: Tree, d: nat, leaf: LeafNode)
    requires d < KEY_BITS && t.Fork? && Canonical(t, leaf.key[..d])
    ensures Canonical(Toward(t, leaf.key[d]), leaf.key[..d + 1])
    ensures var bit, u := leaf.key[d], Put(t, d, leaf);
            u.Fork? && Toward(u, bit) == Put(Toward(t, bit), d + 1, leaf) && Toward(u, !bit) == Toward(t, !bit)
  {
    assert leaf.key[..d + 1] == leaf.key[..d] + [leaf.key[d]];
  }

  /** The slots an old fork gives up are neither its sibling's nor its new child's, so removing it loses nothing. */
  lemma RemovalIsSafe<H(!new)>(hs: Hashes<H>, t: Tree, d: nat, leaf: LeafNode, all: set<Node<H>>)
    requires hs.MaskLaws() && hs.CollisionFree(all) && d < KEY_BITS && t.Fork? && Canonical(t, leaf.key[..d])
    requires NodesOf(hs, t) <= all && NodesOf(hs, Put(t, d, leaf)) <= all
    ensures Canonical(Toward(t, leaf.key[d]), leaf.key[..d + 1])
    ensures var bit, k := leaf.key[d], hs.Slot(NodeOf(hs, t));
            && k !in Slots(hs, Toward(t, !bit))
            && k !in Slots(hs, Put(Toward(t, bit), d + 1, leaf))
            && k !in LeftBehind(hs, t, leaf)
            && Slots(hs, Toward(t, !bit)) !! Slots(hs, Toward(t, bit))
  {
    var bit := leaf.key[d];
    PutFork(hs, t, d, leaf);
    ForkSlots(hs, t, bit);
    ForkSlots(hs, Put(t, d, leaf), bit);
    ForkIsNotBelow(t, d, leaf);
    SlotElsewhere(hs, all, t, Toward(t, !bit));
    SlotElsewhere(hs, all, t, Put(Toward(t, bit), d + 1, leaf));
    ChildrenDisjoint(t.left, t.right, leaf.key[..d]);
    SlotsDisjoint(hs, all, Toward(t, !bit), Toward(t, bit));
    NodeInOwn(hs, t);
    forall l | l in Leaves(t) && hs.Slot(Leaf(l)) == hs.Slot(NodeOf(hs, t))
      ensures false
    {
      LeafHasNode(hs, t, l);
    }
  }

  /** One turn of the loop that updates the traversed path. */
  lemma ClimbStep<H(!new)>(hs: Hashes<H>, t: Tree, d: nat, leaf: LeafNode, below: Node<H>, v: Visited<H>, top: Node<H>,
                           db: map<H, Node<H>>, before: set<H>, all: set<Node<H>>)
    requires hs.MaskLaws() && hs.CollisionFree(all) && d < KEY_BITS && t.Fork? && Canonical(t, leaf.key[..d])
    requires NodesOf(hs, t) <= all && NodesOf(hs, Put(t, d, leaf)) <= all && Slots(hs, t) <= before
    requires Canonical(Toward(t, leaf.key[d]), leaf.key[..d + 1])
    requires Rewritten(hs, Toward(t, leaf.key[d]), d + 1, leaf, below, db, before,
        LeftBehind(hs, Toward(t, leaf.key[d]), leaf), all)
    requires v.branch == NodeOf(hs, t) && hs.mask(v.hash) == hs.Slot(NodeOf(hs, t)) && v.bit == leaf.key[d]
    requires top == if v.bit then hs.Branch(v.branch.left, hs.hash(below))
        else hs.Branch(hs.hash(below), v.branch.right)
    ensures Rewritten(hs, t, d, leaf, top, (db - {hs.mask(v.hash)})[hs.Slot(top) := top], before,
        LeftBehind(hs, t, leaf), all)
  {
    var child := Toward(t, leaf.key[d]);
    ClimbTop(hs, t, d, leaf, below, top);
    ClimbSlots(hs, t, d, leaf, before, all);
    LeftBehindOnPath(hs, t, d, leaf);
    NodeInOwn(hs, Put(t, d, leaf));
  }

  lemma ClimbTop<H(!new)>(hs: Hashes<H>, t: Tree, d: nat, leaf: LeafNode, below: Node<H>, top: Node<H>)
    requires hs.MaskLaws() && d < KEY_BITS && t.Fork? && Canonical(t, leaf.key[..d])
    requires Canonical(Toward(t, leaf.key[d]), leaf.key[..d + 1])
    requires var w := Put(Toward(t, leaf.key[d]), d + 1, leaf); w != Nil && below == NodeOf(hs, w)
    requires top == if leaf.key[d] then hs.Branch(NodeOf(hs, t).left, hs.hash(below))
        else hs.Branch(hs.hash(below), NodeOf(hs, t).right)
    ensures Put(t, d, leaf) != Nil && top == NodeOf(hs, Put(t, d, leaf))
  {
    PutFork(hs, t, d, leaf);
    assert TreeHash(hs, Put(Toward(t, leaf.key[d]), d + 1, leaf)) == hs.hash(below);
  }

  lemma ClimbSlots<H(!new)>(hs: Hashes<H>, t: Tree, d: nat, leaf: LeafNode, before: set<H>, all: set<Node<H>>)
    requires hs.MaskLaws() && hs.CollisionFree(all) && d < KEY_BITS && t.Fork? && Canonical(t, leaf.key[..d])
    requires NodesOf(hs, t) <= all && NodesOf(hs, Put(t, d, leaf)) <= all && Slots(hs, t) <= before
    requires Canonical(Toward(t, leaf.key[d]), leaf.key[..d + 1]) && Put(t, d, leaf) != Nil
    ensures var child, stale := Toward(t, leaf.key[d]), LeftBehind(hs, t, leaf);
            var kept := SlotsAfter(hs, before, child, Put(child, d + 1, leaf), stale) - {hs.Slot(NodeOf(hs, t))};
            kept + {hs.Slot(NodeOf(hs, Put(t, d, leaf)))} == SlotsAfter(hs, before, t, Put(t, d, leaf), stale)
  {
    var bit, u := leaf.key[d], Put(t, d, leaf);
    PutFork(hs, t, d, leaf);
    RemovalIsSafe(hs, t, d, leaf, all);
    ForkSlots(hs, t, bit);
    ForkSlots(hs, u, bit);
    SlotAlgebra(before, hs.Slot(NodeOf(hs, t)), hs.Slot(NodeOf(hs, u)), Slots(hs, Toward(t, bit)),
        Slots(hs, Toward(t, !bit)),
                Slots(hs, Put(Toward(t, bit), d + 1, leaf)), LeftBehind(hs, t, leaf));
  }

  lemma SlotAlgebra<H>(before: set<H>, old_: H, new_: H, child: set<H>, sibling: set<H>, newChild: set<H>,
      stale: set<H>)
    requires sibling <= before && old_ !in sibling && old_ !in newChild && old_ !in stale && sibling !! child
    ensures ((before - child) + newChild + stale) - {old_} + {new_}
         == (before - ({old_} + child + sibling)) + ({new_} + newChild + sibling) + stale
  {
  }

  /** Along the walk the rewritten sub-tries stay inside the rewritten trie. */
  lemma {:induction false} PutAlongWalk<H(!new)>(hs: Hashes<H>, db: map<H, Node<H>>, t: Tree, leaf: LeafNode, i: nat,
      all: set<Node<H>>)
    requires Placeable(hs, t, 0, leaf, db, all) && i <= KEY_BITS && forall j | 0 <= j < i :: Walk(t, leaf.key, j).Fork?
    ensures Placeable(hs, Walk(t, leaf.key, i), i, leaf, db, all)
  {
    assert leaf.key[..0] == [];
    if i > 0 {
      PutAlongWalk(hs, db, t, leaf, i - 1, all);
      WalkHolds(hs, db, all, t, leaf.key, i);
      var above := Walk(t, leaf.key, i - 1);
      PutFork(hs, above, i - 1, leaf);
      ForkSlots(hs, Put(above, i - 1, leaf), leaf.key[i - 1]);
    }
  }

  /**
   `trieInsert`: the new root is the root of the trie with the leaf written to it, every sub-trie of which
   is stored; of the old slots exactly those of the old trie are given up, except for a leaf left behind.
   */
  method InsertLeaf<H(==,!new)>(root: Option<Node<H>>, nodes: NodesDb<H>, leaf: LeafNode, ghost t: Tree,
      ghost all: set<Node<H>>)
    returns (newRoot: Node<H>)
    requires Placeable(nodes.hs, t, 0, leaf, nodes.nodes, all)
    requires root == if t == Nil then None else Some(NodeOf(nodes.hs, t))
    modifies nodes`nodes
    ensures Rewritten(nodes.hs, t, 0, leaf, newRoot, nodes.nodes, old(nodes.nodes.Keys),
        LeftBehind(nodes.hs, t, leaf), all)
  {
    assert leaf.key[..0] == [];
    if root.None? {
      ghost var before := nodes.nodes;
      newRoot := Leaf(leaf);
      var _ := nodes.Insert(newRoot);
      return;
    }
    var history, leafToReplace := FindNodeToReplace(root.value, nodes, leaf.key, t, all);
    var n := |history|;
    forall i | 0 <= i < n
      ensures Walk(t, leaf.key, i).Fork?
    {
      assert Visits(nodes.hs, t, leaf.key, i, history[i]);
    }
    PutAlongWalk(nodes.hs, nodes.nodes, t, leaf, n, all);
    ghost var stored := nodes.nodes;
    var wasLeft := n > 0 && !history[n - 1].bit;
    var lastNode, lastHash := PlaceLeaf(nodes, leafToReplace, wasLeft, n, leaf, Walk(t, leaf.key, n), all);
    for i := n downto 0
      invariant Canonical(Walk(t, leaf.key, i), leaf.key[..i])
      invariant Rewritten(nodes.hs, Walk(t, leaf.key, i), i, leaf, lastNode, nodes.nodes, stored.Keys,
                          LeftBehind(nodes.hs, Walk(t, leaf.key, i), leaf), all)
      invariant lastHash == nodes.hs.hash(lastNode)
    {
      var v := history[i];
      assert Visits(nodes.hs, t, leaf.key, i, v);
      PutAlongWalk(nodes.hs, stored, t, leaf, i, all);
      var newBranch := if v.bit then nodes.hs.Branch(v.branch.left, lastHash)
          else nodes.hs.Branch(lastHash, v.branch.right);
      ClimbStep(nodes.hs, Walk(t, leaf.key, i), i, leaf, lastNode, v, newBranch, nodes.nodes, stored.Keys, all);
      nodes.Remove(v.hash);
      lastHash := nodes.Insert(newBranch);
      lastNode := newBranch;
    }
    newRoot := lastNode;
  }
}

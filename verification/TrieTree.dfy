/** Sub-tries as values: what the hash-addressed nodes of an in-memory trie represent. */
module TrieTree {
  import opened TrieKeys
  import opened TrieNodes
  import opened TrieMerkle

  datatype Tree = Nil | Single(leaf: LeafNode) | Fork(left: Tree, right: Tree)

  ghost function Leaves(t: Tree): set<LeafNode> {
    match t
    case Nil => {}
    case Single(l) => {l}
    case Fork(a, b) => Leaves(a) + Leaves(b)
  }

  ghost function Size(t: Tree): nat {
    match t
    case Nil => 0
    case Single(_) => 1
    case Fork(a, b) => 1 + Size(a) + Size(b)
  }

  /** The non-empty sub-tries of `t`. */
  ghost function Subs(t: Tree): set<Tree> {
    match t
    case Nil => {}
    case Single(_) => {t}
    case Fork(a, b) => {t} + Subs(a) + Subs(b)
  }

  /** The trie at the end of prefix `p`: keys start with `p`, and a fork holds at least two leaves. */
  ghost predicate Canonical(t: Tree, p: seq<bool>) {
    match t
    case Nil => true
    case Single(l) => |p| <= KEY_BITS && l.key[..|p|] == p
    case Fork(a, b) =>
      && |p| < KEY_BITS
      && !(a.Nil? && !b.Fork?) && !(b.Nil? && !a.Fork?)
      && Canonical(a, p + [false]) && Canonical(b, p + [true])
  }

  // ----- a canonical trie hashes to the Merkle root of its leaves -----

  lemma {:induction false} LeavesSharePrefix(t: Tree, p: seq<bool>)
    requires Canonical(t, p)
    ensures forall l | l in Leaves(t) :: |p| <= KEY_BITS && l.key[..|p|] == p
  {
    match t
    case Nil =>
    case Single(_) =>
    case Fork(a, b) =>
      LeavesSharePrefix(a, p + [false]);
      LeavesSharePrefix(b, p + [true]);
      forall l | l in Leaves(t)
        ensures l.key[..|p|] == p
      {
        assert l.key[..|p|] == l.key[..|p| + 1][..|p|];
      }
  }

  lemma {:induction false} SidesOfFork(a: Tree, b: Tree, p: seq<bool>)
    requires Canonical(Fork(a, b), p)
    ensures Side(Leaves(Fork(a, b)), |p|, false) == Leaves(a)
    ensures Side(Leaves(Fork(a, b)), |p|, true) == Leaves(b)
    ensures Leaves(a) !! Leaves(b)
  {
    LeavesSharePrefix(a, p + [false]);
    LeavesSharePrefix(b, p + [true]);
    forall l | l in Leaves(a)
      ensures !l.key[|p|]
    {
      assert l.key[..|p| + 1][|p|] == (p + [false])[|p|];
    }
    forall l | l in Leaves(b)
      ensures l.key[|p|]
    {
      assert l.key[..|p| + 1][|p|] == (p + [true])[|p|];
    }
  }

  lemma {:induction false} HasLeaf(t: Tree, p: seq<bool>) returns (l: LeafNode)
    requires Canonical(t, p) && t != Nil
    ensures l in Leaves(t)
  {
    match t
    case Single(x) => l := x;
    case Fork(a, b) =>
      if a != Nil {
        l := HasLeaf(a, p + [false]);
      } else {
        l := HasLeaf(b, p + [true]);
      }
  }

  lemma {:induction false} ForkHasTwoLeaves(a: Tree, b: Tree, p: seq<bool>) returns (x: LeafNode, y: LeafNode)
    requires Canonical(Fork(a, b), p)
    ensures x in Leaves(Fork(a, b)) && y in Leaves(Fork(a, b)) && x != y
    decreases Size(a) + Size(b)
  {
    if a == Nil {
      x, y := ForkHasTwoLeaves(b.left, b.right, p + [true]);
    } else if b == Nil {
      x, y := ForkHasTwoLeaves(a.left, a.right, p + [false]);
    } else {
      x := HasLeaf(a, p + [false]);
      y := HasLeaf(b, p + [true]);
      SidesOfFork(a, b, p);
    }
  }

  ghost function RootOf<H>(hs: Hashing<H>, t: Tree): H {
    match t
    case Nil => hs.zero
    case Single(l) => hs.leaf(l)
    case Fork(a, b) => hs.branch(RootOf(hs, a), RootOf(hs, b))
  }

  lemma {:induction false} CanonicalRoot<H>(hs: Hashing<H>, t: Tree, p: seq<bool>)
    requires Canonical(t, p) && |p| <= KEY_BITS
    ensures RootOf(hs, t) == MerkleRoot(hs, Leaves(t), |p|)
  {
    match t
    case Nil =>
    case Single(l) =>
      MerkleSingle(hs, l, |p|);
    case Fork(a, b) =>
      CanonicalRoot(hs, a, p + [false]);
      CanonicalRoot(hs, b, p + [true]);
      CanonicalFork(hs, a, b, p);
      assert |p + [false]| == |p| + 1 && |p + [true]| == |p| + 1;
  }

  lemma CanonicalFork<H>(hs: Hashing<H>, a: Tree, b: Tree, p: seq<bool>)
    requires Canonical(Fork(a, b), p)
    ensures MerkleRoot(hs, Leaves(Fork(a, b)), |p|)
         == hs.branch(MerkleRoot(hs, Leaves(a), |p| + 1), MerkleRoot(hs, Leaves(b), |p| + 1))
  {
    SidesOfFork(a, b, p);
    var x, y := ForkHasTwoLeaves(a, b, p);
    MerkleFork(hs, Leaves(Fork(a, b)), |p|, x, y, Leaves(a), Leaves(b));
  }

  lemma MerkleFork<H>(hs: Hashing<H>, s: set<LeafNode>, d: nat, x: LeafNode, y: LeafNode, left: set<LeafNode>,
      right: set<LeafNode>)
    requires d < KEY_BITS && x in s && y in s && x != y
    requires Side(s, d, false) == left && Side(s, d, true) == right
    ensures MerkleRoot(hs, s, d) == hs.branch(MerkleRoot(hs, left, d + 1), MerkleRoot(hs, right, d + 1))
  {
    MerkleBranch(hs, s, d, x, y);
  }

  // ----- inserting a leaf -----

  /** The smallest trie for two leaves that agree on their first `d` bits. */
  ghost function Join(x: LeafNode, y: LeafNode, d: nat): Tree
    requires x.key != y.key && d < KEY_BITS && x.key[..d] == y.key[..d]
    decreases KEY_BITS - d
  {
    if x.key[d] != y.key[d] then if y.key[d] then Fork(Single(x), Single(y)) else Fork(Single(y), Single(x))
    else
      AgreeLonger(x.key, y.key, d);
      if y.key[d] then Fork(Nil, Join(x, y, d + 1)) else Fork(Join(x, y, d + 1), Nil)
  }

  lemma AgreeLonger(x: Path, y: Path, d: nat)
    requires x != y && d < KEY_BITS && x[..d] == y[..d] && x[d] == y[d]
    ensures d + 1 < KEY_BITS && x[..d + 1] == y[..d + 1]
  {
    assert x[..d + 1] == x[..d] + [x[d]] && y[..d + 1] == y[..d] + [y[d]];
    AllBits(x, y);
  }

  /** `t` with `leaf` written at its key, below prefix `leaf.key[..d]`. */
  ghost function Put(t: Tree, d: nat, leaf: LeafNode): Tree
    requires d <= KEY_BITS && Canonical(t, leaf.key[..d])
  {
    match t
    case Nil => Single(leaf)
    case Single(x) => if x.key == leaf.key then Single(leaf) else
      BelowAllBits(x.key, leaf.key, d);
      Join(x, leaf, d)
    case Fork(a, b) =>
      assert leaf.key[..d + 1] == leaf.key[..d] + [leaf.key[d]];
      if leaf.key[d] then Fork(a, Put(b, d + 1, leaf)) else Fork(Put(a, d + 1, leaf), b)
  }

  lemma AllBits(x: Path, y: Path)
    ensures x[..KEY_BITS] == y[..KEY_BITS] <==> x == y
  {
    assert x[..KEY_BITS] == x && y[..KEY_BITS] == y;
  }

  lemma BelowAllBits(x: Path, y: Path, d: nat)
    requires x != y && d <= KEY_BITS && x[..d] == y[..d]
    ensures d < KEY_BITS
  {
    AllBits(x, y);
  }

  /** The leaves after writing `leaf`: an old leaf of the same key is replaced. */
  ghost function Written(s: set<LeafNode>, leaf: LeafNode): set<LeafNode> {
    (set l | l in s && l.key != leaf.key) + {leaf}
  }

  lemma {:induction false} JoinCanonical(x: LeafNode, y: LeafNode, d: nat)
    requires x.key != y.key && d < KEY_BITS && x.key[..d] == y.key[..d]
    ensures Canonical(Join(x, y, d), y.key[..d]) && Leaves(Join(x, y, d)) == {x, y} && Join(x, y, d).Fork?
    decreases KEY_BITS - d
  {
    assert x.key[..d + 1] == x.key[..d] + [x.key[d]] && y.key[..d + 1] == y.key[..d] + [y.key[d]];
    if x.key[d] == y.key[d] {
      AgreeLonger(x.key, y.key, d);
      JoinCanonical(x, y, d + 1);
    }
  }

  lemma {:induction false} PutCanonical(t: Tree, d: nat, leaf: LeafNode)
    requires d <= KEY_BITS && Canonical(t, leaf.key[..d])
    ensures Canonical(Put(t, d, leaf), leaf.key[..d]) && Put(t, d, leaf) != Nil && (t.Fork? ==> Put(t, d, leaf).Fork?)
    ensures Leaves(Put(t, d, leaf)) == Written(Leaves(t), leaf)
  {
    match t
    case Nil =>
    case Single(x) =>
      if x.key != leaf.key {
        BelowAllBits(x.key, leaf.key, d);
        JoinCanonical(x, leaf, d);
      }
    case Fork(a, b) =>
      assert leaf.key[..d + 1] == leaf.key[..d] + [leaf.key[d]];
      SidesOfFork(a, b, leaf.key[..d]);
      if leaf.key[d] {
        PutCanonical(b, d + 1, leaf);
        assert forall l | l in Leaves(a) :: l in Side(Leaves(t), d, false);
      } else {
        PutCanonical(a, d + 1, leaf);
        assert forall l | l in Leaves(b) :: l in Side(Leaves(t), d, true);
      }
  }

  /** Writing a leaf that is already there changes nothing. */
  lemma {:induction false} PutSame(t: Tree, d: nat, leaf: LeafNode)
    requires d <= KEY_BITS && Canonical(t, leaf.key[..d]) && leaf in Leaves(t)
    ensures Put(t, d, leaf) == t
  {
    match t
    case Single(_) =>
    case Fork(a, b) =>
      assert leaf.key[..d + 1] == leaf.key[..d] + [leaf.key[d]];
      SidesOfFork(a, b, leaf.key[..d]);
      assert leaf in Side(Leaves(t), d, leaf.key[d]);
      PutSame(if leaf.key[d] then b else a, d + 1, leaf);
  }

  // ----- sub-tries before and after -----

  lemma {:induction false} SubSmaller(t: Tree, s: Tree)
    requires s in Subs(t)
    ensures s != Nil && Leaves(s) <= Leaves(t) && Size(s) <= Size(t) && Subs(s) <= Subs(t)
  {
    match t
    case Single(_) =>
    case Fork(a, b) =>
      if s != t {
        if s in Subs(a) { SubSmaller(a, s); } else { SubSmaller(b, s); }
      }
  }

  lemma {:induction false} SubCanonical(t: Tree, s: Tree, p: seq<bool>) returns (q: seq<bool>)
    requires s in Subs(t) && Canonical(t, p)
    ensures Canonical(s, q)
  {
    if s == t {
      q := p;
    } else if s in Subs(t.left) {
      q := SubCanonical(t.left, s, p + [false]);
    } else {
      q := SubCanonical(t.right, s, p + [true]);
    }
  }

  lemma {:induction false} JoinSubs(x: LeafNode, y: LeafNode, d: nat, s: Tree)
    requires x.key != y.key && d < KEY_BITS && x.key[..d] == y.key[..d] && s in Subs(Join(x, y, d))
    ensures y in Leaves(s) || s == Single(x)
    decreases KEY_BITS - d
  {
    JoinCanonical(x, y, d);
    if x.key[d] == y.key[d] {
      AgreeLonger(x.key, y.key, d);
      if s != Join(x, y, d) {
        JoinSubs(x, y, d + 1, s);
      }
    }
  }

  /** Every sub-trie of the new trie contains the new leaf or is an old sub-trie. */
  lemma {:induction false} PutSubs(t: Tree, d: nat, leaf: LeafNode, s: Tree)
    requires d <= KEY_BITS && Canonical(t, leaf.key[..d]) && s in Subs(Put(t, d, leaf))
    ensures leaf in Leaves(s) || s in Subs(t)
  {
    match t
    case Nil =>
    case Single(x) =>
      if x.key != leaf.key {
        BelowAllBits(x.key, leaf.key, d);
        JoinSubs(x, leaf, d, s);
      }
    case Fork(a, b) =>
      assert leaf.key[..d + 1] == leaf.key[..d] + [leaf.key[d]];
      var child := if leaf.key[d] then b else a;
      if s == Put(t, d, leaf) {
        PutCanonical(t, d, leaf);
      } else if s in Subs(Put(child, d + 1, leaf)) {
        PutSubs(child, d + 1, leaf, s);
      }
  }

  /** The child of a fork that the key leads to, and the other one. */
  ghost function Toward(t: Tree, bit: bool): Tree
    requires t.Fork?
  {
    if bit then t.right else t.left
  }

  /** An old fork on the path is not a sub-trie of its own sibling, nor of the rewritten child. */
  lemma ForkIsNotBelow(t: Tree, d: nat, leaf: LeafNode)
    requires d < KEY_BITS && Canonical(t, leaf.key[..d]) && t.Fork?
    ensures t !in Subs(Toward(t, !leaf.key[d]))
    ensures leaf.key[..d + 1] == leaf.key[..d] + [leaf.key[d]]
    ensures t !in Subs(Put(Toward(t, leaf.key[d]), d + 1, leaf))
  {
    assert leaf.key[..d + 1] == leaf.key[..d] + [leaf.key[d]];
    var child := Toward(t, leaf.key[d]);
    if t in Subs(t.left) { SubSmaller(t.left, t); }
    if t in Subs(t.right) { SubSmaller(t.right, t); }
    if t in Subs(Put(child, d + 1, leaf)) {
      PutSubs(child, d + 1, leaf, t);
      SidesOfFork(t.left, t.right, leaf.key[..d]);
      assert leaf in Side(Leaves(t), d, leaf.key[d]);
      PutSame(child, d + 1, leaf);
    }
  }

  /** The two children of a fork have no sub-trie in common. */
  lemma ChildrenDisjoint(a: Tree, b: Tree, p: seq<bool>)
    requires Canonical(Fork(a, b), p)
    ensures Subs(a) !! Subs(b)
  {
    SidesOfFork(a, b, p);
    forall s | s in Subs(a) && s in Subs(b)
      ensures false
    {
      SubSmaller(a, s);
      SubSmaller(b, s);
      var q := SubCanonical(a, s, p + [false]);
      var l := HasLeaf(s, q);
    }
  }

  /** The leaves alone determine a canonical trie. */
  lemma {:induction false} CanonicalUnique(s: Tree, t: Tree, p: seq<bool>)
    requires Canonical(s, p) && Canonical(t, p) && Leaves(s) == Leaves(t)
    ensures s == t
  {
    if s == Nil || t == Nil {
      if s != Nil { var _ := HasLeaf(s, p); }
      if t != Nil { var _ := HasLeaf(t, p); }
    } else if s.Fork? && t.Fork? {
      SidesOfFork(s.left, s.right, p);
      SidesOfFork(t.left, t.right, p);
      CanonicalUnique(s.left, t.left, p + [false]);
      CanonicalUnique(s.right, t.right, p + [true]);
    } else if s.Fork? {
      var x, y := ForkHasTwoLeaves(s.left, s.right, p);
    } else if t.Fork? {
      var x, y := ForkHasTwoLeaves(t.left, t.right, p);
    }
  }
}

/** `computeStateRoot`: one backwards pass over the sorted leaves with a stack of hashes. */
module TrieRoot {
  import opened TrieKeys
  import opened TrieNodes
  import opened TrieMerkle

  ghost predicate Sorted(a: seq<LeafNode>) {
    forall i, j | 0 <= i < j < |a| :: Before(a[i].key, a[j].key)
  }

  ghost function LeafSet(a: seq<LeafNode>): set<LeafNode> {
    set i | 0 <= i < |a| :: a[i]
  }

  /** The smallest leaf is the only one of several whose first bit is 0. */
  predicate LoneLeft(a: seq<LeafNode>) {
    |a| >= 2 && !a[0].key[0] && a[1].key[0]
  }

  // ----- the sub-tries the pass is working on -----

  /** Leaf `i` and the later leaves that share its first `j` bits. */
  ghost function Group(a: seq<LeafNode>, i: nat, j: nat): set<LeafNode>
    requires i < |a| && j <= KEY_BITS
  {
    set k | i <= k < |a| && a[k].key[..j] == a[i].key[..j] :: a[k]
  }

  /** The leaves right of `i` in the sub-trie of depth `j`. */
  ghost function RightOf(a: seq<LeafNode>, i: nat, j: nat): set<LeafNode>
    requires i < |a| && j < KEY_BITS
  {
    set k | i < k < |a| && a[k].key[..j] == a[i].key[..j] && a[k].key[j] :: a[k]
  }

  ghost function SubRoot<H>(hs: Hashing<H>, a: seq<LeafNode>, i: nat, j: nat): H
    requires i < |a| && j <= KEY_BITS
  {
    MerkleRoot(hs, Group(a, i, j), j)
  }

  /** Right siblings still to be merged on the way up from leaf `i`, for the levels `lo..hi`. */
  ghost function Pending<H>(hs: Hashing<H>, a: seq<LeafNode>, i: nat, lo: nat, hi: nat): seq<H>
    requires i < |a| && hi <= KEY_BITS
  {
    if hi <= lo then []
    else
      var below := Pending(hs, a, i, lo, hi - 1);
      if a[i].key[hi - 1] then below else below + [MerkleRoot(hs, RightOf(a, i, hi - 1), hi)]
  }

  /** Bits shared with the previous leaf (`sharedBitsWithPrev`). */
  ghost function SharedWithPrev(a: seq<LeafNode>, i: nat): nat
    requires i < |a|
  {
    if i == 0 then 0 else SharedPrefix(a[i].key, a[i - 1].key)
  }

  /** Bits shared with the next leaf: the depth the pass comes from. */
  ghost function SharedWithNext(a: seq<LeafNode>, i: nat): nat
    requires i < |a|
  {
    if i == |a| - 1 then 0 else SharedWithPrev(a, i + 1)
  }

  lemma SharedSymmetric(p: Path, q: Path)
    ensures SharedPrefix(p, q) == SharedPrefix(q, p)
  {
    SharedPrefixUnique(p, q, SharedPrefix(q, p));
  }

  /** Neighbours part at their shared depth, the smaller one to the left. */
  lemma NeighboursPart(a: seq<LeafNode>, i: nat)
    requires Sorted(a) && i + 1 < |a|
    ensures var d := SharedWithNext(a, i);
            d < KEY_BITS && a[i].key[..d] == a[i + 1].key[..d] && !a[i].key[d] && a[i + 1].key[d]
  {
    assert Before(a[i].key, a[i + 1].key);
    SharedSymmetric(a[i].key, a[i + 1].key);
  }

  /** Keys that agree before bit `j` and differ there are ordered by that bit. */
  lemma OrderedByBit(p: Path, q: Path, j: nat)
    requires Before(p, q) && j < KEY_BITS && p[..j] == q[..j] && p[j] != q[j]
    ensures q[j]
  {
    SharedPrefixUnique(p, q, j);
  }

  /** No later leaf shares more with leaf `i` than its neighbour does. */
  lemma NeighbourSharesMost(a: seq<LeafNode>, i: nat, k: nat, j: nat)
    requires Sorted(a) && i < k < |a| && j <= KEY_BITS && a[k].key[..j] == a[i].key[..j]
    ensures j <= SharedWithNext(a, i)
  {
    NeighboursPart(a, i);
    var d := SharedWithNext(a, i);
    if d < j {
      assert a[k].key[..j][..d] == a[k].key[..d] && a[i].key[..j][..d] == a[i].key[..d];
      assert a[k].key[..j][d] == a[i].key[..j][d];
      assert k != i + 1 && Before(a[i + 1].key, a[k].key);
      OrderedByBit(a[i + 1].key, a[k].key, d);
      assert false;
    }
  }

  lemma BelowTheGap(a: seq<LeafNode>, i: nat, j: nat)
    requires Sorted(a) && i < |a| && j <= KEY_BITS && (i < |a| - 1 ==> SharedWithNext(a, i) < j)
    ensures Group(a, i, j) == {a[i]}
    ensures j < KEY_BITS ==> RightOf(a, i, j) == {}
  {
    forall k | i < k < |a| && a[k].key[..j] == a[i].key[..j]
      ensures false
    {
      NeighbourSharesMost(a, i, k, j);
    }
    assert a[i] in Group(a, i, j);
  }

  /** Merging at level `j`: the sub-trie of leaf `i` is a branch over its own side and the pending sibling. */
  lemma MergeLevel<H>(hs: Hashing<H>, a: seq<LeafNode>, i: nat, j: nat)
    requires Sorted(a) && i + 1 < |a| && j <= SharedWithNext(a, i)
    ensures j < KEY_BITS
    ensures SubRoot(hs, a, i, j)
         == if a[i].key[j] then hs.branch(hs.zero, SubRoot(hs, a, i, j + 1))
            else hs.branch(SubRoot(hs, a, i, j + 1), MerkleRoot(hs, RightOf(a, i, j), j + 1))
  {
    NeighboursPart(a, i);
    var d := SharedWithNext(a, i);
    assert a[i + 1].key[..d][..j] == a[i + 1].key[..j] && a[i].key[..d][..j] == a[i].key[..j];
    var g := Group(a, i, j);
    assert a[i] in g && a[i + 1] in g;
    MerkleBranch(hs, g, j, a[i], a[i + 1]);
    OwnSide(a, i, j);
    if a[i].key[j] {
      forall k | i < k < |a| && a[k].key[..j] == a[i].key[..j]
        ensures a[k].key[j]
      {
        assert Before(a[i].key, a[k].key);
        if !a[k].key[j] {
          OrderedByBit(a[i].key, a[k].key, j);
        }
      }
      assert Side(g, j, false) == {};
    } else {
      assert Side(g, j, true) == RightOf(a, i, j);
    }
  }

  lemma OwnSide(a: seq<LeafNode>, i: nat, j: nat)
    requires i < |a| && j < KEY_BITS
    ensures Side(Group(a, i, j), j, a[i].key[j]) == Group(a, i, j + 1)
  {
    forall k | i <= k < |a|
      ensures a[k].key[..j + 1] == a[i].key[..j + 1] <==> a[k].key[..j] == a[i].key[..j] && a[k].key[j] == a[i].key[j]
    {
      ExtendPrefix(a[k].key, a[i].key, j);
    }
  }

  lemma ExtendPrefix(p: Path, q: Path, j: nat)
    requires j < KEY_BITS
    ensures p[..j + 1] == q[..j + 1] <==> p[..j] == q[..j] && p[j] == q[j]
  {
    assert p[..j + 1] == p[..j] + [p[j]] && q[..j + 1] == q[..j] + [q[j]];
  }

  /** Moving to the previous leaf: its pending siblings are the old ones plus the finished sub-trie. */
  lemma MoveLeft<H>(hs: Hashing<H>, a: seq<LeafNode>, i: nat, lo: nat)
    requires Sorted(a) && 0 < i < |a| && lo <= SharedWithPrev(a, i)
    ensures var d := SharedWithPrev(a, i);
            && d < KEY_BITS
            && Pending(hs, a, i - 1, lo, d + 1) == Pending(hs, a, i, lo, d + 1) + [SubRoot(hs, a, i, d + 1)]
  {
    hide MerkleRoot, Sorted;
    NeighboursPart(a, i - 1);
    var d := SharedWithPrev(a, i);
    PendingShared(hs, a, i, lo, d);
    assert RightOf(a, i - 1, d) == Group(a, i, d + 1) by {
      forall k | i <= k < |a|
        ensures a[k].key[..d + 1] == a[i].key[..d + 1] <==> a[k].key[..d] == a[i - 1].key[..d] && a[k].key[d]
      {
        ExtendPrefix(a[k].key, a[i].key, d);
      }
    }
  }

  lemma {:induction false} PendingShared<H>(hs: Hashing<H>, a: seq<LeafNode>, i: nat, lo: nat, hi: nat)
    requires 0 < i < |a| && hi <= SharedWithPrev(a, i) && SharedWithPrev(a, i) < KEY_BITS
    ensures Pending(hs, a, i - 1, lo, hi) == Pending(hs, a, i, lo, hi)
  {
    if lo < hi {
      PendingShared(hs, a, i, lo, hi - 1);
      var j, d := hi - 1, SharedWithPrev(a, i);
      assert a[i].key[..d][j] == a[i - 1].key[..d][j];
      assert a[i].key[..d][..j] == a[i].key[..j] && a[i - 1].key[..d][..j] == a[i - 1].key[..j];
      if !a[i].key[j] {
        assert RightOf(a, i - 1, j) == RightOf(a, i, j);
      }
    }
  }

  lemma WholeGroup(a: seq<LeafNode>)
    requires |a| > 0
    ensures Group(a, 0, 0) == LeafSet(a)
  {
  }

  // ----- the stack operations -----

  /** `stack.pop() ?? zero`. */
  function Top<H>(hs: Hashing<H>, stack: seq<H>): H {
    if |stack| == 0 then hs.zero else stack[|stack| - 1]
  }

  function Popped<H>(stack: seq<H>): seq<H> {
    if |stack| == 0 then [] else stack[..|stack| - 1]
  }

  /** Push a zero hash for every level in `i..=hi` at which the key goes left. */
  function PushZeros<H>(hs: Hashing<H>, key: Path, stack: seq<H>, i: nat, hi: nat): seq<H>
    requires hi < KEY_BITS
    decreases hi + 1 - i
  {
    if i > hi then stack else PushZeros(hs, key, if key[i] then stack else stack + [hs.zero], i + 1, hi)
  }

  /** One merge: the two topmost hashes become a branch, a missing left sibling is zero. */
  function MergeOnce<H>(hs: Hashing<H>, goesRight: bool, stack: seq<H>): seq<H> {
    var filled := if goesRight then stack + [hs.zero] else stack;
    var rest := Popped(filled);
    Popped(rest) + [hs.branch(Top(hs, filled), Top(hs, rest))]
  }

  /** Merge the levels `lo < i`, deepest first. */
  function Merge<H>(hs: Hashing<H>, key: Path, stack: seq<H>, i: int, lo: int): seq<H>
    requires -1 <= i < KEY_BITS && -1 <= lo
    decreases i - lo
  {
    if i <= lo then stack else Merge(hs, key, MergeOnce(hs, key[i], stack), i - 1, lo)
  }

  /** What one leaf does to the stack. */
  function Step<H>(hs: Hashing<H>, leaf: LeafNode, stack: seq<H>, prevDepth: nat, depth: nat, isLast: bool): seq<H>
    requires prevDepth < KEY_BITS && depth < KEY_BITS
  {
    var pushed := PushZeros(hs, leaf.key, stack, if isLast then prevDepth else prevDepth + 1, depth) + [hs.leaf(leaf)];
    if prevDepth < depth then pushed
    else Merge(hs, leaf.key, pushed, prevDepth, if isLast then depth - 1 else depth)
  }

  lemma {:induction false} PushZerosPending<H>(hs: Hashing<H>, a: seq<LeafNode>, i: nat, lo: nat, j: nat, hi: nat)
    requires Sorted(a) && i < |a| && lo <= j <= hi + 1 && hi < KEY_BITS
    requires i < |a| - 1 ==> SharedWithNext(a, i) < j
    ensures PushZeros(hs, a[i].key, Pending(hs, a, i, lo, j), j, hi) == Pending(hs, a, i, lo, hi + 1)
    decreases hi - j
  {
    if j <= hi {
      BelowTheGap(a, i, j);
      PushZerosPending(hs, a, i, lo, j + 1, hi);
    }
  }

  /** All leaves are on the left and the top-level sibling is left implicit, or no sibling is. */
  ghost predicate Floor(a: seq<LeafNode>, lo: nat) {
    lo == 0 || (lo == 1 && forall k | 0 <= k < |a| :: !a[k].key[0])
  }

  lemma {:induction false} MergePending<H>(hs: Hashing<H>, a: seq<LeafNode>, i: nat, lo: nat, j: int, end: int)
    requires Sorted(a) && i < |a| && Floor(a, lo) && -1 <= end <= j < KEY_BITS
    requires end < j ==> i + 1 < |a| && j <= SharedWithNext(a, i)
    ensures Merge(hs, a[i].key, Pending(hs, a, i, lo, j + 1) + [SubRoot(hs, a, i, j + 1)], j, end)
         == Pending(hs, a, i, lo, end + 1) + [SubRoot(hs, a, i, end + 1)]
    decreases j - end
  {
    hide Sorted, Floor, Pending, SubRoot, SharedWithNext, MergeOnce;
    if end < j {
      MergePendingOnce(hs, a, i, lo, j);
      MergePending(hs, a, i, lo, j - 1, end);
    }
  }

  lemma MergePendingOnce<H>(hs: Hashing<H>, a: seq<LeafNode>, i: nat, lo: nat, j: nat)
    requires Sorted(a) && i + 1 < |a| && Floor(a, lo) && j <= SharedWithNext(a, i) && j < KEY_BITS
    ensures MergeOnce(hs, a[i].key[j], Pending(hs, a, i, lo, j + 1) + [SubRoot(hs, a, i, j + 1)])
         == Pending(hs, a, i, lo, j) + [SubRoot(hs, a, i, j)]
  {
    hide Sorted, SubRoot, RightOf, SharedWithNext, MergeOnce, MerkleRoot;
    MergeLevel(hs, a, i, j);
    if j < lo {
      BelowFloor(hs, a, i, lo, j);
    }
    MergeOnceTop(hs, a[i].key[j], Pending(hs, a, i, lo, j), SubRoot(hs, a, i, j + 1),
        MerkleRoot(hs, RightOf(a, i, j), j + 1), lo <= j);
  }

  lemma BelowFloor<H>(hs: Hashing<H>, a: seq<LeafNode>, i: nat, lo: nat, j: nat)
    requires i < |a| && Floor(a, lo) && j < lo
    ensures j == 0 && MerkleRoot(hs, RightOf(a, i, j), j + 1) == hs.zero
  {
    assert RightOf(a, i, j) == {};
  }

  lemma MergeOnceTop<H>(hs: Hashing<H>, goesRight: bool, rest: seq<H>, own: H, sibling: H, present: bool)
    requires !present && !goesRight ==> rest == [] && sibling == hs.zero
    ensures MergeOnce(hs, goesRight, if goesRight || !present then rest + [own] else rest + [sibling] + [own])
         == rest + [if goesRight then hs.branch(hs.zero, own) else hs.branch(own, sibling)]
  {
    var stack := if goesRight || !present then rest + [own] else rest + [sibling] + [own];
    var filled := if goesRight then stack + [hs.zero] else stack;
    assert Top(hs, filled) == if goesRight then hs.zero else own;
    assert Popped(filled) == if goesRight then rest + [own] else if present then rest + [sibling] else rest;
    assert Popped(Popped(filled)) == rest;
  }

  /** Going further down: the missing right siblings are pushed and the leaf is a sub-trie of its own. */
  lemma StepDown<H>(hs: Hashing<H>, a: seq<LeafNode>, i: nat, lo: nat)
    requires Sorted(a) && i < |a| && lo <= SharedWithNext(a, i) + 1
    requires SharedWithNext(a, i) < SharedWithPrev(a, i) < KEY_BITS
    ensures var p, d := SharedWithNext(a, i), SharedWithPrev(a, i);
      Step(hs, a[i], Pending(hs, a, i, lo, p + 1), p, d, false) ==
          Pending(hs, a, i, lo, d + 1) + [SubRoot(hs, a, i, d + 1)]
  {
    hide MerkleRoot, Pending, Sorted, Group, RightOf, Merge;
    var p, d := SharedWithNext(a, i), SharedWithPrev(a, i);
    BelowTheGap(a, i, d + 1);
    MerkleSingle(hs, a[i], d + 1);
    PushZerosPending(hs, a, i, lo, p + 1, d);
  }

  /** Going up: the leaf is merged with the pending siblings of the levels being left. */
  lemma StepUp<H>(hs: Hashing<H>, a: seq<LeafNode>, i: nat, lo: nat)
    requires Sorted(a) && i < |a| && Floor(a, lo)
    requires SharedWithPrev(a, i) <= SharedWithNext(a, i) < KEY_BITS
    requires i == |a| - 1 ==> SharedWithPrev(a, i) == 0
    ensures var p, d := SharedWithNext(a, i), SharedWithPrev(a, i);
      Step(hs, a[i], Pending(hs, a, i, lo, p + 1), p, d, false) ==
          Pending(hs, a, i, lo, d + 1) + [SubRoot(hs, a, i, d + 1)]
  {
    hide MerkleRoot, Pending, Floor, Sorted, Group, RightOf, Merge;
    var p, d := SharedWithNext(a, i), SharedWithPrev(a, i);
    BelowTheGap(a, i, p + 1);
    MerkleSingle(hs, a[i], p + 1);
    MergePending(hs, a, i, lo, p, d);
  }

  /** The smallest leaf finishes the whole trie when it shares its first bit with the next one. */
  lemma LastStep<H>(hs: Hashing<H>, a: seq<LeafNode>, lo: nat)
    requires Sorted(a) && |a| >= 2 && Floor(a, lo) && lo <= SharedWithNext(a, 0)
    requires 0 < SharedWithNext(a, 0) < KEY_BITS
    ensures Top(hs, Step(hs, a[0], Pending(hs, a, 0, lo, SharedWithNext(a, 0) + 1), SharedWithNext(a, 0), 0, true))
         == MerkleRoot(hs, LeafSet(a), 0)
  {
    hide MerkleRoot, Floor, Sorted, RightOf, Merge;
    var p := SharedWithNext(a, 0);
    BelowTheGap(a, 0, p + 1);
    MerkleSingle(hs, a[0], p + 1);
    MergePending(hs, a, 0, lo, p, -1);
    WholeGroup(a);
  }

  /** Otherwise the step pushes a zero between the right half and the leaf, and merges the leaf with that zero. */
  lemma LastStepLoneLeft<H>(hs: Hashing<H>, leaf: LeafNode, stack: seq<H>)
    requires !leaf.key[0]
    ensures Top(hs, Step(hs, leaf, stack, 0, 0, true)) == hs.branch(hs.leaf(leaf), hs.zero)
  {
    var pushed := stack + [hs.zero] + [hs.leaf(leaf)];
    assert PushZeros(hs, leaf.key, stack, 0, 0) + [hs.leaf(leaf)] == pushed;
    assert Top(hs, pushed) == hs.leaf(leaf) && Popped(pushed) == stack + [hs.zero];
    assert Merge(hs, leaf.key, pushed, 0, -1) == MergeOnce(hs, false, pushed);
  }

  // ----- the pass -----

  /** State of the pass when the leaves from `i` on have been processed. */
  ghost predicate PassState<H>(hs: Hashing<H>, a: seq<LeafNode>, i: nat, depth: nat, stack: seq<H>)
    requires 0 < |a| && i <= |a|
  {
    var lo := if a[|a| - 1].key[0] then 0 else 1;
    && depth < KEY_BITS
    && (if i > 0 then
          && depth == SharedWithNext(a, i - 1)
          && lo <= depth + (if i == |a| then 1 else 0)
          && stack == Pending(hs, a, i - 1, lo, depth + 1)
        else if LoneLeft(a) then Top(hs, stack) == hs.branch(hs.leaf(a[0]), hs.zero)
        else Top(hs, stack) == MerkleRoot(hs, LeafSet(a), 0))
  }

  lemma PassStart<H>(hs: Hashing<H>, a: seq<LeafNode>)
    requires |a| > 0
    ensures PassState(hs, a, |a|, 0, [])
  {
  }

  lemma PassEnd<H>(hs: Hashing<H>, a: seq<LeafNode>, depth: nat, stack: seq<H>)
    requires |a| > 0 && PassState(hs, a, 0, depth, stack)
    ensures if LoneLeft(a) then Top(hs, stack) == hs.branch(hs.leaf(a[0]), hs.zero)
        else Top(hs, stack) == MerkleRoot(hs, LeafSet(a), 0)
  {
  }

  lemma PassStep<H>(hs: Hashing<H>, a: seq<LeafNode>, i: nat, depth: nat, stack: seq<H>)
    requires Sorted(a) && i < |a| && SharedWithPrev(a, i) < KEY_BITS && PassState(hs, a, i + 1, depth, stack)
    ensures PassState(hs, a, i, SharedWithPrev(a, i),
        Step(hs, a[i], stack, depth, SharedWithPrev(a, i), |a| > 1 && i == 0))
  {
    var lo := if a[|a| - 1].key[0] then 0 else 1;
    FloorHolds(a);
    if i == 0 && |a| > 1 {
      NeighboursPart(a, 0);
      if depth == 0 {
        LastStepLoneLeft(hs, a[0], stack);
      } else {
        SharesFirstBit(a[0].key, a[1].key, depth);
        LastStep(hs, a, lo);
      }
    } else {
      if depth < SharedWithPrev(a, i) {
        StepDown(hs, a, i, lo);
      } else {
        StepUp(hs, a, i, lo);
      }
      if i == 0 {
        SingleLeaf(hs, a, lo);
      } else {
        NeighboursPart(a, i - 1);
        MoveLeft(hs, a, i, lo);
      }
    }
  }

  /**
   The pass returns the Merkle root, except for one family of inputs: when the smallest leaf is the only
   one with first bit 0 it pushes an extra zero hash and loses the whole right half.
   */
  method ComputeStateRoot<H>(hs: Hashing<H>, leaves: seq<LeafNode>) returns (root: H)
    requires Sorted(leaves)
    ensures !LoneLeft(leaves) ==> root == MerkleRoot(hs, LeafSet(leaves), 0)
    ensures LoneLeft(leaves) ==> root == hs.branch(hs.leaf(leaves[0]), hs.zero)
  {
    hide PassState, Step, Sorted;
    if |leaves| == 0 {
      assert LeafSet(leaves) == {};
      return hs.zero;
    }
    PassStart(hs, leaves);
    var shared := SharedBits(leaves);
    var stack: seq<H> := [];
    var currentDepth: nat := 0;
    for i := |leaves| downto 0
      invariant currentDepth < KEY_BITS && PassState(hs, leaves, i, currentDepth, stack)
    {
      var prevDepth := currentDepth;
      currentDepth := shared[i];
      PassStep(hs, leaves, i, prevDepth, stack);
      stack := PushAndMerge(hs, leaves[i], stack, prevDepth, currentDepth, |leaves| > 1 && i == 0);
    }
    PassEnd(hs, leaves, currentDepth, stack);
    root := Top(hs, stack);
  }

  lemma SingleLeaf<H>(hs: Hashing<H>, a: seq<LeafNode>, lo: nat)
    requires |a| == 1 && lo == if a[0].key[0] then 0 else 1
    ensures Pending(hs, a, 0, lo, 1) + [SubRoot(hs, a, 0, 1)] == [MerkleRoot(hs, LeafSet(a), 0)]
  {
    assert Group(a, 0, 1) == {a[0]} == LeafSet(a);
    MerkleSingle(hs, a[0], 0);
    MerkleSingle(hs, a[0], 1);
  }

  lemma SharesFirstBit(p: Path, q: Path, n: nat)
    requires 0 < n <= KEY_BITS && p[..n] == q[..n]
    ensures p[0] == q[0]
  {
    assert p[..n][0] == q[..n][0];
  }

  lemma FloorHolds(a: seq<LeafNode>)
    requires Sorted(a) && |a| > 0
    ensures Floor(a, if a[|a| - 1].key[0] then 0 else 1)
  {
    FirstBitsSorted(a);
  }

  lemma FirstBitsSorted(a: seq<LeafNode>)
    requires Sorted(a)
    ensures forall j, k | 0 <= j < k < |a| && a[j].key[0] :: a[k].key[0]
  {
    forall j, k | 0 <= j < k < |a|
      ensures a[j].key[0] ==> a[k].key[0]
    {
      assert Before(a[j].key, a[k].key);
      if a[j].key[0] != a[k].key[0] {
        OrderedByBit(a[j].key, a[k].key, 0);
      }
    }
  }

  /** The body of the loop over the leaves, with its two inner loops. */
  method PushAndMerge<H>(hs: Hashing<H>, leaf: LeafNode, before: seq<H>, prevDepth: nat, currentDepth: nat,
      isLastNode: bool)
    returns (stack: seq<H>)
    requires prevDepth < KEY_BITS && currentDepth < KEY_BITS
    ensures stack == Step(hs, leaf, before, prevDepth, currentDepth, isLastNode)
  {
    stack := before;
    var startDepth := if isLastNode then prevDepth else prevDepth + 1;
    var i := startDepth;
    while i <= currentDepth
      invariant startDepth <= i
      invariant PushZeros(hs, leaf.key, stack, i, currentDepth) ==
          PushZeros(hs, leaf.key, before, startDepth, currentDepth)
      decreases currentDepth + 1 - i
    {
      if leaf.key[i] == false {
        stack := stack + [hs.zero];
      }
      i := i + 1;
    }
    stack := stack + [hs.leaf(leaf)];
    if prevDepth < currentDepth {
      return;
    }
    var endDepth := if isLastNode then currentDepth - 1 else currentDepth;
    ghost var pushed := stack;
    var j: int := prevDepth;
    while j > endDepth
      invariant -1 <= j <= prevDepth
      invariant Merge(hs, leaf.key, stack, j, endDepth) == Merge(hs, leaf.key, pushed, prevDepth, endDepth)
    {
      if leaf.key[j] == true {
        stack := stack + [hs.zero];
      }
      var current := Top(hs, stack);
      stack := Popped(stack);
      var next := Top(hs, stack);
      stack := Popped(stack);
      stack := stack + [hs.branch(current, next)];
      j := j - 1;
    }
  }

  /** In the excluded family the result is wrong unless the hash function collides or a sub-trie hashes to zero. */
  lemma LoneLeftRootDiffers<H>(hs: Hashing<H>, leaves: seq<LeafNode>)
    requires Sorted(leaves) && LoneLeft(leaves)
    requires var left, right := hs.leaf(leaves[0]), MerkleRoot(hs, LeafSet(leaves[1..]), 1);
             right != hs.zero && hs.branch(left, right) != hs.branch(left, hs.zero)
    ensures hs.branch(hs.leaf(leaves[0]), hs.zero) != MerkleRoot(hs, LeafSet(leaves), 0)
  {
    hide MerkleRoot;
    var all := LeafSet(leaves);
    assert leaves[0] in all && leaves[1] in all;
    MerkleBranch(hs, all, 0, leaves[0], leaves[1]);
    FirstBitsSorted(leaves);
    assert forall k | 1 <= k < |leaves| :: leaves[k] == leaves[1..][k - 1];
    assert Side(all, 0, false) == {leaves[0]};
    assert Side(all, 0, true) == LeafSet(leaves[1..]);
    MerkleSingle(hs, leaves[0], 1);
  }

  /** Already two leaves whose first bits differ are enough. */
  lemma LoneLeftExample(a: LeafNode, b: LeafNode)
    requires !a.key[0] && b.key[0]
    ensures Sorted([a, b]) && LoneLeft([a, b])
  {
    SharedPrefixUnique(a.key, b.key, 0);
  }

  method SharedBits(leaves: seq<LeafNode>) returns (shared: seq<nat>)
    requires |leaves| > 0 && Sorted(leaves)
    ensures |shared| == |leaves|
    ensures forall i | 0 <= i < |leaves| :: shared[i] == SharedWithPrev(leaves, i) < KEY_BITS
  {
    shared := [0];
    var last := leaves[0];
    for i := 1 to |leaves|
      invariant |shared| == i && last == leaves[i - 1]
      invariant forall k | 0 <= k < i :: shared[k] == SharedWithPrev(leaves, k) < KEY_BITS
    {
      var count := FindSharedPrefix(Pack(leaves[i].key), Pack(last.key));
      UnpackPack(leaves[i].key);
      UnpackPack(last.key);
      NeighboursPart(leaves, i - 1);
      last := leaves[i];
      shared := shared + [count];
    }
  }
}

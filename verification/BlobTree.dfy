/**
 The shape of the chunk tree behind a blob dictionary, as a map from the key prefix a node stands for to what the node
 holds. All lemmas here are about such maps; the dictionary keeps one that mirrors its heap.
 */
module BlobTree {
  import opened Bytes

  type Key = seq<byte>

  const CHUNK_SIZE: nat := 6

  // ----- chunks as numbers -----

  function Signed(b: byte): int {
    if b >= 128 then b - 256 else b
  }

  function ByteAt(bs: Key, i: nat): int {
    if i < |bs| then bs[i] else 0
  }

  /** The four bytes `bytesAsU48` joins with 32-bit operators: missing bytes are zero, the result is signed. */
  function Word(bs: Key): int {
    (if |bs| > 0 then Signed(bs[0]) else 0) * 0x100_0000 + ByteAt(bs, 1) * 0x1_0000 + ByteAt(bs, 2) * 0x100 +
        ByteAt(bs, 3)
  }

  function Value(bs: Key): int {
    if |bs| <= 4 then Word(bs) else 256 * Value(bs[..|bs| - 1]) + bs[|bs| - 1]
  }

  function U48(bs: Key): int {
    Value(bs) * 8 + |bs|
  }

  method BytesAsU48(bytes: Key) returns (number: int)
    requires |bytes| <= CHUNK_SIZE
    ensures number == U48(bytes)
  {
    var len := |bytes|;
    var value := Word(bytes);
    var i := 4;
    while i < len
      invariant 4 <= i && (len > 4 ==> i <= len)
      invariant value == if i < len then Value(bytes[..i]) else Value(bytes)
    {
      assert bytes[..i + 1][..i] == bytes[..i] && bytes[..len] == bytes;
      value := value * 256 + bytes[i];
      i := i + 1;
    }
    number := value * 8 + len;
  }

  lemma ValueOfLong(bs: Key)
    requires |bs| <= 6
    ensures |bs| == 5 ==> Value(bs) == 256 * Word(bs) + bs[4]
    ensures |bs| == 6 ==> Value(bs) == 0x1_0000 * Word(bs) + 256 * (bs[4] as int) + bs[5]
  {
    if |bs| == 6 {
      assert bs[..5][..4] == bs[..4];
      assert Value(bs[..5]) == 256 * Value(bs[..4]) + bs[4];
    }
  }

  lemma WordInjective(a: Key, b: Key)
    requires |a| == |b| && Word(a) == Word(b)
    ensures forall i | 0 <= i < 4 && i < |a| :: a[i] == b[i]
  {
    var a0, b0 := if |a| > 0 then Signed(a[0]) else 0, if |b| > 0 then Signed(b[0]) else 0;
    assert a0 == b0 && ByteAt(a, 1) == ByteAt(b, 1) && ByteAt(a, 2) == ByteAt(b, 2) && ByteAt(a, 3) == ByteAt(b, 3);
  }

  /** Different chunks have different numbers, and every number is an exact floating point integer. */
  lemma ChunkNumbersDiffer(a: Key, b: Key)
    requires |a| <= CHUNK_SIZE && |b| <= CHUNK_SIZE
    ensures U48(a) == U48(b) <==> a == b
    ensures -0x20_0000_0000_0000 < U48(a) < 0x20_0000_0000_0000
  {
    hide Word, Value;
    ValueOfLong(a);
    ValueOfLong(b);
    WordRange(a);
    if U48(a) == U48(b) {
      assert |a| == |b| && Value(a) == Value(b);
      ShortValue(a);
      ShortValue(b);
      assert Word(a) == Word(b);
      WordInjective(a, b);
      assert forall i | 0 <= i < |a| :: a[i] == b[i];
    }
    ShortValue(a);
  }

  lemma ShortValue(bs: Key)
    ensures |bs| <= 4 ==> Value(bs) == Word(bs)
  {
  }

  lemma WordRange(bs: Key)
    ensures -0x8000_0000 <= Word(bs) < 0x8000_0000
  {
  }

  // ----- the tree -----

  /** A key object: maps with keys of this kind tell keys apart by identity, not by content. */
  class KeyBlob {
    const raw: Key

    constructor (raw: Key)
      ensures this.raw == raw
    {
      this.raw := raw;
    }
  }

  class Leaf<V> {
    const blob: KeyBlob
    const key: Key := blob.raw
    var value: V

    constructor (blob: KeyBlob, value: V)
      ensures this.blob == blob && this.key == blob.raw && this.value == value
    {
      this.blob, this.value := blob, value;
    }
  }

  type Item<V> = (Key, Leaf<V>)

  /** The children of a node: a list of remaining keys with their leaves, or nodes by chunk number. */
  datatype Children<V> = ListChildren(items: seq<Item<V>>) | MapChildren(kids: map<int, Node<V>>)

  class Node<V> {
    var leaf: Leaf?<V>
    var children: Children<V>
    /** The prefix of all keys below the node. */
    ghost const path: Key

    /** `Node.withList`. */
    constructor (ghost path: Key)
      ensures leaf == null && children == ListChildren([]) && this.path == path
    {
      leaf := null;
      children := ListChildren([]);
      this.path := path;
    }
  }

  /** What a node holds. */
  datatype Cell<V> = Cell(node: Node<V>, leaf: Leaf?<V>, children: Children<V>)

  type Cells<V> = map<Key, Cell<V>>

  predicate IsMap<V>(cells: Cells<V>, p: Key) {
    p in cells && cells[p].children.MapChildren?
  }

  predicate IsList<V>(cells: Cells<V>, p: Key) {
    p in cells && cells[p].children.ListChildren?
  }

  predicate IsChunk(c: Key) {
    1 <= |c| <= CHUNK_SIZE
  }

  /** Nodes are where their prefixes say: below map nodes, whole chunks apart, under the number of the chunk. */
  ghost predicate Tree<V>(cells: Cells<V>) {
    && [] in cells
    && (forall p | p in cells :: cells[p].node.path == p)
    && (forall p | IsMap(cells, p) :: |p| % CHUNK_SIZE == 0)
    && Ancestors(cells) && KidsRight(cells)
  }

  ghost predicate Ancestors<V>(cells: Cells<V>) {
    forall p, n | p in cells && 0 <= n < |p| && n % CHUNK_SIZE == 0 :: IsMap(cells, p[..n])
  }

  ghost predicate KidsRight<V>(cells: Cells<V>) {
    forall p, c | IsMap(cells, p) && IsChunk(c) :: KidRight(cells, p, c)
  }

  ghost predicate KidRight<V>(cells: Cells<V>, p: Key, c: Key)
    requires IsMap(cells, p)
  {
    && (U48(c) in cells[p].children.kids <==> p + c in cells)
    && (p + c in cells ==> cells[p].children.kids[U48(c)] == cells[p + c].node)
  }

  /**
   The leaves that setting and deleting their keys finds are `leaves`, each in the one place its key leads to. A list
   may also hold one item with nothing left of its key; its leaf is out of place.
   */
  ghost predicate Holds<V>(cells: Cells<V>, leaves: set<Leaf<V>>) {
    && (forall p | p in cells :: CellRight(p, cells[p], leaves))
    && (forall l | l in leaves :: Placed(cells, l))
  }

  /** A cell holds leaves at their places, each once. */
  ghost predicate CellRight<V>(p: Key, cell: Cell<V>, leaves: set<Leaf<V>>) {
    && (cell.leaf != null ==> cell.leaf in leaves && cell.leaf.key == p)
    && (cell.children.ListChildren? ==> ItemsRight(p, cell.children.items, leaves))
  }

  ghost predicate ItemsRight<V>(p: Key, items: seq<Item<V>>, leaves: set<Leaf<V>>) {
    DistinctItems(items) && forall i | 0 <= i < |items| :: ItemRight(p, items[i], leaves)
  }

  ghost predicate ItemRight<V>(p: Key, item: Item<V>, leaves: set<Leaf<V>>) {
    && item.1.key == p + item.0
    && (if item.0 == [] then item.1 !in leaves else item.1 in leaves && |p| % CHUNK_SIZE == 0)
  }

  ghost predicate DistinctItems<T>(items: seq<(Key, T)>) {
    forall i, j | 0 <= i < j < |items| :: items[i].0 != items[j].0
  }

  /** The position of a key, or the length. */
  function Position<T>(items: seq<(Key, T)>, k: Key): (i: nat)
    ensures i <= |items| && (i < |items| ==> items[i].0 == k) && forall j | 0 <= j < i :: items[j].0 != k
  {
    if items == [] then 0 else if items[0].0 == k then 0 else 1 + Position(items[1..], k)
  }

  function ItemAt<V>(items: seq<Item<V>>, k: Key): Leaf?<V> {
    var i := Position(items, k);
    if i < |items| then items[i].1 else null
  }

  /** The leaf that is out of place at the node of a key: found by `get`, but neither by `set` nor by `delete`. */
  function StrayOf<V>(cells: Cells<V>, key: Key): Leaf?<V> {
    if IsList(cells, key) then ItemAt(cells[key].children.items, []) else null
  }

  /** The leaf is nowhere in the tree. */
  ghost predicate Absent<V>(cells: Cells<V>, l: Leaf<V>) {
    forall p | p in cells :: cells[p].leaf != l &&
        (IsList(cells, p) ==> forall x | x in cells[p].children.items :: x.1 != l)
  }

  ghost predicate Placed<V>(cells: Cells<V>, l: Leaf<V>) {
    exists p :: PlacedAt(cells, l, p)
  }

  ghost predicate PlacedAt<V>(cells: Cells<V>, l: Leaf<V>, p: Key) {
    && p <= l.key && p in cells
    && (cells[p].leaf == l ||
        (cells[p].children.ListChildren? && p < l.key && (l.key[|p|..], l) in cells[p].children.items))
  }

  ghost predicate Shape<V>(cells: Cells<V>, leaves: set<Leaf<V>>) {
    Tree(cells) && Holds(cells, leaves)
  }

  // ----- where a key leads -----

  /** The part of `key` that selects the child below `p`. */
  function NextChunk(p: Key, key: Key): Key
    requires p < key
  {
    if |key| - |p| > CHUNK_SIZE then key[|p|..|p| + CHUNK_SIZE] else key[|p|..]
  }

  /** Two nodes on the way to a key are the same when the one above has no children by chunk. */
  lemma OnePlace<V>(cells: Cells<V>, p: Key, q: Key, key: Key)
    requires Tree(cells) && p in cells && q in cells && p <= key && q <= key && |p| <= |q|
    requires !IsMap(cells, p) && (|p| % CHUNK_SIZE == 0 || p == key)
    ensures p == q
  {
    assert q[..|p|] == p;
  }

  lemma PlaceOf<V>(cells: Cells<V>, leaves: set<Leaf<V>>, l: Leaf<V>) returns (q: Key)
    requires Shape(cells, leaves) && l in leaves
    ensures q in cells && q <= l.key && ((cells[q].leaf == l && q == l.key) || IsList(cells, q))
    ensures cells[q].leaf == l || (|q| % CHUNK_SIZE == 0 && q < l.key && (l.key[|q|..], l) in cells[q].children.items)
  {
    assert Placed(cells, l);
    q :| PlacedAt(cells, l, q);
    if cells[q].leaf != l {
      var i :| 0 <= i < |cells[q].children.items| && cells[q].children.items[i] == (l.key[|q|..], l);
      assert CellRight(q, cells[q], leaves) && ItemRight(q, cells[q].children.items[i], leaves);
    }
  }

  /** A node at the end of the key: its leaf is the only one the key can have. */
  lemma FoundAtEnd<V>(cells: Cells<V>, leaves: set<Leaf<V>>, key: Key, l: Leaf<V>)
    requires Shape(cells, leaves) && key in cells && l in leaves && l.key == key
    ensures cells[key].leaf == l
  {
    var q := PlaceOf(cells, leaves, l);
    if cells[q].leaf != l {
      OnePlace(cells, q, key, key);
    }
  }

  /** A list node on the way: the key is in its list or nowhere. */
  lemma FoundInList<V>(cells: Cells<V>, leaves: set<Leaf<V>>, p: Key, key: Key, l: Leaf<V>)
    requires Shape(cells, leaves) && IsList(cells, p) && p < key && |p| % CHUNK_SIZE == 0 && l in leaves && l.key == key
    ensures (key[|p|..], l) in cells[p].children.items
  {
    var q := PlaceOf(cells, leaves, l);
    if |q| < |p| {
      OnePlace(cells, q, p, key);
    } else {
      OnePlace(cells, p, q, key);
    }
  }

  /** A map node without a child for the next chunk: the key is nowhere. */
  lemma NotBelow<V>(cells: Cells<V>, leaves: set<Leaf<V>>, p: Key, key: Key, l: Leaf<V>)
    requires Shape(cells, leaves) && IsMap(cells, p) && p < key && p + NextChunk(p, key) !in cells && l in leaves
    ensures l.key != key
  {
    if l.key == key {
      var q := PlaceOf(cells, leaves, l);
      if |q| <= |p| {
        OnePlace(cells, q, p, key);
      } else {
        StepTowards(cells, p, q, key);
      }
    }
  }

  lemma StepTowards<V>(cells: Cells<V>, p: Key, q: Key, key: Key)
    requires Tree(cells) && IsMap(cells, p) && p < key && q <= key && q in cells && |p| < |q|
    requires q == key || |q| % CHUNK_SIZE == 0
    ensures p + NextChunk(p, key) in cells
  {
    var c := NextChunk(p, key);
    if |q| > |p| + CHUNK_SIZE {
      assert q[..|p| + CHUNK_SIZE] == p + c;
      assert IsMap(cells, q[..|p| + CHUNK_SIZE]);
    } else {
      assert q == p + c;
    }
  }

  // ----- changes -----

  /** A new list node below a map node. */
  function AddChild<V>(cells: Cells<V>, p: Key, c: Key, node: Node<V>): Cells<V>
    requires IsMap(cells, p)
  {
    var kids := cells[p].children.kids[U48(c) := node];
    cells[p := cells[p].(children := MapChildren(kids))][p + c := Cell(node, null, ListChildren([]))]
  }

  /** Whole chunks apart, a prefix splits in one way. */
  lemma SameSplit(p: Key, c: Key, q: Key, d: Key)
    requires |p| % CHUNK_SIZE == 0 && |q| % CHUNK_SIZE == 0 && IsChunk(c) && IsChunk(d)
    ensures p + c == q + d <==> p == q && c == d
  {
    if p + c == q + d {
      assert |p| + |c| == |q| + |d|;
      assert |p| == |q|;
      assert p == (p + c)[..|p|] && q == (q + d)[..|p|] && c == (p + c)[|p|..] && d == (q + d)[|p|..];
    }
  }

  lemma AncestorsBelow<V>(cells: Cells<V>, p: Key, c: Key, n: nat)
    requires Ancestors(cells) && IsMap(cells, p) && |p| % CHUNK_SIZE == 0 && IsChunk(c)
    requires n < |p + c| && n % CHUNK_SIZE == 0
    ensures IsMap(cells, (p + c)[..n])
  {
    if n < |p| {
      assert (p + c)[..n] == p[..n];
    } else {
      assert n == |p| && (p + c)[..n] == p;
    }
  }

  lemma AddChildAncestors<V>(cells: Cells<V>, p: Key, c: Key, node: Node<V>)
    requires Tree(cells) && IsMap(cells, p) && IsChunk(c) && p + c !in cells
    ensures Ancestors(AddChild(cells, p, c, node))
  {
    hide U48, Ancestors, KidsRight, KidRight;
    var after := AddChild(cells, p, c, node);
    forall q, n | q in after && 0 <= n < |q| && n % CHUNK_SIZE == 0
      ensures IsMap(after, q[..n])
    {
      if q == p + c {
        AncestorsBelow(cells, p, c, n);
      } else {
        AncestorOf(cells, q, n);
      }
    }
    AllAncestors(after);
  }

  lemma AncestorOf<V>(cells: Cells<V>, q: Key, n: nat)
    requires Ancestors(cells) && q in cells && n < |q| && n % CHUNK_SIZE == 0
    ensures IsMap(cells, q[..n])
  {
  }

  lemma AllAncestors<V>(cells: Cells<V>)
    requires forall p, n | p in cells && 0 <= n < |p| && n % CHUNK_SIZE == 0 :: IsMap(cells, p[..n])
    ensures Ancestors(cells)
  {
  }

  lemma AddChildKids<V>(cells: Cells<V>, p: Key, c: Key, node: Node<V>)
    requires Tree(cells) && IsMap(cells, p) && IsChunk(c) && p + c !in cells
    ensures KidsRight(AddChild(cells, p, c, node))
  {
    hide U48, Ancestors;
    var after := AddChild(cells, p, c, node);
    forall q, d | IsMap(after, q) && IsChunk(d)
      ensures KidRight(after, q, d)
    {
      ChunkNumbersDiffer(c, d);
      assert IsMap(cells, q) && KidRight(cells, q, d);
      SameSplit(p, c, q, d);
    }
  }

  lemma AddChildShape<V>(cells: Cells<V>, leaves: set<Leaf<V>>, p: Key, c: Key, node: Node<V>)
    requires Shape(cells, leaves) && IsMap(cells, p) && IsChunk(c) && p + c !in cells && node.path == p + c
    ensures Shape(AddChild(cells, p, c, node), leaves)
  {
    hide U48, Ancestors, KidsRight, KidRight;
    AddChildAncestors(cells, p, c, node);
    AddChildKids(cells, p, c, node);
    var after := AddChild(cells, p, c, node);
    forall l | l in leaves
      ensures Placed(after, l)
    {
      var q := PlaceOf(cells, leaves, l);
      assert PlacedAt(after, l, q);
    }
  }

  // Changes that leave the children by chunk as they are.

  ghost predicate SameMaps<V>(cells: Cells<V>, after: Cells<V>) {
    && cells.Keys == after.Keys
    && forall p | p in cells ::
         && after[p].node == cells[p].node && IsMap(after, p) == IsMap(cells, p)
         && (IsMap(cells, p) ==> after[p].children == cells[p].children)
  }

  lemma SameTree<V>(cells: Cells<V>, after: Cells<V>)
    requires Tree(cells) && SameMaps(cells, after)
    ensures Tree(after)
  {
    hide U48;
    forall q, d | IsMap(after, q) && IsChunk(d)
      ensures KidRight(after, q, d)
    {
      assert KidRight(cells, q, d);
    }
  }

  /** All cells but one unchanged: what has to be shown of that one. */
  lemma OneCellHolds<V>(cells: Cells<V>, leaves: set<Leaf<V>>, p: Key, cell: Cell<V>, leaves': set<Leaf<V>>)
    requires Shape(cells, leaves) && p in cells && CellRight(p, cell, leaves')
    requires forall q | q in cells && q != p :: CellRight(q, cells[q], leaves')
    requires forall l | l in leaves' :: l in leaves || PlacedAt(cells[p := cell], l, p)
    requires forall l | l in leaves' && PlacedAt(cells, l, p) :: PlacedAt(cells[p := cell], l, p)
    ensures Holds(cells[p := cell], leaves')
  {
    hide Tree, CellRight;
    var after := cells[p := cell];
    forall l | l in leaves'
      ensures Placed(after, l)
    {
      if l in leaves {
        assert Placed(cells, l);
        var q :| PlacedAt(cells, l, q);
        assert PlacedAt(after, l, q);
      } else {
        assert PlacedAt(after, l, p);
      }
    }
  }

  /** Another leaf, or none, at the end of a key. */
  function PutLeaf<V>(cells: Cells<V>, p: Key, l: Leaf?<V>): Cells<V>
    requires p in cells
  {
    cells[p := cells[p].(leaf := l)]
  }

  lemma PutLeafShape<V>(cells: Cells<V>, leaves: set<Leaf<V>>, p: Key, l: Leaf?<V>)
    requires Shape(cells, leaves) && p in cells && (l == null || (l.key == p && l !in leaves && Absent(cells, l)))
    ensures Shape(PutLeaf(cells, p, l), leaves - {cells[p].leaf} + (if l == null then {} else {l}))
  {
    hide U48, NextChunk, Ancestors, KidsRight;
    var after := PutLeaf(cells, p, l);
    var cell, leaves' := after[p], leaves - {cells[p].leaf} + (if l == null then {} else {l});
    SameTree(cells, after);
    forall q | q in cells
      ensures q != p ==> CellRight(q, cells[q], leaves')
      ensures cells[q].children.ListChildren? ==> ItemsRight(q, cells[q].children.items, leaves')
    {
      assert CellRight(q, cells[q], leaves);
      if IsList(cells, q) {
        LeafInNoList(cells, leaves, p, q);
      }
    }
    OneCellHolds(cells, leaves, p, cell, leaves');
  }

  lemma LeafInNoList<V>(cells: Cells<V>, leaves: set<Leaf<V>>, p: Key, q: Key)
    requires Shape(cells, leaves) && p in cells && IsList(cells, q)
    ensures forall i | 0 <= i < |cells[q].children.items| :: cells[q].children.items[i].1 != cells[p].leaf
  {
    hide U48, NextChunk, Ancestors, KidsRight;
    assert CellRight(p, cells[p], leaves) && CellRight(q, cells[q], leaves);
    forall i | 0 <= i < |cells[q].children.items|
      ensures cells[q].children.items[i].1 != cells[p].leaf
    {
      if cells[q].children.items[i].1 == cells[p].leaf {
        OnePlace(cells, q, p, p);
      }
    }
  }

  function PutItems<V>(cells: Cells<V>, p: Key, items: seq<Item<V>>): Cells<V>
    requires p in cells
  {
    cells[p := cells[p].(children := ListChildren(items))]
  }

  lemma MoreLeaves<V>(p: Key, cell: Cell<V>, leaves: set<Leaf<V>>, l: Leaf<V>)
    requires CellRight(p, cell, leaves) &&
        (cell.children.ListChildren? ==> forall x | x in cell.children.items :: x.1 != l)
    ensures CellRight(p, cell, leaves + {l})
  {
  }

  lemma MoreItems<V>(p: Key, items: seq<Item<V>>, leaves: set<Leaf<V>>, sub: Key, l: Leaf<V>)
    requires ItemsRight(p, items, leaves) && |p| % CHUNK_SIZE == 0 && sub != [] && l.key == p + sub
    requires forall x | x in items :: x.1 != l
    requires forall i | 0 <= i < |items| :: items[i].0 != sub
    ensures ItemsRight(p, items + [(sub, l)], leaves + {l})
    ensures (sub, l) in items + [(sub, l)] && forall x | x in items :: x in items + [(sub, l)]
  {
    var more := items + [(sub, l)];
    assert more[|items|] == (sub, l);
    assert forall i | 0 <= i < |items| :: more[i] == items[i];
  }

  lemma AppendItemShape<V>(cells: Cells<V>, leaves: set<Leaf<V>>, p: Key, sub: Key, l: Leaf<V>)
    requires Shape(cells, leaves) && Absent(cells, l) && IsList(cells, p) && |p| % CHUNK_SIZE == 0 && sub != [] &&
        l.key == p + sub
    requires forall i | 0 <= i < |cells[p].children.items| :: cells[p].children.items[i].0 != sub
    ensures Shape(PutItems(cells, p, cells[p].children.items + [(sub, l)]), leaves + {l})
  {
    hide U48, NextChunk, Ancestors, KidsRight, ItemsRight, DistinctItems;
    var items := cells[p].children.items;
    var more := items + [(sub, l)];
    var after := PutItems(cells, p, more);
    SameTree(cells, after);
    assert CellRight(p, cells[p], leaves);
    MoreItems(p, items, leaves, sub, l);
    forall q | q in cells
      ensures CellRight(q, cells[q], leaves + {l})
    {
      MoreLeaves(q, cells[q], leaves, l);
    }
    assert l.key[|p|..] == sub;
    OneCellHolds(cells, leaves, p, after[p], leaves + {l});
  }

  function Without<T>(s: seq<T>, i: nat): seq<T> {
    if i < |s| then s[..i] + s[i + 1..] else s
  }

  lemma FewerItems<V>(p: Key, items: seq<Item<V>>, leaves: set<Leaf<V>>, i: nat)
    requires ItemsRight(p, items, leaves) && i < |items| && items[i].0 != [] && forall j | 0 <= j < |items| &&
        items[j].1 == items[i].1 :: j == i
    ensures ItemsRight(p, Without(items, i), leaves - {items[i].1})
    ensures forall x | x in items && x.1 != items[i].1 :: x in Without(items, i)
  {
    var rest := Without(items, i);
    assert forall j | 0 <= j < |rest| :: rest[j] == items[if j < i then j else j + 1];
    forall x | x in items && x.1 != items[i].1
      ensures x in rest
    {
      var j :| 0 <= j < |items| && items[j] == x;
      assert rest[if j < i then j else j - 1] == x;
    }
  }

  lemma RemoveItemShape<V>(cells: Cells<V>, leaves: set<Leaf<V>>, p: Key, i: nat)
    requires Shape(cells, leaves) && IsList(cells, p) && i < |cells[p].children.items| &&
        cells[p].children.items[i].0 != []
    ensures var items := cells[p].children.items;
            Shape(PutItems(cells, p, Without(items, i)), leaves - {items[i].1})
  {
    hide U48, NextChunk, Ancestors, KidsRight, ItemsRight, DistinctItems, Without;
    var items := cells[p].children.items;
    var rest, leaves' := Without(items, i), leaves - {items[i].1};
    var after := PutItems(cells, p, rest);
    SameTree(cells, after);
    forall q | q in cells
      ensures q != p ==> CellRight(q, cells[q], leaves')
      ensures cells[q].leaf != items[i].1
    {
      OnlyItem(cells, leaves, p, i, q);
      if q != p {
        FewerLeaves(q, cells[q], leaves, items[i].1);
      }
    }
    assert CellRight(p, cells[p], leaves);
    OnlyItem(cells, leaves, p, i, p);
    FewerItems(p, items, leaves, i);
    OneCellHolds(cells, leaves, p, after[p], leaves');
  }

  lemma FewerLeaves<V>(p: Key, cell: Cell<V>, leaves: set<Leaf<V>>, l: Leaf<V>)
    requires CellRight(p, cell, leaves)
    requires cell.leaf != l &&
        (cell.children.ListChildren? ==> forall i | 0 <= i < |cell.children.items| :: cell.children.items[i].1 != l)
    ensures CellRight(p, cell, leaves - {l})
  {
  }

  /** A leaf in a list is nowhere else. */
  lemma OnlyItem<V>(cells: Cells<V>, leaves: set<Leaf<V>>, p: Key, i: nat, q: Key)
    requires Shape(cells, leaves) && IsList(cells, p) && i < |cells[p].children.items| && q in cells
    requires cells[p].children.items[i].0 != []
    ensures var l := cells[p].children.items[i].1;
            && cells[q].leaf != l
            && (IsList(cells, q) ==> forall j | 0 <= j < |cells[q].children.items| ::
                cells[q].children.items[j].1 == l ==> q == p && j == i)
  {
    hide U48, NextChunk, Ancestors, KidsRight;
    var (sub, l) := cells[p].children.items[i];
    assert CellRight(p, cells[p], leaves) && CellRight(q, cells[q], leaves);
    LeafInNoList(cells, leaves, q, p);
    if IsList(cells, q) {
      forall j | 0 <= j < |cells[q].children.items| && cells[q].children.items[j].1 == l
        ensures q == p && j == i
      {
        assert p <= l.key && q <= l.key;
        if |p| <= |q| {
          OnePlace(cells, p, q, l.key);
        } else {
          OnePlace(cells, q, p, l.key);
        }
        assert cells[q].children.items[j].0 == l.key[|p|..] == sub;
      }
    }
  }

  // ----- turning a list into a map -----

  function Head(sub: Key): Key {
    if |sub| > CHUNK_SIZE then sub[..CHUNK_SIZE] else sub
  }

  function Tail(sub: Key): Key {
    if |sub| > CHUNK_SIZE then sub[CHUNK_SIZE..] else []
  }

  /** The items that go to the child for chunk `c`. */
  function Group<V>(items: seq<Item<V>>, c: Key): seq<Item<V>> {
    if items == [] then []
    else
      var (sub, l) := items[|items| - 1];
      Group(items[..|items| - 1], c) + (if Head(sub) == c then [(Tail(sub), l)] else [])
  }

  lemma {:induction false} GroupMembers<V>(items: seq<Item<V>>, c: Key, x: Item<V>)
    ensures x in Group(items, c) <==> Head(c + x.0) == c && (c + x.0, x.1) in items
  {
    if items != [] {
      var front, last := items[..|items| - 1], items[|items| - 1];
      assert items == front + [last];
      GroupMembers(front, c, x);
      SplitKey(last.0);
      SplitBack(c, x.0);
    }
  }

  lemma SplitKey(sub: Key)
    ensures sub == Head(sub) + Tail(sub)
  {
  }

  lemma SplitBack(c: Key, s: Key)
    ensures Head(c + s) == c ==> Tail(c + s) == s
  {
    assert c + s == Head(c + s) + Tail(c + s);
    assert Head(c + s) == c ==> (c + s)[|c|..] == s;
  }

  lemma {:induction false} GroupDistinct<V>(items: seq<Item<V>>, c: Key)
    requires DistinctItems(items)
    ensures DistinctItems(Group(items, c))
  {
    hide Head, Tail;
    if items != [] {
      var front, last := items[..|items| - 1], items[|items| - 1];
      GroupDistinct(front, c);
      if Head(last.0) == c {
        var group := Group(front, c);
        forall i | 0 <= i < |group|
          ensures group[i].0 != Tail(last.0)
        {
          assert group[i] in group;
          GroupMembers(front, c, group[i]);
          SplitKey(last.0);
        }
      }
    }
  }

  /** New list nodes under the chunks of the items of `p`, each with the items of its chunk. */
  ghost predicate Grouped<V>(p: Key, items: seq<Item<V>>, kids: map<int, Node<V>>, added: Cells<V>) {
    && (forall q | q in added ::
          && p < q && IsChunk(q[|p|..])
          && added[q].node.path == q && added[q].leaf == null &&
              added[q].children == ListChildren(Group(items, q[|p|..])))
    && (forall c | IsChunk(c) ::
        (U48(c) in kids <==> p + c in added) &&
        (p + c in added ==> kids[U48(c)] == added[p + c].node))
    && (forall i | 0 <= i < |items| && items[i].0 != [] :: p + Head(items[i].0) in added)
  }

  function Graft<V>(cells: Cells<V>, p: Key, kids: map<int, Node<V>>, added: Cells<V>): Cells<V>
    requires p in cells
  {
    cells[p := cells[p].(children := MapChildren(kids))] + added
  }

  lemma AddedIsNew<V>(cells: Cells<V>, p: Key, items: seq<Item<V>>, kids: map<int, Node<V>>, added: Cells<V>)
    requires Tree(cells) && IsList(cells, p) && |p| % CHUNK_SIZE == 0 && Grouped(p, items, kids, added)
    ensures cells.Keys !! added.Keys
  {
    hide U48, Ancestors, KidsRight, Group;
    forall q | q in cells && q in added
      ensures false
    {
      assert q[..|p|] == p;
      AncestorOf(cells, q, |p|);
    }
  }

  lemma AncestorsUnder<V>(cells: Cells<V>, p: Key, q: Key, n: nat)
    requires Ancestors(cells) && p in cells && |p| % CHUNK_SIZE == 0 && p < q && IsChunk(q[|p|..]) && n < |q| &&
        n % CHUNK_SIZE == 0
    ensures q[..n] == p || IsMap(cells, q[..n])
  {
    hide Ancestors;
    assert n <= |p|;
    if n < |p| {
      AncestorOf(cells, p, n);
      assert q[..n] == p[..n];
    } else {
      assert q[..n] == p;
    }
  }

  lemma GraftAncestors<V>(cells: Cells<V>, p: Key, items: seq<Item<V>>, kids: map<int, Node<V>>, added: Cells<V>)
    requires Tree(cells) && IsList(cells, p) && |p| % CHUNK_SIZE == 0 && Grouped(p, items, kids, added)
    ensures Ancestors(Graft(cells, p, kids, added))
  {
    hide U48, Ancestors, KidsRight, KidRight, Group;
    var after := Graft(cells, p, kids, added);
    AddedIsNew(cells, p, items, kids, added);
    forall q, n | q in after && 0 <= n < |q| && n % CHUNK_SIZE == 0
      ensures IsMap(after, q[..n])
    {
      if q in added {
        AncestorsUnder(cells, p, q, n);
      } else {
        AncestorOf(cells, q, n);
      }
    }
    AllAncestors(after);
  }

  lemma GraftKids<V>(cells: Cells<V>, p: Key, items: seq<Item<V>>, kids: map<int, Node<V>>, added: Cells<V>)
    requires Tree(cells) && IsList(cells, p) && |p| % CHUNK_SIZE == 0 && Grouped(p, items, kids, added)
    ensures KidsRight(Graft(cells, p, kids, added))
  {
    hide U48, Ancestors, Group;
    var after := Graft(cells, p, kids, added);
    AddedIsNew(cells, p, items, kids, added);
    forall q, d | IsMap(after, q) && IsChunk(d)
      ensures KidRight(after, q, d)
    {
      if q == p {
        if p + d in cells {
          assert (p + d)[..|p|] == p;
          AncestorOf(cells, p + d, |p|);
        }
      } else {
        assert KidRight(cells, q, d);
        if q + d in added {
          var c := (q + d)[|p|..];
          assert q + d == p + c;
          SameSplit(p, c, q, d);
        }
      }
    }
  }

  /** The leaves of a list whose keys end with the next chunk. */
  ghost function ShortLeaves<V>(items: seq<Item<V>>): set<Leaf<V>> {
    set x | x in items && 0 < |x.0| <= CHUNK_SIZE :: x.1
  }

  /**
   Turning a list into a map keeps every leaf in its place but those whose keys end with the next chunk: they become
   items with nothing left of their keys.
   */
  lemma GraftShape<V>(cells: Cells<V>, leaves: set<Leaf<V>>, p: Key, kids: map<int, Node<V>>, added: Cells<V>)
    requires Shape(cells, leaves) && IsList(cells, p) && |p| % CHUNK_SIZE == 0
    requires Grouped(p, cells[p].children.items, kids, added)
    ensures Shape(Graft(cells, p, kids, added), leaves - ShortLeaves(cells[p].children.items))
  {
    hide U48, Ancestors, KidsRight, KidRight, Group, Head, Tail, ShortLeaves, CellRight, Placed;
    var items := cells[p].children.items;
    var after, leaves' := Graft(cells, p, kids, added), leaves - ShortLeaves(items);
    AddedIsNew(cells, p, items, kids, added);
    GraftAncestors(cells, p, items, kids, added);
    GraftKids(cells, p, items, kids, added);
    forall q | q in after
      ensures CellRight(q, after[q], leaves')
    {
      if q in added {
        AddedRight(cells, leaves, p, kids, added, q);
      } else {
        KeptRight(cells, leaves, p, q);
        if q == p {
          MapRight(p, cells[p], kids, leaves');
        }
      }
    }
    forall l | l in leaves'
      ensures Placed(after, l)
    {
      GraftPlaced(cells, leaves, p, kids, added, l);
    }
  }

  lemma MapRight<V>(p: Key, cell: Cell<V>, kids: map<int, Node<V>>, leaves: set<Leaf<V>>)
    requires cell.leaf != null ==> cell.leaf in leaves && cell.leaf.key == p
    ensures CellRight(p, cell.(children := MapChildren(kids)), leaves)
  {
  }

  /** The leaves leaving their places were in the converted list only. */
  lemma KeptRight<V>(cells: Cells<V>, leaves: set<Leaf<V>>, p: Key, q: Key)
    requires Shape(cells, leaves) && IsList(cells, p) && q in cells
    ensures var leaves' := leaves - ShortLeaves(cells[p].children.items);
            && (cells[q].leaf != null ==> cells[q].leaf in leaves' && cells[q].leaf.key == q)
            && (q != p ==> CellRight(q, cells[q], leaves'))
  {
    hide U48, Tree, Placed;
    var items := cells[p].children.items;
    assert CellRight(q, cells[q], leaves);
    LeafInNoList(cells, leaves, q, p);
    if q != p && IsList(cells, q) {
      var others := cells[q].children.items;
      forall i | 0 <= i < |others| && others[i].0 != []
        ensures others[i].1 !in ShortLeaves(items)
      {
        OnlyItem(cells, leaves, q, i, p);
        assert ItemRight(q, others[i], leaves);
      }
      assert forall i | 0 <= i < |others| :: ItemRight(q, others[i], leaves);
    }
  }

  /** What an item of a new child was in the list. */
  lemma AddedItem<V>(p: Key, items: seq<Item<V>>, leaves: set<Leaf<V>>, c: Key, x: Item<V>)
    requires ItemsRight(p, items, leaves) && IsChunk(c) && x in Group(items, c)
    ensures x.1 in leaves && x.1.key == p + c + x.0 && |p| % CHUNK_SIZE == 0 && (x.0 != [] ==> |c| == CHUNK_SIZE)
    ensures x.1 in ShortLeaves(items) <==> x.0 == []
  {
    hide Group, DistinctItems;
    GroupMembers(items, c, x);
    var i :| 0 <= i < |items| && items[i] == (c + x.0, x.1);
    assert ItemRight(p, items[i], leaves);
    assert p + (c + x.0) == p + c + x.0;
    forall y | y in items && y.1 == x.1
      ensures y.0 == c + x.0
    {
      var j :| 0 <= j < |items| && items[j] == y;
      assert ItemRight(p, items[j], leaves);
      assert p + y.0 == p + (c + x.0);
      assert y.0 == (p + y.0)[|p|..] == (p + (c + x.0))[|p|..];
    }
  }

  lemma AddedRight<V>(cells: Cells<V>, leaves: set<Leaf<V>>, p: Key, kids: map<int, Node<V>>, added: Cells<V>, q: Key)
    requires IsList(cells, p) && CellRight(p, cells[p], leaves) && Grouped(p, cells[p].children.items, kids, added) &&
        q in added
    ensures CellRight(q, added[q], leaves - ShortLeaves(cells[p].children.items))
  {
    hide U48, Group, Head, Tail, ShortLeaves, DistinctItems;
    var items := cells[p].children.items;
    var c := q[|p|..];
    var group := Group(items, c);
    assert p + c == q;
    GroupDistinct(items, c);
    forall j | 0 <= j < |group|
      ensures ItemRight(q, group[j], leaves - ShortLeaves(items))
    {
      AddedItem(p, items, leaves, c, group[j]);
    }
    assert added[q].children.items == group;
  }

  lemma GraftPlaced<V>(cells: Cells<V>, leaves: set<Leaf<V>>, p: Key, kids: map<int, Node<V>>, added: Cells<V>,
      l: Leaf<V>)
    requires Shape(cells, leaves) && IsList(cells, p) && |p| % CHUNK_SIZE == 0
    requires Grouped(p, cells[p].children.items, kids, added) && l in leaves &&
        l !in ShortLeaves(cells[p].children.items)
    ensures Placed(Graft(cells, p, kids, added), l)
  {
    hide U48, Tree, Group, Head, Tail, Grouped;
    var items := cells[p].children.items;
    var after := Graft(cells, p, kids, added);
    AddedIsNewIn(cells, p, kids, added);
    var q := PlaceOf(cells, leaves, l);
    if q != p || cells[q].leaf == l {
      assert PlacedAt(after, l, q);
    } else {
      MovedTo(p, items, kids, added, l);
      assert PlacedAt(after, l, p + Head(l.key[|p|..]));
    }
  }

  lemma AddedIsNewIn<V>(cells: Cells<V>, p: Key, kids: map<int, Node<V>>, added: Cells<V>)
    requires Tree(cells) && IsList(cells, p) && |p| % CHUNK_SIZE == 0 &&
        Grouped(p, cells[p].children.items, kids, added)
    ensures cells.Keys !! added.Keys
  {
    hide Tree, Grouped;
    AddedIsNew(cells, p, cells[p].children.items, kids, added);
  }

  lemma MovedTo<V>(p: Key, items: seq<Item<V>>, kids: map<int, Node<V>>, added: Cells<V>, l: Leaf<V>)
    requires Grouped(p, items, kids, added) && p < l.key && (l.key[|p|..], l) in items && l !in ShortLeaves(items)
    ensures var q := p + Head(l.key[|p|..]);
            && q in added && q < l.key && added[q].children.ListChildren? &&
                (l.key[|q|..], l) in added[q].children.items
  {
    hide U48, Group;
    var sub := l.key[|p|..];
    var c, s := Head(sub), Tail(sub);
    SplitKey(sub);
    var i :| 0 <= i < |items| && items[i] == (sub, l);
    GroupMembers(items, c, (s, l));
    assert l.key == p + (c + s) && p + (c + s) == (p + c) + s;
    assert (p + c)[|p|..] == c && l.key[|p + c|..] == s;
  }

  // ----- leaves out of place -----

  /** The leaf out of place at the node of `k` once the list of `p` has become a map. */
  function StrayAfter<V>(cells: Cells<V>, p: Key, k: Key): Leaf?<V>
    requires IsList(cells, p)
  {
    if k == p then null
    else if p < k && |k| - |p| <= CHUNK_SIZE && ItemAt(cells[p].children.items, k[|p|..]) != null
    then ItemAt(cells[p].children.items, k[|p|..])
    else StrayOf(cells, k)
  }

  lemma ItemAtIs<V>(items: seq<Item<V>>, x: Item<V>)
    requires DistinctItems(items)
    ensures x in items <==> ItemAt(items, x.0) == x.1
  {
    hide Position;
    if x in items {
      var i :| 0 <= i < |items| && items[i] == x;
      assert Position(items, x.0) == i;
    }
  }

  lemma GroupItemAt<V>(items: seq<Item<V>>, c: Key)
    requires DistinctItems(items) && IsChunk(c)
    ensures ItemAt(Group(items, c), []) == ItemAt(items, c)
  {
    hide Group, Head, Tail, DistinctItems, ItemAt;
    var group := Group(items, c);
    GroupDistinct(items, c);
    assert c + [] == c;
    assert Head(c) == c by { ShortHead(c); }
    var before, after := ItemAt(items, c), ItemAt(group, []);
    if before != null {
      ItemAtIs(items, (c, before));
      GroupMembers(items, c, ([], before));
      ItemAtIs(group, ([], before));
    } else if after != null {
      ItemAtIs(group, ([], after));
      GroupMembers(items, c, ([], after));
      ItemAtIs(items, (c, after));
    }
  }

  lemma ShortHead(c: Key)
    requires |c| <= CHUNK_SIZE
    ensures Head(c) == c && Tail(c) == []
  {
  }

  /**
   A conversion puts exactly the short keys of its list out of place, and takes a leaf out of place there off the tree.
   */
  lemma GraftStrays<V>(cells: Cells<V>, leaves: set<Leaf<V>>, p: Key, kids: map<int, Node<V>>, added: Cells<V>, k: Key)
    requires Shape(cells, leaves) && IsList(cells, p) && |p| % CHUNK_SIZE == 0
    requires Grouped(p, cells[p].children.items, kids, added)
    ensures StrayOf(Graft(cells, p, kids, added), k) == StrayAfter(cells, p, k)
  {
    hide U48, Tree, Group, Head, ItemAt, Position;
    var items := cells[p].children.items;
    assert CellRight(p, cells[p], leaves);
    AddedIsNew(cells, p, items, kids, added);
    if k in added {
      var c := k[|p|..];
      assert p + c == k;
      GroupItemAt(items, c);
    } else {
      NotAdded(p, items, kids, added, k);
    }
  }

  lemma NotAdded<V>(p: Key, items: seq<Item<V>>, kids: map<int, Node<V>>, added: Cells<V>, k: Key)
    requires Grouped(p, items, kids, added) && k !in added
    ensures p < k && |k| - |p| <= CHUNK_SIZE ==> ItemAt(items, k[|p|..]) == null
  {
    hide U48, Group, ItemAt;
    if p < k && |k| - |p| <= CHUNK_SIZE {
      assert p + k[|p|..] == k;
      assert forall i | 0 <= i < |items| :: items[i].0 != k[|p|..];
      NoItemThere(items, k[|p|..]);
    }
  }

  lemma NoItemThere<V>(items: seq<Item<V>>, sub: Key)
    requires forall i | 0 <= i < |items| :: items[i].0 != sub
    ensures ItemAt(items, sub) == null
  {
  }

  // Changes of other kinds leave the leaves out of place where they are.

  lemma AddChildStrays<V>(cells: Cells<V>, p: Key, c: Key, node: Node<V>, k: Key)
    requires IsMap(cells, p) && IsChunk(c) && p + c !in cells
    ensures StrayOf(AddChild(cells, p, c, node), k) == StrayOf(cells, k)
  {
    hide U48;
    assert p != p + c;
  }

  lemma PutItemsStrays<V>(cells: Cells<V>, p: Key, items: seq<Item<V>>, k: Key)
    requires IsList(cells, p) && ItemAt(items, []) == ItemAt(cells[p].children.items, [])
    ensures StrayOf(PutItems(cells, p, items), k) == StrayOf(cells, k)
  {
    hide ItemAt;
  }

  lemma AppendedItem<V>(items: seq<Item<V>>, sub: Key, l: Leaf<V>, k: Key)
    requires k != sub && DistinctItems(items)
    ensures ItemAt(items + [(sub, l)], k) == ItemAt(items, k)
  {
    hide Position;
    var more := items + [(sub, l)];
    var i, j := Position(items, k), Position(more, k);
    assert forall n | 0 <= n < |items| :: more[n] == items[n];
    assert j < |more| ==> j < |items|;
  }

  lemma WithoutItem<V>(items: seq<Item<V>>, at: nat, k: Key)
    requires at < |items| && k != items[at].0
    ensures ItemAt(Without(items, at), k) == ItemAt(items, k)
  {
    hide Position;
    var rest := Without(items, at);
    var i, j := Position(items, k), Position(rest, k);
    assert forall n | 0 <= n < |rest| :: rest[n] == items[if n < at then n else n + 1];
    if i < |items| {
      assert rest[if i < at then i else i - 1] == items[i];
    }
  }

  /** Setting or removing a long key does not matter to the short ones. */
  lemma LongKeyChange<V>(cells: Cells<V>, p: Key, items: seq<Item<V>>, k: Key)
    requires IsList(cells, p) && forall t | |t| <= CHUNK_SIZE :: ItemAt(items, t) == ItemAt(cells[p].children.items, t)
    ensures StrayAfter(PutItems(cells, p, items), p, k) == StrayAfter(cells, p, k)
  {
    hide ItemAt;
  }

  lemma ShortLeavesSame<V>(items: seq<Item<V>>, more: seq<Item<V>>)
    requires DistinctItems(items) && DistinctItems(more)
    requires forall t | |t| <= CHUNK_SIZE :: ItemAt(items, t) == ItemAt(more, t)
    ensures ShortLeaves(items) == ShortLeaves(more)
  {
    hide ItemAt, DistinctItems;
    forall x: Item<V> | |x.0| <= CHUNK_SIZE
      ensures x in items <==> x in more
    {
      ItemAtIs(items, x);
      ItemAtIs(more, x);
    }
  }
}

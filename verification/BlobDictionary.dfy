/**
 A map with byte strings as keys: a tree of list and map nodes beside an insertion-ordered index of the same leaf
 objects. Seen from outside it is an insertion-ordered finite map.
 */
module BlobDictionary {
  import opened Bytes
  import opened BlobTree

  // ----- insertion-ordered maps -----

  type Entry<V> = (Key, V)

  function Lookup<V>(es: seq<Entry<V>>, k: Key): Option<V> {
    var i := Position(es, k);
    if i < |es| then Some(es[i].1) else None
  }

  /** Overwriting keeps the place of a key; a new key goes to the end. */
  function Update<V>(es: seq<Entry<V>>, k: Key, v: V): seq<Entry<V>> {
    var i := Position(es, k);
    if i < |es| then es[i := (k, v)] else es + [(k, v)]
  }

  function Erase<V>(es: seq<Entry<V>>, k: Key): seq<Entry<V>> {
    var i := Position(es, k);
    if i < |es| then Without(es, i) else es
  }

  function UpdateAll<V>(es: seq<Entry<V>>, more: seq<Entry<V>>): seq<Entry<V>> {
    if more == [] then es else Update(UpdateAll(es, more[..|more| - 1]), more[|more| - 1].0, more[|more| - 1].1)
  }

  function AsMap<V>(es: seq<Entry<V>>): map<Key, V> {
    if es == [] then map[] else AsMap(es[..|es| - 1])[es[|es| - 1].0 := es[|es| - 1].1]
  }

  lemma AsMapLast<V>(front: seq<Entry<V>>, last: Entry<V>)
    ensures AsMap(front + [last]) == AsMap(front)[last.0 := last.1]
  {
    assert (front + [last])[..|front|] == front;
  }

  /** A map extended by a new key has one element more. */
  lemma OneMore<K, V>(m: map<K, V>, k: K, v: V)
    requires k !in m
    ensures |m[k := v]| == |m| + 1
  {
    assert m[k := v].Keys == m.Keys + {k};
  }

  lemma {:induction false} AsMapMembers<V>(es: seq<Entry<V>>)
    requires DistinctItems(es)
    ensures forall i | 0 <= i < |es| :: es[i].0 in AsMap(es) && AsMap(es)[es[i].0] == es[i].1
    ensures forall k | k in AsMap(es) :: Position(es, k) < |es|
  {
    hide Position, AsMap;
    if es == [] {
      EmptyMap(es);
    } else {
      var front, last := es[..|es| - 1], es[|es| - 1];
      assert es == front + [last];
      AsMapLast(front, last);
      AsMapMembers(front);
      forall k | k in AsMap(es)
        ensures Position(es, k) < |es|
      {
        assert k != last.0 ==> es[Position(front, k)].0 == k;
      }
    }
  }

  lemma {:induction false} AsMapSize<V>(es: seq<Entry<V>>)
    requires DistinctItems(es)
    ensures |AsMap(es)| == |es|
  {
    hide Position, AsMap;
    if es == [] {
      EmptyMap(es);
    } else {
      var front, last := es[..|es| - 1], es[|es| - 1];
      assert es == front + [last];
      AsMapLast(front, last);
      AsMapMembers(front);
      AsMapSize(front);
      assert forall j | 0 <= j < |front| :: front[j].0 == es[j].0 && front[j].0 != last.0;
      OneMore(AsMap(front), last.0, last.1);
    }
  }

  lemma EmptyMap<V>(es: seq<Entry<V>>)
    requires es == []
    ensures AsMap(es) == map[]
  {
  }

  lemma UpdateIsMap<V>(es: seq<Entry<V>>, k: Key, v: V)
    requires DistinctItems(es)
    ensures DistinctItems(Update(es, k, v)) && AsMap(Update(es, k, v)) == AsMap(es)[k := v]
  {
    hide Position;
    var i := Position(es, k);
    if i < |es| {
      ReplaceInMap(es, i, v);
    } else {
      assert Update(es, k, v)[..|es|] == es;
    }
  }

  lemma {:induction false} ReplaceInMap<V>(es: seq<Entry<V>>, i: nat, v: V)
    requires DistinctItems(es) && i < |es|
    ensures DistinctItems(es[i := (es[i].0, v)]) && AsMap(es[i := (es[i].0, v)]) == AsMap(es)[es[i].0 := v]
  {
    var front, k := es[..|es| - 1], es[i].0;
    var more := es[i := (k, v)];
    if i < |es| - 1 {
      ReplaceInMap(front, i, v);
      assert more[..|es| - 1] == front[i := (k, v)];
      assert es[|es| - 1].0 != k;
    } else {
      assert more[..|es| - 1] == front;
    }
  }

  lemma EraseIsMap<V>(es: seq<Entry<V>>, k: Key)
    requires DistinctItems(es)
    ensures DistinctItems(Erase(es, k)) && AsMap(Erase(es, k)) == AsMap(es) - {k}
  {
    hide Position, AsMap;
    AsMapMembers(es);
    var i := Position(es, k);
    if i < |es| {
      RemoveFromMap(es, i);
    }
  }

  lemma StaysDistinct<V>(es: seq<Entry<V>>, i: nat)
    requires DistinctItems(es) && i < |es|
    ensures DistinctItems(Without(es, i))
  {
    assert forall j | 0 <= j < |es| - 1 :: Without(es, i)[j] == es[if j < i then j else j + 1];
  }

  lemma PutThenRemove<K, V>(m: map<K, V>, k: K, v: V, d: K)
    ensures k == d && k !in m ==> m[k := v] - {d} == m
    ensures k != d ==> m[k := v] - {d} == (m - {d})[k := v]
  {
  }

  lemma {:induction false} RemoveFromMap<V>(es: seq<Entry<V>>, i: nat)
    requires DistinctItems(es) && i < |es|
    ensures DistinctItems(Without(es, i)) && AsMap(Without(es, i)) == AsMap(es) - {es[i].0}
  {
    hide AsMap;
    var front, last := es[..|es| - 1], es[|es| - 1];
    var less := Without(es, i);
    StaysDistinct(es, i);
    assert es == front + [last];
    AsMapLast(front, last);
    PutThenRemove(AsMap(front), last.0, last.1, es[i].0);
    if i < |es| - 1 {
      RemoveFromMap(front, i);
      assert less == Without(front, i) + [last];
      AsMapLast(Without(front, i), last);
    } else {
      assert less == front;
      AsMapMembers(front);
    }
  }

  lemma LookupInMap<V>(es: seq<Entry<V>>, k: Key)
    requires DistinctItems(es)
    ensures Lookup(es, k) == if k in AsMap(es) then Some(AsMap(es)[k]) else None
  {
    hide AsMap, Position;
    AsMapMembers(es);
  }

  /**
   The entries are a finite map: setting, erasing and looking up do what they do to a map, and the size is its
   cardinality.
   */
  lemma EntriesAreMap<V>(es: seq<Entry<V>>, k: Key, v: V)
    requires DistinctItems(es)
    ensures DistinctItems(Update(es, k, v)) && AsMap(Update(es, k, v)) == AsMap(es)[k := v]
    ensures DistinctItems(Erase(es, k)) && AsMap(Erase(es, k)) == AsMap(es) - {k}
    ensures Lookup(es, k) == (if k in AsMap(es) then Some(AsMap(es)[k]) else None)
    ensures |es| == |AsMap(es)|
  {
    hide AsMap, Position, Update, Erase, Lookup;
    UpdateIsMap(es, k, v);
    EraseIsMap(es, k);
    LookupInMap(es, k);
    AsMapSize(es);
  }

  // ----- lists of children -----

  /** `findIndex`, with the length for -1. */
  method FindIndex<V>(items: seq<Item<V>>, sub: Key) returns (i: nat)
    ensures i == Position(items, sub)
  {
    hide Position;
    i := 0;
    while i < |items|
      invariant 0 <= i <= |items| && forall j | 0 <= j < i :: items[j].0 != sub
    {
      if items[i].0 == sub {
        return;
      }
      i := i + 1;
    }
  }

  /** The heap is as the cells say. */
  ghost predicate Mirrors<V>(cells: Cells<V>)
    reads NodesOf(cells)
  {
    forall p | p in cells :: cells[p].node.leaf == cells[p].leaf && cells[p].node.children == cells[p].children
  }

  ghost function NodesOf<V>(cells: Cells<V>): set<Node<V>> {
    set p | p in cells :: cells[p].node
  }

  lemma {:induction false} NothingInGroup<V>(items: seq<Item<V>>, c: Key)
    requires forall i | 0 <= i < |items| :: Head(items[i].0) != c
    ensures Group(items, c) == []
  {
    if items != [] {
      NothingInGroup(items[..|items| - 1], c);
    }
  }

  lemma GroupStep<V>(items: seq<Item<V>>, i: nat, c: Key)
    requires i < |items|
    ensures Group(items[..i + 1], c) == Group(items[..i], c) +
        (if Head(items[i].0) == c then [(Tail(items[i].0), items[i].1)] else [])
  {
    assert items[..i + 1][..i] == items[..i];
  }

  lemma HeadIsChunk(sub: Key)
    ensures |Head(sub)| <= CHUNK_SIZE && (sub != [] <==> IsChunk(Head(sub))) &&
        (sub == [] ==> Head(sub) == [] && Tail(sub) == [])
  {
  }

  /** A child for a new chunk starts empty, and none of the items so far belongs to it. */
  lemma NewGroup<V>(p: Key, items: seq<Item<V>>, kids: map<int, Node<V>>, added: Cells<V>, c: Key, child: Node<V>)
    requires Grouped(p, items, kids, added) && IsChunk(c) && U48(c) !in kids && child.path == p + c
    ensures Grouped(p, items, kids[U48(c) := child], added[p + c := Cell(child, null, ListChildren([]))])
  {
    hide U48, Group, Head;
    HeadIsChunk([]);
    NothingInGroup(items, c);
    assert (p + c)[|p|..] == c;
    forall d | IsChunk(d)
      ensures U48(d) == U48(c) <==> p + d == p + c
    {
      ChunkNumbersDiffer(c, d);
      assert (p + d)[|p|..] == d;
    }
  }

  /** An item with nothing left of its key gets a child under the number of the empty chunk, which no key leads to. */
  lemma LostItem<V>(p: Key, items: seq<Item<V>>, i: nat, kids: map<int, Node<V>>, added: Cells<V>, child: Node<V>)
    requires i < |items| && items[i].0 == [] && Grouped(p, items[..i], kids, added)
    ensures Grouped(p, items[..i + 1], kids[U48([]) := child], added)
  {
    hide U48, Group, Head, Tail;
    HeadIsChunk([]);
    forall c | IsChunk(c)
      ensures U48(c) != U48([]) && Group(items[..i + 1], c) == Group(items[..i], c)
    {
      ChunkNumbersDiffer(c, []);
      GroupStep(items, i, c);
    }
  }

  function Pushed<V>(added: Cells<V>, q: Key, x: Item<V>): Cells<V>
    requires IsList(added, q)
  {
    added[q := added[q].(children := ListChildren(added[q].children.items + [x]))]
  }

  lemma GrowGroup<V>(p: Key, items: seq<Item<V>>, i: nat, kids: map<int, Node<V>>, added: Cells<V>)
    requires i < |items| && Grouped(p, items[..i], kids, added) && p + Head(items[i].0) in added
    ensures Grouped(p, items[..i + 1], kids, Pushed(added, p + Head(items[i].0), (Tail(items[i].0), items[i].1)))
  {
    hide U48, Group, Head, Tail, IsChunk;
    var c := Head(items[i].0);
    assert (p + c)[|p|..] == c;
    forall q | q in added
      ensures Group(items[..i + 1], q[|p|..]) ==
              Group(items[..i], q[|p|..]) + (if q == p + c then [(Tail(items[i].0), items[i].1)] else [])
    {
      GroupStep(items, i, q[|p|..]);
      assert q == p + q[|p|..];
    }
  }

  /** Items of a list differ, so those of a child do. */
  lemma NewInGroup<V>(items: seq<Item<V>>, i: nat)
    requires DistinctItems(items) && i < |items|
    ensures var group := Group(items[..i], Head(items[i].0));
            forall j | 0 <= j < |group| :: group[j].0 != Tail(items[i].0)
  {
    hide Group, Head, Tail;
    var c := Head(items[i].0);
    var group := Group(items[..i], c);
    forall j | 0 <= j < |group|
      ensures group[j].0 != Tail(items[i].0)
    {
      assert group[j] in group;
      GroupMembers(items[..i], c, group[j]);
      SplitKey(items[i].0);
    }
  }

  lemma GroupOf<V>(p: Key, items: seq<Item<V>>, kids: map<int, Node<V>>, added: Cells<V>, c: Key)
    requires Grouped(p, items, kids, added) && IsChunk(c) && U48(c) in kids
    ensures p + c in added && kids[U48(c)] == added[p + c].node &&
        added[p + c].children == ListChildren(Group(items, c))
    ensures forall q | q in added && q != p + c :: added[q].node != added[p + c].node
  {
    hide U48, Group, IsChunk;
    assert (p + c)[|p|..] == c;
  }

  lemma NothingGrouped<V>(p: Key)
    ensures Grouped<V>(p, [], map[], map[])
  {
  }

  lemma OtherNumber(c: Key)
    requires IsChunk(c)
    ensures U48(c) != U48([])
  {
    ChunkNumbersDiffer(c, []);
  }

  /** `MapChildren.fromListNode`. */
  method FromListNode<V>(items: seq<Item<V>>, ghost p: Key) returns (kids: map<int, Node<V>>, ghost added: Cells<V>)
    requires DistinctItems(items)
    ensures Grouped(p, items, kids, added) && Mirrors(added) && fresh(NodesOf(added))
  {
    hide U48, Group, Head, Tail, IsChunk, Grouped, Position;
    kids, added := map[], map[];
    NothingGrouped<V>(p);
    assert items[..0] == [];
    for i := 0 to |items|
      invariant Grouped(p, items[..i], kids, added) && Mirrors(added)
      invariant forall q | q in added :: fresh(added[q].node)
      invariant U48([]) in kids ==> exists j | 0 <= j < i :: items[j].0 == []
    {
      var (key, leaf) := items[i];
      var c, subKey := Head(key), Tail(key);
      HeadIsChunk(key);
      var number := BytesAsU48(c);
      if key != [] {
        OtherNumber(c);
      }
      if number !in kids {
        var newNode := new Node<V>(p + c);
        if key == [] {
          LostItem(p, items, i, kids, added, newNode);
        } else {
          NewGroup(p, items[..i], kids, added, c, newNode);
          added := added[p + c := Cell(newNode, null, ListChildren([]))];
        }
        kids := kids[number := newNode];
      }
      var child := kids[number];
      if key != [] {
        GroupOf(p, items[..i], kids, added, c);
        NewInGroup(items, i);
        GrowGroup(p, items, i, kids, added);
      }
      var at := FindIndex(child.children.items, subKey);
      assert at == |child.children.items|;
      child.children := ListChildren(child.children.items + [(subKey, leaf)]);
      if key != [] {
        added := Pushed(added, p + c, (subKey, leaf));
      }
    }
    assert items[..|items|] == items;
  }

  // ----- the dictionary -----

  /** The key is not decided before it reaches the list node at `p`. */
  ghost predicate ListOnWay<V>(cells: Cells<V>, p: Key, key: Key) {
    IsList(cells, p) && p < key && |p| % CHUNK_SIZE == 0
  }

  /** Size of a list after a key is set in it or removed from it. */
  function SizeAfter<V>(items: seq<Item<V>>, sub: Key, setting: bool): int {
    if Position(items, sub) < |items| then (if setting then |items| else |items| - 1)
    else (if setting then |items| + 1 else |items|)
  }

  /** Setting or removing the key turns the list of `p` into a map. */
  ghost predicate Converts<V>(cells: Cells<V>, p: Key, key: Key, setting: bool, threshold: int) {
    && ListOnWay(cells, p, key) && |key| - |p| > CHUNK_SIZE
    && SizeAfter(cells[p].children.items, key[|p|..], setting) > threshold
  }

  /** `at` is the list that turns into a map, if there is one. */
  ghost predicate ConvertedAt<V>(cells: Cells<V>, key: Key, setting: bool, threshold: int, at: Option<Key>) {
    match at
    case Some(p) => Converts(cells, p, key, setting, threshold)
    case None => forall p :: !Converts(cells, p, key, setting, threshold)
  }

  /** The leaves that are put out of place. */
  ghost function Displaced<V>(cells: Cells<V>, at: Option<Key>): set<Leaf<V>>
    requires at.Some? ==> IsList(cells, at.value)
  {
    match at case Some(p) => ShortLeaves(cells[p].children.items) case None => {}
  }

  /** The leaves of other keys. */
  ghost function Others<V>(leaves: set<Leaf<V>>, key: Key): set<Leaf<V>> {
    set l | l in leaves && l.key != key
  }

  function StrayThen<V>(cells: Cells<V>, at: Option<Key>, k: Key): Leaf?<V>
    requires at.Some? ==> IsList(cells, at.value)
  {
    match at case Some(p) => StrayAfter(cells, p, k) case None => StrayOf(cells, k)
  }

  /** The key has a leaf in place. */
  ghost predicate InPlace<V>(leaves: set<Leaf<V>>, key: Key) {
    exists l :: l in leaves && l.key == key
  }

  /** A list node on the way of the key has a leaf of its own. */
  ghost predicate LeafOnWay<V>(cells: Cells<V>, p: Key, key: Key) {
    ListOnWay(cells, p, key) && cells[p].leaf != null
  }

  /** The leaf that answers for a key: the one out of place, else the one in place, else that of a list node met. */
  ghost function AnswerOf<V>(cells: Cells<V>, leaves: set<Leaf<V>>, key: Key): Leaf?<V> {
    if StrayOf(cells, key) != null then StrayOf(cells, key)
    else if InPlace(leaves, key) then var l :| l in leaves && l.key == key; l
    else if exists p :: LeafOnWay(cells, p, key) then var p :| LeafOnWay(cells, p, key); cells[p].leaf
    else null
  }

  ghost predicate NoStrays<V>(cells: Cells<V>) {
    forall k :: StrayOf(cells, k) == null
  }

  /** Every node holds the leaf it did, new nodes none. */
  ghost predicate SameNodeLeaves<V>(before: Cells<V>, after: Cells<V>) {
    before.Keys <= after.Keys && forall q | q in after :: after[q].leaf == if q in before then before[q].leaf else null
  }

  /** List nodes stay list nodes, but for the one that turned into a map. */
  ghost predicate ListsKept<V>(before: Cells<V>, after: Cells<V>, at: Option<Key>) {
    forall p | IsList(before, p) && at != Some(p) :: IsList(after, p)
  }

  function BlobPosition<V>(index: seq<Leaf<V>>, blob: KeyBlob): (i: nat)
    ensures i <= |index| && (i < |index| ==> index[i].blob == blob) && forall j | 0 <= j < i :: index[j].blob != blob
  {
    if index == [] then 0 else if index[0].blob == blob then 0 else 1 + BlobPosition(index[1..], blob)
  }

  /** `Map.set` and `Map.delete` on the index, which tells key objects apart by identity. */
  function MapSet<V>(index: seq<Leaf<V>>, l: Leaf<V>): seq<Leaf<V>> {
    var at := BlobPosition(index, l.blob);
    if at < |index| then index[at := l] else index + [l]
  }

  function MapDelete<V>(index: seq<Leaf<V>>, blob: KeyBlob): seq<Leaf<V>> {
    Without(index, BlobPosition(index, blob))
  }

  ghost predicate DistinctBlobs<V>(index: seq<Leaf<V>>) {
    forall i, j | 0 <= i < j < |index| :: index[i].blob != index[j].blob
  }

  ghost predicate DistinctKeys<V>(index: seq<Leaf<V>>) {
    forall i, j | 0 <= i < j < |index| :: index[i].key != index[j].key
  }

  ghost function LeavesIn<V>(index: seq<Leaf<V>>): set<Leaf<V>> {
    set l | l in index
  }

  lemma SetInIndex<V>(index: seq<Leaf<V>>, l: Leaf<V>)
    requires DistinctBlobs(index)
    ensures DistinctBlobs(MapSet(index, l)) && l in LeavesIn(MapSet(index, l))
    ensures forall x | x in LeavesIn(index) && x.blob != l.blob :: x in LeavesIn(MapSet(index, l))
    ensures (forall x | x in index :: x.key != l.key) ==>
              MapSet(index, l) == index + [l] && LeavesIn(MapSet(index, l)) == LeavesIn(index) + {l}
  {
    hide BlobPosition;
    var at := BlobPosition(index, l.blob);
    var after := MapSet(index, l);
    forall x | x in index && x.blob != l.blob
      ensures x in after
    {
      var i :| 0 <= i < |index| && index[i] == x;
      assert after[i] == x;
    }
    assert after[at] == l;
    assert at < |index| ==> index[at] in index;
  }

  lemma DeleteFromIndex<V>(index: seq<Leaf<V>>, l: Leaf<V>)
    requires DistinctBlobs(index) && l in index
    ensures var at := BlobPosition(index, l.blob);
            at < |index| && index[at] == l && MapDelete(index, l.blob) == Without(index, at)
    ensures DistinctBlobs(MapDelete(index, l.blob)) && LeavesIn(MapDelete(index, l.blob)) == LeavesIn(index) - {l}
  {
    hide BlobPosition;
    var i :| 0 <= i < |index| && index[i] == l;
    var at := BlobPosition(index, l.blob);
    var rest := MapDelete(index, l.blob);
    assert at == i;
    assert forall j | 0 <= j < |rest| :: rest[j] == index[if j < at then j else j + 1];
    forall x | x in index && x != l
      ensures x in rest
    {
      var j :| 0 <= j < |index| && index[j] == x;
      assert rest[if j < at then j else j - 1] == x;
    }
  }

  class BlobDictionary<V> {
    const mapNodeThreshold: int
    var root: Node<V>
    /** `Map<K, Leaf>` in insertion order. */
    var keyvals: seq<Leaf<V>>
    ghost var cells: Cells<V>
    /** The leaves that setting and deleting their keys finds. */
    ghost var own: set<Leaf<V>>

    /** The tree has the right shape, and the index holds the leaves that are in place. */
    ghost predicate Valid()
      reads this, NodesOf(cells)
    {
      TreeValid(own) && own <= LeavesIn(keyvals) && DistinctBlobs(keyvals)
    }

    ghost predicate TreeValid(leaves: set<Leaf<V>>)
      reads this`cells, this`root, NodesOf(cells)
    {
      Shape(cells, leaves) && Mirrors(cells) && root == cells[[]].node
    }

    /** No leaf is out of place: the tree and the index hold the same leaf objects. */
    ghost predicate Regular()
      reads this, NodesOf(cells)
    {
      Valid() && own == LeavesIn(keyvals) && NoStrays(cells)
    }

    /** The keys and values, in insertion order. */
    ghost function Entries(): (es: seq<Entry<V>>)
      reads this, keyvals
      ensures |es| == |keyvals|
    {
      seq(|keyvals|, i requires 0 <= i < |keyvals| reads this, keyvals => (keyvals[i].key, keyvals[i].value))
    }

    constructor (mapNodeThreshold: int)
      ensures Regular() && Entries() == [] && this.mapNodeThreshold == mapNodeThreshold
      ensures fresh(NodesOf(cells)) && keyvals == [] && IsList(cells, [])
    {
      this.mapNodeThreshold := mapNodeThreshold;
      var node := new Node<V>([]);
      root := node;
      keyvals := [];
      cells := map[[] := Cell(node, null, ListChildren([]))];
      own := {};
      new;
      EmptyShape(cells);
      assert LeavesIn(keyvals) == {};
    }

    /**
     The value `get` finds: of the leaf out of place, else of the leaf in place, else of a list node met on the way.
     */
    ghost function Found(key: Key): Option<V>
      reads this, {AnswerOf(cells, own, key)}
    {
      var l := AnswerOf(cells, own, key);
      if l == null then None else Some(l.value)
    }

    /** There is at most one leaf of each of these kinds, so each says what is found. */
    lemma FoundAnswer(key: Key)
      requires Valid()
      ensures StrayOf(cells, key) != null ==> Found(key) == Some(StrayOf(cells, key).value)
      ensures StrayOf(cells, key) == null ==> forall l | l in own && l.key == key :: Found(key) == Some(l.value)
      ensures StrayOf(cells, key) == null && !InPlace(own, key) ==>
                && (forall p | LeafOnWay(cells, p, key) :: Found(key) == Some(cells[p].leaf.value))
                && ((forall p :: !LeafOnWay(cells, p, key)) ==> Found(key) == None)
    {
      hide Tree, Holds, StrayOf, ListOnWay;
      OwnDiffer(cells, own);
      if p :| LeafOnWay(cells, p, key) {
        ListFacts(cells, own, p, key);
        OnlyListOnWay(cells, p, key);
      }
    }

    method Get(key: Key) returns (r: Option<V>)
      requires Valid()
      ensures r == Found(key)
    {
      hide U48, Tree, Holds, Position, NextChunk, ListOnWay, ItemAt;
      var node := root;
      var chunks, depth := 0, 0;
      ghost var p: Key := [];
      RootThere(cells);
      while true
        invariant p in cells && node == cells[p].node && p <= key && depth <= chunks
        invariant |p| == if CHUNK_SIZE * depth < |key| then CHUNK_SIZE * depth else |key|
        invariant IsMap(cells, p) ==> depth == chunks
        invariant depth < chunks ==> ListOnWay(cells, p, key) && StrayOf(cells, key) == null && forall l | l in own ::
            l.key != key
        decreases |key| - |p|, CHUNK_SIZE * depth + |key| + CHUNK_SIZE - CHUNK_SIZE * chunks
      {
        if node.children.ListChildren? {
          var subkey := if CHUNK_SIZE * depth < |key| then key[CHUNK_SIZE * depth..] else [];
          var at := FindIndex(node.children.items, subkey);
          ListAnswer(cells, own, p, key);
          if at < |node.children.items| {
            FoundAnswer(key);
            return Some(node.children.items[at].1.value);
          }
        }
        if CHUNK_SIZE * chunks >= |key| {
          if depth == chunks {
            assert p == key;
            EndAnswer(cells, own, key);
            EndAnswerSame(cells, own, key);
            OnlyListOnWay(cells, key, key);
          } else {
            OnlyListOnWay(cells, p, key);
          }
          FoundAnswer(key);
          return if node.leaf == null then None else Some(node.leaf.value);
        }
        chunks := chunks + 1;
        if node.children.MapChildren? {
          ghost var c := ChildOf(cells, p, key);
          var pathChunk := if |key| > CHUNK_SIZE * chunks then key[CHUNK_SIZE * depth..CHUNK_SIZE * chunks]
              else key[CHUNK_SIZE * depth..];
          assert pathChunk == c;
          var number := BytesAsU48(pathChunk);
          if number !in node.children.kids {
            MapAnswer(cells, own, p, key);
            OnlyListOnWay(cells, p, key);
            FoundAnswer(key);
            return None;
          }
          node := node.children.kids[number];
          depth := depth + 1;
          p := p + c;
        }
      }
    }

    ghost function Values(leaves: set<Leaf<V>>): (m: map<Leaf<V>, V>)
      reads leaves
      ensures m.Keys == leaves && forall l | l in leaves :: m[l] == l.value
    {
      map l | l in leaves :: l.value
    }

    /** What setting a key, or removing it for `None`, does to the leaves in place and what it returns. */
    ghost predicate Effect(leaves: set<Leaf<V>>, before: map<Leaf<V>, V>, key: KeyBlob, value: Option<V>,
        changed: Leaf?<V>)
      requires leaves <= before.Keys
      reads leaves, changed
    {
      && (forall l | l in leaves && l.key != key.raw :: l.value == before[l])
      && match value
         case Some(v) =>
           && (forall l | l in leaves && l.key == key.raw :: changed == null && l.value == v)
           && ((forall l | l in leaves :: l.key != key.raw) ==>
                 changed != null && changed !in leaves && changed.blob == key && changed.value == v)
         case None =>
           && (forall l | l in leaves && l.key == key.raw :: changed == l && l.value == before[l])
           && ((forall l | l in leaves :: l.key != key.raw) ==> changed == null)
    }

    ghost function LeavesAfter(leaves: set<Leaf<V>>, value: Option<V>, changed: Leaf?<V>): set<Leaf<V>> {
      if changed == null then leaves else if value.Some? then leaves + {changed} else leaves - {changed}
    }

    lemma NothingRemoved(leaves: set<Leaf<V>>, key: KeyBlob)
      requires forall l | l in leaves :: l.key != key.raw
      ensures LeavesAfter(leaves, None, null) == leaves && Effect(leaves, Values(leaves), key, None, null)
    {
    }

    /** `Node.set`, at the end of the key. */
    method NodeSet(node: Node<V>, key: KeyBlob, value: V, ghost leaves: set<Leaf<V>>) returns (changed: Leaf?<V>)
      requires TreeValid(leaves) && key.raw in cells && node == cells[key.raw].node
      modifies this`cells, node`leaf, leaves
      ensures TreeValid(LeavesAfter(leaves, Some(value), changed)) &&
          Effect(leaves, old(Values(leaves)), key, Some(value), changed)
      ensures NodesOf(cells) == old(NodesOf(cells)) && (changed == null || fresh(changed))
      ensures (forall k :: StrayOf(cells, k) == StrayOf(old(cells), k)) && ListsKept(old(cells), cells, None)
    {
      hide Shape, U48, StrayOf, ListsKept;
      EndAnswer(cells, leaves, key.raw);
      EndAnswerSame(cells, leaves, key.raw);
      SameLeavesRefl(cells);
      if node.leaf == null {
        var l := new Leaf<V>(key, value);
        PutLeafShape(cells, leaves, key.raw, l);
        OtherNodes(cells, leaves, key.raw);
        NodesKept(cells, key.raw, PutLeaf(cells, key.raw, l)[key.raw]);
        OnlyLeafPut(cells, key.raw, l);
        node.leaf := l;
        cells := PutLeaf(cells, key.raw, l);
        assert leaves - {null} + {l} == leaves + {l};
        return l;
      }
      node.leaf.value := value;
      return null;
    }

    /** `Node.remove`, at the end of the key. */
    method NodeRemove(node: Node<V>, key: KeyBlob, ghost leaves: set<Leaf<V>>) returns (changed: Leaf?<V>)
      requires TreeValid(leaves) && key.raw in cells && node == cells[key.raw].node
      modifies this`cells, node`leaf
      ensures TreeValid(LeavesAfter(leaves, None, changed)) && Effect(leaves, old(Values(leaves)), key, None, changed)
      ensures NodesOf(cells) == old(NodesOf(cells))
      ensures (forall k :: StrayOf(cells, k) == StrayOf(old(cells), k)) && ListsKept(old(cells), cells, None)
    {
      hide Shape, U48, StrayOf, ListsKept;
      EndAnswer(cells, leaves, key.raw);
      EndAnswerSame(cells, leaves, key.raw);
      SameLeavesRefl(cells);
      changed := node.leaf;
      if changed != null {
        PutLeafShape(cells, leaves, key.raw, null);
        OtherNodes(cells, leaves, key.raw);
        NodesKept(cells, key.raw, PutLeaf(cells, key.raw, null)[key.raw]);
        OnlyLeafPut(cells, key.raw, null);
        node.leaf := null;
        cells := PutLeaf(cells, key.raw, null);
        assert leaves - {changed} + {} == leaves - {changed};
      }
    }

    /** Another list in a list node. */
    method SetItems(node: Node<V>, items: seq<Item<V>>, ghost p: Key, ghost before: set<Leaf<V>>,
        ghost leaves: set<Leaf<V>>)
      requires TreeValid(before) && IsList(cells, p) && node == cells[p].node &&
          Shape(PutItems(cells, p, items), leaves)
      modifies this`cells, node`children
      ensures TreeValid(leaves) && cells == PutItems(old(cells), p, items)
      ensures NodesOf(cells) == old(NodesOf(cells))
    {
      hide Shape;
      OtherNodes(cells, before, p);
      NodesKept(cells, p, PutItems(cells, p, items)[p]);
      node.children := ListChildren(items);
      cells := PutItems(cells, p, items);
    }

    /** `ListChildren.insert`. */
    method ListInsert(node: Node<V>, subkey: Key, key: KeyBlob, value: V, ghost p: Key, ghost leaves: set<Leaf<V>>)
      returns (changed: Leaf?<V>)
      requires TreeValid(leaves) && ListOnWay(cells, p, key.raw) && node == cells[p].node && subkey == key.raw[|p|..]
      modifies this`cells, node`children, leaves
      ensures TreeValid(LeavesAfter(leaves, Some(value), changed)) &&
          Effect(leaves, old(Values(leaves)), key, Some(value), changed)
      ensures NodesOf(cells) == old(NodesOf(cells)) && (changed == null || fresh(changed))
      ensures ItemsChanged(old(cells), cells, p, subkey, true)
    {
      hide Shape, U48, Position, SizeAfter, ListOnWay, Without, PutItems, Mirrors, TreeValid, ItemsChanged;
      OnWay(cells, p, key.raw);
      NodeAt(leaves, p);
      ListFacts(cells, leaves, p, key.raw);
      var items := node.children.items;
      var existingIndex := FindIndex(items, subkey);
      if existingIndex < |items| {
        var existing := items[existingIndex].1;
        existing.value := value;
        Overwritten(cells, leaves, p, subkey);
        return null;
      }
      var l := new Leaf<V>(key, value);
      AppendItemShape(cells, leaves, p, subkey, l);
      Appended(cells, leaves, p, subkey, l);
      SetItems(node, items + [(subkey, l)], p, leaves, leaves + {l});
      return l;
    }

    /** `ListChildren.remove`. */
    method ListRemove(node: Node<V>, subkey: Key, key: KeyBlob, ghost p: Key, ghost leaves: set<Leaf<V>>)
      returns (changed: Leaf?<V>)
      requires TreeValid(leaves) && ListOnWay(cells, p, key.raw) && node == cells[p].node && subkey == key.raw[|p|..]
      modifies this`cells, node`children
      ensures TreeValid(LeavesAfter(leaves, None, changed)) && Effect(leaves, old(Values(leaves)), key, None, changed)
      ensures NodesOf(cells) == old(NodesOf(cells))
      ensures ItemsChanged(old(cells), cells, p, subkey, false) && (changed == null || changed in leaves)
    {
      hide Shape, U48, Position, SizeAfter, ListOnWay, Without, PutItems, Mirrors, TreeValid, ItemsChanged;
      OnWay(cells, p, key.raw);
      NodeAt(leaves, p);
      ListFacts(cells, leaves, p, key.raw);
      var items := node.children.items;
      var existingIndex := FindIndex(items, subkey);
      if existingIndex == |items| {
        NotThere(cells, leaves, p, subkey);
        return null;
      }
      changed := items[existingIndex].1;
      RemoveItemShape(cells, leaves, p, existingIndex);
      TakenOut(cells, leaves, p, existingIndex);
      SetItems(node, Without(items, existingIndex), p, leaves, leaves - {changed});
    }

    /** `convertListChildrenToMap`: the leaves with short keys go out of place. */
    method ConvertListChildrenToMap(node: Node<V>, ghost p: Key, ghost leaves: set<Leaf<V>>)
      requires TreeValid(leaves) && IsList(cells, p) && |p| % CHUNK_SIZE == 0 && node == cells[p].node
      modifies this`cells, node`children
      ensures TreeValid(leaves - ShortLeaves(old(cells)[p].children.items)) && IsMap(cells, p)
      ensures fresh(NodesOf(cells) - old(NodesOf(cells)))
      ensures forall k :: StrayOf(cells, k) == StrayAfter(old(cells), p, k)
      ensures SameNodeLeaves(old(cells), cells) && ListsKept(old(cells), cells, Some(p))
    {
      hide Shape, U48, Grouped, Graft, ShortLeaves, StrayOf, StrayAfter;
      OtherNodes(cells, leaves, p);
      ListOf(cells, leaves, p);
      var kids; ghost var added;
      kids, added := FromListNode(node.children.items, p);
      GraftShape(cells, leaves, p, kids, added);
      GraftCells(cells, leaves, p, kids, added);
      forall k
        ensures StrayOf(Graft(cells, p, kids, added), k) == StrayAfter(cells, p, k)
      {
        GraftStrays(cells, leaves, p, kids, added, k);
      }
      assert node !in NodesOf(added);
      node.children := MapChildren(kids);
      assert Mirrors(added);
      cells := Graft(cells, p, kids, added);
      assert Mirrors(cells);
    }

    /** `MapChildren.setChild` with a new list node. */
    method AddNode(node: Node<V>, number: int, ghost p: Key, ghost c: Key, ghost leaves: set<Leaf<V>>)
        returns (newNode: Node<V>)
      requires TreeValid(leaves) && IsMap(cells, p) && node == cells[p].node
      requires IsChunk(c) && number == U48(c) && p + c !in cells
      modifies this`cells, node`children
      ensures TreeValid(leaves) && fresh(newNode) && NodesOf(cells) == old(NodesOf(cells)) + {newNode}
      ensures cells == AddChild(old(cells), p, c, newNode)
      ensures p + c in cells && cells[p + c] == Cell(newNode, null, ListChildren([]))
    {
      hide Shape, U48, AddChild;
      newNode := new Node<V>(p + c);
      AddChildShape(cells, leaves, p, c, newNode);
      OtherNodes(cells, leaves, p);
      AddedNode(cells, p, c, newNode);
      node.children := MapChildren(node.children.kids[number := newNode]);
      cells := AddChild(cells, p, c, newNode);
    }

    /**
     The end of the walk at a list: insert or remove, and turn the list into a map when it has outgrown the threshold
     and the key goes on after the next chunk.
     */
    method ListStep(node: Node<V>, subkey: Key, key: KeyBlob, value: Option<V>, ghost p: Key,
        ghost leaves: set<Leaf<V>>)
      returns (changed: Leaf?<V>, ghost at: Option<Key>)
      requires TreeValid(leaves) && ListOnWay(cells, p, key.raw) && node == cells[p].node && subkey == key.raw[|p|..]
      modifies this`cells, node`children, leaves
      ensures at == if Converts(old(cells), p, key.raw, value.Some?, mapNodeThreshold) then Some(p) else None
      ensures TreeValid(LeavesAfter(leaves, value, changed) - Displaced(old(cells), at))
      ensures Effect(leaves, old(Values(leaves)), key, value, changed)
      ensures forall k :: StrayOf(cells, k) == StrayThen(old(cells), at, k)
      ensures ListsKept(old(cells), cells, at)
      ensures SameNodeLeaves(old(cells), cells) && (at.Some? <==> IsMap(cells, p))
      ensures fresh(NodesOf(cells) - old(NodesOf(cells)))
      ensures changed == null || changed in leaves || fresh(changed)
    {
      hide Shape, U48, SizeAfter, TreeValid, Mirrors, ItemsChanged, StrayOf, StrayAfter, ShortLeaves;
      hide PutItems, Effect, Values, LeavesAfter, ListsKept, SameNodeLeaves, StrayThen, Displaced;
      ghost var before := cells;
      if value.Some? {
        changed := ListInsert(node, subkey, key, value.value, p, leaves);
      } else {
        changed := ListRemove(node, subkey, key, p, leaves);
      }
      ghost var leaves' := LeavesAfter(leaves, value, changed);
      at := None;
      ItemsChangedFacts(before, cells, p, subkey, value.Some?);
      NodeAt(leaves', p);
      NoneDisplaced(before, leaves');
      AtDisplaced(before, p);
      ghost var here := cells;
      if |subkey| > CHUNK_SIZE && |node.children.items| > mapNodeThreshold {
        ConvertListChildrenToMap(node, p, leaves');
        at := Some(p);
        ListsTrans(before, here, cells, at);
        SameLeavesTrans(before, here, cells);
      }
    }

    method EndStep(node: Node<V>, key: KeyBlob, value: Option<V>, ghost leaves: set<Leaf<V>>)
        returns (changed: Leaf?<V>)
      requires TreeValid(leaves) && key.raw in cells && node == cells[key.raw].node
      modifies this`cells, node`leaf, leaves
      ensures TreeValid(LeavesAfter(leaves, value, changed)) && Effect(leaves, old(Values(leaves)), key, value, changed)
      ensures NodesOf(cells) == old(NodesOf(cells))
      ensures changed == null || changed in leaves || fresh(changed)
      ensures (forall k :: StrayOf(cells, k) == StrayOf(old(cells), k)) && ListsKept(old(cells), cells, None)
    {
      hide Shape, TreeValid, StrayOf;
      if value.None? {
        changed := NodeRemove(node, key, leaves);
      } else {
        changed := NodeSet(node, key, value.value, leaves);
      }
    }

    lemma NodeAt(leaves: set<Leaf<V>>, p: Key)
      requires TreeValid(leaves) && p in cells
      ensures cells[p].node.children == cells[p].children && cells[p].node.leaf == cells[p].leaf &&
          cells[p].node in NodesOf(cells)
      ensures [] in cells && root == cells[[]].node && Shape(cells, leaves)
    {
      RootOf(cells, leaves);
    }

    lemma RootAt(leaves: set<Leaf<V>>)
      requires TreeValid(leaves)
      ensures [] in cells && root == cells[[]].node
    {
      RootOf(cells, leaves);
    }

    /** One step down from a map node; a missing child is created when a key is being set. */
    method Descend(node: Node<V>, key: Key, depth: nat, setting: bool, ghost p: Key, ghost leaves: set<Leaf<V>>)
      returns (next: Node?<V>, ghost q: Key)
      requires TreeValid(leaves) && IsMap(cells, p) && node == cells[p].node && p < key && |p| == CHUNK_SIZE * depth
      modifies this`cells, node`children
      ensures TreeValid(leaves) && fresh(NodesOf(cells) - old(NodesOf(cells)))
      ensures next == null ==>
              && !setting && q == p && cells == old(cells) && (forall l | l in leaves :: l.key != key)
              && forall o :: !ListOnWay(cells, o, key)
      ensures next != null ==>
              && q in cells && next == cells[q].node && q <= key && |p| < |q|
              && |q| == (if CHUNK_SIZE * (depth + 1) < |key| then CHUNK_SIZE * (depth + 1) else |key|)
              && (cells == old(cells) ||
                  (cells[q].children == ListChildren([]) && q !in old(cells) && forall o ::
                  !ListOnWay(old(cells), o, key)))
      ensures (forall k :: StrayOf(cells, k) == StrayOf(old(cells), k)) && SameNodeLeaves(old(cells), cells)
      ensures ListsKept(old(cells), cells, None)
    {
      hide Shape, U48, TreeValid, Mirrors, NextChunk, StrayOf, AddChild, ListOnWay;
      NodeAt(leaves, p);
      ghost var before := cells;
      ghost var c := ChildBelow(cells, leaves, p, key);
      q := p;
      var keyChunk := if |key| > CHUNK_SIZE * depth + CHUNK_SIZE
          then key[CHUNK_SIZE * depth..CHUNK_SIZE * depth + CHUNK_SIZE] else key[CHUNK_SIZE * depth..];
      var number := BytesAsU48(keyChunk);
      if number in node.children.kids {
        next := node.children.kids[number];
      } else {
        NoListOnWay(cells, leaves, p, key);
        if !setting {
          MapAnswer(cells, leaves, p, key);
          return null, p;
        }
        next := AddNode(node, number, p, c, leaves);
        AddedCells(before, p, c, next);
      }
      q := p + c;
    }

    /**
     Walks down, creating nodes for a key that is set, and changes the leaf, list entry or node at the end of the walk.
     */
    method InternalSet(key: KeyBlob, value: Option<V>) returns (changed: Leaf?<V>, ghost at: Option<Key>)
      requires TreeValid(own)
      modifies this`cells, NodesOf(cells), own
      ensures ConvertedAt(old(cells), key.raw, value.Some?, mapNodeThreshold, at)
      ensures TreeValid(LeavesAfter(own, value, changed) - Displaced(old(cells), at))
      ensures Effect(own, old(Values(own)), key, value, changed)
      ensures forall k :: StrayOf(cells, k) == StrayThen(old(cells), at, k)
      ensures ListsKept(old(cells), cells, at)
      ensures (exists p :: ListOnWay(old(cells), p, key.raw)) ==> SameNodeLeaves(old(cells), cells)
      ensures at.Some? ==> IsMap(cells, at.value)
      ensures fresh(NodesOf(cells) - old(NodesOf(cells)))
      ensures changed == null || changed in own || fresh(changed)
    {
      hide Shape, U48, ListOnWay, NextChunk, SizeAfter, TreeValid, Mirrors, Effect, Values, LeavesAfter;
      hide StrayOf, StrayAfter, ShortLeaves, SameNodeLeaves, Displaced, ConvertedAt, ListsKept;
      ghost var leaves, before := own, cells;
      var node := root;
      var depth := 0;
      ghost var p: Key := [];
      RootAt(leaves);
      SameLeavesRefl(cells);
      while true
        invariant p in cells && node == cells[p].node && p <= key.raw
        invariant |p| == if CHUNK_SIZE * depth < |key.raw| then CHUNK_SIZE * depth else |key.raw|
        invariant TreeValid(leaves) && leaves == own && Values(leaves) == old(Values(leaves))
        invariant fresh(NodesOf(cells) - old(NodesOf(cells)))
        invariant cells == before ||
            (cells[p].children == ListChildren([]) && p !in before && forall o :: !ListOnWay(before, o, key.raw))
        invariant (forall k :: StrayOf(cells, k) == StrayOf(before, k)) && SameNodeLeaves(before, cells)
        invariant ListsKept(before, cells, None)
        decreases |key.raw| - |p|
      {
        NodeAt(leaves, p);
        if CHUNK_SIZE * depth >= |key.raw| {
          assert p == key.raw;
          at := None;
          NothingConverted(before, cells, leaves, key.raw, value.Some?, mapNodeThreshold);
          ghost var here := cells;
          changed := EndStep(node, key, value, leaves);
          ListsTrans(before, here, cells, None);
          NoneDisplaced(before, LeavesAfter(leaves, value, changed));
          return;
        }
        if node.children.ListChildren? {
          var subkey := key.raw[CHUNK_SIZE * depth..];
          changed, at := AtList(node, subkey, key, value, p, leaves, before);
          return;
        }
        var next: Node?<V>;
        ghost var here := cells;
        next, p := Descend(node, key.raw, depth, value.Some?, p, leaves);
        SameLeavesTrans(before, here, cells);
        ListsTrans(before, here, cells, None);
        if next == null {
          NothingRemoved(leaves, key);
          at := None;
          NoneDisplaced(before, leaves);
          NoneConverts(before, key.raw, value.Some?, mapNodeThreshold);
          return null, at;
        }
        depth := depth + 1;
        node := next;
      }
    }

    /** The end of the walk at a list, seen from where the walk began. */
    method AtList(node: Node<V>, subkey: Key, key: KeyBlob, value: Option<V>, ghost p: Key,
        ghost leaves: set<Leaf<V>>, ghost before: Cells<V>)
      returns (changed: Leaf?<V>, ghost at: Option<Key>)
      requires TreeValid(leaves) && IsList(cells, p) && p < key.raw && |p| % CHUNK_SIZE == 0
      requires node == cells[p].node && subkey == key.raw[|p|..]
      requires cells == before ||
          (cells[p].children == ListChildren([]) && p !in before && forall o :: !ListOnWay(before, o, key.raw))
      requires (forall k :: StrayOf(cells, k) == StrayOf(before, k)) && SameNodeLeaves(before, cells)
      requires ListsKept(before, cells, None)
      modifies this`cells, node`children, leaves
      ensures ConvertedAt(before, key.raw, value.Some?, mapNodeThreshold, at)
      ensures TreeValid(LeavesAfter(leaves, value, changed) - Displaced(before, at))
      ensures Effect(leaves, old(Values(leaves)), key, value, changed)
      ensures forall k :: StrayOf(cells, k) == StrayThen(before, at, k)
      ensures ListsKept(before, cells, at)
      ensures SameNodeLeaves(before, cells) && (at.Some? ==> IsMap(cells, at.value))
      ensures fresh(NodesOf(cells) - old(NodesOf(cells)))
      ensures changed == null || changed in leaves || fresh(changed)
    {
      hide Shape, U48, SizeAfter, TreeValid, Mirrors, Effect, Values, LeavesAfter, StrayOf, ItemAt;
      hide SameNodeLeaves, ListsKept;
      ghost var here := cells;
      NodeAt(leaves, p);
      changed, at := ListStep(node, subkey, key, value, p, leaves);
      SameLeavesTrans(before, here, cells);
      ListsTransNew(before, here, cells, at);
      if here == before {
        OneConverts(here, leaves, p, key.raw, value.Some?, mapNodeThreshold, at);
      } else {
        NoneConverts(before, key.raw, value.Some?, mapNodeThreshold);
        EmptyConversion(here, p);
        at := None;
      }
    }

    /** The leaf a key has after it was set. */
    lemma OwnAfter(leaves: set<Leaf<V>>, before: map<Leaf<V>, V>, key: KeyBlob, value: V, changed: Leaf?<V>)
        returns (l: Leaf<V>)
      requires leaves <= before.Keys && Effect(leaves, before, key, Some(value), changed)
      requires forall x, y | x in leaves && y in leaves && x.key == y.key :: x == y
      ensures LeavesAfter(leaves, Some(value), changed) == leaves + {l} && l.key == key.raw && l.value == value
      ensures forall x | x in leaves :: if x.key == key.raw then x == l else x.value == before[x]
      ensures if l in leaves then changed == null else changed == l && l.blob == key
    {
      if changed == null {
        l :| l in leaves && l.key == key.raw;
        assert leaves + {l} == leaves;
      } else {
        l := changed;
      }
    }

    /** The body of `set`. */
    method SetLeaf(key: KeyBlob, value: V) returns (ghost l: Leaf<V>, ghost at: Option<Key>)
      requires Valid()
      modifies this`cells, this`keyvals, this`own, NodesOf(cells), own
      ensures Valid() && ConvertedAt(old(cells), key.raw, true, mapNodeThreshold, at)
      ensures own == old(own) + {l} - Displaced(old(cells), at) && l in own && l.key == key.raw && l.value == value
      ensures Displaced(old(cells), at) <= old(own)
      ensures forall x | x in old(own) :: if x.key == key.raw then x == l else x.value == old(x.value)
      ensures if l in old(own) then keyvals == old(keyvals)
              else fresh(l) && l.blob == key && keyvals == MapSet(old(keyvals), l)
      ensures forall k :: StrayOf(cells, k) == StrayThen(old(cells), at, k)
      ensures ListsKept(old(cells), cells, at)
      ensures (exists p :: ListOnWay(old(cells), p, key.raw)) ==> SameNodeLeaves(old(cells), cells)
      ensures at.Some? ==> IsMap(cells, at.value)
      ensures fresh(NodesOf(cells) - old(NodesOf(cells)))
    {
      hide MapSet, StrayOf, StrayThen, ConvertedAt, SameNodeLeaves, ListsKept, ListOnWay, Displaced, Shape;
      hide NoStrays, Mirrors, TreeValid, LeavesIn, DistinctBlobs, NodesOf;
      ghost var values := Values(own);
      ShapeOf(own);
      OwnDiffer(cells, own);
      var leaf;
      leaf, at := InternalSet(key, Some(value));
      l := OwnAfter(old(own), values, key, value, leaf);
      ConvertedList(old(cells), key.raw, true, mapNodeThreshold, at);
      NotDisplaced(old(cells), old(own), key.raw, true, mapNodeThreshold, at, l);
      own := old(own) + {l} - Displaced(old(cells), at);
      SetInIndex(keyvals, l);
      if leaf != null {
        keyvals := MapSet(keyvals, leaf);
      }
    }

    lemma ShapeOf(leaves: set<Leaf<V>>)
      requires TreeValid(leaves)
      ensures Shape(cells, leaves)
    {
      hide Shape, Mirrors;
    }

    /**
     `set`: overwrites the leaf in place or adds one; a leaf out of place is not noticed. With nothing out of place
     before, the entries change as those of a map do, and nothing is out of place afterwards unless the list that turned
     into a map put a leaf there.
     */
    method Set(key: KeyBlob, value: V) returns (ghost l: Leaf<V>, ghost at: Option<Key>)
      requires Valid()
      modifies this`cells, this`keyvals, this`own, NodesOf(cells), own
      ensures Valid() && ConvertedAt(old(cells), key.raw, true, mapNodeThreshold, at)
      ensures own == old(own) + {l} - Displaced(old(cells), at) && l in own && l.key == key.raw && l.value == value
      ensures Displaced(old(cells), at) <= old(own)
      ensures forall x | x in old(own) :: if x.key == key.raw then x == l else x.value == old(x.value)
      ensures if l in old(own) then keyvals == old(keyvals)
              else fresh(l) && l.blob == key && keyvals == MapSet(old(keyvals), l)
      ensures forall k :: StrayOf(cells, k) == StrayThen(old(cells), at, k)
      ensures ListsKept(old(cells), cells, at)
      ensures (exists p :: ListOnWay(old(cells), p, key.raw)) ==> SameNodeLeaves(old(cells), cells)
      ensures at.Some? ==> IsMap(cells, at.value)
      ensures fresh(NodesOf(cells) - old(NodesOf(cells)))
      ensures old(Regular()) ==>
                && Entries() == Update(old(Entries()), key.raw, value)
                && (Regular() <==> Displaced(old(cells), at) == {})
    {
      hide MapSet, StrayOf, StrayThen, ConvertedAt, SameNodeLeaves, ListsKept, ListOnWay, Displaced, Shape;
      hide NoStrays, Mirrors, TreeValid, Update, LeavesIn, DistinctBlobs, DistinctKeys, NodesOf;
      ghost var regular := Regular();
      if regular {
        RegularKeys();
        ShapeOf(own);
        OwnDiffer(cells, own);
        IndexedLeaves();
      }
      l, at := SetLeaf(key, value);
      if regular {
        ConvertedList(old(cells), key.raw, true, mapNodeThreshold, at);
        if l !in old(own) {
          NewInIndex(old(keyvals), l);
        }
        UpdatedEntries(old(keyvals), old(Entries()), keyvals, Entries(), l, value);
        if Displaced(old(cells), at) == {} {
          StillNoStrays(old(cells), at);
          NothingStray(cells);
        }
      }
    }

    lemma EntriesAre(values: map<Leaf<V>, V>)
      requires forall l | l in keyvals :: l in values && values[l] == l.value
      ensures forall i | 0 <= i < |keyvals| ::
          keyvals[i] in values &&
          Entries()[i] == (keyvals[i].key, values[keyvals[i]])
    {
    }

    lemma IndexedLeaves()
      ensures forall i | 0 <= i < |keyvals| :: keyvals[i] in LeavesIn(keyvals)
      ensures forall l | l in LeavesIn(keyvals) :: l in keyvals
    {
    }

    /** The body of `delete`. */
    method DeleteLeaf(key: KeyBlob) returns (removed: bool, ghost at: Option<Key>)
      requires Valid()
      modifies this`cells, this`keyvals, this`own, NodesOf(cells), own
      ensures Valid() && ConvertedAt(old(cells), key.raw, false, mapNodeThreshold, at)
      ensures removed <==> InPlace(old(own), key.raw)
      ensures own == Others(old(own), key.raw) - Displaced(old(cells), at)
      ensures Displaced(old(cells), at) <= Others(old(own), key.raw)
      ensures forall x | x in old(own) :: x.value == old(x.value)
      ensures forall l | l in old(own) && l.key == key.raw :: keyvals == MapDelete(old(keyvals), l.blob)
      ensures !removed ==> keyvals == old(keyvals)
      ensures forall k :: StrayOf(cells, k) == StrayThen(old(cells), at, k)
      ensures fresh(NodesOf(cells) - old(NodesOf(cells)))
    {
      hide MapDelete, StrayOf, StrayThen, ConvertedAt, SameNodeLeaves, ListsKept, ListOnWay, Displaced, Shape;
      hide NoStrays, Mirrors, TreeValid, Others, LeavesIn, DistinctBlobs, NodesOf;
      ghost var values := Values(own);
      ShapeOf(own);
      OwnDiffer(cells, own);
      var leaf;
      leaf, at := InternalSet(key, None);
      removed := leaf != null;
      ConvertedList(old(cells), key.raw, false, mapNodeThreshold, at);
      OthersDisplaced(old(cells), old(own), key.raw, false, mapNodeThreshold, at);
      OthersOf(old(own), key.raw, leaf);
      own := Others(own, key.raw) - Displaced(old(cells), at);
      if leaf != null {
        IndexedLeaves();
        DeleteFromIndex(keyvals, leaf);
        keyvals := MapDelete(keyvals, leaf.blob);
      }
    }

    /** `delete`: removes the leaf in place and tells whether there was one; a leaf out of place is not noticed. */
    method Delete(key: KeyBlob) returns (removed: bool, ghost at: Option<Key>)
      requires Valid()
      modifies this`cells, this`keyvals, this`own, NodesOf(cells), own
      ensures Valid() && ConvertedAt(old(cells), key.raw, false, mapNodeThreshold, at)
      ensures removed <==> InPlace(old(own), key.raw)
      ensures own == Others(old(own), key.raw) - Displaced(old(cells), at)
      ensures Displaced(old(cells), at) <= Others(old(own), key.raw)
      ensures forall x | x in old(own) :: x.value == old(x.value)
      ensures forall l | l in old(own) && l.key == key.raw :: keyvals == MapDelete(old(keyvals), l.blob)
      ensures !removed ==> keyvals == old(keyvals)
      ensures forall k :: StrayOf(cells, k) == StrayThen(old(cells), at, k)
      ensures fresh(NodesOf(cells) - old(NodesOf(cells)))
      ensures old(Regular()) ==>
                && removed == Lookup(old(Entries()), key.raw).Some? && Entries() == Erase(old(Entries()), key.raw)
                && (Regular() <==> Displaced(old(cells), at) == {})
    {
      hide MapDelete, StrayOf, StrayThen, ConvertedAt, SameNodeLeaves, ListsKept, ListOnWay, Displaced, Shape;
      hide NoStrays, Mirrors, TreeValid;
      hide Erase, Lookup, LeavesIn, Others, Entries, DistinctBlobs, DistinctKeys, NodesOf;
      ghost var values, regular := Values(own), Regular();
      if regular {
        RegularKeys();
        ShapeOf(own);
        OwnDiffer(cells, own);
        IndexedLeaves();
        EntriesAre(values);
      }
      removed, at := DeleteLeaf(key);
      if regular {
        ConvertedList(old(cells), key.raw, false, mapNodeThreshold, at);
        if removed {
          ghost var l :| l in old(own) && l.key == key.raw;
          OthersOf(old(own), key.raw, l);
          DeleteFromIndex(old(keyvals), l);
          EntriesAre(values);
          ErasedEntries(old(keyvals), old(Entries()), keyvals, Entries(), l, values);
        } else {
          OthersOf(old(own), key.raw, null);
          EntriesAre(values);
          NothingErased(old(Entries()), key.raw);
        }
        if Displaced(old(cells), at) == {} {
          StillNoStrays(old(cells), at);
          NothingStray(cells);
        }
      }
    }

    /** With nothing out of place every key is there once. */
    lemma RegularKeys()
      requires Regular()
      ensures DistinctKeys(keyvals) && DistinctItems(Entries())
    {
      hide Shape, NoStrays;
      OwnDiffer(cells, own);
      forall i, j | 0 <= i < j < |keyvals|
        ensures keyvals[i].key != keyvals[j].key
      {
        assert keyvals[i] in LeavesIn(keyvals) && keyvals[j] in LeavesIn(keyvals);
      }
    }

    method Has(key: Key) returns (has: bool)
      requires Valid()
      ensures has <==>
                StrayOf(cells, key) != null || InPlace(own, key) || exists p :: LeafOnWay(cells, p, key)
    {
      hide StrayOf, LeafOnWay;
      var value := Get(key);
      FoundAnswer(key);
      has := value.Some?;
    }

    method Size() returns (size: nat)
      ensures size == |Entries()| && (Regular() ==> size == |AsMap(Entries())|)
    {
      hide AsMap, Valid;
      if Regular() {
        RegularKeys();
        AsMapSize(Entries());
      }
      size := |keyvals|;
    }

    /** `entries`: iteration goes over the index. */
    method Iterate() returns (es: seq<Entry<V>>)
      ensures es == Entries()
    {
      es := [];
      for i := 0 to |keyvals|
        invariant es == Entries()[..i]
      {
        es := es + [(keyvals[i].key, keyvals[i].value)];
      }
    }
  }

  // ----- what the list changes do -----

  /** The list of `p` after `subkey` was set in it or removed from it, everything else as before. */
  ghost predicate ItemsChanged<V>(before: Cells<V>, after: Cells<V>, p: Key, subkey: Key, setting: bool) {
    && IsList(before, p) && IsList(after, p) && after == PutItems(before, p, after[p].children.items)
    && DistinctItems(before[p].children.items) && DistinctItems(after[p].children.items)
    && |after[p].children.items| == SizeAfter(before[p].children.items, subkey, setting)
    && forall t | t != subkey :: ItemAt(after[p].children.items, t) == ItemAt(before[p].children.items, t)
  }

  lemma Overwritten<V>(cells: Cells<V>, leaves: set<Leaf<V>>, p: Key, subkey: Key)
    requires Shape(cells, leaves) && IsList(cells, p) &&
        Position(cells[p].children.items, subkey) < |cells[p].children.items|
    ensures ItemsChanged(cells, cells, p, subkey, true)
  {
    hide Shape, Position, ItemAt;
    ListOf(cells, leaves, p);
    assert PutItems(cells, p, cells[p].children.items) == cells;
  }

  lemma NotThere<V>(cells: Cells<V>, leaves: set<Leaf<V>>, p: Key, subkey: Key)
    requires Shape(cells, leaves) && IsList(cells, p) &&
        Position(cells[p].children.items, subkey) == |cells[p].children.items|
    ensures ItemsChanged(cells, cells, p, subkey, false)
  {
    hide Shape, Position, ItemAt;
    ListOf(cells, leaves, p);
    assert PutItems(cells, p, cells[p].children.items) == cells;
  }

  lemma Appended<V>(cells: Cells<V>, leaves: set<Leaf<V>>, p: Key, subkey: Key, l: Leaf<V>)
    requires Shape(cells, leaves) && IsList(cells, p) &&
        Position(cells[p].children.items, subkey) == |cells[p].children.items|
    ensures ItemsChanged(cells, PutItems(cells, p, cells[p].children.items + [(subkey, l)]), p, subkey, true)
  {
    hide Shape, Position, ItemAt;
    ListOf(cells, leaves, p);
    var items := cells[p].children.items;
    forall t | t != subkey
      ensures ItemAt(items + [(subkey, l)], t) == ItemAt(items, t)
    {
      AppendedItem(items, subkey, l, t);
    }
  }

  lemma TakenOut<V>(cells: Cells<V>, leaves: set<Leaf<V>>, p: Key, at: nat)
    requires Shape(cells, leaves) && IsList(cells, p) && at < |cells[p].children.items|
    requires at == Position(cells[p].children.items, cells[p].children.items[at].0)
    ensures ItemsChanged(cells, PutItems(cells, p, Without(cells[p].children.items, at)), p,
        cells[p].children.items[at].0, false)
  {
    hide Shape, Position, ItemAt;
    ListOf(cells, leaves, p);
    var items := cells[p].children.items;
    forall t | t != items[at].0
      ensures ItemAt(Without(items, at), t) == ItemAt(items, t)
    {
      WithoutItem(items, at, t);
    }
  }

  lemma ItemsChangedFacts<V>(before: Cells<V>, after: Cells<V>, p: Key, subkey: Key, setting: bool)
    requires ItemsChanged(before, after, p, subkey, setting) && subkey != []
    ensures IsList(after, p) && after[p].node == before[p].node && SameNodeLeaves(before, after)
    ensures |after[p].children.items| == SizeAfter(before[p].children.items, subkey, setting)
    ensures (forall k :: StrayOf(after, k) == StrayOf(before, k)) && ListsKept(before, after, None)
    ensures |subkey| > CHUNK_SIZE ==>
              && ShortLeaves(after[p].children.items) == ShortLeaves(before[p].children.items)
              && forall k :: StrayAfter(after, p, k) == StrayAfter(before, p, k)
  {
    hide SizeAfter, StrayOf, StrayAfter, ItemAt, ShortLeaves;
    var items := after[p].children.items;
    forall k
      ensures StrayOf(after, k) == StrayOf(before, k)
    {
      PutItemsStrays(before, p, items, k);
    }
    if |subkey| > CHUNK_SIZE {
      ShortLeavesSame(items, before[p].children.items);
      forall k
        ensures StrayAfter(after, p, k) == StrayAfter(before, p, k)
      {
        LongKeyChange(before, p, items, k);
      }
    }
  }

  lemma AddedCells<V>(before: Cells<V>, p: Key, c: Key, node: Node<V>)
    requires IsMap(before, p) && IsChunk(c) && p + c !in before
    ensures SameNodeLeaves(before, AddChild(before, p, c, node)) &&
        ListsKept(before, AddChild(before, p, c, node), None)
    ensures forall k :: StrayOf(AddChild(before, p, c, node), k) == StrayOf(before, k)
  {
    hide U48, StrayOf;
    assert p != p + c;
    forall k
      ensures StrayOf(AddChild(before, p, c, node), k) == StrayOf(before, k)
    {
      AddChildStrays(before, p, c, node, k);
    }
  }

  lemma SameLeavesRefl<V>(cells: Cells<V>)
    ensures SameNodeLeaves(cells, cells) && ListsKept(cells, cells, None)
  {
  }

  lemma SameLeavesTrans<V>(a: Cells<V>, b: Cells<V>, c: Cells<V>)
    requires SameNodeLeaves(a, b) && SameNodeLeaves(b, c)
    ensures SameNodeLeaves(a, c)
  {
  }

  lemma NoListOnWay<V>(cells: Cells<V>, leaves: set<Leaf<V>>, p: Key, key: Key)
    requires Shape(cells, leaves) && IsMap(cells, p) && p < key && p + NextChunk(p, key) !in cells
    ensures forall q :: !ListOnWay(cells, q, key)
  {
    hide Tree, Holds, NextChunk, ListOnWay;
    OnlyListOnWay(cells, p, key);
  }

  lemma NoneConverts<V>(cells: Cells<V>, key: Key, setting: bool, threshold: int)
    requires forall p :: !ListOnWay(cells, p, key)
    ensures ConvertedAt(cells, key, setting, threshold, None)
  {
    hide ListOnWay;
  }

  lemma NothingConverted<V>(before: Cells<V>, cells: Cells<V>, leaves: set<Leaf<V>>, key: Key, setting: bool,
      threshold: int)
    requires Shape(cells, leaves) && key in cells && (cells == before || forall p :: !ListOnWay(before, p, key))
    ensures ConvertedAt(before, key, setting, threshold, None) && forall p :: !ListOnWay(before, p, key)
  {
    hide Tree, Holds, ListOnWay;
    OnlyListOnWay(cells, key, key);
    NoneConverts(before, key, setting, threshold);
  }

  lemma OneConverts<V>(cells: Cells<V>, leaves: set<Leaf<V>>, p: Key, key: Key, setting: bool, threshold: int,
      at: Option<Key>)
    requires Shape(cells, leaves) && ListOnWay(cells, p, key)
    requires at == if Converts(cells, p, key, setting, threshold) then Some(p) else None
    ensures ConvertedAt(cells, key, setting, threshold, at)
  {
    hide Tree, Holds, SizeAfter;
    OnlyListOnWay(cells, p, key);
  }

  lemma EmptyConversion<V>(cells: Cells<V>, p: Key)
    requires IsList(cells, p) && cells[p].children.items == []
    ensures ShortLeaves(cells[p].children.items) == {} && forall k :: StrayAfter(cells, p, k) == StrayOf(cells, k)
  {
  }

  /** Different leaves in place have different keys. */
  lemma OwnDiffer<V>(cells: Cells<V>, leaves: set<Leaf<V>>)
    requires Shape(cells, leaves)
    ensures forall a, b | a in leaves && b in leaves && a.key == b.key :: a == b
  {
    hide U48, Tree;
    forall a, b | a in leaves && b in leaves && a.key == b.key
      ensures a == b
    {
      var q := PlaceOf(cells, leaves, a);
      if cells[q].leaf == a {
        FoundAtEnd(cells, leaves, a.key, b);
      } else {
        FoundInList(cells, leaves, q, a.key, b);
        assert CellRight(q, cells[q], leaves);
      }
    }
  }

  lemma OnWay<V>(cells: Cells<V>, p: Key, key: Key)
    requires ListOnWay(cells, p, key)
    ensures IsList(cells, p) && p < key && |p| % CHUNK_SIZE == 0
  {
  }

  lemma NotBelowList<V>(cells: Cells<V>, p: Key, key: Key)
    requires Ancestors(cells) && IsList(cells, p) && p < key && |p| % CHUNK_SIZE == 0
    ensures key !in cells
  {
    assert key[..|p|] == p;
  }

  /** Only leaves in place are put out of place, and never the one of the key being set or removed. */
  lemma NotDisplaced<V>(cells: Cells<V>, leaves: set<Leaf<V>>, key: Key, setting: bool, threshold: int,
      at: Option<Key>, l: Leaf<V>)
    requires Shape(cells, leaves) && ConvertedAt(cells, key, setting, threshold, at) && (l in leaves ==> l.key == key)
    ensures l !in Displaced(cells, at) && Displaced(cells, at) <= leaves
  {
    hide Tree, SizeAfter, DistinctItems;
    if at.Some? {
      var p := at.value;
      var items := cells[p].children.items;
      assert CellRight(p, cells[p], leaves);
      forall x | x in items && 0 < |x.0| <= CHUNK_SIZE
        ensures x.1 in leaves && |x.1.key| <= |p| + CHUNK_SIZE
      {
        var i :| 0 <= i < |items| && items[i] == x;
        assert ItemRight(p, items[i], leaves);
      }
    }
  }

  /** Where no leaf is out of place and none is put there, none will be. */
  lemma StillNoStrays<V>(cells: Cells<V>, at: Option<Key>)
    requires NoStrays(cells) && (at.Some? ==> IsList(cells, at.value)) && Displaced(cells, at) == {}
    ensures forall k :: StrayThen(cells, at, k) == null
  {
    hide StrayOf, Position;
    if at.Some? {
      var items := cells[at.value].children.items;
      assert forall x | x in items && 0 < |x.0| <= CHUNK_SIZE :: x.1 in Displaced(cells, at);
      forall k
        ensures StrayAfter(cells, at.value, k) == null
      {
        var sub := if at.value < k then k[|at.value|..] else [];
        assert Position(items, sub) < |items| ==> items[Position(items, sub)] in items;
      }
    }
  }

  lemma NothingStray<V>(cells: Cells<V>)
    requires forall k :: StrayOf(cells, k) == null
    ensures NoStrays(cells)
  {
    hide StrayOf;
  }

  lemma UpdatedEntries<V>(index: seq<Leaf<V>>, es: seq<Entry<V>>, index': seq<Leaf<V>>, es': seq<Entry<V>>,
      l: Leaf<V>, value: V)
    requires DistinctKeys(index) && |es| == |index| && |es'| == |index'|
    requires forall i | 0 <= i < |index| :: es[i].0 == index[i].key
    requires forall i | 0 <= i < |index'| :: es'[i].0 == index'[i].key
    requires index' == if l in index then index else index + [l]
    requires forall i | 0 <= i < |index| && index[i].key == l.key :: index[i] == l
    requires forall i | 0 <= i < |index'| :: es'[i].1 == if index'[i] == l then value else es[i].1
    ensures es' == Update(es, l.key, value)
  {
    hide Position;
    var at := Position(es, l.key);
    if l in index {
      var i :| 0 <= i < |index| && index[i] == l;
      assert es[i].0 == l.key;
      assert at == i;
    } else {
      assert forall i | 0 <= i < |index| :: index[i] in index;
    }
  }

  lemma NewInIndex<V>(index: seq<Leaf<V>>, l: Leaf<V>)
    requires DistinctBlobs(index) && forall x | x in index :: x.key != l.key
    ensures MapSet(index, l) == index + [l] && LeavesIn(MapSet(index, l)) == LeavesIn(index) + {l}
  {
    hide MapSet, LeavesIn, DistinctBlobs;
    SetInIndex(index, l);
  }

  lemma ConvertedList<V>(cells: Cells<V>, key: Key, setting: bool, threshold: int, at: Option<Key>)
    requires ConvertedAt(cells, key, setting, threshold, at)
    ensures at.Some? ==> IsList(cells, at.value)
  {
    hide SizeAfter;
  }

  lemma OnlyOwnDisplaced<V>(cells: Cells<V>, leaves: set<Leaf<V>>, at: Option<Key>)
    requires Shape(cells, leaves) && (at.Some? ==> IsList(cells, at.value))
    ensures Displaced(cells, at) <= leaves
  {
    hide Tree, DistinctItems;
    if at.Some? {
      var items := cells[at.value].children.items;
      assert CellRight(at.value, cells[at.value], leaves);
      forall x | x in items && 0 < |x.0| <= CHUNK_SIZE
        ensures x.1 in leaves
      {
        var i :| 0 <= i < |items| && items[i] == x;
        assert ItemRight(at.value, items[i], leaves);
      }
    }
  }

  lemma ErasedEntries<V>(index: seq<Leaf<V>>, es: seq<Entry<V>>, index': seq<Leaf<V>>, es': seq<Entry<V>>, l: Leaf<V>,
      values: map<Leaf<V>, V>)
    requires DistinctKeys(index) && |es| == |index| && |es'| == |index'|
    requires forall i | 0 <= i < |index| :: index[i] in values && es[i] == (index[i].key, values[index[i]])
    requires forall i | 0 <= i < |index'| :: index'[i] in values && es'[i] == (index'[i].key, values[index'[i]])
    requires var at := BlobPosition(index, l.blob);
             at < |index| && index[at] == l && index' == Without(index, at)
    ensures es' == Erase(es, l.key) && Lookup(es, l.key).Some?
  {
    hide Position, BlobPosition;
    var at := BlobPosition(index, l.blob);
    assert es[at].0 == l.key;
    assert Position(es, l.key) == at;
  }

  lemma NothingErased<V>(es: seq<Entry<V>>, k: Key)
    requires forall i | 0 <= i < |es| :: es[i].0 != k
    ensures Erase(es, k) == es && Lookup(es, k).None?
  {
    hide Position;
  }

  lemma NoneDisplaced<V>(cells: Cells<V>, leaves: set<Leaf<V>>)
    ensures leaves - Displaced(cells, None) == leaves
    ensures forall k :: StrayThen(cells, None, k) == StrayOf(cells, k)
  {
    hide StrayOf;
  }

  lemma AddedLeaves<V>(p: Key, items: seq<Item<V>>, kids: map<int, Node<V>>, added: Cells<V>)
    requires Grouped(p, items, kids, added)
    ensures forall q | q in added :: added[q].leaf == null
  {
    hide U48, Group;
  }

  lemma OthersOf<V>(leaves: set<Leaf<V>>, key: Key, l: Leaf?<V>)
    requires forall x | x in leaves && x.key == key :: x == l
    requires l == null || (l in leaves && l.key == key)
    ensures Others(leaves, key) == if l == null then leaves else leaves - {l}
  {
  }

  lemma OthersDisplaced<V>(cells: Cells<V>, leaves: set<Leaf<V>>, key: Key, setting: bool, threshold: int,
      at: Option<Key>)
    requires Shape(cells, leaves) && ConvertedAt(cells, key, setting, threshold, at) &&
        (at.Some? ==> IsList(cells, at.value))
    ensures Displaced(cells, at) <= Others(leaves, key)
  {
    hide Shape, ConvertedAt, Displaced;
    OnlyOwnDisplaced(cells, leaves, at);
    forall l | l in leaves && l.key == key
      ensures l !in Displaced(cells, at)
    {
      NotDisplaced(cells, leaves, key, setting, threshold, at, l);
    }
  }

  lemma ListsTrans<V>(a: Cells<V>, b: Cells<V>, c: Cells<V>, at: Option<Key>)
    requires ListsKept(a, b, None) && ListsKept(b, c, at)
    ensures ListsKept(a, c, at)
  {
  }

  /** A conversion of a node that was not there yet does not matter to the old nodes. */
  lemma ListsTransNew<V>(a: Cells<V>, b: Cells<V>, c: Cells<V>, at: Option<Key>)
    requires ListsKept(a, b, None) && ListsKept(b, c, at)
    ensures ListsKept(a, c, at) && (at.Some? && at.value !in a ==> ListsKept(a, c, None))
  {
  }

  lemma OnlyLeafPut<V>(cells: Cells<V>, p: Key, l: Leaf?<V>)
    requires p in cells
    ensures (forall k :: StrayOf(PutLeaf(cells, p, l), k) == StrayOf(cells, k)) &&
        ListsKept(cells, PutLeaf(cells, p, l), None)
  {
    hide ItemAt;
  }

  lemma AtDisplaced<V>(cells: Cells<V>, p: Key)
    requires IsList(cells, p)
    ensures Displaced(cells, Some(p)) == ShortLeaves(cells[p].children.items)
    ensures forall k :: StrayThen(cells, Some(p), k) == StrayAfter(cells, p, k)
  {
    hide ShortLeaves, StrayAfter;
  }

  lemma RootOf<V>(cells: Cells<V>, leaves: set<Leaf<V>>)
    requires Shape(cells, leaves)
    ensures [] in cells
  {
  }

  lemma ChildBelow<V>(cells: Cells<V>, leaves: set<Leaf<V>>, p: Key, key: Key) returns (c: Key)
    requires Shape(cells, leaves) && IsMap(cells, p) && p < key
    ensures c == (if |key| > |p| + CHUNK_SIZE then key[|p|..|p| + CHUNK_SIZE] else key[|p|..]) == NextChunk(p, key)
    ensures IsChunk(c) && p + c <= key && |p| % CHUNK_SIZE == 0 && |p + c| == |p| + |c|
    ensures U48(c) in cells[p].children.kids <==> p + c in cells
    ensures p + c in cells ==> cells[p].children.kids[U48(c)] == cells[p + c].node
  {
    hide Tree, U48;
    c := ChildOf(cells, p, key);
  }

  lemma AddedNode<V>(cells: Cells<V>, p: Key, c: Key, node: Node<V>)
    requires IsMap(cells, p) && p + c !in cells
    ensures NodesOf(AddChild(cells, p, c, node)) == NodesOf(cells) + {node}
    ensures var after := AddChild(cells, p, c, node);
            && after.Keys == cells.Keys + {p + c} && (forall q | q in cells && q != p :: after[q] == cells[q])
            && after[p] == cells[p].(children := MapChildren(cells[p].children.kids[U48(c) := node]))
            && after[p + c] == Cell(node, null, ListChildren([]))
  {
    hide U48;
    var after := AddChild(cells, p, c, node);
    assert p != p + c;
    assert after[p + c].node == node;
    forall n | n in NodesOf(cells)
      ensures n in NodesOf(after)
    {
      var q :| q in cells && cells[q].node == n;
      assert q != p + c && after[q].node == n;
    }
  }

  lemma ListOf<V>(cells: Cells<V>, leaves: set<Leaf<V>>, p: Key)
    requires Shape(cells, leaves) && IsList(cells, p)
    ensures DistinctItems(cells[p].children.items)
  {
    assert CellRight(p, cells[p], leaves);
  }

  lemma GraftCells<V>(cells: Cells<V>, leaves: set<Leaf<V>>, p: Key, kids: map<int, Node<V>>, added: Cells<V>)
    requires Shape(cells, leaves) && IsList(cells, p) && |p| % CHUNK_SIZE == 0 &&
        Grouped(p, cells[p].children.items, kids, added)
    ensures forall q | q in added :: added[q].leaf == null
    ensures var after := Graft(cells, p, kids, added);
            && (forall q | q in after :: q in added || q in cells)
            && (forall q | q in added :: after[q] == added[q])
            && (forall q | q in cells && q != p :: q in after && after[q] == cells[q])
            && p in after && after[p] == cells[p].(children := MapChildren(kids))
            && NodesOf(after) == NodesOf(cells) + NodesOf(added)
  {
    hide U48, Grouped;
    AddedLeaves(p, cells[p].children.items, kids, added);
    AddedIsNew(cells, p, cells[p].children.items, kids, added);
    var after := Graft(cells, p, kids, added);
    forall n | n in NodesOf(cells)
      ensures n in NodesOf(after)
    {
      var q :| q in cells && cells[q].node == n;
      assert after[q].node == n;
    }
    forall n | n in NodesOf(added)
      ensures n in NodesOf(after)
    {
      var q :| q in added && added[q].node == n;
      assert after[q].node == n;
    }
  }

  lemma NodesKept<V>(cells: Cells<V>, p: Key, cell: Cell<V>)
    requires p in cells && cell.node == cells[p].node
    ensures NodesOf(cells[p := cell]) == NodesOf(cells)
  {
    var after := cells[p := cell];
    forall q | q in cells
      ensures after[q].node == cells[q].node
    {
    }
    forall n | n in NodesOf(cells)
      ensures n in NodesOf(after)
    {
      var q :| q in cells && cells[q].node == n;
      assert after[q].node == n;
    }
  }

  /** A key whose walk meets a list node: the leaf it has in place is in that list. */
  lemma ListFacts<V>(cells: Cells<V>, leaves: set<Leaf<V>>, p: Key, key: Key)
    requires Shape(cells, leaves) && ListOnWay(cells, p, key)
    ensures IsList(cells, p) && p <= key && |p| % CHUNK_SIZE == 0
    ensures var items, sub := cells[p].children.items, key[|p|..];
            var at := Position(items, sub);
            && sub != [] && key == p + sub
            && (at < |items| ==> items[at].1 in leaves && items[at].1.key == key && forall l | l in leaves &&
                l.key == key :: l == items[at].1)
            && (at == |items| ==> forall l | l in leaves :: l.key != key)
    ensures key !in cells
  {
    hide U48, Position, KidsRight, Ancestors;
    var items, sub := cells[p].children.items, key[|p|..];
    var at := Position(items, sub);
    assert key == p + sub;
    assert CellRight(p, cells[p], leaves);
    if at < |items| {
      assert ItemRight(p, items[at], leaves);
    }
    forall l | l in leaves && l.key == key
      ensures at < |items| && items[at].1 == l
    {
      FoundInList(cells, leaves, p, key, l);
      var i :| 0 <= i < |items| && items[i] == (sub, l);
    }
    NotBelowList(cells, p, key);
  }

  lemma ListAnswer<V>(cells: Cells<V>, leaves: set<Leaf<V>>, p: Key, key: Key)
    requires Shape(cells, leaves) && IsList(cells, p) && p <= key && (p < key ==> |p| % CHUNK_SIZE == 0)
    ensures p < key ==> ListOnWay(cells, p, key) && StrayOf(cells, key) == null
    ensures var items, sub := cells[p].children.items, key[|p|..];
            var at := Position(items, sub);
            && (at < |items| && p < key ==> forall l | l in leaves && l.key == key :: l == items[at].1)
            && (at < |items| && p < key ==> items[at].1 in leaves && items[at].1.key == key)
            && (at < |items| && p == key ==> StrayOf(cells, key) == items[at].1)
            && (at == |items| && p < key ==> forall l | l in leaves :: l.key != key)
            && (at == |items| && p == key ==> StrayOf(cells, key) == null)
  {
    hide Shape, Position;
    if p < key {
      ListFacts(cells, leaves, p, key);
    }
  }

  lemma EndAnswerSame<V>(cells: Cells<V>, leaves: set<Leaf<V>>, key: Key)
    requires Shape(cells, leaves) && key in cells
    ensures forall l | l in leaves && l.key == key :: cells[key].leaf == l
  {
    hide Shape;
    forall l | l in leaves && l.key == key
      ensures cells[key].leaf == l
    {
      FoundAtEnd(cells, leaves, key, l);
    }
  }

  lemma OtherNodes<V>(cells: Cells<V>, leaves: set<Leaf<V>>, p: Key)
    requires Shape(cells, leaves) && p in cells
    ensures [] in cells && forall q | q in cells && q != p :: cells[q].node != cells[p].node
  {
  }

  lemma RootThere<V>(cells: Cells<V>)
    requires Tree(cells)
    ensures [] in cells
  {
  }

  lemma ChildOf<V>(cells: Cells<V>, p: Key, key: Key) returns (c: Key)
    requires Tree(cells) && IsMap(cells, p) && p < key
    ensures c == (if |key| > |p| + CHUNK_SIZE then key[|p|..|p| + CHUNK_SIZE] else key[|p|..]) == NextChunk(p, key)
    ensures IsChunk(c) && p + c <= key && |p| % CHUNK_SIZE == 0 && |p + c| == |p| + |c|
    ensures U48(c) in cells[p].children.kids <==> p + c in cells
    ensures p + c in cells ==> cells[p].children.kids[U48(c)] == cells[p + c].node
  {
    hide U48;
    c := NextChunk(p, key);
    assert KidRight(cells, p, c);
  }

  lemma EndAnswer<V>(cells: Cells<V>, leaves: set<Leaf<V>>, key: Key)
    requires Shape(cells, leaves) && key in cells
    ensures cells[key].leaf == null ==> forall l | l in leaves :: l.key != key
    ensures cells[key].leaf != null ==> cells[key].leaf in leaves && cells[key].leaf.key == key
  {
    hide U48, Ancestors, KidsRight;
    assert CellRight(key, cells[key], leaves);
    forall l | l in leaves && l.key == key
      ensures cells[key].leaf == l
    {
      FoundAtEnd(cells, leaves, key, l);
    }
  }

  lemma MapAnswer<V>(cells: Cells<V>, leaves: set<Leaf<V>>, p: Key, key: Key)
    requires Shape(cells, leaves) && IsMap(cells, p) && p < key && p + NextChunk(p, key) !in cells
    ensures (forall l | l in leaves :: l.key != key) && StrayOf(cells, key) == null
  {
    hide NextChunk, Ancestors, KidsRight;
    forall l | l in leaves
      ensures l.key != key
    {
      NotBelow(cells, leaves, p, key, l);
    }
    if key in cells {
      StepTowards(cells, p, key, key);
    }
  }

  /** A walk meets one list node at most, and none where it ends at the end of the key or at a missing child. */
  lemma OnlyListOnWay<V>(cells: Cells<V>, p: Key, key: Key)
    requires Tree(cells) && p in cells && p <= key
    ensures ListOnWay(cells, p, key) ==> forall q | ListOnWay(cells, q, key) :: q == p
    ensures p == key || (IsMap(cells, p) && p + NextChunk(p, key) !in cells) ==> forall q :: !ListOnWay(cells, q, key)
  {
    hide U48, Tree, NextChunk;
    forall q | ListOnWay(cells, q, key)
      ensures ListOnWay(cells, p, key) ==> q == p
      ensures !(p == key || (IsMap(cells, p) && p + NextChunk(p, key) !in cells))
    {
      if |q| <= |p| {
        OnePlace(cells, q, p, key);
      } else if IsMap(cells, p) {
        StepTowards(cells, p, q, key);
      } else if ListOnWay(cells, p, key) {
        OnePlace(cells, p, q, key);
      }
    }
  }

  lemma EmptyShape<V>(cells: Cells<V>)
    requires cells.Keys == {[]} && cells[[]].leaf == null && cells[[]].children == ListChildren([]) &&
        cells[[]].node.path == []
    ensures Shape(cells, {}) && NoStrays(cells)
  {
  }
}

/**
 Leaves out of place, seen from outside: what the operations answer for a key that has one.
 */
module BlobStrays {
  import opened Bytes
  import opened BlobTree
  import opened D = BlobDictionary
  import opened BlobConversions
  import opened BlobRuns

  /** What is set is read back exactly when no leaf of the key is out of place, or it has the same value. */
  method SetThenGet<V>(dict: BlobDictionary<V>, key: KeyBlob, value: V) returns (r: Option<V>)
    requires dict.Valid()
    modifies dict`cells, dict`keyvals, dict`own, NodesOf(dict.cells), dict.own
    ensures dict.Valid()
    ensures r == Some(value) <==>
        old(StrayOf(dict.cells, key.raw)) == null ||
        old(StrayOf(dict.cells, key.raw).value) == value
    ensures old(StrayOf(dict.cells, key.raw)) != null ==> r == Some(old(StrayOf(dict.cells, key.raw).value))
    ensures r == dict.Found(key.raw)
  {
    hide MapSet, SameNodeLeaves, ListsKept, SizeAfter, Displaced, Shape, StrayOf;
    ghost var cells := dict.cells;
    ShapeOfValid(dict);
    StrayNotOwn(cells, dict.own, key.raw);
    ghost var stray := StrayOf(cells, key.raw);
    assert stray != null ==> stray !in dict.own;
    ghost var l, at;
    l, at := dict.Set(key, value);
    OwnStray(cells, key.raw, true, dict.mapNodeThreshold, at);
    assert StrayOf(dict.cells, key.raw) == stray && (stray != null ==> stray.value == old(stray.value));
    r := dict.Get(key.raw);
  }

  /**
   A key is removed exactly when it has a leaf in place. A leaf out of place stays there and goes on being read.
   */
  method DeleteThenGet<V>(dict: BlobDictionary<V>, key: KeyBlob) returns (removed: bool, r: Option<V>)
    requires dict.Valid()
    modifies dict`cells, dict`keyvals, dict`own, NodesOf(dict.cells), dict.own
    ensures dict.Valid() && (removed <==> old(InPlace(dict.own, key.raw))) && !InPlace(dict.own, key.raw)
    ensures StrayOf(dict.cells, key.raw) == old(StrayOf(dict.cells, key.raw))
    ensures old(StrayOf(dict.cells, key.raw)) != null ==> r == Some(old(StrayOf(dict.cells, key.raw).value))
    ensures r == dict.Found(key.raw)
  {
    hide MapDelete, SameNodeLeaves, ListsKept, SizeAfter, Displaced, Shape, StrayOf;
    ghost var cells := dict.cells;
    ShapeOfValid(dict);
    StrayNotOwn(cells, dict.own, key.raw);
    ghost var stray := StrayOf(cells, key.raw);
    assert stray != null ==> stray !in dict.own;
    ghost var at;
    removed, at := dict.Delete(key);
    OwnStray(cells, key.raw, false, dict.mapNodeThreshold, at);
    assert StrayOf(dict.cells, key.raw) == stray && (stray != null ==> stray.value == old(stray.value));
    r := dict.Get(key.raw);
  }

  lemma ZerosPrefix(p: Key, a: nat, b: nat)
    requires p <= Zeros(a) && a <= b
    ensures p <= Zeros(b)
  {
  }

  lemma FirstInIndex<V>(l: Leaf<V>)
    ensures MapSet([], l) == [l]
  {
  }

  lemma SecondInIndex<V>(a: Leaf<V>, b: Leaf<V>)
    requires a.blob != b.blob
    ensures MapSet([a], b) == [a, b]
  {
  }

  lemma OneChunk(short: Key, long: Key)
    requires 0 < |short| <= CHUNK_SIZE < |long|
    ensures Stem(short) == [] && ChunkCount(|short|) < ChunkCount(|long|)
  {
  }

  /** A key of one chunk and a longer one, at threshold 0: the short one is out of place. */
  method OutOfPlace<V>(short: KeyBlob, long: KeyBlob, x: V, y: V)
      returns (dict: BlobDictionary<V>, ghost l: Leaf<V>, ghost l2: Leaf<V>)
    requires 0 < |short.raw| <= CHUNK_SIZE < |long.raw| && short.raw <= long.raw
    ensures fresh(dict) && dict.Valid() && dict.mapNodeThreshold == 0 && fresh(NodesOf(dict.cells)) && fresh(l) &&
        fresh(l2)
    ensures StrayOf(dict.cells, short.raw) == l && dict.own == {l2} && dict.keyvals == [l, l2]
    ensures l.blob == short && l.key == short.raw && l.value == x && l2.key == long.raw && l2.value == y
  {
    hide BlobDictionary.Valid, BlobDictionary.Regular, BlobDictionary.Entries, StrayThen, StrayOf;
    hide ConvertedAt, SameNodeLeaves;
    hide ListsKept, Displaced, MapSet, Shape, ListOnWay, StrayAfter, Update;
    dict := new BlobDictionary<V>(0);
    NothingOwned(dict);
    ghost var before, at := dict.cells, None;
    l, at := dict.Set(short, x);
    FirstInIndex(l);
    ghost var cells := dict.cells;
    ShapeOfValid(dict);
    assert dict.own == {l};
    ghost var q := FirstKey(before, cells, dict.own, l, 0, at, long.raw);
    OneChunk(short.raw, long.raw);
    OnLongerWay(cells, q, short.raw, long.raw);
    WhereNow(cells, dict.own, q, l);
    assert forall n | n in NodesOf(dict.cells) :: fresh(n);
    ghost var own := dict.own;
    l2, at := dict.Set(long, y);
    SecondInIndex(l, l2);
    ListConverts(cells, own, q, long.raw, at);
    ConvertedStray(cells, q, short.raw);
    assert dict.own == {l2};
  }

  /** With a value for the empty key, every other key that is not there gets that value. */
  method PrefixAnswers<V>(key: Key, x: V) returns (dict: BlobDictionary<V>)
    requires key != []
    ensures dict.Valid() && dict.Entries() == [([], x)] && dict.Found(key) == Some(x)
  {
    hide BlobDictionary.Valid, StrayOf, StrayThen, ConvertedAt, SameNodeLeaves;
    hide ListsKept, Displaced, MapSet, Shape, BlobDictionary.Regular, Update;
    dict := new BlobDictionary<V>(0);
    NothingOwned(dict);
    ghost var before := dict.cells;
    var empty := new KeyBlob([]);
    ghost var l, at;
    l, at := dict.Set(empty, x);
    FirstInIndex(l);
    ShapeOfValid(dict);
    assert dict.own == {l};
    ghost var q := FirstKey(before, dict.cells, dict.own, l, 0, at, key);
    RootAnswers(dict.cells, dict.own, l, key);
  }

  /** A one-byte key, one of seven bytes and the first again with another value: the old value is found. */
  method OldValue<V>(x: V, y: V) returns (dict: BlobDictionary<V>)
    ensures dict.Valid() && dict.Entries() == [(Zeros(1), y), (Zeros(7), x)] && dict.Found(Zeros(1)) == Some(x)
  {
    hide BlobDictionary.Valid, BlobDictionary.Regular, BlobDictionary.Found, StrayOf, Zeros, BlobDictionary.Entries;
    var short := new KeyBlob(Zeros(1));
    var long := new KeyBlob(Zeros(7));
    ZerosPrefix(short.raw, 1, 7);
    ghost var l, l2;
    dict, l, l2 := OutOfPlace(short, long, x, x);
    assert forall n | n in NodesOf(dict.cells) :: fresh(n);
    SetStray(dict, short, y, l, l2);
    TwoEntries(dict);
  }

  lemma TwoEntries<V>(dict: BlobDictionary<V>)
    requires |dict.keyvals| == 2
    ensures dict.Entries() ==
        [(dict.keyvals[0].key, dict.keyvals[0].value), (dict.keyvals[1].key, dict.keyvals[1].value)]
  {
  }

  /** Setting the key of a leaf out of place makes a second leaf, which takes the place of the first in the index. */
  method SetStray<V>(dict: BlobDictionary<V>, short: KeyBlob, y: V, ghost l: Leaf<V>, ghost l2: Leaf<V>)
    requires dict.Valid() && StrayOf(dict.cells, short.raw) == l && dict.own == {l2} && dict.keyvals == [l, l2]
    requires l.blob == short && l2.key != short.raw
    modifies dict`cells, dict`keyvals, dict`own, NodesOf(dict.cells), dict.own
    ensures dict.Valid() && dict.Found(short.raw) == Some(old(l.value)) && |dict.keyvals| == 2
    ensures dict.keyvals[0].key == short.raw && dict.keyvals[0].value == y
    ensures dict.keyvals[1] == l2 && l2.value == old(l2.value)
  {
    hide SameNodeLeaves, ListsKept, SizeAfter, Displaced, Shape, StrayOf, MapSet, AnswerOf, ConvertedAt, StrayThen;
    ghost var cells, own := dict.cells, dict.own;
    ShapeOfValid(dict);
    StrayNotOwn(cells, own, short.raw);
    ghost var set', at;
    set', at := dict.Set(short, y);
    ConvertedList(cells, short.raw, true, dict.mapNodeThreshold, at);
    OwnStray(cells, short.raw, true, dict.mapNodeThreshold, at);
    StrayAnswers(dict.cells, dict.own, l);
    ReplacedInIndex(l, l2, set');
  }

  lemma ReplacedInIndex<V>(a: Leaf<V>, b: Leaf<V>, c: Leaf<V>)
    requires a.blob == c.blob
    ensures MapSet([a, b], c) == [c, b]
  {
  }

  /** A one-byte key and one of seven bytes: the first is not deleted, stays in the index and goes on being found. */
  method NotDeleted<V>(x: V) returns (dict: BlobDictionary<V>, removed: bool)
    ensures dict.Valid() && !removed && !InPlace(dict.own, Zeros(1))
    ensures dict.Entries() == [(Zeros(1), x), (Zeros(7), x)] && dict.Found(Zeros(1)) == Some(x)
  {
    hide BlobDictionary.Valid, BlobDictionary.Regular, StrayOf, Zeros, AnswerOf, StrayThen, MapDelete, ConvertedAt;
    hide Displaced, Others, Shape, BlobDictionary.Entries;
    var short := new KeyBlob(Zeros(1));
    var long := new KeyBlob(Zeros(7));
    ZerosPrefix(short.raw, 1, 7);
    ghost var l, l2;
    dict, l, l2 := OutOfPlace(short, long, x, x);
    assert forall n | n in NodesOf(dict.cells) :: fresh(n);
    ghost var cells, at := dict.cells, None;
    removed, at := dict.Delete(short);
    ConvertedList(cells, short.raw, false, dict.mapNodeThreshold, at);
    OwnStray(cells, short.raw, false, dict.mapNodeThreshold, at);
    StrayAnswers(dict.cells, dict.own, l);
    NoOther({l2}, short.raw);
    TwoEntries(dict);
  }

  lemma NoOther<V>(leaves: set<Leaf<V>>, key: Key)
    ensures !InPlace(Others(leaves, key), key)
  {
  }

  /** The list of a key out of place turns into a map: the key is not found any more. */
  method SetAgain<V>(dict: BlobDictionary<V>, short: KeyBlob, long: KeyBlob, y: V, ghost l: Leaf<V>,
      ghost l2: Leaf<V>)
    requires dict.Valid() && dict.mapNodeThreshold == 0 && dict.own == {l2} && l2.key == long.raw && l != l2
    requires StrayOf(dict.cells, short.raw) == l && short.raw < long.raw
    requires |short.raw| % CHUNK_SIZE == 0 && |long.raw| - |short.raw| > CHUNK_SIZE
    modifies dict`cells, dict`keyvals, dict`own, NodesOf(dict.cells), dict.own
    ensures dict.Valid() && dict.Found(short.raw) == None
    ensures dict.keyvals == old(dict.keyvals) && l.value == old(l.value) && l2.value == y
  {
    hide StrayThen, StrayOf, ConvertedAt, SameNodeLeaves, BlobDictionary.TreeValid, BlobDictionary.Regular;
    hide Update, NodesOf;
    hide ListsKept, Displaced, MapSet, Shape, ListOnWay, StrayAfter, LeavesIn, DistinctBlobs;
    ghost var cells := dict.cells;
    ShapeOfValid(dict);
    StrayOnWay(cells, short.raw, long.raw);
    ghost var l3, at;
    l3, at := dict.Set(long, y);
    ListConverts(cells, {l2}, short.raw, long.raw, at);
    LostThen(cells, short.raw);
    ShapeOfValid(dict);
    NothingOnWay(dict.cells, dict.own, short.raw);
    dict.FoundAnswer(short.raw);
  }

  /**
   A key of six bytes, one of thirteen and that one again: the first is not found any more, though it is still counted.
   */
  method LostKey<V>(x: V, y: V) returns (dict: BlobDictionary<V>)
    ensures dict.Valid() && dict.Entries() == [(Zeros(6), x), (Zeros(13), y)] && dict.Found(Zeros(6)) == None
  {
    hide BlobDictionary.Valid, BlobDictionary.Regular, BlobDictionary.Found, StrayOf, Zeros;
    var short := new KeyBlob(Zeros(6));
    var long := new KeyBlob(Zeros(13));
    ZerosPrefix(short.raw, 6, 13);
    ghost var l, l2;
    dict, l, l2 := OutOfPlace(short, long, x, y);
    assert forall n | n in NodesOf(dict.cells) :: fresh(n);
    SetAgain(dict, short, long, y, l, l2);
  }
}

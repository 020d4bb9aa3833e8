/**
 What setting keys does to the leaves of a chunk tree: which list turns into a map, and where a leaf is then.
 */
module BlobConversions {
  import opened Bytes
  import opened BlobTree
  import opened D = BlobDictionary

  // ----- numbers of chunks -----

  /** The number of chunks of a key of the given length. */
  function ChunkCount(length: nat): nat {
    (length + CHUNK_SIZE - 1) / CHUNK_SIZE
  }

  lemma FewerChunks(p: nat, key: nat)
    requires p % CHUNK_SIZE == 0 && p < key
    ensures ChunkCount(p) < ChunkCount(key)
  {
  }

  lemma CountsApart(p: nat, key: nat, sub: nat)
    requires p % CHUNK_SIZE == 0 && key - p > CHUNK_SIZE && ChunkCount(p + sub) == ChunkCount(key)
    ensures sub > CHUNK_SIZE
  {
  }

  lemma LongEnough(p: nat, a: nat, b: nat)
    requires p % CHUNK_SIZE == 0 && p < a && ChunkCount(a) < ChunkCount(b)
    ensures b - p > CHUNK_SIZE && a < b
  {
  }

  /**
   With keys of one number of chunks no list on the way turns short keys into leaves out of place or has a leaf of its
   own.
   */
  lemma OneCountIsSafe<V>(cells: Cells<V>, leaves: set<Leaf<V>>, p: Key, key: Key)
    requires Shape(cells, leaves) && ListOnWay(cells, p, key)
    requires forall l | l in leaves :: ChunkCount(|l.key|) == ChunkCount(|key|)
    ensures cells[p].leaf == null && (|key| - |p| > CHUNK_SIZE ==> ShortLeaves(cells[p].children.items) == {})
  {
    hide Tree, DistinctItems, ChunkCount;
    var items := cells[p].children.items;
    assert CellRight(p, cells[p], leaves);
    FewerChunks(|p|, |key|);
    if |key| - |p| > CHUNK_SIZE {
      forall x | x in items && x.0 != []
        ensures |x.0| > CHUNK_SIZE
      {
        var i :| 0 <= i < |items| && items[i] == x;
        assert ItemRight(p, items[i], leaves);
        CountsApart(|p|, |key|, |x.0|);
      }
    }
  }

  lemma NoPrefixLeaf<V>(cells: Cells<V>, leaves: set<Leaf<V>>, key: Key)
    requires Shape(cells, leaves) && forall l | l in leaves :: ChunkCount(|l.key|) == ChunkCount(|key|)
    ensures forall p | ListOnWay(cells, p, key) :: cells[p].leaf == null
  {
    hide Shape, ChunkCount;
    forall p | ListOnWay(cells, p, key)
      ensures cells[p].leaf == null
    {
      OneCountIsSafe(cells, leaves, p, key);
    }
  }

  lemma NoneOutOfPlace<V>(cells: Cells<V>, leaves: set<Leaf<V>>, key: Key, setting: bool, threshold: int,
      at: Option<Key>)
    requires Shape(cells, leaves) && ConvertedAt(cells, key, setting, threshold, at) &&
        (at.Some? ==> IsList(cells, at.value))
    requires forall l | l in leaves :: ChunkCount(|l.key|) == ChunkCount(|key|)
    ensures Displaced(cells, at) == {}
  {
    hide Shape, SizeAfter, ShortLeaves;
    if at.Some? {
      OneCountIsSafe(cells, leaves, at.value, key);
    }
  }

  // ----- leaves out of place -----

  lemma StrayNotOwn<V>(cells: Cells<V>, leaves: set<Leaf<V>>, key: Key)
    requires Shape(cells, leaves)
    ensures StrayOf(cells, key) != null ==> StrayOf(cells, key) !in leaves && StrayOf(cells, key).key == key
  {
    hide Tree, Position;
    if StrayOf(cells, key) != null {
      assert CellRight(key, cells[key], leaves);
      assert ItemRight(key, cells[key].children.items[Position(cells[key].children.items, [])], leaves);
    }
  }

  /** Setting or deleting a key does not put its own leaf out of place. */
  lemma OwnStray<V>(cells: Cells<V>, key: Key, setting: bool, threshold: int, at: Option<Key>)
    requires ConvertedAt(cells, key, setting, threshold, at) && (at.Some? ==> IsList(cells, at.value))
    ensures StrayThen(cells, at, key) == StrayOf(cells, key)
  {
    hide SizeAfter, ItemAt;
  }

  /** At threshold 0 a key that goes on after the next chunk turns the list it meets into a map. */
  lemma ListConverts<V>(cells: Cells<V>, leaves: set<Leaf<V>>, p: Key, key: Key, at: Option<Key>)
    requires Shape(cells, leaves) && ConvertedAt(cells, key, true, 0, at) && ListOnWay(cells, p, key)
    ensures |key| - |p| > CHUNK_SIZE ==> at == Some(p)
    ensures |key| - |p| <= CHUNK_SIZE ==> at == None
  {
    hide Tree, Holds, Position;
    OnlyListOnWay(cells, p, key);
    assert SizeAfter(cells[p].children.items, key[|p|..], true) > 0;
    assert |key| - |p| > CHUNK_SIZE ==> Converts(cells, p, key, true, 0);
  }

  /** A leaf in the list of `p` whose key ends with the next chunk is put out of place, any other stays in place. */
  lemma WhereNow<V>(cells: Cells<V>, leaves: set<Leaf<V>>, p: Key, l: Leaf<V>)
    requires Shape(cells, leaves) && ListOnWay(cells, p, l.key) && l in leaves
    ensures l in Displaced(cells, Some(p)) <==> |l.key| - |p| <= CHUNK_SIZE
    ensures |l.key| - |p| <= CHUNK_SIZE ==> StrayAfter(cells, p, l.key) == l
    ensures forall q | q in cells :: cells[q].leaf != l
  {
    hide Tree, Position, DistinctItems, ItemAt, StrayOf;
    var items := cells[p].children.items;
    FoundInList(cells, leaves, p, l.key, l);
    assert CellRight(p, cells[p], leaves);
    ItemAtIs(items, (l.key[|p|..], l));
    forall x | x in items && x.1 == l
      ensures x.0 == l.key[|p|..]
    {
      var i :| 0 <= i < |items| && items[i] == x;
      assert ItemRight(p, items[i], leaves);
    }
    var i :| 0 <= i < |items| && items[i] == (l.key[|p|..], l);
    forall q | q in cells
      ensures cells[q].leaf != l
    {
      OnlyItem(cells, leaves, p, i, q);
    }
  }

  /** A leaf that is in place and was no node's own leaf is in a list that the walk to its key meets. */
  lemma StillInList<V>(before: Cells<V>, after: Cells<V>, leaves: set<Leaf<V>>, l: Leaf<V>) returns (q: Key)
    requires Shape(after, leaves) && l in leaves && SameNodeLeaves(before, after) && forall p | p in before ::
        before[p].leaf != l
    ensures ListOnWay(after, q, l.key)
  {
    hide Tree;
    q := PlaceOf(after, leaves, l);
  }

  /** The list that turned into a map was replaced by deeper ones. */
  lemma Deeper<V>(cells: Cells<V>, leaves: set<Leaf<V>>, p: Key, q: Key, key: Key)
    requires Shape(cells, leaves) && IsMap(cells, p) && p < key && ListOnWay(cells, q, key)
    ensures |q| > |p|
  {
    hide Holds;
    if |q| <= |p| {
      OnePlace(cells, q, p, key);
    }
  }

  lemma ConvertedStray<V>(cells: Cells<V>, p: Key, k: Key)
    requires IsList(cells, p)
    ensures StrayThen(cells, Some(p), k) == StrayAfter(cells, p, k)
  {
    hide StrayAfter;
  }

  lemma ListStays<V>(before: Cells<V>, after: Cells<V>, p: Key, key: Key, at: Option<Key>)
    requires ListsKept(before, after, at) && at.None? && ListOnWay(before, p, key)
    ensures ListOnWay(after, p, key)
  {
  }

  /** The first key of an empty dictionary is in a list unless it is the empty key. */
  lemma FirstKey<V>(before: Cells<V>, after: Cells<V>, own: set<Leaf<V>>, l: Leaf<V>, threshold: int,
      at: Option<Key>, long: Key) returns (q: Key)
    requires IsList(before, []) && Shape(after, own) && own == {l} && ListsKept(before, after, at)
    requires ConvertedAt(before, l.key, true, threshold, at) && (forall p | p in before :: before[p].leaf == null)
    requires (exists p :: ListOnWay(before, p, l.key)) ==> SameNodeLeaves(before, after)
    ensures l.key != [] ==> ListOnWay(after, q, l.key)
    ensures l.key == [] && long != [] ==>
        ListOnWay(after, [], long) && after[[]].leaf == l &&
        StrayOf(after, long) == null
  {
    hide SizeAfter, Ancestors, KidsRight, U48;
    q := [];
    if l.key != [] {
      assert ListOnWay(before, [], l.key);
      q := StillInList(before, after, own, l);
    } else if long != [] {
      q := PlaceOf(after, own, l);
      assert at == None;
      NotBelowList(after, [], long);
    }
  }

  lemma OnlyOne<V>(cells: Cells<V>, leaves: set<Leaf<V>>, p: Key, key: Key)
    requires Shape(cells, leaves) && ListOnWay(cells, p, key)
    ensures forall q | ListOnWay(cells, q, key) :: q == p
  {
    hide Tree, Holds;
    OnlyListOnWay(cells, p, key);
  }

  /** The leaf out of place at a list that turns into a map is nowhere any more. */
  lemma LostThen<V>(cells: Cells<V>, p: Key)
    requires IsList(cells, p)
    ensures StrayThen(cells, Some(p), p) == null
  {
  }

  lemma StrayOnWay<V>(cells: Cells<V>, short: Key, long: Key)
    requires StrayOf(cells, short) != null && short < long && |short| % CHUNK_SIZE == 0
    ensures ListOnWay(cells, short, long) && IsList(cells, short)
  {
  }

  lemma NothingOnWay<V>(cells: Cells<V>, leaves: set<Leaf<V>>, key: Key)
    requires Shape(cells, leaves) && key in cells
    ensures forall p :: !ListOnWay(cells, p, key)
  {
    hide Tree, Holds, ListOnWay;
    OnlyListOnWay(cells, key, key);
  }

  // ----- a leaf while keys are set -----

  /** A key without its last chunk. */
  function Stem(key: Key): Key {
    if key == [] then [] else key[..CHUNK_SIZE * (ChunkCount(|key|) - 1)]
  }

  /** The number of whole chunks. */
  function Level(p: Key): nat {
    |p| / CHUNK_SIZE
  }

  lemma LevelBelow(p: Key, key: Key)
    requires |p| % CHUNK_SIZE == 0 && |p| < |key|
    ensures Level(p) < ChunkCount(|key|)
  {
  }

  /** What setting a key does to the tree and the leaves in place. */
  ghost predicate SetEffect<V>(before: Cells<V>, own: set<Leaf<V>>, after: Cells<V>, leaves: set<Leaf<V>>, key: Key,
      threshold: int, at: Option<Key>, l: Leaf<V>)
  {
    && Shape(before, own) && Shape(after, leaves)
    && ConvertedAt(before, key, true, threshold, at) && (at.Some? ==> IsList(before, at.value))
    && l.key == key && (forall x | x in own && x.key == key :: x == l)
    && leaves == own + {l} - Displaced(before, at) && l in leaves
    && (forall k :: StrayOf(after, k) == StrayThen(before, at, k))
    && ListsKept(before, after, at) && (at.Some? ==> IsMap(after, at.value))
    && ((exists p :: ListOnWay(before, p, key)) ==> SameNodeLeaves(before, after))
  }

  /** A list on the way of a key is on the way of every key with the same stem and more chunks. */
  lemma OnLongerWay<V>(cells: Cells<V>, p: Key, short: Key, long: Key)
    requires ListOnWay(cells, p, short) && Stem(short) <= long && ChunkCount(|short|) < ChunkCount(|long|)
    ensures ListOnWay(cells, p, long) && |long| - |p| > CHUNK_SIZE
    ensures |p| % CHUNK_SIZE == 0 && |p| < |short| && Level(p) < ChunkCount(|short|)
  {
    LongEnough(|p|, |short|, |long|);
    FewerChunks(|p|, |short|);
    assert |p| <= |Stem(short)|;
    assert p == Stem(short)[..|p|];
  }

  /** A leaf in a list on the way of a key that is set: it is in that list still, in a deeper one or out of place. */
  lemma Followed<V>(before: Cells<V>, own: set<Leaf<V>>, after: Cells<V>, leaves: set<Leaf<V>>, key: Key,
      threshold: int, at: Option<Key>, set': Leaf<V>, l: Leaf<V>, q: Key) returns (deeper: Key)
    requires SetEffect(before, own, after, leaves, key, threshold, at, set')
    requires l in own && ListOnWay(before, q, l.key) && ListOnWay(before, q, key)
    ensures at == None || at == Some(q)
    ensures at == None ==>
              && deeper == q && own <= leaves && ListOnWay(after, q, l.key)
              && (|key| - |q| <= CHUNK_SIZE || SizeAfter(before[q].children.items, key[|q|..], true) <= threshold)
    ensures at == Some(q) ==>
              if |l.key| - |q| <= CHUNK_SIZE then StrayOf(after, l.key) == l
              else l in leaves && ListOnWay(after, deeper, l.key) && Level(deeper) > Level(q)
  {
    hide Shape, SizeAfter, StrayOf, StrayAfter, Displaced, ListOnWay, SameNodeLeaves, ListsKept;
    deeper := q;
    ListFacts(before, own, q, l.key);
    OnlyOne(before, own, q, key);
    WhereNow(before, own, q, l);
    if at == None {
      NoneDisplaced(before, own + {set'});
      assert own <= leaves && !Converts(before, q, key, true, threshold);
      ListStays(before, after, q, l.key, at);
    } else {
      ConvertedStray(before, q, l.key);
      if |l.key| - |q| > CHUNK_SIZE {
        InPlaceStill(own, set', before, q, l);
        deeper := StillInList(before, after, leaves, l);
        ListOnWayPrefix(before, q, l.key);
        ListOnWayPrefix(after, deeper, l.key);
        Deeper(after, leaves, q, deeper, l.key);
      }
    }
  }

  lemma InPlaceStill<V>(own: set<Leaf<V>>, more: Leaf<V>, cells: Cells<V>, p: Key, l: Leaf<V>)
    requires IsList(cells, p) && l in own && l !in Displaced(cells, Some(p))
    ensures l in own + {more} - Displaced(cells, Some(p))
  {
  }

  lemma ListOnWayPrefix<V>(cells: Cells<V>, p: Key, key: Key)
    requires ListOnWay(cells, p, key)
    ensures p < key && |p| % CHUNK_SIZE == 0 && IsList(cells, p)
  {
  }

  lemma {:induction false} DistinctBelow(s: seq<nat>, m: nat)
    requires forall i | 0 <= i < |s| :: s[i] < m
    requires forall i, j | 0 <= i < j < |s| :: s[i] != s[j]
    ensures |s| <= m
    decreases m
  {
    if s != [] {
      assert s[0] < m;
      if i :| 0 <= i < |s| && s[i] == m - 1 {
        DistinctBelow(s[..i] + s[i + 1..], m - 1);
      } else {
        DistinctBelow(s, m - 1);
      }
    }
  }

  /** A list is as long as there are different keys in it. */
  lemma ManyItems<T>(items: seq<(Key, T)>, subs: seq<Key>)
    requires forall i | 0 <= i < |subs| :: Position(items, subs[i]) < |items|
    requires forall i, j | 0 <= i < j < |subs| :: subs[i] != subs[j]
    ensures |items| >= |subs|
  {
    hide Position;
    var places := seq(|subs|, i requires 0 <= i < |subs| => Position(items, subs[i]));
    forall i, j | 0 <= i < j < |places|
      ensures places[i] != places[j]
    {
      assert items[places[i]].0 == subs[i] && items[places[j]].0 == subs[j];
    }
    DistinctBelow(places, |items|);
  }

  /** Setting one more key in a list with the given ones. */
  lemma Crowded<V>(cells: Cells<V>, own: set<Leaf<V>>, q: Key, keys: seq<Key>, key: Key)
    requires Shape(cells, own) && ListOnWay(cells, q, key)
    requires forall i | 0 <= i < |keys| :: ListOnWay(cells, q, keys[i]) && InPlace(own, keys[i]) && keys[i] != key
    requires forall i, j | 0 <= i < j < |keys| :: keys[i] != keys[j]
    ensures SizeAfter(cells[q].children.items, key[|q|..], true) >= |keys| + 1
  {
    hide Shape, Position;
    var items, sub := cells[q].children.items, key[|q|..];
    var subs := seq(|keys|, i requires 0 <= i < |keys| => keys[i][|q|..]);
    forall i | 0 <= i < |keys|
      ensures Position(items, subs[i]) < |items| && keys[i] == q + subs[i]
    {
      ListFacts(cells, own, q, keys[i]);
    }
    if Position(items, sub) < |items| {
      ManyItems(items, subs + [sub]);
    } else {
      ManyItems(items, subs);
    }
  }
}

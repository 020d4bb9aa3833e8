/**
 Runs of blob dictionaries: when they answer as a finite map, and when not.
 */
module BlobRuns {
  import opened Bytes
  import opened BlobTree
  import opened D = BlobDictionary
  import opened BlobConversions

  // ----- runs -----

  /** `fromEntries`: entries set one by one. */
  method FromEntries<V>(entries: seq<(KeyBlob, V)>, mapNodeThreshold: int) returns (dict: BlobDictionary<V>)
    ensures fresh(dict) && dict.Valid()
    ensures (forall i | 0 <= i < |entries| :: ChunkCount(|entries[i].0.raw|) == ChunkCount(|entries[0].0.raw|)) ==>
              dict.Regular() && dict.Entries() == UpdateAll([], Contents(entries))
  {
    hide BlobDictionary.Valid, BlobDictionary.Regular, BlobDictionary.Entries, Update, StrayOf, StrayThen;
    hide ConvertedAt, SameNodeLeaves, ListsKept, Displaced, ChunkCount, MapSet;
    hide Shape, UpdateAll, Contents, ListOnWay;
    ghost var one := forall i | 0 <= i < |entries| :: ChunkCount(|entries[i].0.raw|) == ChunkCount(|entries[0].0.raw|);
    dict := new BlobDictionary<V>(mapNodeThreshold);
    NothingOwned(dict);
    NoContents(entries);
    for i := 0 to |entries|
      invariant fresh(dict) && dict.Valid() && fresh(NodesOf(dict.cells)) && forall l | l in dict.own :: fresh(l)
      invariant one ==> dict.Regular() && dict.Entries() == UpdateAll([], Contents(entries[..i]))
      invariant one ==> forall l | l in dict.own :: i > 0 && ChunkCount(|l.key|) == ChunkCount(|entries[0].0.raw|)
    {
      var (key, value) := entries[i];
      ghost var before, own := dict.cells, dict.own;
      ShapeOfValid(dict);
      assert forall n | n in NodesOf(dict.cells) :: fresh(n);
      ghost var l, at;
      l, at := dict.Set(key, value);
      ConvertedList(before, key.raw, true, mapNodeThreshold, at);
      if one {
        NoneOutOfPlace(before, own, key.raw, true, mapNodeThreshold, at);
        ContentsStep(entries, i);
      }
    }
    assert entries[..|entries|] == entries;
  }

  lemma NoContents<V>(entries: seq<(KeyBlob, V)>)
    ensures UpdateAll([], Contents(entries[..0])) == []
  {
  }

  lemma NothingOwned<V>(dict: BlobDictionary<V>)
    requires dict.Regular() && dict.keyvals == []
    ensures dict.own == {} && dict.Valid() && forall p | p in dict.cells :: dict.cells[p].leaf == null
  {
    hide Tree;
    forall p | p in dict.cells
      ensures dict.cells[p].leaf == null
    {
      assert CellRight(p, dict.cells[p], dict.own);
    }
  }

  lemma ShapeOfValid<V>(dict: BlobDictionary<V>)
    requires dict.Valid()
    ensures Shape(dict.cells, dict.own) && (dict.Regular() ==> forall k :: StrayOf(dict.cells, k) == null)
  {
    hide Shape, StrayOf;
  }

  function Contents<V>(entries: seq<(KeyBlob, V)>): (es: seq<Entry<V>>)
    ensures |es| == |entries|
  {
    if entries == [] then []
    else
      var last := entries[|entries| - 1];
      Contents(entries[..|entries| - 1]) + [(last.0.raw, last.1)]
  }

  lemma ContentsStep<V>(entries: seq<(KeyBlob, V)>, i: nat)
    requires i < |entries|
    ensures UpdateAll([], Contents(entries[..i + 1])) ==
            Update(UpdateAll([], Contents(entries[..i])), entries[i].0.raw, entries[i].1)
  {
    hide Update;
    assert entries[..i + 1][..i] == entries[..i];
    var before, after := Contents(entries[..i]), Contents(entries[..i + 1]);
    assert after == before + [(entries[i].0.raw, entries[i].1)];
    assert after[..|after| - 1] == before;
  }

  datatype Request<V> = SetKey(key: KeyBlob, value: V) | DeleteKey(key: KeyBlob) | GetKey(key: KeyBlob)

  datatype Answer<V> = Stored | Removed(found: bool) | Read(value: Option<V>)

  /** What a plain finite map makes of one request. */
  function MapStep<V>(m: map<Key, V>, request: Request<V>): (map<Key, V>, Answer<V>) {
    var k := request.key.raw;
    match request
    case SetKey(_, v) => (m[k := v], Stored)
    case DeleteKey(_) => (m - {k}, Removed(k in m))
    case GetKey(_) => (m, Read(if k in m then Some(m[k]) else None))
  }

  /** What a plain finite map makes of a run of requests. */
  function OnMap<V>(requests: seq<Request<V>>): (r: (map<Key, V>, seq<Answer<V>>))
    ensures |r.1| == |requests|
  {
    if requests == [] then (map[], [])
    else
      var (m, answers) := OnMap(requests[..|requests| - 1]);
      var (m', answer) := MapStep(m, requests[|requests| - 1]);
      (m', answers + [answer])
  }

  lemma OnMapStep<V>(requests: seq<Request<V>>, i: nat)
    requires i < |requests|
    ensures var (m, answers) := OnMap(requests[..i]);
            var (m', answer) := MapStep(m, requests[i]);
            OnMap(requests[..i + 1]) == (m', answers + [answer])
  {
    assert requests[..i + 1][..i] == requests[..i];
  }

  lemma NoRequests<V>(requests: seq<Request<V>>)
    ensures AsMap<V>([]) == map[] && OnMap(requests[..0]) == (map[], [])
  {
  }

  /** All keys have one number of chunks. */
  ghost predicate OneCount<V>(requests: seq<Request<V>>) {
    forall i | 0 <= i < |requests| :: ChunkCount(|requests[i].key.raw|) == ChunkCount(|requests[0].key.raw|)
  }

  /** One request; for keys of one number of chunks it does and answers what a finite map does. */
  method Answered<V>(dict: BlobDictionary<V>, request: Request<V>)
    returns (answer: Answer<V>, ghost l: Leaf?<V>, ghost at: Option<Key>)
    requires dict.Valid()
    modifies dict`cells, dict`keyvals, dict`own, NodesOf(dict.cells), dict.own
    ensures dict.Valid() && fresh(NodesOf(dict.cells) - old(NodesOf(dict.cells)))
    ensures forall x | x in dict.own :: x in old(dict.own) || (fresh(x) && x.key == request.key.raw)
    ensures old(dict.Regular() &&
              forall x | x in dict.own :: ChunkCount(|x.key|) == ChunkCount(|request.key.raw|)) ==>
              && dict.Regular()
              && (AsMap(dict.Entries()), answer) == MapStep(old(AsMap(dict.Entries())), request)
    ensures request.SetKey? ==>
              && answer == Stored && l != null && l.value == request.value
              && SetEffect(old(dict.cells), old(dict.own), dict.cells, dict.own, request.key.raw,
                    dict.mapNodeThreshold, at, l)
    ensures !request.SetKey? ==> l == null
    ensures request.DeleteKey? ==> answer == Removed(InPlace(old(dict.own), request.key.raw))
    ensures request.GetKey? ==>
              && dict.cells == old(dict.cells) && dict.own == old(dict.own)
              && answer == Read(old(dict.Found(request.key.raw)))
    ensures forall x | x in old(dict.own) && x != l :: x.value == old(x.value)
  {
    hide Update, Erase, Lookup, AsMap, BlobDictionary.TreeValid, ChunkCount, StrayThen, SameNodeLeaves;
    hide BlobDictionary.Found;
    hide ListsKept, Displaced, ConvertedAt, MapSet, MapDelete, Shape, StrayOf, LeavesIn, ListOnWay, Others, InPlace;
    l, at := null, None;
    var k := request.key.raw;
    ghost var before, cells, own := dict.Entries(), dict.cells, dict.own;
    ghost var safe := dict.Regular() && forall x | x in own :: ChunkCount(|x.key|) == ChunkCount(|k|);
    ShapeOfValid(dict);
    if safe {
      dict.RegularKeys();
      LookupInMap(before, k);
    }
    match request {
      case SetKey(_, v) =>
        l, at := dict.Set(request.key, v);
        ConvertedList(cells, k, true, dict.mapNodeThreshold, at);
        if safe {
          NoneOutOfPlace(cells, own, k, true, dict.mapNodeThreshold, at);
          UpdateIsMap(before, k, v);
        }
        ShapeOfValid(dict);
        answer := Stored;
      case DeleteKey(_) =>
        var found;
        found, at := dict.Delete(request.key);
        ConvertedList(cells, k, false, dict.mapNodeThreshold, at);
        if safe {
          NoneOutOfPlace(cells, own, k, false, dict.mapNodeThreshold, at);
          EraseIsMap(before, k);
        }
        OthersIn(own, k);
        answer := Removed(found);
      case GetKey(_) =>
        var value := Reading(dict, k);
        answer := Read(value);
    }
  }

  lemma OthersIn<V>(leaves: set<Leaf<V>>, key: Key)
    ensures Others(leaves, key) <= leaves
  {
  }

  /** `get`, which changes nothing. */
  method Reading<V>(dict: BlobDictionary<V>, key: Key) returns (value: Option<V>)
    requires dict.Valid()
    ensures value == old(dict.Found(key))
    ensures dict.Regular() && (forall x | x in dict.own :: ChunkCount(|x.key|) == ChunkCount(|key|)) ==>
              value == Lookup(dict.Entries(), key)
  {
    hide BlobDictionary.Valid, BlobDictionary.Regular, ChunkCount, Lookup, BlobDictionary.Entries;
    ghost var leaf, found := AnswerOf(dict.cells, dict.own, key), dict.Found(key);
    value := dict.Get(key);
    assert AnswerOf(dict.cells, dict.own, key) == leaf && value == found;
    if dict.Regular() && forall x | x in dict.own :: ChunkCount(|x.key|) == ChunkCount(|key|) {
      FoundSafe(dict, key);
    }
  }

  /** With nothing out of place the value found is that of the entries. */
  lemma FoundSafe<V>(dict: BlobDictionary<V>, key: Key)
    requires dict.Regular() && forall x | x in dict.own :: ChunkCount(|x.key|) == ChunkCount(|key|)
    ensures dict.Found(key) == Lookup(dict.Entries(), key)
  {
    hide StrayOf, ListOnWay, ChunkCount, Lookup, BlobDictionary.Entries, Shape;
    ShapeOfValid(dict);
    LookupOwn(dict, key);
    NoPrefixLeaf(dict.cells, dict.own, key);
    dict.FoundAnswer(key);
  }

  /** With nothing out of place the entries say which leaf a key has. */
  lemma LookupOwn<V>(dict: BlobDictionary<V>, key: Key)
    requires dict.Regular()
    ensures forall l | l in dict.own && l.key == key :: Lookup(dict.Entries(), key) == Some(l.value)
    ensures (forall l | l in dict.own :: l.key != key) ==> Lookup(dict.Entries(), key).None?
  {
    hide Shape, Position, NoStrays;
    dict.RegularKeys();
    var index := dict.keyvals;
    forall l | l in dict.own && l.key == key
      ensures Lookup(dict.Entries(), key) == Some(l.value)
    {
      assert l in LeavesIn(index);
      var i :| 0 <= i < |index| && index[i] == l;
      assert dict.Entries()[i].0 == key;
    }
    assert forall i | 0 <= i < |index| :: index[i] in LeavesIn(index);
  }

  // ----- runs that push a key out -----

  function SetValue<V>(request: Request<V>): Option<V> {
    if request.SetKey? then Some(request.value) else None
  }

  /** As many keys as a list has to hold besides another one to become a map. */
  function Needed(threshold: int): nat {
    if threshold > 0 then threshold else 1
  }

  function Rounds(short: Key, threshold: int): nat {
    Needed(threshold) * ChunkCount(|short|)
  }

  /** The request that set the first key last, before the round. */
  function Before(k: nat): nat {
    if k == 0 then 0 else 3 * k - 1
  }

  function Long<V>(requests: seq<Request<V>>, k: nat): Key
    requires 3 * k + 1 < |requests|
  {
    requests[3 * k + 1].key.raw
  }

  /** Set a longer key, set the first key of the run to another value and read it; the last longer keys all differ. */
  ghost predicate RoundRight<V>(requests: seq<Request<V>>, n: nat, k: nat)
    requires 3 * k + 3 < |requests|
  {
    var short := requests[0].key.raw;
    && requests[3 * k + 1].SetKey? && requests[3 * k + 2].SetKey? && requests[3 * k + 3].GetKey?
    && Stem(short) <= Long(requests, k) && ChunkCount(|short|) < ChunkCount(|Long(requests, k)|)
    && requests[3 * k + 2].key.raw == short && requests[3 * k + 3].key.raw == short
    && SetValue(requests[3 * k + 2]) != SetValue(requests[Before(k)])
    && forall j | 0 <= j < k && k - j < n :: Long(requests, j) != Long(requests, k)
  }

  /**
   The run sets a key and then, round by round, longer ones with the same stem; or the empty key, and reads another.
   */
  ghost predicate PushesOut<V>(requests: seq<Request<V>>, threshold: int) {
    && |requests| > 1 && requests[0].SetKey?
    && var short := requests[0].key.raw;
    if short == [] then requests[1].GetKey? && requests[1].key.raw != []
    else
      && |requests| > 3 * Rounds(short, threshold)
      && forall k | 0 <= k < Rounds(short, threshold) :: RoundRight(requests, Needed(threshold), k)
  }

  /** After `k` longer keys the first one is in the list of `q`, with the last `c` longer ones. */
  ghost predicate Listed<V>(requests: seq<Request<V>>, n: nat, k: nat, cells: Cells<V>, own: set<Leaf<V>>, l: Leaf<V>,
      q: Key, c: nat)
    requires 3 * k <= |requests| + 1
  {
    && l in own && ListOnWay(cells, q, l.key) && c < n && c <= k <= n * Level(q) + c
    && forall j | k - c <= j < k :: InPlace(own, Long(requests, j))
  }

  /** Where the leaf of the first key is after `i` requests, and which value it holds. */
  ghost predicate Tracked<V>(requests: seq<Request<V>>, threshold: int, i: nat, cells: Cells<V>, own: set<Leaf<V>>,
      l: Leaf<V>, value: V, q: Key, c: nat)
    requires PushesOut(requests, threshold)
  {
    var short, n, k := requests[0].key.raw, Needed(threshold), (i - 1) / 3;
    && l.key == short && i > 0
    && if short == [] then
         i == 1 && IsList(cells, []) && cells[[]].leaf == l && own == {l} && SetValue(requests[0]) == Some(value)
       else
         && i <= 3 * Rounds(short, threshold) + 1
         && if (i - 1) % 3 == 0 then
              Listed(requests, n, k, cells, own, l, q, c) && SetValue(requests[Before(k)]) == Some(value)
            else if StrayOf(cells, short) == l then SetValue(requests[Before(k)]) == Some(value)
            else
              && Listed(requests, n, k + 1, cells, own, l, q, c)
              && SetValue(requests[if i % 3 == 0 then 3 * k + 2 else Before(k)]) == Some(value)
  }

  lemma LevelAbove(n: nat, a: nat, b: nat)
    requires a < b
    ensures n * a + n <= n * b
  {
    assert n * b == n * (a + 1) + n * (b - a - 1);
  }

  /** A longer key is set. */
  lemma LongSet<V>(requests: seq<Request<V>>, threshold: int, k: nat, before: Cells<V>, own: set<Leaf<V>>,
      after: Cells<V>, leaves: set<Leaf<V>>, at: Option<Key>, l2: Leaf<V>, l: Leaf<V>, q: Key, c: nat)
    returns (deeper: Key, c': nat)
    requires PushesOut(requests, threshold) && requests[0].key.raw == l.key != [] && k < Rounds(l.key, threshold)
    requires 3 * k + 1 < |requests|
    requires Listed(requests, Needed(threshold), k, before, own, l, q, c)
    requires SetEffect(before, own, after, leaves, Long(requests, k), threshold, at, l2)
    ensures StrayOf(after, l.key) == l || Listed(requests, Needed(threshold), k + 1, after, leaves, l, deeper, c')
  {
    hide SetEffect, ListOnWay, StrayOf, SizeAfter, Stem, ChunkCount, Level, InPlace, PushesOut, Rounds;
    var long := Long(requests, k);
    ShapesOf(before, own, after, leaves, long, threshold, at, l2);
    CrowdedBy(requests, threshold, k, before, own, l, q, c);
    deeper := Followed(before, own, after, leaves, long, threshold, at, l2, l, q);
    c' := 0;
    if at == None {
      c' := c + 1;
      InPlaceAfter(own, leaves, before, after, long, threshold, at, l2);
    } else if StrayOf(after, l.key) != l {
      LevelAbove(Needed(threshold), Level(q), Level(deeper));
    }
  }

  lemma ShapesOf<V>(before: Cells<V>, own: set<Leaf<V>>, after: Cells<V>, leaves: set<Leaf<V>>, key: Key,
      threshold: int, at: Option<Key>, l: Leaf<V>)
    requires SetEffect(before, own, after, leaves, key, threshold, at, l)
    ensures Shape(before, own) && Shape(after, leaves)
  {
    hide Shape;
  }

  lemma InPlaceAfter<V>(own: set<Leaf<V>>, leaves: set<Leaf<V>>, before: Cells<V>, after: Cells<V>, key: Key,
      threshold: int, at: Option<Key>, l: Leaf<V>)
    requires SetEffect(before, own, after, leaves, key, threshold, at, l) && own <= leaves
    ensures InPlace(leaves, key) && forall k | InPlace(own, k) :: InPlace(leaves, k)
  {
    forall k | InPlace(own, k)
      ensures InPlace(leaves, k)
    {
      var x :| x in own && x.key == k;
    }
  }

  /** The list holds the first key and the last `c` longer ones, so with the next one it may outgrow the threshold. */
  lemma CrowdedBy<V>(requests: seq<Request<V>>, threshold: int, k: nat, cells: Cells<V>, own: set<Leaf<V>>, l: Leaf<V>,
      q: Key, c: nat)
    requires PushesOut(requests, threshold) && requests[0].key.raw == l.key != [] && k < Rounds(l.key, threshold)
    requires Listed(requests, Needed(threshold), k, cells, own, l, q, c) && Shape(cells, own)
    ensures ListOnWay(cells, q, Long(requests, k)) && |Long(requests, k)| - |q| > CHUNK_SIZE
    ensures SizeAfter(cells[q].children.items, Long(requests, k)[|q|..], true) >= c + 2
  {
    hide Shape, ListOnWay, SizeAfter, Stem, ChunkCount, Level;
    var n := Needed(threshold);
    var longs := seq(c, j requires 0 <= j < c => Long(requests, k - c + j));
    forall j | k - c <= j <= k
      ensures ListOnWay(cells, q, Long(requests, j)) && Long(requests, j) != l.key
      ensures forall j' | k - c <= j' < j :: Long(requests, j') != Long(requests, j)
    {
      assert RoundRight(requests, n, j);
      OnLongerWay(cells, q, l.key, Long(requests, j));
    }
    assert RoundRight(requests, n, k);
    OnLongerWay(cells, q, l.key, Long(requests, k));
    Crowded(cells, own, q, [l.key] + longs, Long(requests, k));
  }

  /** The first key is set. */
  lemma ShortSet<V>(requests: seq<Request<V>>, threshold: int, k: nat, before: Cells<V>, own: set<Leaf<V>>,
      after: Cells<V>, leaves: set<Leaf<V>>, at: Option<Key>, l2: Leaf<V>, l: Leaf<V>, q: Key, c: nat)
    returns (deeper: Key, c': nat)
    requires 3 * k <= |requests| + 1 && Listed(requests, Needed(threshold), k, before, own, l, q, c)
    requires SetEffect(before, own, after, leaves, l.key, threshold, at, l2)
    ensures Listed(requests, Needed(threshold), k, after, leaves, l, deeper, c') && StrayOf(after, l.key) != l
  {
    hide SetEffect, ListOnWay, StrayOf, SizeAfter, Stem, ChunkCount, Level, InPlace;
    deeper := Followed(before, own, after, leaves, l.key, threshold, at, l2, l, q);
    ShortConverts(before, own, after, leaves, threshold, at, l2, l, q);
    if at == None {
      c' := c;
      InPlaceAfter(own, leaves, before, after, l.key, threshold, at, l2);
    } else {
      c' := 0;
      LevelAbove(Needed(threshold), Level(q), Level(deeper));
    }
    ListFacts(after, leaves, deeper, l.key);
    NotStray(after, l.key);
  }

  /** One request that sets a key of such a run. */
  lemma TrackSet<V>(requests: seq<Request<V>>, threshold: int, i: nat, before: Cells<V>, own: set<Leaf<V>>,
      after: Cells<V>, leaves: set<Leaf<V>>, at: Option<Key>, l2: Leaf<V>, l: Leaf<V>, value: V, q: Key, c: nat)
    returns (deeper: Key, c': nat)
    requires PushesOut(requests, threshold) && Tracked(requests, threshold, i, before, own, l, value, q, c)
    requires i < |requests| && requests[i].SetKey?
    requires SetEffect(before, own, after, leaves, requests[i].key.raw, threshold, at, l2)
    ensures Tracked(requests, threshold, i + 1, after, leaves, l,
              if l in own && l.key == requests[i].key.raw then requests[i].value else value, deeper, c')
  {
    hide SetEffect, StrayOf, Listed, RoundRight, PushesOut, Rounds, Needed, Shape, SetValue;
    ShapesOf(before, own, after, leaves, requests[i].key.raw, threshold, at, l2);
    TrackedWithin(requests, threshold, i, before, own, l, value, q, c);
    var k := (i - 1) / 3;
    deeper, c' := q, c;
    RoundKeys(requests, threshold, k);
    StrayNotOwn(before, own, l.key);
    if i == 3 * k + 1 {
      ListedOwn(requests, Needed(threshold), k, before, own, l, q, c);
      deeper, c' := LongSet(requests, threshold, k, before, own, after, leaves, at, l2, l, q, c);
    } else if StrayOf(before, l.key) == l {
      StrayStays(before, own, after, leaves, l.key, threshold, at, l2);
    } else {
      ListedOwn(requests, Needed(threshold), k + 1, before, own, l, q, c);
      deeper, c' := ShortSet(requests, threshold, k + 1, before, own, after, leaves, at, l2, l, q, c);
    }
  }

  lemma ListedOwn<V>(requests: seq<Request<V>>, n: nat, k: nat, cells: Cells<V>, own: set<Leaf<V>>, l: Leaf<V>, q: Key,
      c: nat)
    requires 3 * k <= |requests| + 1 && Listed(requests, n, k, cells, own, l, q, c)
    ensures l in own
  {
  }

  lemma RoundKeys<V>(requests: seq<Request<V>>, threshold: int, k: nat)
    requires PushesOut(requests, threshold) && requests[0].key.raw != [] && k < Rounds(requests[0].key.raw, threshold)
    ensures 3 * k + 3 < |requests| && RoundRight(requests, Needed(threshold), k)
    ensures requests[3 * k + 1].SetKey? && requests[3 * k + 2].SetKey? && requests[3 * k + 3].GetKey?
    ensures requests[3 * k + 2].key.raw == requests[0].key.raw == requests[3 * k + 3].key.raw
    ensures requests[3 * k + 1].key.raw != requests[0].key.raw
    ensures SetValue(requests[3 * k + 2]) == Some(requests[3 * k + 2].value) != SetValue(requests[Before(k)])
  {
    hide ChunkCount, Rounds, Needed;
    assert RoundRight(requests, Needed(threshold), k);
  }

  lemma StrayStays<V>(before: Cells<V>, own: set<Leaf<V>>, after: Cells<V>, leaves: set<Leaf<V>>, key: Key,
      threshold: int, at: Option<Key>, l: Leaf<V>)
    requires SetEffect(before, own, after, leaves, key, threshold, at, l)
    ensures StrayOf(after, key) == StrayOf(before, key)
  {
    hide Shape, StrayOf, StrayThen;
    OwnStray(before, key, true, threshold, at);
  }

  /** What a finite map reads in such a run: the value set last, or nothing for a key that was not set. */
  lemma MapReads<V>(requests: seq<Request<V>>, i: nat)
    requires 0 < i < |requests| && requests[i - 1].SetKey? && requests[i].GetKey?
    ensures requests[i].key.raw == requests[i - 1].key.raw ==>
        MapStep(OnMap(requests[..i]).0, requests[i]).1 == Read(SetValue(requests[i - 1]))
    ensures i == 1 && requests[1].key.raw != requests[0].key.raw ==>
        MapStep(OnMap(requests[..1]).0, requests[1]).1 == Read(None)
  {
    hide OnMap;
    NoRequests(requests);
    OnMapStep(requests, i - 1);
  }

  /** One request that reads a key of such a run: the answer is wrong if the first key is out of place. */
  lemma TrackGet<V>(requests: seq<Request<V>>, threshold: int, i: nat, cells: Cells<V>, own: set<Leaf<V>>, l: Leaf<V>,
      value: V, q: Key, c: nat)
    requires PushesOut(requests, threshold) && Tracked(requests, threshold, i, cells, own, l, value, q, c)
    requires Shape(cells, own) && i < |requests| && requests[i].GetKey?
    ensures AnswerOf(cells, own, requests[i].key.raw) == l
    ensures Read(Some(value)) != MapStep(OnMap(requests[..i]).0, requests[i]).1 ||
        Tracked(requests, threshold, i + 1, cells, own, l, value, q, c)
  {
    hide OnMap, MapStep, Shape, StrayOf, RoundRight, AnswerOf, Rounds, Needed;
    TrackedWithin(requests, threshold, i, cells, own, l, value, q, c);
    if l.key == [] {
      RootAnswers(cells, own, l, requests[1].key.raw);
    } else {
      RoundKeys(requests, threshold, (i - 1) / 3);
      if StrayOf(cells, l.key) != l {
        ListedAnswers(requests, Needed(threshold), i / 3, cells, own, l, q, c);
      } else {
        StrayAnswers(cells, own, l);
      }
    }
    MapReads(requests, i);
  }

  lemma StrayAnswers<V>(cells: Cells<V>, own: set<Leaf<V>>, l: Leaf<V>)
    requires StrayOf(cells, l.key) == l
    ensures AnswerOf(cells, own, l.key) == l
  {
    hide StrayOf;
  }

  lemma ListedAnswers<V>(requests: seq<Request<V>>, n: nat, k: nat, cells: Cells<V>, own: set<Leaf<V>>, l: Leaf<V>,
      q: Key, c: nat)
    requires 3 * k <= |requests| + 1 && Listed(requests, n, k, cells, own, l, q, c) && Shape(cells, own)
    ensures AnswerOf(cells, own, l.key) == l
  {
    hide Shape, StrayOf, ListOnWay;
    ListFacts(cells, own, q, l.key);
    NotStray(cells, l.key);
    OwnDiffer(cells, own);
  }

  /** The leaf of the empty key answers for every key that is not there. */
  lemma RootAnswers<V>(cells: Cells<V>, own: set<Leaf<V>>, l: Leaf<V>, key: Key)
    requires Shape(cells, own) && IsList(cells, []) && cells[[]].leaf == l && own == {l} && key != [] == l.key
    ensures AnswerOf(cells, own, key) == l
  {
    hide Shape, StrayOf;
    assert LeafOnWay(cells, [], key);
    ListFacts(cells, own, [], key);
    NotStray(cells, key);
    OnlyOne(cells, own, [], key);
  }

  /** Before all rounds are over the first key has been pushed out and read. */
  lemma TrackedWithin<V>(requests: seq<Request<V>>, threshold: int, i: nat, cells: Cells<V>, own: set<Leaf<V>>,
      l: Leaf<V>, value: V, q: Key, c: nat)
    requires PushesOut(requests, threshold) && Tracked(requests, threshold, i, cells, own, l, value, q, c)
    requires Shape(cells, own)
    ensures if l.key == [] then i == 1 && requests[1].GetKey? else 0 < i <= 3 * Rounds(l.key, threshold)
  {
    hide Shape, Rounds, RoundRight, StrayOf, Listed;
    if l.key != [] && i > 3 * Rounds(l.key, threshold) {
      NotListed(requests, threshold, cells, own, l, q, c);
    }
  }

  lemma NotListed<V>(requests: seq<Request<V>>, threshold: int, cells: Cells<V>, own: set<Leaf<V>>, l: Leaf<V>, q: Key,
      c: nat)
    requires 3 * Rounds(l.key, threshold) <= |requests| + 1
    ensures !Listed(requests, Needed(threshold), Rounds(l.key, threshold), cells, own, l, q, c)
  {
    hide ChunkCount, Level, ListOnWay, InPlace;
    if ListOnWay(cells, q, l.key) {
      ListOnWayPrefix(cells, q, l.key);
      LevelBelow(q, l.key);
      LevelAbove(Needed(threshold), Level(q), ChunkCount(|l.key|));
    }
  }

  lemma NotStray<V>(cells: Cells<V>, key: Key)
    requires key !in cells
    ensures StrayOf(cells, key) == null
  {
  }

  lemma ShortConverts<V>(before: Cells<V>, own: set<Leaf<V>>, after: Cells<V>, leaves: set<Leaf<V>>, threshold: int,
      at: Option<Key>, l2: Leaf<V>, l: Leaf<V>, q: Key)
    requires SetEffect(before, own, after, leaves, l.key, threshold, at, l2) && (at == None || at == Some(q))
    ensures Shape(after, leaves) && (at == Some(q) ==> |l.key| - |q| > CHUNK_SIZE)
  {
    hide SizeAfter, Shape;
  }

  /** A run that pushes its first key out goes as by a finite map so far only if the leaf of that key is tracked. */
  ghost predicate Watched<V(!new)>(dict: BlobDictionary<V>, requests: seq<Request<V>>, i: nat, answers: seq<Answer<V>>,
      l: Leaf?<V>, q: Key, c: nat)
    requires i <= |requests|
    reads dict, l
  {
    PushesOut(requests, dict.mapNodeThreshold) ==>
      if i == 0 then
        dict.own == {} && IsList(dict.cells, []) && forall p | p in dict.cells :: dict.cells[p].leaf == null
      else
        || answers != OnMap(requests[..i]).1
        || (l != null && Tracked(requests, dict.mapNodeThreshold, i, dict.cells, dict.own, l, l.value, q, c))
  }

  /** The first request. */
  lemma TrackFirst<V>(requests: seq<Request<V>>, threshold: int, before: Cells<V>, after: Cells<V>, own: set<Leaf<V>>,
      at: Option<Key>, l: Leaf<V>) returns (q: Key)
    requires PushesOut(requests, threshold)
    requires IsList(before, []) && forall p | p in before :: before[p].leaf == null
    requires SetEffect(before, {}, after, own, requests[0].key.raw, threshold, at, l)
    ensures Tracked(requests, threshold, 1, after, own, l, requests[0].value, q, 0)
  {
    hide Shape, ListOnWay, StrayOf, SameNodeLeaves, ListsKept, Rounds, RoundRight, ConvertedAt;
    FirstOwn(before, after, own, requests[0].key.raw, threshold, at, l);
    var long := if l.key == [] then requests[1].key.raw else [];
    q := FirstKey(before, after, own, l, threshold, at, long);
    if l.key == [] {
      ListOnWayPrefix(after, [], long);
    }
  }

  lemma FirstOwn<V>(before: Cells<V>, after: Cells<V>, own: set<Leaf<V>>, key: Key, threshold: int, at: Option<Key>,
      l: Leaf<V>)
    requires SetEffect(before, {}, after, own, key, threshold, at, l)
    ensures own == {l} && l.key == key && Shape(after, own)
  {
    hide Shape, ConvertedAt, SameNodeLeaves, ListsKept, StrayOf, StrayThen;
  }

  /** One request of a run that is watched. */
  method Watch<V(!new)>(dict: BlobDictionary<V>, requests: seq<Request<V>>, i: nat, ghost answers: seq<Answer<V>>,
      ghost l: Leaf?<V>, ghost q: Key, ghost c: nat)
    returns (answer: Answer<V>, ghost l': Leaf?<V>, ghost q': Key, ghost c': nat)
    requires dict.Valid() && i < |requests| && |answers| == i && Watched(dict, requests, i, answers, l, q, c)
    modifies dict`cells, dict`keyvals, dict`own, NodesOf(dict.cells), dict.own
    ensures dict.Valid() && fresh(NodesOf(dict.cells) - old(NodesOf(dict.cells)))
    ensures forall x | x in dict.own :: x in old(dict.own) || (fresh(x) && x.key == requests[i].key.raw)
    ensures old(dict.Regular() &&
              forall x | x in dict.own :: ChunkCount(|x.key|) == ChunkCount(|requests[i].key.raw|)) ==>
              && dict.Regular()
              && (AsMap(dict.Entries()), answer) == MapStep(old(AsMap(dict.Entries())), requests[i])
    ensures Watched(dict, requests, i + 1, answers + [answer], l', q', c')
  {
    hide BlobDictionary.Valid, BlobDictionary.Regular, BlobDictionary.Entries, AsMap, OnMap, MapStep, ChunkCount;
    hide PushesOut, Tracked, SetEffect, NodesOf, AnswerOf;
    var threshold := dict.mapNodeThreshold;
    ghost var cells, own := dict.cells, dict.own;
    ghost var value := if l == null then None else Some(l.value);
    ShapeOfValid(dict);
    ghost var set', at;
    answer, set', at := Answered(dict, requests[i]);
    l', q', c' := l, q, c;
    OnMapStep(requests, i);
    StillWrong(answers, OnMap(requests[..i]).1, answer, MapStep(OnMap(requests[..i]).0, requests[i]).1);
    if PushesOut(requests, threshold) && answers == OnMap(requests[..i]).1 {
      if i == 0 {
        FirstIsSet(requests, threshold);
        l' := set';
        q' := TrackFirst(requests, threshold, cells, dict.cells, dict.own, at, set');
        c' := 0;
      } else if requests[i].SetKey? {
        q', c' := TrackSet(requests, threshold, i, cells, own, dict.cells, dict.own, at, set', l, value.value, q, c);
        SetOnce(cells, own, dict.cells, dict.own, requests[i].key.raw, threshold, at, set', l);
      } else {
        TrackedReads(requests, threshold, i, cells, own, l, value.value, q, c);
        TrackGet(requests, threshold, i, cells, own, l, value.value, q, c);
      }
    }
  }

  /** Answers that differ go on differing. */
  lemma StillWrong<T>(a: seq<T>, b: seq<T>, x: T, y: T)
    requires |a| == |b|
    ensures a + [x] == b + [y] <==> a == b && x == y
  {
    if a + [x] == b + [y] {
      assert a == (a + [x])[..|a|] && b == (b + [y])[..|b|];
      assert x == (a + [x])[|a|] && y == (b + [y])[|b|];
    }
  }

  lemma FirstIsSet<V>(requests: seq<Request<V>>, threshold: int)
    requires PushesOut(requests, threshold)
    ensures requests[0].SetKey?
  {
  }

  lemma SetOnce<V>(before: Cells<V>, own: set<Leaf<V>>, after: Cells<V>, leaves: set<Leaf<V>>, key: Key,
      threshold: int, at: Option<Key>, set': Leaf<V>, l: Leaf<V>)
    requires SetEffect(before, own, after, leaves, key, threshold, at, set')
    ensures l in own ==> (l == set' <==> l.key == key)
    ensures set' in leaves
  {
    hide Shape, ConvertedAt, SameNodeLeaves, ListsKept, StrayOf, StrayThen;
  }

  lemma TrackedReads<V>(requests: seq<Request<V>>, threshold: int, i: nat, cells: Cells<V>, own: set<Leaf<V>>,
      l: Leaf<V>, value: V, q: Key, c: nat)
    requires PushesOut(requests, threshold) && Tracked(requests, threshold, i, cells, own, l, value, q, c)
    requires Shape(cells, own) && i < |requests| && !requests[i].SetKey?
    ensures requests[i].GetKey?
  {
    hide Shape, StrayOf, RoundRight, Rounds, Needed;
    TrackedWithin(requests, threshold, i, cells, own, l, value, q, c);
    if l.key != [] {
      RoundKeys(requests, threshold, (i - 1) / 3);
    }
  }

  /**
   Any run of requests whose keys have one number of chunks is answered as by a finite map, whatever the threshold. A
   run that pushes its first key out is not.
   */
  method Serve<V(!new)>(requests: seq<Request<V>>, mapNodeThreshold: int)
      returns (dict: BlobDictionary<V>, answers: seq<Answer<V>>)
    ensures fresh(dict) && dict.Valid() && |answers| == |requests|
    ensures OneCount(requests) ==> dict.Regular() && (AsMap(dict.Entries()), answers) == OnMap(requests)
    ensures PushesOut(requests, mapNodeThreshold) ==> answers != OnMap(requests).1
  {
    hide BlobDictionary.Valid, BlobDictionary.Regular, BlobDictionary.Entries, AsMap, OnMap, MapStep, ChunkCount;
    hide PushesOut, Watched;
    dict := new BlobDictionary<V>(mapNodeThreshold);
    NothingOwned(dict);
    answers := [];
    NoRequests(requests);
    ghost var l: Leaf?<V>, q, c := null, [], 0;
    NothingWatched(dict, requests, l, q, c);
    for i := 0 to |requests|
      invariant fresh(dict) && dict.Valid() && fresh(NodesOf(dict.cells)) && forall x | x in dict.own :: fresh(x)
      invariant OneCount(requests) ==> dict.Regular() && (AsMap(dict.Entries()), answers) == OnMap(requests[..i])
      invariant OneCount(requests) ==>
                  forall x | x in dict.own :: i > 0 && ChunkCount(|x.key|) == ChunkCount(|requests[0].key.raw|)
      invariant |answers| == i && Watched(dict, requests, i, answers, l, q, c)
    {
      OnMapStep(requests, i);
      assert forall n | n in NodesOf(dict.cells) :: fresh(n);
      var answer;
      answer, l, q, c := Watch(dict, requests, i, answers, l, q, c);
      answers := answers + [answer];
    }
    assert requests[..|requests|] == requests;
    AllWatched(dict, requests, answers, l, q, c);
  }

  lemma NothingWatched<V(!new)>(dict: BlobDictionary<V>, requests: seq<Request<V>>, l: Leaf?<V>, q: Key, c: nat)
    requires dict.own == {} && IsList(dict.cells, []) && forall p | p in dict.cells :: dict.cells[p].leaf == null
    ensures Watched(dict, requests, 0, [], l, q, c)
  {
  }

  lemma AllWatched<V(!new)>(dict: BlobDictionary<V>, requests: seq<Request<V>>, answers: seq<Answer<V>>, l: Leaf?<V>,
      q: Key, c: nat)
    requires dict.Valid() && Watched(dict, requests, |requests|, answers, l, q, c)
    ensures PushesOut(requests, dict.mapNodeThreshold) ==> answers != OnMap(requests).1
  {
    hide BlobDictionary.Valid, OnMap, RoundRight, Listed, StrayOf;
    ShapeOfValid(dict);
    assert requests[..|requests|] == requests;
    if PushesOut(requests, dict.mapNodeThreshold) && answers == OnMap(requests).1 {
      TrackedWithin(requests, dict.mapNodeThreshold, |requests|, dict.cells, dict.own, l, l.value, q, c);
    }
  }

  // ----- such runs exist -----

  /** The most a threshold may be for keys of any two lengths; no list of the program gets that long. */
  const MANY_KEYS: nat := 0x100_0000_0000_0000

  /** The `i`-th of many keys of the given length that share their first bytes. */
  function LongKey(stem: nat, length: nat, i: nat): (key: Key)
    requires stem + 7 <= length
    ensures |key| == length
  {
    seq(stem, _ => 0 as byte) + LE(i, 7) + seq(length - stem - 7, _ => 0 as byte)
  }

  lemma LongKeysDiffer(stem: nat, length: nat, i: nat, j: nat)
    requires stem + 7 <= length && i < MANY_KEYS && j < MANY_KEYS
    ensures LongKey(stem, length, i) == LongKey(stem, length, j) ==> i == j
  {
    assert LongKey(stem, length, i)[stem..stem + 7] == LE(i, 7) && LongKey(stem, length, j)[stem..stem + 7] == LE(j, 7);
    assert Pow2(56) == MANY_KEYS by {
      Pow2Of56();
    }
    FromLEofLE(i, 7);
    FromLEofLE(j, 7);
  }

  lemma Pow2Of56()
    ensures Pow2(56) == MANY_KEYS
  {
    assert Pow2(8) == 0x100;
    assert Pow2(16) == 0x1_0000;
    assert Pow2(24) == 0x100_0000;
    assert Pow2(32) == 0x1_0000_0000;
    assert Pow2(40) == 0x100_0000_0000;
    assert Pow2(48) == 0x1_0000_0000_0000;
  }

  function StemLength(a: nat): (n: nat)
    requires a > 0
    ensures n < a
  {
    CHUNK_SIZE * (ChunkCount(a) - 1)
  }

  lemma StemShort(a: nat, b: nat, i: nat)
    requires 0 < a && ChunkCount(a) < ChunkCount(b)
    ensures StemLength(a) + 7 <= b && Stem(Zeros(a)) <= LongKey(StemLength(a), b, i)
  {
  }

  function Zeros(n: nat): (k: Key)
    ensures |k| == n
  {
    seq(n, _ => 0 as byte)
  }

  /** Which of `n` keys comes in round `k`. */
  function Turn(k: nat, n: nat): (i: nat)
    requires n > 0
    ensures i < n
  {
    k % n
  }

  lemma TurnsDiffer(j: nat, k: nat, n: nat)
    requires j < k < j + n
    ensures Turn(j, n) != Turn(k, n)
  {
    var apart := k / n - j / n;
    assert k - j == n * apart + (k % n - j % n);
    assert (apart >= 1 ==> n * apart >= n) && (apart <= 0 ==> n * apart <= 0);
  }

  /** The longer keys come in turn. */
  ghost predicate InTurn<V>(requests: seq<Request<V>>, stem: nat, b: nat, n: nat, k: nat)
    requires stem + 7 <= b && n > 0
  {
    && |requests| == 3 * k + 1
    && forall j | 0 <= j < k :: RoundRight(requests, n, j) && Long(requests, j) == LongKey(stem, b, Turn(j, n))
  }

  lemma RoundKept<V>(requests: seq<Request<V>>, more: seq<Request<V>>, n: nat, j: nat)
    requires 3 * j + 3 < |requests| && requests <= more && RoundRight(requests, n, j)
    ensures RoundRight(more, n, j) && Long(more, j) == Long(requests, j)
  {
    hide Stem, ChunkCount;
    assert forall i | 0 <= i < |requests| :: more[i] == requests[i];
    assert forall i | 0 <= i <= j :: Long(more, i) == Long(requests, i);
    assert more[Before(j)] == requests[Before(j)];
  }

  lemma OtherTurn(stem: nat, b: nat, n: nat, j: nat, k: nat)
    requires j < k < j + n && n <= MANY_KEYS && stem + 7 <= b
    ensures LongKey(stem, b, Turn(j, n)) != LongKey(stem, b, Turn(k, n))
  {
    hide LongKey, Turn;
    TurnsDiffer(j, k, n);
    LongKeysDiffer(stem, b, Turn(j, n), Turn(k, n));
  }

  /** One more round. */
  lemma NextRound<V>(requests: seq<Request<V>>, a: nat, b: nat, n: nat, k: nat, long: KeyBlob, v: V)
    requires 0 < a && ChunkCount(a) < ChunkCount(b) && 0 < n <= MANY_KEYS
    requires var stem := StemLength(a);
             && stem + 7 <= b && InTurn(requests, stem, b, n, k) && long.raw == LongKey(stem, b, Turn(k, n))
    requires requests[0].key.raw == Zeros(a) && SetValue(requests[Before(k)]) != Some(v)
    ensures InTurn(requests + [SetKey(long, v), SetKey(requests[0].key, v), GetKey(requests[0].key)],
                StemLength(a), b, n, k + 1)
  {
    hide ChunkCount, Zeros, LongKey, Stem, Turn, RoundRight;
    var stem, short := StemLength(a), requests[0].key;
    var more := requests + [SetKey(long, v), SetKey(short, v), GetKey(short)];
    StemShort(a, b, Turn(k, n));
    forall j | 0 <= j < k
      ensures RoundRight(more, n, j) && Long(more, j) == LongKey(stem, b, Turn(j, n))
      ensures k - j < n ==> Long(more, j) != Long(more, k)
    {
      RoundKept(requests, more, n, j);
      if k - j < n {
        OtherTurn(stem, b, n, j, k);
      }
    }
    LastRound(more, n, k, v, requests[Before(k)]);
  }

  lemma LastRound<V>(requests: seq<Request<V>>, n: nat, k: nat, v: V, before: Request<V>)
    requires |requests| == 3 * k + 4 && requests[3 * k + 1].SetKey? && requests[3 * k + 3].GetKey?
    requires SetValue(requests[3 * k + 2]) == Some(v) != SetValue(before) && requests[Before(k)] == before
    requires requests[3 * k + 2].key == requests[3 * k + 3].key == requests[0].key
    requires var short := requests[0].key.raw;
             Stem(short) <= Long(requests, k) && ChunkCount(|short|) < ChunkCount(|Long(requests, k)|)
    requires forall j | 0 <= j < k && k - j < n :: Long(requests, j) != Long(requests, k)
    ensures RoundRight(requests, n, k)
  {
  }

  /**
   For any two lengths with different numbers of chunks there is a run over keys of these lengths that pushes its first
   key out.
   */
  method Disagreement<V>(a: nat, b: nat, threshold: int, x: V, y: V) returns (requests: seq<Request<V>>)
    requires x != y && ChunkCount(a) < ChunkCount(b) && threshold <= MANY_KEYS
    ensures PushesOut(requests, threshold)
    ensures forall r | r in requests :: |r.key.raw| == a || |r.key.raw| == b
  {
    hide ChunkCount, Zeros, LongKey, RoundRight, InTurn, Turn;
    var short := new KeyBlob(Zeros(a));
    if a == 0 {
      var long := new KeyBlob(Zeros(b));
      LongerThanNothing(b);
      return [SetKey(short, x), GetKey(long)];
    }
    var n, stem := Needed(threshold), StemLength(a);
    StemShort(a, b, 0);
    requests := [SetKey(short, x)];
    NoRounds(requests, stem, b, n);
    for k := 0 to Rounds(short.raw, threshold)
      invariant InTurn(requests, stem, b, n, k) && |requests| == 3 * k + 1 && requests[0] == SetKey(short, x)
      invariant SetValue(requests[Before(k)]) == Some(if k % 2 == 0 then x else y)
      invariant forall r | r in requests :: |r.key.raw| == a || |r.key.raw| == b
    {
      var long := new KeyBlob(LongKey(stem, b, Turn(k, n)));
      var v := if k % 2 == 0 then y else x;
      NextRound(requests, a, b, n, k, long, v);
      requests := requests + [SetKey(long, v), SetKey(short, v), GetKey(short)];
    }
    AllRounds(requests, stem, b, threshold);
  }

  lemma LongerThanNothing(b: nat)
    requires ChunkCount(0) < ChunkCount(b)
    ensures Zeros(b) != []
  {
  }

  lemma NoRounds<V>(requests: seq<Request<V>>, stem: nat, b: nat, n: nat)
    requires |requests| == 1 && stem + 7 <= b && n > 0
    ensures InTurn(requests, stem, b, n, 0)
  {
  }

  lemma AllRounds<V>(requests: seq<Request<V>>, stem: nat, b: nat, threshold: int)
    requires |requests| > 0 && requests[0].SetKey? && requests[0].key.raw != [] && stem + 7 <= b
    requires InTurn(requests, stem, b, Needed(threshold), Rounds(requests[0].key.raw, threshold))
    requires Rounds(requests[0].key.raw, threshold) > 0
    ensures PushesOut(requests, threshold)
  {
    hide RoundRight, Rounds, Needed;
  }
}

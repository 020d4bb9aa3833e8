/** Sorted arrays and sets under a comparator that may consider different elements equal. */
module SortedCollections {
  import opened Bytes

  type Comparator<!V> = (V, V) -> int

  /** What the comparator of a sorted collection has to be. */
  ghost predicate TotalPreorder<V(!new)>(cmp: Comparator<V>) {
    && (forall a, b :: cmp(a, b) < 0 <==> cmp(b, a) > 0)
    && (forall a, b :: cmp(a, b) == 0 <==> cmp(b, a) == 0)
    && (forall a, b, c :: cmp(a, b) <= 0 && cmp(b, c) <= 0 ==> cmp(a, c) <= 0)
    && (forall a, b, c :: cmp(a, b) < 0 && cmp(b, c) <= 0 ==> cmp(a, c) < 0)
    && (forall a, b, c :: cmp(a, b) <= 0 && cmp(b, c) < 0 ==> cmp(a, c) < 0)
    && (forall a :: cmp(a, a) == 0)
  }

  predicate Ascending<V>(cmp: Comparator<V>, s: seq<V>) {
    forall i | 0 < i < |s| :: cmp(s[i - 1], s[i]) <= 0
  }

  predicate StrictlyAscending<V>(cmp: Comparator<V>, s: seq<V>) {
    forall i | 0 < i < |s| :: cmp(s[i - 1], s[i]) < 0
  }

  lemma {:induction false} AscendingFar<V(!new)>(cmp: Comparator<V>, s: seq<V>, i: nat, j: nat)
    requires TotalPreorder(cmp) && Ascending(cmp, s) && i <= j < |s|
    ensures cmp(s[i], s[j]) <= 0
  {
    if i < j {
      AscendingFar(cmp, s, i, j - 1);
    }
  }

  /** The element occurs, up to the comparator. */
  predicate Contains<V>(cmp: Comparator<V>, s: seq<V>, v: V) {
    exists i | 0 <= i < |s| :: cmp(s[i], v) == 0
  }

  // ----- searching -----

  datatype Found = Found(idx: nat, isEqual: bool)

  /** What a search result says: an equal element, or the border between smaller and larger ones. */
  ghost predicate Located<V>(cmp: Comparator<V>, s: seq<V>, v: V, f: Found) {
    && f.idx <= |s|
    && (f.isEqual ==> f.idx < |s| && cmp(s[f.idx], v) == 0)
    && (!f.isEqual ==>
        (forall i | 0 <= i < f.idx :: cmp(s[i], v) < 0) &&
        (forall i | f.idx <= i < |s| :: cmp(s[i], v) > 0))
  }

  /** Where halving the stretch from `low` to `high` leads: to the first middle that is equal, or to the border. */
  function Halving<V>(cmp: Comparator<V>, s: seq<V>, v: V, low: nat, high: nat): (f: Found)
    requires low <= high <= |s|
    ensures low <= f.idx <= high && (f.isEqual ==> f.idx < high && cmp(s[f.idx], v) == 0)
    decreases high - low
  {
    var mid := (high + low) / 2;
    if low == high then Found(low, false)
    else if cmp(s[mid], v) == 0 then Found(mid, true)
    else if cmp(s[mid], v) < 0 then Halving(cmp, s, v, mid + 1, high)
    else Halving(cmp, s, v, low, mid)
  }

  /** `binarySearch` agrees with linear search; halving decides which of several equal elements it finds. */
  method BinarySearch<V(!new)>(cmp: Comparator<V>, arr: seq<V>, v: V) returns (f: Found)
    requires TotalPreorder(cmp) && Ascending(cmp, arr)
    ensures Located(cmp, arr, v, f) && f.isEqual == Contains(cmp, arr, v)
    ensures f == Halving(cmp, arr, v, 0, |arr|)
  {
    hide TotalPreorder, Ascending;
    var low, high := 0, |arr|;
    while low < high
      invariant 0 <= low <= high <= |arr|
      invariant forall i | 0 <= i < low :: cmp(arr[i], v) < 0
      invariant forall i | high <= i < |arr| :: cmp(arr[i], v) > 0
      invariant Halving(cmp, arr, v, low, high) == Halving(cmp, arr, v, 0, |arr|)
    {
      var mid := (high + low) / 2;
      var r := cmp(arr[mid], v);
      if r == 0 {
        return Found(mid, true);
      }
      if r < 0 {
        AllBefore(cmp, arr, v, mid);
        low := mid + 1;
      } else {
        AllAfter(cmp, arr, v, mid);
        high := mid;
      }
    }
    f := Found(low, false);
  }

  lemma AllBefore<V(!new)>(cmp: Comparator<V>, s: seq<V>, v: V, m: nat)
    requires TotalPreorder(cmp) && Ascending(cmp, s) && m < |s| && cmp(s[m], v) < 0
    ensures forall i | 0 <= i <= m :: cmp(s[i], v) < 0
  {
    forall i | 0 <= i <= m
      ensures cmp(s[i], v) < 0
    {
      AscendingFar(cmp, s, i, m);
    }
  }

  lemma AllAfter<V(!new)>(cmp: Comparator<V>, s: seq<V>, v: V, m: nat)
    requires TotalPreorder(cmp) && Ascending(cmp, s) && m < |s| && cmp(s[m], v) > 0
    ensures forall i | m <= i < |s| :: cmp(s[i], v) > 0
  {
    forall i | m <= i < |s|
      ensures cmp(s[i], v) > 0
    {
      AscendingFar(cmp, s, m, i);
    }
  }

  // ----- inserting and removing -----

  /** `splice`. */
  function Splice<V>(s: seq<V>, idx: nat, deleted: nat, inserted: seq<V>): seq<V>
    requires idx + deleted <= |s|
  {
    s[..idx] + inserted + s[idx + deleted..]
  }

  lemma SpliceElements<V>(s: seq<V>, idx: nat, deleted: nat, inserted: seq<V>)
    requires idx + deleted <= |s|
    ensures multiset(Splice(s, idx, deleted, inserted)) + multiset(s[idx..idx + deleted]) ==
        multiset(s) + multiset(inserted)
  {
    var a, b, c := s[..idx], s[idx..idx + deleted], s[idx + deleted..];
    assert s == a + b + c;
    assert multiset(a + b + c) == multiset(a) + multiset(b) + multiset(c);
    assert multiset(a + inserted + c) == multiset(a) + multiset(inserted) + multiset(c);
  }

  lemma InsertKeepsOrder<V(!new)>(cmp: Comparator<V>, s: seq<V>, v: V, f: Found)
    requires TotalPreorder(cmp) && Located(cmp, s, v, f)
    ensures Ascending(cmp, s) ==> Ascending(cmp, Splice(s, f.idx, 0, [v]))
    ensures StrictlyAscending(cmp, s) && !f.isEqual ==> StrictlyAscending(cmp, Splice(s, f.idx, 0, [v]))
  {
    hide TotalPreorder;
    var after := Splice(s, f.idx, 0, [v]);
    forall i | 0 < i < |after|
      ensures Ascending(cmp, s) ==> cmp(after[i - 1], after[i]) <= 0
      ensures StrictlyAscending(cmp, s) && !f.isEqual ==> cmp(after[i - 1], after[i]) < 0
    {
      if i == f.idx {
        assert after[i - 1] == s[i - 1] && after[i] == v;
        if f.isEqual {
          Chain(cmp, s[i - 1], s[i], v);
        }
      } else if i == f.idx + 1 {
        if f.idx < |s| {
          Flip(cmp, s[f.idx], v);
        }
      } else if i > f.idx + 1 {
        assert after[i - 1] == s[i - 2] && after[i] == s[i - 1];
      }
    }
  }

  lemma Flip<V(!new)>(cmp: Comparator<V>, a: V, b: V)
    requires TotalPreorder(cmp)
    ensures (cmp(a, b) < 0 <==> cmp(b, a) > 0) && (cmp(a, b) > 0 <==> cmp(b, a) < 0) &&
        (cmp(a, b) == 0 <==> cmp(b, a) == 0)
  {
  }

  lemma Chain<V(!new)>(cmp: Comparator<V>, a: V, b: V, c: V)
    requires TotalPreorder(cmp)
    ensures cmp(a, b) <= 0 && cmp(b, c) <= 0 ==> cmp(a, c) <= 0
    ensures cmp(a, b) <= 0 && cmp(b, c) < 0 ==> cmp(a, c) < 0
    ensures cmp(a, b) < 0 && cmp(b, c) <= 0 ==> cmp(a, c) < 0
    ensures cmp(a, b) == 0 && cmp(b, c) == 0 ==> cmp(a, c) == 0
  {
    Flip(cmp, a, b);
    Flip(cmp, b, c);
    Flip(cmp, a, c);
  }

  lemma RemoveKeepsOrder<V(!new)>(cmp: Comparator<V>, s: seq<V>, idx: nat)
    requires TotalPreorder(cmp) && Ascending(cmp, s) && idx < |s|
    ensures Ascending(cmp, Splice(s, idx, 1, []))
  {
    var after := Splice(s, idx, 1, []);
    forall i | 0 < i < |after|
      ensures cmp(after[i - 1], after[i]) <= 0
    {
      AscendingFar(cmp, s, if i - 1 < idx then i - 1 else i, if i < idx then i else i + 1);
    }
  }

  lemma ReplaceKeepsOrder<V(!new)>(cmp: Comparator<V>, s: seq<V>, v: V, idx: nat)
    requires TotalPreorder(cmp) && StrictlyAscending(cmp, s) && idx < |s| && cmp(s[idx], v) == 0
    ensures StrictlyAscending(cmp, Splice(s, idx, 1, [v]))
  {
    hide TotalPreorder;
    var after := Splice(s, idx, 1, [v]);
    assert after == s[idx := v];
    Flip(cmp, s[idx], v);
    forall i | 0 < i < |after|
      ensures cmp(after[i - 1], after[i]) < 0
    {
      assert cmp(s[i - 1], s[i]) < 0;
      if i == idx {
        Chain(cmp, s[i - 1], s[i], v);
      } else if i == idx + 1 {
        Chain(cmp, v, s[i - 1], s[i]);
      }
    }
  }

  lemma StrictIsAscending<V>(cmp: Comparator<V>, s: seq<V>)
    requires StrictlyAscending(cmp, s)
    ensures Ascending(cmp, s)
  {
  }

  class SortedArray<V(!new)> {
    const comparator: Comparator<V>
    var items: seq<V>

    ghost predicate Valid()
      reads this
    {
      TotalPreorder(comparator) && Ascending(comparator, items)
    }

    constructor (comparator: Comparator<V>, data: seq<V>)
      requires TotalPreorder(comparator) && Ascending(comparator, data)
      ensures Valid() && this.comparator == comparator && items == data
    {
      this.comparator := comparator;
      items := data;
    }

    method Insert(v: V)
      requires Valid()
      modifies this
      ensures Valid() && multiset(items) == multiset(old(items)) + multiset{v}
      ensures items == Splice(old(items), Halving(comparator, old(items), v, 0, |old(items)|).idx, 0, [v])
    {
      hide TotalPreorder, Ascending, Splice;
      var findIdx := BinarySearch(comparator, items, v);
      InsertKeepsOrder(comparator, items, v, findIdx);
      SpliceElements(items, findIdx.idx, 0, [v]);
      items := Splice(items, findIdx.idx, 0, [v]);
    }

    /** Takes out one matching element, if there is one, and gives the stored one. */
    method RemoveOne(v: V) returns (removed: Option<V>)
      requires Valid()
      modifies this
      ensures Valid() && (removed.Some? <==> Contains(comparator, old(items), v))
      ensures removed.Some? ==>
          comparator(removed.value, v) == 0 &&
          multiset(items) + multiset{removed.value} == multiset(old(items))
      ensures var f := Halving(comparator, old(items), v, 0, |old(items)|);
              if f.isEqual then removed == Some(old(items)[f.idx]) && items == Splice(old(items), f.idx, 1, [])
              else removed == None && items == old(items)
    {
      hide TotalPreorder, Ascending, Splice;
      var findIdx := BinarySearch(comparator, items, v);
      if !findIdx.isEqual {
        return None;
      }
      removed := Some(items[findIdx.idx]);
      RemoveKeepsOrder(comparator, items, findIdx.idx);
      SpliceElements(items, findIdx.idx, 1, []);
      assert items[findIdx.idx..findIdx.idx + 1] == [items[findIdx.idx]];
      items := Splice(items, findIdx.idx, 1, []);
    }

    method Has(v: V) returns (has: bool)
      requires Valid()
      ensures has == Contains(comparator, items, v)
    {
      var findIdx := BinarySearch(comparator, items, v);
      has := findIdx.isEqual;
    }

    method FindExact(v: V) returns (r: Option<V>)
      requires Valid()
      ensures r.Some? <==> Contains(comparator, items, v)
      ensures r.Some? ==> r.value in items && comparator(r.value, v) == 0
    {
      var findIdx := BinarySearch(comparator, items, v);
      r := if findIdx.isEqual then Some(items[findIdx.idx]) else None;
    }

    method Pop() returns (r: Option<V>)
      requires Valid()
      modifies this
      ensures Valid() && old(items) == (if r.None? then [] else items + [r.value])
    {
      if |items| == 0 {
        return None;
      }
      r := Some(items[|items| - 1]);
      items := items[..|items| - 1];
    }
  }

  // ----- merging -----

  /** Merging from the front; of equal elements the one of the first list goes first. */
  function Merge<V>(cmp: Comparator<V>, a: seq<V>, b: seq<V>): (r: seq<V>)
    ensures |r| == |a| + |b|
  {
    if a == [] then b
    else if b == [] then a
    else if cmp(a[0], b[0]) < 0 then [a[0]] + Merge(cmp, a[1..], b)
    else if cmp(a[0], b[0]) > 0 then [b[0]] + Merge(cmp, a, b[1..])
    else [a[0], b[0]] + Merge(cmp, a[1..], b[1..])
  }

  lemma MergeCases<V>(cmp: Comparator<V>, a: seq<V>, b: seq<V>)
    ensures a == [] ==> Merge(cmp, a, b) == b
    ensures b == [] ==> Merge(cmp, a, b) == a
    ensures a != [] && b != [] ==>
            Merge(cmp, a, b) == (if cmp(a[0], b[0]) < 0 then [a[0]] + Merge(cmp, a[1..], b)
                                 else if cmp(a[0], b[0]) > 0 then [b[0]] + Merge(cmp, a, b[1..])
                                 else [a[0]] + ([b[0]] + Merge(cmp, a[1..], b[1..])))
  {
  }

  lemma {:induction false} MergeElements<V>(cmp: Comparator<V>, a: seq<V>, b: seq<V>)
    ensures multiset(Merge(cmp, a, b)) == multiset(a) + multiset(b)
  {
    hide Merge;
    MergeCases(cmp, a, b);
    if a != [] && b != [] {
      assert a == [a[0]] + a[1..] && b == [b[0]] + b[1..];
      if cmp(a[0], b[0]) < 0 {
        MergeElements(cmp, a[1..], b);
      } else if cmp(a[0], b[0]) > 0 {
        MergeElements(cmp, a, b[1..]);
      } else {
        MergeElements(cmp, a[1..], b[1..]);
      }
    }
  }

  /** The merged list starts with the smaller of the heads. */
  lemma MergeHead<V>(cmp: Comparator<V>, a: seq<V>, b: seq<V>)
    requires a != [] || b != []
    ensures Merge(cmp, a, b)[0] == if b == [] || (a != [] && cmp(a[0], b[0]) <= 0) then a[0] else b[0]
  {
  }

  lemma ConsAscending<V>(cmp: Comparator<V>, x: V, s: seq<V>)
    requires Ascending(cmp, s) && (s != [] ==> cmp(x, s[0]) <= 0)
    ensures Ascending(cmp, [x] + s)
  {
  }

  lemma TailAscending<V>(cmp: Comparator<V>, s: seq<V>)
    requires Ascending(cmp, s) && s != []
    ensures Ascending(cmp, s[1..]) && (|s| > 1 ==> cmp(s[0], s[1]) <= 0)
  {
  }

  lemma {:induction false} MergeAscending<V(!new)>(cmp: Comparator<V>, a: seq<V>, b: seq<V>)
    requires TotalPreorder(cmp) && Ascending(cmp, a) && Ascending(cmp, b)
    ensures Ascending(cmp, Merge(cmp, a, b))
  {
    hide TotalPreorder, Ascending;
    if a != [] && b != [] {
      TailAscending(cmp, a);
      TailAscending(cmp, b);
      Flip(cmp, a[0], b[0]);
      if cmp(a[0], b[0]) < 0 {
        var rest := Merge(cmp, a[1..], b);
        MergeAscending(cmp, a[1..], b);
        MergeHead(cmp, a[1..], b);
        ConsAscending(cmp, a[0], rest);
      } else if cmp(a[0], b[0]) > 0 {
        var rest := Merge(cmp, a, b[1..]);
        MergeAscending(cmp, a, b[1..]);
        MergeHead(cmp, a, b[1..]);
        ConsAscending(cmp, b[0], rest);
      } else {
        var rest := Merge(cmp, a[1..], b[1..]);
        MergeAscending(cmp, a[1..], b[1..]);
        if rest != [] {
          MergeHead(cmp, a[1..], b[1..]);
          if |a| > 1 {
            Chain(cmp, b[0], a[0], a[1]);
          }
        }
        ConsAscending(cmp, b[0], rest);
        ConsAscending(cmp, a[0], [b[0]] + rest);
        assert [a[0], b[0]] + rest == [a[0]] + ([b[0]] + rest);
      }
    }
  }

  /** `SortedArray.fromTwoSortedCollections`, up to its final check: three loops over three indices. */
  method MergeArrays<V>(cmp: Comparator<V>, arr1: seq<V>, arr2: seq<V>) returns (result: seq<V>)
    ensures result == Merge(cmp, arr1, arr2)
  {
    hide Merge;
    var i, j := 0, 0;
    result := [];
    while i < |arr1| && j < |arr2|
      invariant i <= |arr1| && j <= |arr2| && result + Merge(cmp, arr1[i..], arr2[j..]) == Merge(cmp, arr1, arr2)
    {
      MergeStep(cmp, arr1[i..], arr2[j..], result);
      assert arr1[i..][1..] == arr1[i + 1..] && arr2[j..][1..] == arr2[j + 1..];
      if cmp(arr1[i], arr2[j]) < 0 {
        result := result + [arr1[i]];
        i := i + 1;
      } else if cmp(arr1[i], arr2[j]) > 0 {
        result := result + [arr2[j]];
        j := j + 1;
      } else {
        result := result + [arr1[i]];
        i := i + 1;
        result := result + [arr2[j]];
        j := j + 1;
      }
    }
    MergeCases(cmp, arr1[i..], arr2[j..]);
    ghost var total := Merge(cmp, arr1, arr2);
    assert total == result + (if i == |arr1| then arr2[j..] else arr1[i..]);
    ghost var inSecond := i == |arr1|;
    while i < |arr1|
      invariant i <= |arr1| && (inSecond ==> i == |arr1|) &&
          result + (if inSecond then arr2[j..] else arr1[i..]) == total
    {
      result := result + [arr1[i]];
      i := i + 1;
    }
    while j < |arr2|
      invariant j <= |arr2| && (!inSecond ==> j == |arr2|) && result + (if inSecond then arr2[j..] else []) == total
    {
      result := result + [arr2[j]];
      j := j + 1;
    }
  }

  lemma MergeStep<V>(cmp: Comparator<V>, a: seq<V>, b: seq<V>, done: seq<V>)
    requires a != [] && b != []
    ensures done + Merge(cmp, a, b) ==
            if cmp(a[0], b[0]) < 0 then done + [a[0]] + Merge(cmp, a[1..], b)
            else if cmp(a[0], b[0]) > 0 then done + [b[0]] + Merge(cmp, a, b[1..])
            else done + [a[0]] + [b[0]] + Merge(cmp, a[1..], b[1..])
  {
  }

  // ----- sets -----

  /** Of neighbours that are equal, the first one stays. */
  function Dedup<V>(cmp: Comparator<V>, s: seq<V>): (r: seq<V>)
    ensures |r| <= |s| && (s != [] ==> r != [])
  {
    if |s| <= 1 then s
    else Dedup(cmp, s[..|s| - 1]) + (if cmp(s[|s| - 2], s[|s| - 1]) != 0 then [s[|s| - 1]] else [])
  }

  /**
   Removing neighbouring duplicates from a sorted list gives a strictly sorted one with the same elements, up to the
   comparator.
   */
  lemma {:induction false} DedupStrict<V(!new)>(cmp: Comparator<V>, s: seq<V>)
    requires TotalPreorder(cmp) && Ascending(cmp, s)
    ensures StrictlyAscending(cmp, Dedup(cmp, s))
    ensures s != [] ==> cmp(Dedup(cmp, s)[|Dedup(cmp, s)| - 1], s[|s| - 1]) == 0
    ensures forall x | x in Dedup(cmp, s) :: x in s
  {
    hide TotalPreorder;
    if |s| > 1 {
      hide Dedup;
      var front, last := s[..|s| - 1], s[|s| - 1];
      DedupStep(cmp, s, |s| - 1);
      assert s[..|s|] == s;
      DedupStrict(cmp, front);
      var kept := Dedup(cmp, front);
      Chain(cmp, kept[|kept| - 1], s[|s| - 2], last);
      Flip(cmp, last, last);
      SelfEqual(cmp, last);
    } else if |s| == 1 {
      SelfEqual(cmp, s[0]);
    }
  }

  lemma SelfEqual<V(!new)>(cmp: Comparator<V>, a: V)
    requires TotalPreorder(cmp)
    ensures cmp(a, a) == 0
  {
  }

  lemma {:induction false} DedupContains<V(!new)>(cmp: Comparator<V>, s: seq<V>, v: V)
    requires TotalPreorder(cmp) && Ascending(cmp, s)
    ensures Contains(cmp, Dedup(cmp, s), v) == Contains(cmp, s, v)
  {
    hide TotalPreorder;
    if |s| > 1 {
      var front, last := s[..|s| - 1], s[|s| - 1];
      DedupContains(cmp, front, v);
      ContainsLast(cmp, front, last, v);
      assert s == front + [last];
      var kept := Dedup(cmp, front);
      if cmp(s[|s| - 2], last) != 0 {
        ContainsLast(cmp, kept, last, v);
      } else {
        if cmp(last, v) == 0 {
          Chain(cmp, s[|s| - 2], last, v);
          assert front[|s| - 2] == s[|s| - 2];
        }
        assert Dedup(cmp, s) == kept;
      }
    }
  }

  lemma ContainsLast<V>(cmp: Comparator<V>, front: seq<V>, last: V, v: V)
    ensures Contains(cmp, front + [last], v) == (Contains(cmp, front, v) || cmp(last, v) == 0)
  {
    var s := front + [last];
    if Contains(cmp, front, v) {
      var i :| 0 <= i < |front| && cmp(front[i], v) == 0;
      assert cmp(s[i], v) == 0;
    }
    assert s[|front|] == last;
  }

  lemma ContainsElements<V>(cmp: Comparator<V>, s: seq<V>, a: seq<V>, b: seq<V>, v: V)
    requires multiset(s) == multiset(a) + multiset(b)
    ensures Contains(cmp, s, v) == (Contains(cmp, a, v) || Contains(cmp, b, v))
  {
    if Contains(cmp, s, v) {
      var i :| 0 <= i < |s| && cmp(s[i], v) == 0;
      assert s[i] in multiset(s);
      if s[i] in a {
        var j :| 0 <= j < |a| && a[j] == s[i];
      } else {
        assert s[i] in multiset(b);
        var j :| 0 <= j < |b| && b[j] == s[i];
      }
    }
    if Contains(cmp, a, v) {
      var i :| 0 <= i < |a| && cmp(a[i], v) == 0;
      assert a[i] in multiset(s);
    }
    if Contains(cmp, b, v) {
      var i :| 0 <= i < |b| && cmp(b[i], v) == 0;
      assert b[i] in multiset(s);
    }
  }

  /** The union of two sorted collections: strictly sorted, and exactly the elements of both, up to the comparator. */
  lemma UnionRight<V(!new)>(cmp: Comparator<V>, a: seq<V>, b: seq<V>)
    requires TotalPreorder(cmp) && Ascending(cmp, a) && Ascending(cmp, b)
    ensures StrictlyAscending(cmp, Dedup(cmp, Merge(cmp, a, b)))
    ensures forall v :: Contains(cmp, Dedup(cmp, Merge(cmp, a, b)), v) == (Contains(cmp, a, v) || Contains(cmp, b, v))
    ensures forall x | x in Dedup(cmp, Merge(cmp, a, b)) :: x in a || x in b
  {
    hide TotalPreorder, Ascending, Merge, Dedup, Contains;
    var merged := Merge(cmp, a, b);
    MergeAscending(cmp, a, b);
    MergeElements(cmp, a, b);
    DedupStrict(cmp, merged);
    forall v
      ensures Contains(cmp, Dedup(cmp, merged), v) == (Contains(cmp, a, v) || Contains(cmp, b, v))
    {
      DedupContains(cmp, merged, v);
      ContainsElements(cmp, merged, a, b, v);
    }
    forall x | x in merged
      ensures x in a || x in b
    {
      assert x in multiset(merged);
    }
  }

  /** A strictly sorted list has no duplicates to remove. */
  lemma {:induction false} DedupNothing<V>(cmp: Comparator<V>, s: seq<V>)
    requires StrictlyAscending(cmp, s)
    ensures Dedup(cmp, s) == s
  {
    if |s| > 1 {
      DedupNothing(cmp, s[..|s| - 1]);
    }
  }

  lemma DedupStep<V>(cmp: Comparator<V>, s: seq<V>, i: nat)
    requires i < |s|
    ensures i == 0 ==> Dedup(cmp, s[..1]) == [s[0]]
    ensures i > 0 ==> Dedup(cmp, s[..i + 1]) == Dedup(cmp, s[..i]) + (if cmp(s[i - 1], s[i]) != 0 then [s[i]] else [])
  {
    assert s[..i + 1][..i] == s[..i];
  }

  /** Compaction in the array that is still being read: the write index never passes the read index. */
  method Compact<V>(cmp: Comparator<V>, mergedArray: array<V>) returns (j: nat)
    requires mergedArray.Length > 0
    modifies mergedArray
    ensures j <= mergedArray.Length && mergedArray[..j] == Dedup(cmp, old(mergedArray[..]))
  {
    hide Dedup;
    ghost var merged := mergedArray[..];
    j := 1;
    DedupStep(cmp, merged, 0);
    for i := 1 to mergedArray.Length
      invariant 1 <= j <= i && mergedArray[..j] == Dedup(cmp, merged[..i])
      invariant forall k | i - 1 <= k < mergedArray.Length :: mergedArray[k] == merged[k]
    {
      DedupStep(cmp, merged, i);
      if cmp(mergedArray[i - 1], mergedArray[i]) != 0 {
        ghost var kept := mergedArray[..j];
        mergedArray[j] := mergedArray[i];
        j := j + 1;
        assert mergedArray[..j] == kept + [merged[i]];
      }
    }
    assert merged[..mergedArray.Length] == merged;
  }

  /** `fromSortedArray` of the set: `None` where it throws. */
  method CheckStrict<V(!new)>(cmp: Comparator<V>, data: seq<V>) returns (ok: bool)
    requires TotalPreorder(cmp)
    ensures ok == StrictlyAscending(cmp, data)
  {
    var i := 1;
    while i < |data|
      invariant 1 <= i && forall k | 0 < k < i && k < |data| :: cmp(data[k - 1], data[k]) < 0
    {
      if cmp(data[i - 1], data[i]) >= 0 {
        return false;
      }
      i := i + 1;
    }
    ok := true;
  }

  /** A stable sort, as the built-in one is. */
  function InsertSorted<V>(cmp: Comparator<V>, v: V, s: seq<V>): (r: seq<V>)
    ensures |r| == |s| + 1
  {
    if s == [] || cmp(v, s[0]) <= 0 then [v] + s else [s[0]] + InsertSorted(cmp, v, s[1..])
  }

  function ToSorted<V>(cmp: Comparator<V>, s: seq<V>): (r: seq<V>)
    ensures |r| == |s|
  {
    if s == [] then [] else InsertSorted(cmp, s[0], ToSorted(cmp, s[1..]))
  }

  lemma {:induction false} InsertSortedRight<V(!new)>(cmp: Comparator<V>, v: V, s: seq<V>)
    requires TotalPreorder(cmp) && Ascending(cmp, s)
    ensures Ascending(cmp, InsertSorted(cmp, v, s)) && multiset(InsertSorted(cmp, v, s)) == multiset{v} + multiset(s)
    ensures InsertSorted(cmp, v, s)[0] == if s == [] || cmp(v, s[0]) <= 0 then v else s[0]
  {
    hide TotalPreorder;
    if s != [] && cmp(v, s[0]) > 0 {
      assert s == [s[0]] + s[1..];
      InsertSortedRight(cmp, v, s[1..]);
      Flip(cmp, v, s[0]);
    }
  }

  lemma {:induction false} ToSortedRight<V(!new)>(cmp: Comparator<V>, s: seq<V>)
    requires TotalPreorder(cmp)
    ensures Ascending(cmp, ToSorted(cmp, s)) && multiset(ToSorted(cmp, s)) == multiset(s)
  {
    hide TotalPreorder, Ascending;
    if s == [] {
      NothingAscending(cmp);
    } else {
      assert s == [s[0]] + s[1..];
      ToSortedRight(cmp, s[1..]);
      InsertSortedRight(cmp, s[0], ToSorted(cmp, s[1..]));
    }
  }

  lemma NothingAscending<V>(cmp: Comparator<V>)
    ensures Ascending(cmp, [])
  {
  }

  class SortedSet<V(!new)> {
    const comparator: Comparator<V>
    var items: seq<V>

    ghost predicate Valid()
      reads this
    {
      TotalPreorder(comparator) && StrictlyAscending(comparator, items)
    }

    constructor (comparator: Comparator<V>, data: seq<V>)
      requires TotalPreorder(comparator) && StrictlyAscending(comparator, data)
      ensures Valid() && this.comparator == comparator && items == data
    {
      this.comparator := comparator;
      items := data;
    }

    /** An element that is already there, up to the comparator, is not inserted. */
    method Insert(v: V)
      requires Valid()
      modifies this
      ensures Valid()
      ensures if Contains(comparator, old(items), v) then items == old(items)
              else multiset(items) == multiset(old(items)) + multiset{v}
    {
      hide TotalPreorder, Ascending, StrictlyAscending, Splice;
      StrictIsAscending(comparator, items);
      var findIdx := BinarySearch(comparator, items, v);
      if !findIdx.isEqual {
        InsertKeepsOrder(comparator, items, v, findIdx);
        SpliceElements(items, findIdx.idx, 0, [v]);
        items := Splice(items, findIdx.idx, 0, [v]);
      }
    }

    /** An equal element is displaced and given back. */
    method Replace(v: V) returns (displaced: Option<V>)
      requires Valid()
      modifies this
      ensures Valid() && v in items && (displaced.Some? <==> Contains(comparator, old(items), v))
      ensures displaced.Some? ==> comparator(displaced.value, v) == 0
      ensures multiset(items) + (if displaced.Some? then multiset{displaced.value} else multiset{}) ==
          multiset(old(items)) + multiset{v}
    {
      hide TotalPreorder, Ascending, StrictlyAscending, Splice;
      StrictIsAscending(comparator, items);
      var findIdx := BinarySearch(comparator, items, v);
      if findIdx.isEqual {
        displaced := Some(items[findIdx.idx]);
        ReplaceKeepsOrder(comparator, items, v, findIdx.idx);
        SpliceElements(items, findIdx.idx, 1, [v]);
        SplicedIn(items, findIdx.idx, 1, v);
        assert items[findIdx.idx..findIdx.idx + 1] == [items[findIdx.idx]];
        items := Splice(items, findIdx.idx, 1, [v]);
        return;
      }
      displaced := None;
      InsertKeepsOrder(comparator, items, v, findIdx);
      SpliceElements(items, findIdx.idx, 0, [v]);
      SplicedIn(items, findIdx.idx, 0, v);
      items := Splice(items, findIdx.idx, 0, [v]);
    }

    method Has(v: V) returns (has: bool)
      requires Valid()
      ensures has == Contains(comparator, items, v)
    {
      StrictIsAscending(comparator, items);
      var findIdx := BinarySearch(comparator, items, v);
      has := findIdx.isEqual;
    }
  }

  lemma SplicedIn<V>(s: seq<V>, idx: nat, deleted: nat, v: V)
    requires idx + deleted <= |s|
    ensures v in Splice(s, idx, deleted, [v])
  {
    assert Splice(s, idx, deleted, [v])[idx] == v;
  }

  /** The loop of `fromArray`. */
  method WithoutDuplicates<V>(cmp: Comparator<V>, data: seq<V>) returns (nonDuplicates: seq<V>)
    ensures nonDuplicates == Dedup(cmp, data)
  {
    if |data| == 0 {
      return [];
    }
    hide Dedup;
    nonDuplicates := [data[0]];
    DedupStep(cmp, data, 0);
    for i := 1 to |data|
      invariant nonDuplicates == Dedup(cmp, data[..i])
    {
      DedupStep(cmp, data, i);
      if cmp(data[i - 1], data[i]) != 0 {
        nonDuplicates := nonDuplicates + [data[i]];
      }
    }
    assert data[..|data|] == data;
  }

  /** `SortedSet.fromArray`. */
  method SetFromArray<V(!new)>(cmp: Comparator<V>, data: seq<V>) returns (sortedSet: SortedSet<V>)
    requires TotalPreorder(cmp)
    ensures fresh(sortedSet) && sortedSet.Valid() && sortedSet.comparator == cmp &&
        sortedSet.items == Dedup(cmp, ToSorted(cmp, data))
    ensures forall v :: Contains(cmp, sortedSet.items, v) == Contains(cmp, data, v)
  {
    hide TotalPreorder, Ascending, StrictlyAscending, ToSorted, Contains, Dedup;
    var sorted := ToSorted(cmp, data);
    ToSortedRight(cmp, data);
    DedupStrict(cmp, sorted);
    forall v
      ensures Contains(cmp, Dedup(cmp, sorted), v) == Contains(cmp, data, v)
    {
      DedupContains(cmp, sorted, v);
      ContainsElements(cmp, sorted, data, [], v);
      ContainsNothing(cmp, v);
    }
    var nonDuplicates := WithoutDuplicates(cmp, sorted);
    sortedSet := new SortedSet(cmp, nonDuplicates);
  }

  lemma ContainsNothing<V>(cmp: Comparator<V>, v: V)
    ensures !Contains(cmp, [], v)
  {
  }

  /** One collection is empty and the other has duplicates. */
  ghost predicate Throws<V>(cmp: Comparator<V>, first: seq<V>, second: seq<V>) {
    (first == [] && !StrictlyAscending(cmp, second)) || (second == [] && !StrictlyAscending(cmp, first))
  }

  /**
   `SortedSet.fromTwoSortedCollections`. It throws, `None` here, exactly when one collection is empty and the
   other has duplicates; otherwise the result is the union.
   */
  method SetFromTwo<V(!new)>(cmp: Comparator<V>, first: seq<V>, second: seq<V>) returns (r: Option<SortedSet<V>>)
    requires TotalPreorder(cmp) && Ascending(cmp, first) && Ascending(cmp, second)
    ensures r.None? <==> Throws(cmp, first, second)
    ensures r.Some? ==> fresh(r.value) && r.value.Valid() && r.value.items == Dedup(cmp, Merge(cmp, first, second))
  {
    hide TotalPreorder, Ascending, StrictlyAscending, Dedup, Merge;
    MergeCases(cmp, first, second);
    UnionRight(cmp, first, second);
    if |first| == 0 || |second| == 0 {
      var only := if |first| == 0 then second else first;
      assert only == Merge(cmp, first, second);
      var ok := CheckStrict(cmp, only);
      NothingStrict(cmp);
      if !ok {
        return None;
      }
      DedupNothing(cmp, only);
      var sortedSet := new SortedSet(cmp, only);
      return Some(sortedSet);
    }
    var merged := MergeArrays(cmp, first, second);
    MergeLength(cmp, first, second);
    var mergedArray := new V[|merged|](i requires 0 <= i < |merged| => merged[i]);
    assert mergedArray[..] == merged;
    var length := Compact(cmp, mergedArray);
    var sortedSet := new SortedSet(cmp, mergedArray[..length]);
    r := Some(sortedSet);
  }

  lemma NothingStrict<V>(cmp: Comparator<V>)
    ensures StrictlyAscending(cmp, [])
  {
  }

  lemma MergeLength<V>(cmp: Comparator<V>, a: seq<V>, b: seq<V>)
    ensures |Merge(cmp, a, b)| == |a| + |b|
  {
    hide Merge;
  }

  /** Two equal elements and an empty list cannot be joined. */
  lemma DuplicatesThrow<V(!new)>(cmp: Comparator<V>, v: V)
    requires TotalPreorder(cmp)
    ensures Ascending(cmp, []) && Ascending(cmp, [v, v]) && Throws(cmp, [], [v, v]) && Throws(cmp, [v, v], [])
  {
    assert cmp([v, v][0], [v, v][1]) == 0;
  }
}

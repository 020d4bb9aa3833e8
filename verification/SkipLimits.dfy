/** Dictionaries that the skipper gets wrong: keys of a fixed size and values of variable length. */
module SkipLimits {
  import opened Bytes
  import opened Naturals
  import opened Descriptors
  import opened RoundTrip
  import opened Skipping

  function Ones(n: nat): (bs: seq<byte>)
    ensures |bs| == n
  {
    seq(n, _ => 0xff as byte)
  }

  /** The first key with a value of `l` bytes that are no length, the others with empty values. */
  function Misleading(keys: seq<Value>, l: nat): (es: seq<Entry>)
    ensures |es| == |keys| && forall i | 0 <= i < |es| :: es[i] == (keys[i], Raw(if i == 0 then Ones(l) else []))
  {
    seq(|keys|, i requires 0 <= i < |keys| => (keys[i], Raw(if i == 0 then Ones(l) else [])))
  }

  /** Keys a dictionary can hold, in its order. */
  ghost predicate KeysInOrder(d: Desc, keys: seq<Value>)
    requires d.Dictionary?
  {
    && (forall i | 0 <= i < |keys| :: Fits(d.key, keys[i]) && Norm(d.key, keys[i]) == keys[i])
    && (forall i | 0 < i < |keys| :: d.sortKeys(keys[i - 1], keys[i]) < 0)
  }

  lemma MisleadingFits(d: Desc, keys: seq<Value>, l: nat)
    requires d.Dictionary? && d.value == Blob && WellFormed(d) && KeysInOrder(d, keys) && l < LIMIT32
    ensures FitEntries(d, Misleading(keys, l)) && Ascending(Misleading(keys, l), d.sortKeys) &&
        DistinctEntryKeys(Misleading(keys, l))
  {
    hide TotalOrder;
    var es := Misleading(keys, l);
    forall i, j | 0 <= i < j < |es|
      ensures es[i].0 != es[j].0
    {
      AscendingFar(es, d.sortKeys, i, j);
    }
  }

  /** Sorting leaves sorted entries alone. */
  lemma {:induction false} SortedStays(es: seq<Entry>, cmp: Comparator)
    requires Ascending(es, cmp)
    ensures SortEntries(es, cmp) == es
  {
    if es != [] {
      assert forall i | 0 < i < |es[1..]| :: es[1..][i] == es[i + 1] && es[1..][i - 1] == es[i];
      SortedStays(es[1..], cmp);
    }
  }

  /** A length for the first value such that skipping the keys ends inside it. */
  function FirstLength(m: nat): nat {
    if m < 127 then 127 else m
  }

  lemma LandsInside(m: nat)
    requires 0 < m < LIMIT32
    ensures var l := FirstLength(m);
            l < LIMIT32 && |EncodeNat(l)| <= m < |EncodeNat(l)| + l
  {
    var l := FirstLength(m);
    if l < 128 {
      assert ExtraBytes(l) == 0;
    }
  }

  /** The bytes after the keys begin with one that is no length. */
  lemma NoLength(bs: seq<byte>, n: nat)
    requires n > 0 && bs != [] && bs[0] == 0xff
    ensures SkipItems(Blob, n, bs) == None
  {
    Decode32Exactly(bs);
  }

  lemma FixedEncoding(d: Desc, v: Value)
    requires WellFormed(d) && Fits(d, v) && TrueSize(d).Some?
    ensures |Encode(d, v)| == TrueSize(d).value
  {
    hide Decode, Encode, Fits, WellFormed, TrueSize, Norm;
    DecodeEncode(d, v, []);
    assert Encode(d, v) + [] == Encode(d, v);
    FixedDecode(d, Encode(d, v));
  }

  lemma PartsWellFormed(d: Desc)
    requires d.Dictionary? && WellFormed(d)
    ensures WellFormed(d.key) && WellFormed(d.value) && TotalOrder(d.sortKeys)
  {
  }

  /** Where skipping the keys ends. */
  lemma AfterKeys(d: Desc, keys: seq<Value>, m: nat, rest: seq<byte>)
    requires d.Dictionary? && d.value == Blob && WellFormed(d) && KeysInOrder(d, keys) && |keys| >= 2
    requires TrueSize(d.key).Some? && TrueSize(d.key).value > 0 && m == Times(|keys| - 1, TrueSize(d.key).value) &&
        0 < m < LIMIT32
    ensures FitEntries(d, Misleading(keys, FirstLength(m)))
    ensures var bs := EncodeEntries(d, Misleading(keys, FirstLength(m)));
            Times(|keys|, TrueSize(d.key).value) < |bs| && bs[Times(|keys|, TrueSize(d.key).value)] == 0xff
  {
    hide Fits, WellFormed, TrueSize, Norm, Times, TotalOrder, FirstLength;
    var l := FirstLength(m);
    LandsInside(m);
    MisleadingFits(d, keys, l);
    var es := Misleading(keys, l);
    var s := TrueSize(d.key).value;
    TimesStep(|keys|, s);
    PartsWellFormed(d);
    assert es[0] in es && Fits(d.key, es[0].0);
    FixedEncoding(d.key, es[0].0);
    var head, prefix, tail := Encode(d.key, es[0].0), EncodeNat(l), EncodeEntries(d, es[1..]);
    assert Encode(d.value, es[0].1) == prefix + Ones(l);
    var bs := EncodeEntries(d, es);
    assert bs == head + (prefix + Ones(l)) + tail;
    var j := m - |prefix|;
    assert bs[s + m] == Ones(l)[j];
  }

  /**
   A dictionary with keys of a fixed size of one byte or more and values of variable length: for any two or more keys it
   can hold there is a value whose encoding is read back but not skipped.
   */
  lemma VariableValuesFail(d: Desc, keys: seq<Value>)
    requires d.Dictionary? && d.value == Blob && WellFormed(d) && KeysInOrder(d, keys) && |keys| >= 2
    requires TrueSize(d.key).Some? && TrueSize(d.key).value > 0 && SkipSound(d.key)
    requires if d.fixedLength.Some? then d.fixedLength.value == |keys| else |keys| < LIMIT32
    requires Times(|keys| - 1, TrueSize(d.key).value) < LIMIT32
    ensures var v := Dict(Misleading(keys, FirstLength(Times(|keys| - 1, TrueSize(d.key).value))));
            && Fits(d, v)
            && Decode(d, Encode(d, v)) == Some((Norm(d, v), []))
            && Skip(d, Encode(d, v)) == None
  {
    hide Decode, Encode, Skip, SkipItems, SkipKeysThenValues, Fits, WellFormed, TrueSize, Norm, Times, TotalOrder;
    hide FirstLength, SkipSound, EncodeEntries, SortEntries, Misleading, KeysInOrder, Ascending;
    hide DistinctEntryKeys, FitEntries;
    var n, s := |keys|, TrueSize(d.key).value;
    var m := Times(n - 1, s);
    PositiveTimes(n - 1, s);
    LandsInside(m);
    var es := Misleading(keys, FirstLength(m));
    MisleadingFits(d, keys, FirstLength(m));
    AfterKeys(d, keys, m, []);
    var v := Dict(es);
    DictFits(d, es);
    DecodeEncode(d, v, []);
    assert Encode(d, v) + [] == Encode(d, v);
    SortedStays(es, d.sortKeys);
    var bs := EncodeEntries(d, es);
    KeysSkipped(d, n, bs);
    DictEncoding(d, es);
    DictSkip(d, n, bs);
    assert [] + bs == bs;
  }

  lemma DictSkip(d: Desc, n: nat, bs: seq<byte>)
    requires d.Dictionary?
    requires if d.fixedLength.Some? then d.fixedLength.value == n else n < LIMIT32
    ensures Skip(d, (if d.fixedLength.Some? then [] else EncodeNat(n)) + bs) == SkipKeysThenValues(d, n, bs)
  {
    hide SkipKeysThenValues;
    if d.fixedLength.None? {
      CompactRoundTrip32(n, bs);
    } else {
      assert [] + bs == bs;
    }
  }

  lemma PositiveTimes(n: nat, s: nat)
    requires n > 0 && s > 0
    ensures Times(n, s) > 0
  {
  }

  lemma DictFits(d: Desc, es: seq<Entry>)
    requires d.Dictionary? && FitEntries(d, es) && DistinctEntryKeys(es)
    requires if d.fixedLength.Some? then d.fixedLength.value == |es| else |es| < LIMIT32
    ensures Fits(d, Dict(es))
  {
  }

  lemma DictEncoding(d: Desc, es: seq<Entry>)
    requires d.Dictionary? && Fits(d, Dict(es)) && FitEntries(d, es) && SortEntries(es, d.sortKeys) == es
    ensures Encode(d, Dict(es)) == (if d.fixedLength.Some? then [] else EncodeNat(|es|)) + EncodeEntries(d, es)
  {
  }

  lemma KeysSkipped(d: Desc, n: nat, bs: seq<byte>)
    requires d.Dictionary? && d.value == Blob && TrueSize(d.key).Some? && SkipSound(d.key) && n > 0
    requires var at := Times(n, TrueSize(d.key).value); at < |bs| && bs[at] == 0xff
    ensures SkipKeysThenValues(d, n, bs) == None
  {
    hide Times, SkipItems, TrueSize, SkipSound;
    SkipFixedItems(d.key, n, bs);
    NoLength(bs[Times(n, TrueSize(d.key).value)..], n);
  }

  /**
   Such a dictionary of a given number of entries is skipped rightly, whatever the bytes, exactly when that number is at
   most one.
   */
  lemma FixedLengthExactly(d: Desc, keys: seq<Value>)
    requires d.Dictionary? && d.value == Blob && WellFormed(d) && KeysInOrder(d, keys) && d.fixedLength == Some(|keys|)
    requires TrueSize(d.key).Some? && TrueSize(d.key).value > 0 && SkipSound(d.key)
    requires |keys| >= 1 ==> Times(|keys| - 1, TrueSize(d.key).value) < LIMIT32
    ensures (forall bs :: Decode(d, bs).Some? ==> Skip(d, bs) == Some(Decode(d, bs).value.1)) <==> |keys| <= 1
  {
    hide Decode, Skip, Encode, Fits, WellFormed, Norm, Times, KeysInOrder, TrueSize;
    if |keys| >= 2 {
      VariableValuesFail(d, keys);
      var v := Dict(Misleading(keys, FirstLength(Times(|keys| - 1, TrueSize(d.key).value))));
      assert Decode(d, Encode(d, v)).Some? && Skip(d, Encode(d, v)) == None;
    } else {
      forall bs | Decode(d, bs).Some?
        ensures Skip(d, bs) == Some(Decode(d, bs).value.1)
      {
        SkipAgrees(d, bs);
      }
    }
  }
}

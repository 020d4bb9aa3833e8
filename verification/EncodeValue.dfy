/** The encoding side of the combinators, driving the mutable encoder. */
module EncodeValue {
  import opened Bytes
  import opened Naturals
  import opened Descriptors
  import opened Skipping
  import opened Encoder

  /** `applySizeHint`: a silent request for space. */
  method ApplySizeHint(e: Encoder, d: Desc, multiply: nat)
    requires e.Valid()
    modifies e`destination
    ensures e.Valid() && e.Written() == old(e.Written()) && e.Limit() == old(e.Limit())
    ensures e.destination == old(e.destination) || fresh(e.destination)
  {
    var sizeHint := Hint(d).bytes;
    if sizeHint > 0 && multiply > 0 {
      var _ := e.EnsureBigEnough(Times(sizeHint, multiply), true);
    }
  }

  predicate IsSimple(d: Desc) {
    d.Nothing? || d.UInt? || d.Int? || d.Boolean? || d.VarU32? || d.VarU64? || d.FixBytes? || d.BitVecFix?
  }

  method EncodeSimple(e: Encoder, d: Desc, v: Value) returns (ok: bool)
    requires e.Valid() && Fits(d, v) && IsSimple(d)
    modifies e, e.destination
    ensures e.Appended(Encode(d, v), ok)
  {
    hide Pow2, EncodeNat, LE, TailIsZero, ByteLength;
    match d
    case Nothing =>
      ok := true;
    case UInt(size) =>
      ok := e.PutBytes(EncodeInt(v.n, size));
    case Int(size) =>
      ok := e.PutBytes(EncodeInt(v.n, size));
    case Boolean =>
      ok := e.PutBytes([if v.b then 1 else 0]);
    case VarU32 =>
      ok := e.VarU64(v.n);
    case VarU64 =>
      ok := e.VarU64(v.n);
    case FixBytes(_) =>
      ok := e.PutBytes(v.bytes);
    case BitVecFix(_) =>
      ok := e.PutBytes(v.bytes);
  }

  /** A length prefix and the bytes it counts. */
  method EncodePrefixed(e: Encoder, n: nat, bytes: seq<byte>) returns (ok: bool)
    requires e.Valid() && n < LIMIT
    modifies e, e.destination
    ensures e.Appended(EncodeNat(n) + bytes, ok)
  {
    hide EncodeNat, Outcome;
    ghost var w0 := e.Written();
    ok := e.VarU64(n);
    if ok {
      ghost var w1 := e.Written();
      ok := e.PutBytes(bytes);
      PutOutcome(w1, e.Written(), bytes, e.Limit(), ok);
      OutcomeThen(w0, w1, e.Written(), EncodeNat(n), bytes, e.Limit(), ok);
    } else {
      OutcomeFailed(w0, e.Written(), EncodeNat(n), bytes, e.Limit());
    }
  }

  lemma PutOutcome(before: seq<byte>, after: seq<byte>, bytes: seq<byte>, limit: nat, ok: bool)
    requires ok <==> |before| + |bytes| <= limit
    requires after == if ok then before + bytes else before
    ensures Outcome(before, after, bytes, limit, ok)
  {
  }

  /** Writes `Encode(d, v)` to the encoder, or fails because the limit is reached. */
  method EncodeValue(e: Encoder, d: Desc, v: Value) returns (ok: bool)
    requires e.Valid() && Fits(d, v)
    modifies e, e.destination
    ensures e.Appended(Encode(d, v), ok)
    decreases d, 3, 0
  {
    hide Pow2, EncodeNat, EncodeInt, TailIsZero, ByteLength, SortEntries, EncodeItems, EncodeEntries, EncodeFields;
    hide FitEntries, DistinctEntryKeys, Outcome, HasKey;
    ghost var w0 := e.Written();
    match d
    case Blob =>
      ok := EncodePrefixed(e, |v.bytes|, v.bytes);
    case BitVecVar =>
      ok := EncodePrefixed(e, v.bitLength, v.bytes);
    case Optional(t) =>
      ok := EncodeOptional(e, d, v);
    case SeqVar(t, _, _) =>
      ok := e.VarU64(|v.items|);
      if ok {
        ghost var w1 := e.Written();
        ok := EncodeList(e, t, v.items);
        OutcomeThen(w0, w1, e.Written(), EncodeNat(|v.items|), EncodeItems(t, v.items), e.Limit(), ok);
      } else {
        OutcomeFailed(w0, e.Written(), EncodeNat(|v.items|), EncodeItems(t, v.items), e.Limit());
      }
    case SeqFix(t, _) =>
      ok := EncodeList(e, t, v.items);
    case Dictionary(_, _, _, _) =>
      ok := EncodeDictionary(e, d, v);
    case Pair(a, b) =>
      ok := EncodeValue(e, a, v.fields[0]);
      if ok {
        ghost var w1 := e.Written();
        ok := EncodeValue(e, b, v.fields[1]);
        OutcomeThen(w0, w1, e.Written(), Encode(a, v.fields[0]), Encode(b, v.fields[1]), e.Limit(), ok);
      } else {
        OutcomeFailed(w0, e.Written(), Encode(a, v.fields[0]), Encode(b, v.fields[1]), e.Limit());
      }
    case Union(ds) =>
      ok := e.VarU64(v.index);
      if ok {
        ghost var w1 := e.Written();
        ok := EncodeValue(e, ds[v.index], v.v);
        OutcomeThen(w0, w1, e.Written(), EncodeNat(v.index), Encode(ds[v.index], v.v), e.Limit(), ok);
      } else {
        OutcomeFailed(w0, e.Written(), EncodeNat(v.index), Encode(ds[v.index], v.v), e.Limit());
      }
    case Class(ds) =>
      ok := EncodeRecord(e, ds, v.fields);
    case _ =>
      ok := EncodeSimple(e, d, v);
  }

  method EncodeOptional(e: Encoder, d: Desc, v: Value) returns (ok: bool)
    requires e.Valid() && d.Optional? && Fits(d, v)
    modifies e, e.destination
    ensures e.Appended(Encode(d, v), ok)
    decreases d, 2, 0
  {
    hide Outcome;
    ghost var w0 := e.Written();
    ghost var tag: seq<byte> := [if v.Absent? then 0 else 1];
    ok := e.PutBytes([if v.Absent? then 0 else 1]);
    PutOutcome(w0, e.Written(), tag, e.Limit(), ok);
    if !v.Absent? {
      if ok {
        ApplySizeHint(e, d.d, 1);
        ghost var w1 := e.Written();
        ok := EncodeValue(e, d.d, v.v);
        OutcomeThen(w0, w1, e.Written(), tag, Encode(d.d, v.v), e.Limit(), ok);
      } else {
        OutcomeFailed(w0, e.Written(), tag, Encode(d.d, v.v), e.Limit());
      }
    }
  }

  method EncodeDictionary(e: Encoder, d: Desc, v: Value) returns (ok: bool)
    requires e.Valid() && d.Dictionary? && Fits(d, v)
    modifies e, e.destination
    ensures e.Appended(Encode(d, v), ok)
    decreases d, 2, 0
  {
    hide Pow2, EncodeNat, SortEntries, EncodeEntries, DistinctEntryKeys, Outcome;
    var data := SortEntries(v.entries, d.sortKeys);
    SortFits(d, v.entries);
    ghost var body := EncodeEntries(d, data);
    if d.fixedLength.Some? {
      ok := EncodePairs(e, d, data);
      assert [] + body == body;
      return;
    }
    ghost var w0 := e.Written();
    ok := e.VarU64(|data|);
    if ok {
      ghost var w1 := e.Written();
      ok := EncodePairs(e, d, data);
      OutcomeThen(w0, w1, e.Written(), EncodeNat(|data|), body, e.Limit(), ok);
    } else {
      OutcomeFailed(w0, e.Written(), EncodeNat(|data|), body, e.Limit());
    }
  }

  lemma NextEntry(d: Desc, data: seq<Entry>, i: nat) returns (k: seq<byte>, v: seq<byte>, after: seq<byte>)
    requires d.Dictionary? && FitEntries(d, data) && i < |data|
    ensures Fits(d.key, data[i].0) && k == Encode(d.key, data[i].0) && Fits(d.value, data[i].1) &&
        v == Encode(d.value, data[i].1)
    ensures after == EncodeEntries(d, data[i + 1..]) && EncodeEntries(d, data[i..]) == k + v + after
  {
    hide Encode, Fits, Norm;
    assert data[i] in data && data[i..][0] == data[i] && data[i..][1..] == data[i + 1..];
    k, v, after := Encode(d.key, data[i].0), Encode(d.value, data[i].1), EncodeEntries(d, data[i + 1..]);
  }

  lemma NoEntries(d: Desc, data: seq<Entry>)
    requires d.Dictionary? && data == []
    ensures EncodeEntries(d, data) == []
  {
  }

  method EncodePairs(e: Encoder, d: Desc, data: seq<Entry>) returns (ok: bool)
    requires e.Valid() && d.Dictionary? && FitEntries(d, data)
    modifies e, e.destination
    ensures e.Appended(EncodeEntries(d, data), ok)
    decreases d, 1, 0
  {
    hide Encode, Fits, Norm, Outcome, EncodeEntries;
    ghost var w0, total, done := e.Written(), EncodeEntries(d, data), [];
    ok := true;
    OutcomeNothing(w0, e.Limit());
    var i := 0;
    while i < |data| && ok
      invariant 0 <= i <= |data| && e.Valid() && e.Limit() == old(e.Limit())
      invariant e.destination == old(e.destination) || fresh(e.destination)
      invariant ok ==> Outcome(w0, e.Written(), done, e.Limit(), true) && done + EncodeEntries(d, data[i..]) == total
      invariant !ok ==> Outcome(w0, e.Written(), total, e.Limit(), false)
    {
      var (k, v) := data[i];
      ghost var ek, ev, after := NextEntry(d, data, i);
      assert total == done + ek + ev + after && total == done + ek + (ev + after);
      ghost var w1 := e.Written();
      ok := EncodeValue(e, d.key, k);
      ghost var w2 := e.Written();
      OutcomeThen(w0, w1, w2, done, ek, e.Limit(), ok);
      if ok {
        ok := EncodeValue(e, d.value, v);
        OutcomeThen(w0, w2, e.Written(), done + ek, ev, e.Limit(), ok);
        if !ok {
          OutcomeFailed(w0, e.Written(), done + ek + ev, after, e.Limit());
        }
      } else {
        OutcomeFailed(w0, w2, done + ek, ev + after, e.Limit());
      }
      done := done + ek + ev;
      i := i + 1;
    }
    if ok {
      NoEntries(d, data[i..]);
      assert done + [] == done;
    }
  }

  lemma NextItem(d: Desc, items: seq<Value>, i: nat) returns (x: seq<byte>, after: seq<byte>)
    requires (forall x | x in items :: Fits(d, x)) && i < |items|
    ensures x == Encode(d, items[i]) && after == EncodeItems(d, items[i + 1..]) &&
        EncodeItems(d, items[i..]) == x + after
  {
    hide Encode, Fits;
    assert items[i..][0] == items[i] && items[i..][1..] == items[i + 1..];
    x, after := Encode(d, items[i]), EncodeItems(d, items[i + 1..]);
  }

  lemma NoItems(d: Desc, items: seq<Value>)
    requires items == []
    ensures EncodeItems(d, items) == []
  {
  }

  method EncodeList(e: Encoder, d: Desc, elements: seq<Value>) returns (ok: bool)
    requires e.Valid() && forall x | x in elements :: Fits(d, x)
    modifies e, e.destination
    ensures e.Appended(EncodeItems(d, elements), ok)
    decreases d, 4, 0
  {
    hide Encode, Fits, Outcome, EncodeItems;
    ApplySizeHint(e, d, |elements|);
    ghost var w0, total, done := e.Written(), EncodeItems(d, elements), [];
    ok := true;
    OutcomeNothing(w0, e.Limit());
    var i := 0;
    while i < |elements| && ok
      invariant 0 <= i <= |elements| && e.Valid() && e.Limit() == old(e.Limit())
      invariant e.destination == old(e.destination) || fresh(e.destination)
      invariant ok ==> Outcome(w0, e.Written(), done, e.Limit(), true) && done + EncodeItems(d, elements[i..]) == total
      invariant !ok ==> Outcome(w0, e.Written(), total, e.Limit(), false)
    {
      ghost var x, after := NextItem(d, elements, i);
      assert total == done + x + after;
      ghost var w1 := e.Written();
      ok := EncodeValue(e, d, elements[i]);
      OutcomeThen(w0, w1, e.Written(), done, x, e.Limit(), ok);
      if !ok {
        OutcomeFailed(w0, e.Written(), done + x, after, e.Limit());
      }
      done := done + x;
      i := i + 1;
    }
    if ok {
      NoItems(d, elements[i..]);
      assert done + [] == done;
    }
  }

  lemma NextField(ds: seq<Desc>, vs: seq<Value>, i: nat) returns (x: seq<byte>, after: seq<byte>)
    requires |ds| == |vs| && (forall j | 0 <= j < |ds| :: Fits(ds[j], vs[j])) && i < |ds|
    ensures x == Encode(ds[i], vs[i]) && after == EncodeFields(ds[i + 1..], vs[i + 1..])
    ensures EncodeFields(ds[i..], vs[i..]) == x + after
  {
    hide Encode, Fits;
    assert ds[i..][0] == ds[i] && ds[i..][1..] == ds[i + 1..] && vs[i..][0] == vs[i] && vs[i..][1..] == vs[i + 1..];
    x, after := Encode(ds[i], vs[i]), EncodeFields(ds[i + 1..], vs[i + 1..]);
  }

  lemma NoFields(ds: seq<Desc>, vs: seq<Value>)
    requires ds == [] && vs == []
    ensures EncodeFields(ds, vs) == []
  {
  }

  method EncodeRecord(e: Encoder, ds: seq<Desc>, vs: seq<Value>) returns (ok: bool)
    requires e.Valid() && |ds| == |vs| && forall i | 0 <= i < |ds| :: Fits(ds[i], vs[i])
    modifies e, e.destination
    ensures e.Appended(EncodeFields(ds, vs), ok)
    decreases ds, 0, 0
  {
    hide Encode, Fits, Outcome, EncodeFields;
    ghost var w0, total, done := e.Written(), EncodeFields(ds, vs), [];
    ok := true;
    OutcomeNothing(w0, e.Limit());
    var i := 0;
    while i < |ds| && ok
      invariant 0 <= i <= |ds| && e.Valid() && e.Limit() == old(e.Limit())
      invariant e.destination == old(e.destination) || fresh(e.destination)
      invariant ok ==> Outcome(w0, e.Written(), done, e.Limit(), true) && done + EncodeFields(ds[i..], vs[i..]) == total
      invariant !ok ==> Outcome(w0, e.Written(), total, e.Limit(), false)
    {
      ghost var x, after := NextField(ds, vs, i);
      assert total == done + x + after;
      ghost var w1 := e.Written();
      ok := EncodeValue(e, ds[i], vs[i]);
      OutcomeThen(w0, w1, e.Written(), done, x, e.Limit(), ok);
      if !ok {
        OutcomeFailed(w0, e.Written(), done + x, after, e.Limit());
      }
      done := done + x;
      i := i + 1;
    }
    if ok {
      NoFields(ds[i..], vs[i..]);
      assert done + [] == done;
    }
  }

  /** `encodeObject`: with any starting size the result is the encoding, and only the overall limit can make it fail. */
  method EncodeObject(d: Desc, v: Value) returns (result: Option<seq<byte>>)
    requires Fits(d, v)
    ensures result == if |Encode(d, v)| <= MAX_LENGTH then Some(Encode(d, v)) else None
  {
    hide Encode, Fits, Hint;
    var e := new Encoder.Growing(if Hint(d).bytes == 0 then DEFAULT_START_LENGTH else Hint(d).bytes);
    ApplySizeHint(e, d, 1);
    var ok := EncodeValue(e, d, v);
    result := if ok then Some(e.Written()) else None;
    assert [] + Encode(d, v) == Encode(d, v);
  }
}

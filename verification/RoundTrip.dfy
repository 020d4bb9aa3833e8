/** Decoding what was encoded, in front of any other bytes, gives the value back and leaves exactly those bytes. */
module RoundTrip {
  import opened Bytes
  import opened Naturals
  import opened Descriptors

  lemma ModSmall(n: int, p: nat)
    requires 0 <= n < p
    ensures n % p == n
  {
  }

  lemma ModNegative(n: int, p: nat)
    requires -(p as int) <= n < 0
    ensures n % p == n + p
  {
    ModSmall(n + p, p);
    ModShift(n, p);
  }

  lemma ModShift(n: int, p: nat)
    requires p > 0
    ensures (n + p) % p == n % p
  {
    var q, r := n / p, n % p;
    assert n + p == (q + 1) * p + r;
    Quotients(n + p, q + 1, p, r);
  }

  lemma Quotients(n: int, q: int, p: nat, r: int)
    requires n == q * p + r && 0 <= r < p
    ensures n % p == r
  {
    var q', r' := n / p, n % p;
    assert n == q' * p + r';
    SameMultiple(q, q', p, r, r');
  }

  lemma HalfRange(size: nat)
    requires size >= 1
    ensures Pow2(8 * size) == 2 * Pow2(8 * size - 1)
  {
  }

  /** A fixed-width integer comes back exactly when it lies in the range of its signedness. */
  lemma IntRoundTripExactly(size: nat, n: int, rest: seq<byte>)
    requires size >= 1 && -(Pow2(8 * size - 1) as int) <= n < Pow2(8 * size)
    ensures Decode(UInt(size), EncodeInt(n, size) + rest) == Some((Num(n), rest)) <==> n >= 0
    ensures Decode(Int(size), EncodeInt(n, size) + rest) == Some((Num(n), rest)) <==> n < Pow2(8 * size - 1)
  {
    hide Pow2, LE, FromLE;
    HalfRange(size);
    var p := Pow2(8 * size);
    if n >= 0 {
      ModSmall(n, p);
    } else {
      ModNegative(n, p);
    }
    var bs := EncodeInt(n, size) + rest;
    assert bs[..size] == EncodeInt(n, size) && bs[size..] == rest;
    FromLEofLE(n % p, size);
  }

  lemma UIntRoundTrip(size: nat, n: nat, rest: seq<byte>)
    requires n < Pow2(8 * size)
    ensures Decode(UInt(size), EncodeInt(n, size) + rest) == Some((Num(n), rest))
  {
    hide Pow2, LE, FromLE;
    ModSmall(n, Pow2(8 * size));
    var bs := EncodeInt(n, size) + rest;
    assert bs[..size] == EncodeInt(n, size) && bs[size..] == rest;
    FromLEofLE(n, size);
  }

  lemma BlobRoundTrip(bytes: seq<byte>, rest: seq<byte>)
    requires |bytes| < LIMIT32
    ensures Decode(Blob, EncodeNat(|bytes|) + bytes + rest) == Some((Raw(bytes), rest))
  {
    CompactRoundTrip32(|bytes|, bytes + rest);
    assert EncodeNat(|bytes|) + bytes + rest == EncodeNat(|bytes|) + (bytes + rest);
    assert (bytes + rest)[..|bytes|] == bytes && (bytes + rest)[|bytes|..] == rest;
  }

  lemma BitsRoundTrip(v: Value, bits: nat, rest: seq<byte>)
    requires BitVector(v, bits)
    ensures DecodeBits(v.bytes + rest, bits) == Some((v, rest))
  {
    assert (v.bytes + rest)[..|v.bytes|] == v.bytes && (v.bytes + rest)[|v.bytes|..] == rest;
  }

  lemma BitsVarRoundTrip(v: Value, rest: seq<byte>)
    requires Fits(BitVecVar, v)
    ensures Decode(BitVecVar, Encode(BitVecVar, v) + rest) == Some((v, rest))
  {
    CompactRoundTrip32(v.bitLength, v.bytes + rest);
    assert EncodeNat(v.bitLength) + v.bytes + rest == EncodeNat(v.bitLength) + (v.bytes + rest);
    BitsRoundTrip(v, v.bitLength, rest);
  }

  /** The round trip of descriptors without parts. */
  lemma LeafRoundTrip(d: Desc, v: Value, rest: seq<byte>)
    requires Fits(d, v)
    requires d.Nothing? || d.UInt? || d.Int? || d.Boolean? || d.VarU32? || d.VarU64? || d.FixBytes? || d.Blob? ||
        d.BitVecFix? || d.BitVecVar?
    ensures Decode(d, Encode(d, v) + rest) == Some((v, rest))
  {
    hide Pow2, LE, FromLE, EncodeNat, DecodeNat, DecodeNat32, EncodeInt, DecodeInt, BitVector, DecodeBits;
    match d
    case Nothing => assert [] + rest == rest;
    case UInt(size) => UIntRoundTrip(size, v.n, rest);
    case Int(size) =>
      HalfRange(size);
      IntRoundTripExactly(size, v.n, rest);
    case Boolean =>
    case VarU32 => CompactRoundTrip32(v.n, rest);
    case VarU64 => CompactRoundTrip(v.n, rest);
    case FixBytes(len) => assert (v.bytes + rest)[..len] == v.bytes && (v.bytes + rest)[len..] == rest;
    case Blob => BlobRoundTrip(v.bytes, rest);
    case BitVecFix(bits) => BitsRoundTrip(v, bits, rest);
    case BitVecVar => BitsVarRoundTrip(v, rest);
  }

  /** A length or an index, then the remaining bytes. */
  lemma PrefixedRoundTrip(n: nat, body: seq<byte>, rest: seq<byte>)
    requires n < LIMIT32
    ensures DecodeNat32(EncodeNat(n) + body + rest) == Some((n, body + rest))
  {
    CompactRoundTrip32(n, body + rest);
    assert EncodeNat(n) + body + rest == EncodeNat(n) + (body + rest);
  }

  /**
   Every descriptor reads back what it wrote and stops exactly behind it; dictionaries come back in key
   order, which is the only difference between `v` and its normal form.
   */
  lemma {:induction false} DecodeEncode(d: Desc, v: Value, rest: seq<byte>)
    requires WellFormed(d) && Fits(d, v)
    ensures Decode(d, Encode(d, v) + rest) == Some((Norm(d, v), rest))
    decreases d, 1, 0
  {
    hide Pow2, LE, FromLE, EncodeNat, DecodeNat, DecodeNat32, EncodeInt, DecodeInt, BitVector, DecodeBits;
    hide TotalOrder, SortEntries, EncodeItems, DecodeItems, EncodeEntries, DecodeEntries, EncodeFields;
    hide DecodeFields, NormItems, NormEntries, NormFields, FitEntries;
    match d
    case Optional(e) =>
      if v.Present? {
        DecodeEncode(e, v.v, rest);
        assert ([1] + Encode(e, v.v) + rest)[1..] == Encode(e, v.v) + rest;
      }
    case SeqVar(e, _, _) =>
      PrefixedRoundTrip(|v.items|, EncodeItems(e, v.items), rest);
      DecodeEncodeItems(e, v.items, rest);
    case SeqFix(e, _) =>
      DecodeEncodeItems(e, v.items, rest);
    case Dictionary(_, _, cmp, fixed) =>
      var es := SortEntries(v.entries, cmp);
      SortFits(d, v.entries);
      SortEntriesSorted(v.entries, cmp);
      if fixed.None? {
        PrefixedRoundTrip(|es|, EncodeEntries(d, es), rest);
      } else {
        assert [] + EncodeEntries(d, es) == EncodeEntries(d, es);
      }
      DecodeEncodeEntries(d, es, rest, []);
      assert [] + NormEntries(d, es) == NormEntries(d, es);
    case Pair(a, b) =>
      var x, y := v.fields[0], v.fields[1];
      assert Encode(a, x) + Encode(b, y) + rest == Encode(a, x) + (Encode(b, y) + rest);
      DecodeEncode(a, x, Encode(b, y) + rest);
      DecodeEncode(b, y, rest);
    case Union(ds) =>
      PrefixedRoundTrip(v.index, Encode(ds[v.index], v.v), rest);
      DecodeEncode(ds[v.index], v.v, rest);
    case Class(ds) =>
      DecodeEncodeFields(ds, v.fields, rest);
    case _ =>
      LeafRoundTrip(d, v, rest);
  }

  lemma {:induction false} DecodeEncodeItems(d: Desc, vs: seq<Value>, rest: seq<byte>)
    requires WellFormed(d) && forall x | x in vs :: Fits(d, x)
    ensures DecodeItems(d, |vs|, EncodeItems(d, vs) + rest) == Some((NormItems(d, vs), rest))
    decreases d, 2, |vs|
  {
    hide Decode, Encode, Fits, Norm, WellFormed, Pow2;
    if vs == [] {
      assert EncodeItems(d, vs) + rest == rest;
    } else {
      var after := EncodeItems(d, vs[1..]) + rest;
      assert EncodeItems(d, vs) + rest == Encode(d, vs[0]) + after;
      DecodeEncode(d, vs[0], after);
      DecodeEncodeItems(d, vs[1..], rest);
    }
  }

  lemma {:induction false} DecodeEncodeEntries(d: Desc, es: seq<Entry>, rest: seq<byte>, done: seq<Entry>)
    requires d.Dictionary? && WellFormed(d) && FitEntries(d, es)
    requires Ascending(done + es, d.sortKeys)
    ensures DecodeEntries(d, |es|, EncodeEntries(d, es) + rest, done) == Some((done + NormEntries(d, es), rest))
    decreases d, 0, |es|
  {
    hide Decode, Encode, Fits, Norm, Pow2, TotalOrder, HasKey, Ascending;
    if es == [] {
      assert EncodeEntries(d, es) + rest == rest;
      assert done + NormEntries(d, es) == done;
    } else {
      var (k, v) := es[0];
      var after := EncodeEntries(d, es[1..]) + rest;
      assert EncodeEntries(d, es) + rest == Encode(d.key, k) + (Encode(d.value, v) + after);
      DecodeEncode(d.key, k, Encode(d.value, v) + after);
      DecodeEncode(d.value, v, after);
      assert es[0] in es;
      NewKey(done, es, d.sortKeys);
      var done' := done + [(k, Norm(d.value, v))];
      AscendingByKeys(done + es, done' + es[1..], d.sortKeys);
      DecodeEncodeEntries(d, es[1..], rest, done');
      assert done' + NormEntries(d, es[1..]) == done + NormEntries(d, es);
    }
  }

  lemma AscendingByKeys(es: seq<Entry>, fs: seq<Entry>, cmp: Comparator)
    requires Ascending(es, cmp) && |es| == |fs| && forall i | 0 <= i < |es| :: es[i].0 == fs[i].0
    ensures Ascending(fs, cmp)
  {
  }

  /** In an ascending sequence the next key is larger than the last one and different from all before it. */
  lemma NewKey(done: seq<Entry>, es: seq<Entry>, cmp: Comparator)
    requires TotalOrder(cmp) && es != [] && Ascending(done + es, cmp)
    ensures !HasKey(done, es[0].0)
    ensures done != [] ==> cmp(done[|done| - 1].0, es[0].0) < 0
  {
    var n := |done|;
    assert (done + es)[n] == es[0];
    if n > 0 {
      assert (done + es)[n - 1] == done[n - 1];
    }
    forall i | 0 <= i < n
      ensures done[i].0 != es[0].0
    {
      AscendingFar(done + es, cmp, i, n);
      assert (done + es)[i] == done[i];
    }
  }

  lemma {:induction false} AscendingFar(es: seq<Entry>, cmp: Comparator, i: nat, j: nat)
    requires TotalOrder(cmp) && Ascending(es, cmp) && i < j < |es|
    ensures cmp(es[i].0, es[j].0) < 0 && es[i].0 != es[j].0
    decreases j
  {
    assert cmp(es[j - 1].0, es[j].0) < 0;
    if i < j - 1 {
      AscendingFar(es, cmp, i, j - 1);
    }
  }

  lemma {:induction false} DecodeEncodeFields(ds: seq<Desc>, vs: seq<Value>, rest: seq<byte>)
    requires |ds| == |vs| && forall i | 0 <= i < |ds| :: WellFormed(ds[i]) && Fits(ds[i], vs[i])
    ensures DecodeFields(ds, EncodeFields(ds, vs) + rest) == Some((NormFields(ds, vs), rest))
    decreases ds, 0, 0
  {
    hide Decode, Encode, Fits, Norm, WellFormed, Pow2;
    if ds == [] {
      assert EncodeFields(ds, vs) + rest == rest;
    } else {
      var after := EncodeFields(ds[1..], vs[1..]) + rest;
      assert EncodeFields(ds, vs) + rest == Encode(ds[0], vs[0]) + after;
      DecodeEncode(ds[0], vs[0], after);
      DecodeEncodeFields(ds[1..], vs[1..], rest);
    }
  }
}

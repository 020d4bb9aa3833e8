/**
 Codec descriptors as data: what every combinator writes and reads.
 Dictionaries carry the comparator their keys are sorted with.
 */
module Descriptors {
  import opened Bytes
  import opened Naturals

  datatype Value =
    | Unit
    | Num(n: int)
    | Bool(b: bool)
    | Raw(bytes: seq<byte>)
    | Bits(bytes: seq<byte>, bitLength: nat)
    | Absent
    | Present(v: Value)
    | List(items: seq<Value>)
    | Dict(entries: seq<(Value, Value)>)
    | Tagged(index: nat, v: Value)
    | Record(fields: seq<Value>)

  type Comparator = (Value, Value) -> int

  datatype Desc =
    | Nothing
    | UInt(size: nat)
    | Int(size: nat)
    | Boolean
    | VarU32
    | VarU64
    | FixBytes(len: nat)
    | Blob
    | BitVecFix(bits: nat)
    | BitVecVar
    | Optional(d: Desc)
    | SeqVar(d: Desc, minLength: nat, maxLength: nat)
    | SeqFix(d: Desc, len: nat)
    | Dictionary(key: Desc, value: Desc, sortKeys: Comparator, fixedLength: Option<nat>)
    | Pair(a: Desc, b: Desc)
    | Union(variants: seq<Desc>)
    | Class(fields: seq<Desc>)

  type Decoded = Option<(Value, seq<byte>)>
  type Entry = (Value, Value)

  // ----- comparators and sorted entries -----

  /** What `sortKeys` has to be: a strict total order on keys. */
  ghost predicate TotalOrder(cmp: Comparator) {
    && (forall a, b :: cmp(a, b) == 0 <==> a == b)
    && (forall a, b :: cmp(a, b) < 0 <==> cmp(b, a) > 0)
    && (forall a, b, c :: cmp(a, b) < 0 && cmp(b, c) < 0 ==> cmp(a, c) < 0)
  }

  predicate Ascending(es: seq<Entry>, cmp: Comparator) {
    forall i | 0 < i < |es| :: cmp(es[i - 1].0, es[i].0) < 0
  }

  ghost predicate DistinctEntryKeys(es: seq<Entry>) {
    forall i, j | 0 <= i < j < |es| :: es[i].0 != es[j].0
  }

  function InsertEntry(e: Entry, es: seq<Entry>, cmp: Comparator): (r: seq<Entry>)
    ensures |r| == |es| + 1
  {
    if es == [] || cmp(e.0, es[0].0) < 0 then [e] + es else [es[0]] + InsertEntry(e, es[1..], cmp)
  }

  /** The entries in the order `data.sort` puts them. */
  function SortEntries(es: seq<Entry>, cmp: Comparator): (r: seq<Entry>)
    ensures |r| == |es|
  {
    if es == [] then [] else InsertEntry(es[0], SortEntries(es[1..], cmp), cmp)
  }

  lemma NotBefore(cmp: Comparator, a: Value, b: Value)
    requires TotalOrder(cmp) && a != b && cmp(a, b) >= 0
    ensures cmp(b, a) < 0
  {
  }

  lemma {:induction false} InsertEntrySorted(e: Entry, es: seq<Entry>, cmp: Comparator)
    requires TotalOrder(cmp) && Ascending(es, cmp) && forall x | x in es :: x.0 != e.0
    ensures Ascending(InsertEntry(e, es, cmp), cmp)
    ensures multiset(InsertEntry(e, es, cmp)) == multiset{e} + multiset(es)
    ensures InsertEntry(e, es, cmp)[0] == e || (es != [] && InsertEntry(e, es, cmp)[0] == es[0])
  {
    hide TotalOrder;
    if es != [] && cmp(e.0, es[0].0) >= 0 {
      assert es == [es[0]] + es[1..];
      assert es[0] in es;
      NotBefore(cmp, e.0, es[0].0);
      InsertEntrySorted(e, es[1..], cmp);
    }
  }

  /** Sorting permutes the entries and leaves their keys strictly ascending. */
  lemma {:induction false} SortEntriesSorted(es: seq<Entry>, cmp: Comparator)
    requires TotalOrder(cmp) && DistinctEntryKeys(es)
    ensures Ascending(SortEntries(es, cmp), cmp)
    ensures multiset(SortEntries(es, cmp)) == multiset(es)
  {
    if es != [] {
      SortEntriesSorted(es[1..], cmp);
      assert es == [es[0]] + es[1..];
      forall x | x in SortEntries(es[1..], cmp)
        ensures x.0 != es[0].0
      {
        assert x in multiset(es[1..]);
        var j :| 0 <= j < |es[1..]| && es[1..][j] == x;
        assert es[j + 1] == x;
      }
      InsertEntrySorted(es[0], SortEntries(es[1..], cmp), cmp);
    }
  }

  // ----- normal form: dictionaries in key order -----

  function Norm(d: Desc, v: Value): Value
    decreases d, 1, 0
  {
    match d
    case Optional(e) => if v.Present? then Present(Norm(e, v.v)) else v
    case SeqVar(e, _, _) => if v.List? then List(NormItems(e, v.items)) else v
    case SeqFix(e, _) => if v.List? then List(NormItems(e, v.items)) else v
    case Dictionary(_, _, cmp, _) => if v.Dict? then Dict(NormEntries(d, SortEntries(v.entries, cmp))) else v
    case Pair(a, b) => if v.Record? && |v.fields| == 2 then Record([Norm(a, v.fields[0]), Norm(b, v.fields[1])]) else v
    case Union(ds) => if v.Tagged? && v.index < |ds| then Tagged(v.index, Norm(ds[v.index], v.v)) else v
    case Class(ds) => if v.Record? && |v.fields| == |ds| then Record(NormFields(ds, v.fields)) else v
    case _ => v
  }

  function NormItems(d: Desc, vs: seq<Value>): (r: seq<Value>)
    ensures |r| == |vs|
    decreases d, 2, |vs|
  {
    if vs == [] then [] else [Norm(d, vs[0])] + NormItems(d, vs[1..])
  }

  function NormEntries(d: Desc, es: seq<Entry>): (r: seq<Entry>)
    requires d.Dictionary?
    ensures |r| == |es|
    decreases d, 0, |es|
  {
    if es == [] then [] else [(Norm(d.key, es[0].0), Norm(d.value, es[0].1))] + NormEntries(d, es[1..])
  }

  function NormFields(ds: seq<Desc>, vs: seq<Value>): (r: seq<Value>)
    requires |ds| == |vs|
    ensures |r| == |vs|
    decreases ds, 0, 0
  {
    if ds == [] then [] else [Norm(ds[0], vs[0])] + NormFields(ds[1..], vs[1..])
  }

  // ----- values a descriptor describes -----

  function ByteLength(bits: nat): nat {
    (bits + 7) / 8
  }

  /** The unused bits of the last byte of a bit vector are zero. */
  predicate TailIsZero(bytes: seq<byte>, bits: nat) {
    bits % 8 > 0 && bytes != [] ==> bytes[|bytes| - 1] / Pow2(bits % 8) == 0
  }

  predicate BitVector(v: Value, bits: nat) {
    v.Bits? && v.bitLength == bits && |v.bytes| == ByteLength(bits) && TailIsZero(v.bytes, bits)
  }

  ghost predicate WellFormed(d: Desc) {
    match d
    case Int(size) => size >= 1
    case Optional(e) => WellFormed(e)
    case SeqVar(e, _, _) => WellFormed(e)
    case SeqFix(e, _) => WellFormed(e)
    case Dictionary(k, e, cmp, _) => WellFormed(k) && WellFormed(e) && TotalOrder(cmp)
    case Pair(a, b) => WellFormed(a) && WellFormed(b)
    case Union(ds) => forall e | e in ds :: WellFormed(e)
    case Class(ds) => forall e | e in ds :: WellFormed(e)
    case _ => true
  }

  ghost predicate Fits(d: Desc, v: Value)
    decreases d, 1
  {
    match d
    case Nothing => v == Unit
    case UInt(size) => v.Num? && 0 <= v.n < Pow2(8 * size)
    case Int(size) => v.Num? && size >= 1 && -(Pow2(8 * size - 1) as int) <= v.n < Pow2(8 * size - 1)
    case Boolean => v.Bool?
    case VarU32 => v.Num? && 0 <= v.n < LIMIT32
    case VarU64 => v.Num? && 0 <= v.n < LIMIT
    case FixBytes(len) => v.Raw? && |v.bytes| == len
    case Blob => v.Raw? && |v.bytes| < LIMIT32
    case BitVecFix(bits) => BitVector(v, bits)
    case BitVecVar => v.Bits? && v.bitLength < LIMIT32 && BitVector(v, v.bitLength)
    case Optional(e) => v.Absent? || (v.Present? && Fits(e, v.v))
    case SeqVar(e, min, max) => v.List? && min <= |v.items| <= max && |v.items| < LIMIT32 &&
        forall x | x in v.items :: Fits(e, x)
    case SeqFix(e, len) => v.List? && |v.items| == len && forall x | x in v.items :: Fits(e, x)
    case Dictionary(k, e, _, fixed) =>
      && v.Dict? && DistinctEntryKeys(v.entries)
      && (if fixed.Some? then |v.entries| == fixed.value else |v.entries| < LIMIT32)
      && FitEntries(d, v.entries)
    case Pair(a, b) => v.Record? && |v.fields| == 2 && Fits(a, v.fields[0]) && Fits(b, v.fields[1])
    case Union(ds) => v.Tagged? && v.index < |ds| && v.index < LIMIT32 && Fits(ds[v.index], v.v)
    case Class(ds) => v.Record? && |v.fields| == |ds| && forall i | 0 <= i < |ds| :: Fits(ds[i], v.fields[i])
  }

  /** Keys and values fit; keys are in normal form, so their order does not depend on hidden order inside them. */
  ghost predicate FitEntries(d: Desc, es: seq<Entry>)
    requires d.Dictionary?
    decreases d, 0
  {
    forall x | x in es :: Fits(d.key, x.0) && Norm(d.key, x.0) == x.0 && Fits(d.value, x.1)
  }

  // ----- encoding -----

  /** A fixed-width integer: two's complement, little-endian. */
  function EncodeInt(n: int, size: nat): (bs: seq<byte>)
    ensures |bs| == size
  {
    LE(n % Pow2(8 * size), size)
  }

  function Encode(d: Desc, v: Value): seq<byte>
    requires Fits(d, v)
    decreases d, 1, 0
  {
    match d
    case Nothing => []
    case UInt(size) => EncodeInt(v.n, size)
    case Int(size) => EncodeInt(v.n, size)
    case Boolean => [if v.b then 1 else 0]
    case VarU32 => EncodeNat(v.n)
    case VarU64 => EncodeNat(v.n)
    case FixBytes(_) => v.bytes
    case Blob => EncodeNat(|v.bytes|) + v.bytes
    case BitVecFix(_) => v.bytes
    case BitVecVar => EncodeNat(v.bitLength) + v.bytes
    case Optional(e) => if v.Absent? then [0] else [1] + Encode(e, v.v)
    case SeqVar(e, _, _) => EncodeNat(|v.items|) + EncodeItems(e, v.items)
    case SeqFix(e, _) => EncodeItems(e, v.items)
    case Dictionary(_, _, cmp, fixed) =>
      SortFits(d, v.entries);
      (if fixed.Some? then [] else EncodeNat(|v.entries|)) + EncodeEntries(d, SortEntries(v.entries, cmp))
    case Pair(a, b) => Encode(a, v.fields[0]) + Encode(b, v.fields[1])
    case Union(ds) => EncodeNat(v.index) + Encode(ds[v.index], v.v)
    case Class(ds) => EncodeFields(ds, v.fields)
  }

  function EncodeItems(d: Desc, vs: seq<Value>): seq<byte>
    requires forall x | x in vs :: Fits(d, x)
    decreases d, 2, |vs|
  {
    if vs == [] then [] else Encode(d, vs[0]) + EncodeItems(d, vs[1..])
  }

  function EncodeEntries(d: Desc, es: seq<Entry>): seq<byte>
    requires d.Dictionary? && FitEntries(d, es)
    decreases d, 0, |es|
  {
    if es == [] then [] else Encode(d.key, es[0].0) + Encode(d.value, es[0].1) + EncodeEntries(d, es[1..])
  }

  function EncodeFields(ds: seq<Desc>, vs: seq<Value>): seq<byte>
    requires |ds| == |vs| && forall i | 0 <= i < |ds| :: Fits(ds[i], vs[i])
    decreases ds, 0, 0
  {
    if ds == [] then [] else Encode(ds[0], vs[0]) + EncodeFields(ds[1..], vs[1..])
  }

  lemma {:induction false} InsertMembers(e: Entry, es: seq<Entry>, cmp: Comparator)
    ensures forall x :: x in InsertEntry(e, es, cmp) <==> x == e || x in es
  {
    if es != [] && cmp(e.0, es[0].0) >= 0 {
      InsertMembers(e, es[1..], cmp);
    }
  }

  lemma {:induction false} SortMembers(es: seq<Entry>, cmp: Comparator)
    ensures forall x :: x in SortEntries(es, cmp) <==> x in es
  {
    if es != [] {
      SortMembers(es[1..], cmp);
      InsertMembers(es[0], SortEntries(es[1..], cmp), cmp);
    }
  }

  lemma SortFits(d: Desc, es: seq<Entry>)
    requires d.Dictionary? && FitEntries(d, es)
    ensures FitEntries(d, SortEntries(es, d.sortKeys))
  {
    SortMembers(es, d.sortKeys);
  }

  // ----- decoding -----

  function DecodeInt(bs: seq<byte>, size: nat): Option<(nat, seq<byte>)> {
    if |bs| < size then None else Some((FromLE(bs[..size]), bs[size..]))
  }

  function DecodeBytes(bs: seq<byte>, len: nat): Option<(seq<byte>, seq<byte>)> {
    if |bs| < len then None else Some((bs[..len], bs[len..]))
  }

  /** `bitVecFixLen`: non-zero bits after the last one are an error. */
  function DecodeBits(bs: seq<byte>, bits: nat): Decoded {
    if |bs| < ByteLength(bits) || !TailIsZero(bs[..ByteLength(bits)], bits) then None
    else Some((Bits(bs[..ByteLength(bits)], bits), bs[ByteLength(bits)..]))
  }

  /** The value a descriptor reads, with the bytes that are left; errors give `None`. */
  function Decode(d: Desc, bs: seq<byte>): Decoded
    decreases d, 1, 0
  {
    match d
    case Nothing => Some((Unit, bs))
    case UInt(size) => (match DecodeInt(bs, size) case None => None case Some((n, rest)) => Some((Num(n), rest)))
    case Int(size) =>
      (match DecodeInt(bs, size)
       case None => None
       case Some((n, rest)) => Some((Num(if size > 0 && n >= Pow2(8 * size - 1) then n - Pow2(8 * size) else n), rest)))
    case Boolean => if |bs| == 0 || bs[0] > 1 then None else Some((Bool(bs[0] == 1), bs[1..]))
    case VarU32 => (match DecodeNat32(bs) case None => None case Some((n, rest)) => Some((Num(n), rest)))
    case VarU64 => (match DecodeNat(bs) case None => None case Some((n, rest)) => Some((Num(n), rest)))
    case FixBytes(len) => (match DecodeBytes(bs, len) case None => None case Some((x, rest)) => Some((Raw(x), rest)))
    case Blob =>
      (match DecodeNat32(bs)
       case None => None
       case Some((len, rest)) => match DecodeBytes(rest,
           len) case None => None case Some((x, rest')) => Some((Raw(x), rest')))
    case BitVecFix(bits) => DecodeBits(bs, bits)
    case BitVecVar => (match DecodeNat32(bs) case None => None case Some((bits, rest)) => DecodeBits(rest, bits))
    case Optional(e) =>
      if |bs| == 0 || bs[0] > 1 then None
      else if bs[0] == 0 then Some((Absent, bs[1..]))
      else (match Decode(e, bs[1..]) case None => None case Some((v, rest)) => Some((Present(v), rest)))
    case SeqVar(e, min, max) =>
      (match DecodeNat32(bs)
       case None => None
       case Some((len, rest)) => if min <= len <= max then ListOf(DecodeItems(e, len, rest)) else None)
    case SeqFix(e, len) => ListOf(DecodeItems(e, len, bs))
    case Dictionary(_, _, _, fixed) =>
      if fixed.Some? then DictOf(DecodeEntries(d, fixed.value, bs, []))
      else (match DecodeNat32(bs) case None => None case Some((len, rest)) => DictOf(DecodeEntries(d, len, rest, [])))
    case Pair(a, b) =>
      (match Decode(a, bs)
       case None => None
       case Some((x, rest)) => match Decode(b,
           rest) case None => None case Some((y, rest')) => Some((Record([x, y]), rest')))
    case Union(ds) =>
      (match DecodeNat32(bs)
       case None => None
       case Some((i, rest)) =>
         if i >= |ds| then None
         else match Decode(ds[i], rest) case None => None case Some((v, rest')) => Some((Tagged(i, v), rest')))
    case Class(ds) => (match DecodeFields(ds, bs) case None => None case Some((vs, rest)) => Some((Record(vs), rest)))
  }

  function ListOf(r: Option<(seq<Value>, seq<byte>)>): Decoded {
    match r case None => None case Some((vs, rest)) => Some((List(vs), rest))
  }

  function DictOf(r: Option<(seq<Entry>, seq<byte>)>): Decoded {
    match r case None => None case Some((es, rest)) => Some((Dict(es), rest))
  }

  function DecodeItems(d: Desc, n: nat, bs: seq<byte>): (r: Option<(seq<Value>, seq<byte>)>)
    ensures r.Some? ==> |r.value.0| == n
    decreases d, 2, n
  {
    if n == 0 then Some(([], bs))
    else
      match Decode(d, bs)
      case None => None
      case Some((v, rest)) =>
        match DecodeItems(d, n - 1, rest)
        case None => None
        case Some((vs, rest')) => Some(([v] + vs, rest'))
  }

  predicate HasKey(es: seq<Entry>, k: Value) {
    exists i | 0 <= i < |es| :: es[i].0 == k
  }

  /** `n` more entries after `done`: a repeated or out-of-order key is an error. */
  function DecodeEntries(d: Desc, n: nat, bs: seq<byte>, done: seq<Entry>): (r: Option<(seq<Entry>, seq<byte>)>)
    requires d.Dictionary?
    decreases d, 0, n
  {
    if n == 0 then Some((done, bs))
    else
      match Decode(d.key, bs)
      case None => None
      case Some((k, rest)) =>
        match Decode(d.value, rest)
        case None => None
        case Some((v, rest')) =>
          if HasKey(done, k) || (done != [] && d.sortKeys(done[|done| - 1].0, k) >= 0) then None
          else DecodeEntries(d, n - 1, rest', done + [(k, v)])
  }

  function DecodeFields(ds: seq<Desc>, bs: seq<byte>): (r: Option<(seq<Value>, seq<byte>)>)
    ensures r.Some? ==> |r.value.0| == |ds|
    decreases ds, 0, 0
  {
    if ds == [] then Some(([], bs))
    else
      match Decode(ds[0], bs)
      case None => None
      case Some((v, rest)) =>
        match DecodeFields(ds[1..], rest)
        case None => None
        case Some((vs, rest')) => Some(([v] + vs, rest'))
  }
}

/** The decoder: a cursor over a source. Every read agrees with the decoding functions on what is left of the source. */
module Decoder {
  import opened Bytes
  import opened Naturals
  import opened Descriptors
  import opened Skipping

  /** A read that gave `r` and left `rest`, against what was to be read and left. */
  predicate Agrees<T(==)>(r: Option<T>, rest: seq<byte>, expected: Option<(T, seq<byte>)>) {
    match expected
    case None => r.None?
    case Some((v, left)) => r == Some(v) && rest == left
  }

  class Decoder {
    const source: seq<byte>
    var offset: nat

    ghost predicate Valid()
      reads this
    {
      offset <= |source|
    }

    /** What has not been read yet. */
    ghost function Rest(): seq<byte>
      requires Valid()
      reads this
    {
      source[offset..]
    }

    constructor (source: seq<byte>, offset: nat)
      requires offset <= |source|
      ensures Valid() && this.source == source && this.offset == offset
    {
      this.source := source;
      this.offset := offset;
    }

    /** A second cursor at the same place. */
    method Clone() returns (copy: Decoder)
      requires Valid()
      ensures fresh(copy) && copy.Valid() && copy.source == source && copy.offset == offset
    {
      copy := new Decoder(source, offset);
    }

    /** `skip`: `false` where the source throws because the data ends. */
    method Advance(bytes: nat) returns (ok: bool)
      requires Valid()
      modifies this
      ensures Valid()
      ensures ok <==> Drop(old(Rest()), bytes).Some?
      ensures ok ==> Rest() == Drop(old(Rest()), bytes).value && offset == old(offset) + bytes
      ensures !ok ==> offset == old(offset)
    {
      ok := offset + bytes <= |source|;
      if ok {
        offset := offset + bytes;
      }
    }

    method Read(len: nat) returns (r: Option<seq<byte>>)
      requires Valid()
      modifies this
      ensures Valid() && Agrees(r, Rest(), DecodeBytes(old(Rest()), len)) && (r.None? ==> offset == old(offset))
    {
      if offset + len > |source| {
        return None;
      }
      r := Some(source[offset..offset + len]);
      assert r.value == Rest()[..len];
      offset := offset + len;
    }

    method Number(size: nat) returns (r: Option<nat>)
      requires Valid()
      modifies this
      ensures Valid() && Agrees(r, Rest(), DecodeInt(old(Rest()), size)) && (r.None? ==> offset == old(offset))
    {
      var bytes := Read(size);
      r := if bytes.None? then None else Some(FromLE(bytes.value));
    }

    method VarU64() returns (r: Option<nat>)
      requires Valid()
      modifies this
      ensures Valid() && Agrees(r, Rest(), DecodeNat(old(Rest())))
    {
      hide HeaderBytes, Radix, Marker, FromLE;
      if offset + 1 > |source| {
        return None;
      }
      var firstByte := source[offset];
      var l := HeaderBytes(firstByte);
      ghost var low := source[offset + 1..];
      assert old(Rest())[1..] == low;
      offset := offset + 1;
      if l == 0 {
        OneByteNumber(firstByte);
        return Some(firstByte);
      }
      if offset + l > |source| {
        return None;
      }
      offset := offset + l;
      assert source[offset - l..offset] == low[..l] == old(Rest())[1..l + 1];
      if l == 8 {
        return Some(FromLE(source[offset - l..offset]));
      }
      HeaderNonNegative(firstByte);
      var num := Times(firstByte + Marker(l) - 256, Radix(l));
      ghost var top := num;
      assert FromLE(low[..0]) == 0 by { NoBytes(); }
      for i := 0 to l
        invariant offset == old(offset) + 1 + l <= |source|
        invariant num == top + FromLE(low[..i])
      {
        FromLEAppend(low[..i], low[i]);
        assert low[..i] + [low[i]] == low[..i + 1];
        num := num + Times(source[offset - l + i], Radix(i));
      }
      assert Times(firstByte + Marker(l) - 256, Radix(l)) == (firstByte + Marker(l) - 256) * Radix(l);
      return Some(num);
    }

    /** The 4-byte form shifts by 32, which leaves a 32-bit number as it is. */
    method VarU32() returns (r: Option<nat>)
      requires Valid()
      modifies this
      ensures Valid() && Agrees(r, Rest(), DecodeNat32(old(Rest())))
      ensures r.None? ==> Rest() == AfterFirst(old(Rest()))
    {
      hide HeaderBytes, FromLE;
      if offset + 1 > |source| {
        return None;
      }
      var firstByte := source[offset];
      var l := HeaderBytes(firstByte);
      ghost var rest := old(Rest());
      offset := offset + 1;
      if l == 0 {
        OneByteNumber(firstByte);
        return Some(firstByte);
      }
      if l > 4 || offset + l > |source| {
        return None;
      }
      HeaderNonNegative(firstByte);
      var mostSignificant := firstByte + Marker(l) - 256;
      if l < 4 {
        mostSignificant := mostSignificant * Radix(l);
      } else if mostSignificant != 0 {
        return None;
      }
      ghost var mid := Rest();
      assert mid == rest[1..] && mid[..l] == rest[1..l + 1] && mid[l..] == rest[l + 1..];
      var low := Number(l);
      r := Some(mostSignificant + low.value);
    }

    method Bool() returns (r: Option<bool>)
      requires Valid()
      modifies this
      ensures Valid()
      ensures r.None? <==> |old(Rest())| == 0 || old(Rest())[0] > 1
      ensures r.None? ==> Rest() == AfterFirst(old(Rest()))
      ensures r.Some? ==> r.value == (old(Rest())[0] == 1) && Rest() == old(Rest())[1..]
    {
      var num := Number(1);
      if num.Some? {
        OneByte(old(Rest()));
      }
      r := if num.None? || num.value > 1 then None else Some(num.value == 1);
    }

    method BitVecFixLen(bitLength: nat) returns (r: Option<Value>)
      requires Valid()
      modifies this
      ensures Valid() && Agrees(r, Rest(), DecodeBits(old(Rest()), bitLength))
    {
      hide Pow2;
      if bitLength == 0 {
        assert old(Rest())[..0] == [] && old(Rest())[0..] == old(Rest());
        return Some(Bits([], 0));
      }
      var byteLength := (bitLength + 7) / 8;
      var bytes := Read(byteLength);
      if bytes.None? {
        return None;
      }
      var emptyBitsStart := bitLength % 8;
      if emptyBitsStart > 0 {
        var emptyBits := bytes.value[byteLength - 1] / Pow2(emptyBitsStart);
        if emptyBits > 0 {
          return None;
        }
      }
      r := Some(Bits(bytes.value, bitLength));
    }

    method Primitive(d: Desc) returns (r: Option<Value>)
      requires Valid() && IsPrimitive(d)
      modifies this
      ensures Valid() && Agrees(r, Rest(), Decode(d, old(Rest())))
    {
      hide Pow2, DecodeNat, DecodeNat32, DecodeBits, TailIsZero, FromLE;
      match d
      case Nothing =>
        r := Some(Unit);
      case UInt(size) =>
        var n := Number(size);
        r := if n.None? then None else Some(Num(n.value));
      case Int(size) =>
        var n := Number(size);
        if n.None? {
          r := None;
        } else if size > 0 && n.value >= Pow2(8 * size - 1) {
          r := Some(Num(n.value - Pow2(8 * size)));
        } else {
          r := Some(Num(n.value));
        }
      case Boolean =>
        var b := this.Bool();
        r := if b.None? then None else Some(Value.Bool(b.value));
      case VarU32 =>
        var n := this.VarU32();
        r := if n.None? then None else Some(Num(n.value));
      case VarU64 =>
        var n := this.VarU64();
        r := if n.None? then None else Some(Num(n.value));
      case FixBytes(len) =>
        var bytes := Read(len);
        r := if bytes.None? then None else Some(Raw(bytes.value));
      case Blob =>
        var len := this.VarU32();
        if len.None? {
          return None;
        }
        var bytes := Read(len.value);
        r := if bytes.None? then None else Some(Raw(bytes.value));
      case BitVecFix(bits) =>
        r := BitVecFixLen(bits);
      case BitVecVar =>
        var bits := this.VarU32();
        if bits.None? {
          return None;
        }
        r := BitVecFixLen(bits.value);
    }

    /** The `decode` function of every combinator. */
    method DecodeValue(d: Desc) returns (r: Option<Value>)
      requires Valid()
      modifies this
      ensures Valid() && Agrees(r, Rest(), Decode(d, old(Rest())))
      decreases d, 3, 0
    {
      hide DecodeNat32, DecodeItems, DecodeEntries, DecodeFields, HasKey;
      if IsPrimitive(d) {
        r := Primitive(d);
        return;
      }
      match d
      case Optional(e) =>
        var isSet := this.Bool();
        if isSet.None? {
          return None;
        }
        if !isSet.value {
          return Some(Absent);
        }
        var v := DecodeValue(e);
        r := if v.None? then None else Some(Present(v.value));
      case SeqVar(e, min, max) =>
        var len := this.VarU32();
        if len.None? || !(min <= len.value <= max) {
          return None;
        }
        var items := DecodeList(e, len.value);
        r := if items.None? then None else Some(List(items.value));
      case SeqFix(e, len) =>
        var items := DecodeList(e, len);
        r := if items.None? then None else Some(List(items.value));
      case Dictionary(_, _, _, fixed) =>
        var len := fixed;
        if fixed.None? {
          len := this.VarU32();
          if len.None? {
            return None;
          }
        }
        var entries := DecodeMap(d, len.value);
        r := if entries.None? then None else Some(Dict(entries.value));
      case Pair(a, b) =>
        var x := DecodeValue(a);
        if x.None? {
          return None;
        }
        var y := DecodeValue(b);
        r := if y.None? then None else Some(Record([x.value, y.value]));
      case Union(ds) =>
        var idx := this.VarU32();
        if idx.None? || idx.value >= |ds| {
          return None;
        }
        var v := DecodeValue(ds[idx.value]);
        r := if v.None? then None else Some(Tagged(idx.value, v.value));
      case Class(ds) =>
        var fields := DecodeRecord(ds);
        r := if fields.None? then None else Some(Record(fields.value));
    }

    /** `sequenceFixLen`. */
    method DecodeList(d: Desc, len: nat) returns (r: Option<seq<Value>>)
      requires Valid()
      modifies this
      ensures Valid() && Agrees(r, Rest(), DecodeItems(d, len, old(Rest())))
      decreases d, 4, 0
    {
      hide Decode, DecodeItems;
      var result: seq<Value> := [];
      StartsEmpty(DecodeItems(d, len, Rest()));
      for i := 0 to len
        invariant Valid() && |result| == i
        invariant DecodeItems(d, len, old(Rest())) == After(result, DecodeItems(d, len - i, Rest()))
      {
        ItemStep(d, len - i, Rest(), result);
        var v := DecodeValue(d);
        if v.None? {
          return None;
        }
        result := result + [v.value];
      }
      NoMoreItems(d, Rest(), result);
      r := Some(result);
    }

    /** The decoding loop of `dictionary`; the map is the entries in insertion order. */
    method DecodeMap(d: Desc, len: nat) returns (r: Option<seq<Entry>>)
      requires Valid() && d.Dictionary?
      modifies this
      ensures Valid() && Agrees(r, Rest(), DecodeEntries(d, len, old(Rest()), []))
      decreases d, 2, 0
    {
      hide Decode, HasKey;
      var entries: seq<Entry> := [];
      for i := 0 to len
        invariant Valid()
        invariant DecodeEntries(d, len, old(Rest()), []) == DecodeEntries(d, len - i, Rest(), entries)
      {
        var k := DecodeValue(d.key);
        if k.None? {
          return None;
        }
        var v := DecodeValue(d.value);
        if v.None? {
          return None;
        }
        if HasKey(entries, k.value) {
          return None;
        }
        if entries != [] && d.sortKeys(entries[|entries| - 1].0, k.value) >= 0 {
          return None;
        }
        entries := entries + [(k.value, v.value)];
      }
      r := Some(entries);
    }

    /** The decoding loop of `Class`. */
    method DecodeRecord(ds: seq<Desc>) returns (r: Option<seq<Value>>)
      requires Valid()
      modifies this
      ensures Valid() && Agrees(r, Rest(), DecodeFields(ds, old(Rest())))
      decreases ds, 0, 0
    {
      hide Decode, DecodeFields;
      var fields: seq<Value> := [];
      StartsEmpty(DecodeFields(ds, Rest()));
      assert ds[0..] == ds;
      for i := 0 to |ds|
        invariant Valid() && |fields| == i
        invariant DecodeFields(ds, old(Rest())) == After(fields, DecodeFields(ds[i..], Rest()))
      {
        FieldStep(ds, i, Rest(), fields);
        var v := DecodeValue(ds[i]);
        if v.None? {
          return None;
        }
        fields := fields + [v.value];
      }
      NoMoreFields(ds[|ds|..], Rest(), fields);
      r := Some(fields);
    }

    /** The `skip` function of every combinator. */
    method SkipValue(d: Desc) returns (ok: bool)
      requires Valid()
      modifies this
      ensures Valid() && ok == Skip(d, old(Rest())).Some?
      ensures Rest() == if ok then Skip(d, old(Rest())).value else SkipStop(d, old(Rest()))
      decreases d, 3, 0
    {
      hide DecodeNat32, SkipItems, SkipFields, FieldsHint, ItemsStop, FieldsStop;
      match d
      case Nothing =>
        ok := true;
      case UInt(size) =>
        ok := Advance(size);
      case Int(size) =>
        ok := Advance(size);
      case Boolean =>
        ok := Advance(1);
      case VarU32 =>
        ok := SkipVar();
      case VarU64 =>
        ok := SkipVar();
      case FixBytes(len) =>
        ok := Advance(len);
      case Blob =>
        var len := this.VarU32();
        if len.None? {
          return false;
        }
        ok := Advance(len.value);
      case BitVecFix(bits) =>
        ok := Advance((bits + 7) / 8);
      case BitVecVar =>
        var bits := this.VarU32();
        if bits.None? {
          return false;
        }
        ok := Advance((bits.value + 7) / 8);
      case _ =>
        ok := SkipComposite(d);
    }

    method SkipComposite(d: Desc) returns (ok: bool)
      requires Valid() && !IsPrimitive(d)
      modifies this
      ensures Valid() && ok == Skip(d, old(Rest())).Some?
      ensures Rest() == if ok then Skip(d, old(Rest())).value else SkipStop(d, old(Rest()))
      decreases d, 2, 0
    {
      hide DecodeNat32, SkipItems, SkipFields, FieldsHint, ItemsStop, FieldsStop;
      match d
      case Optional(e) =>
        var isSet := this.Bool();
        if isSet.None? {
          return false;
        }
        ok := true;
        if isSet.value {
          ok := SkipValue(e);
        }
      case SeqVar(e, min, max) =>
        var len := this.VarU32();
        if len.None? || !(min <= len.value <= max) {
          return false;
        }
        ok := SkipList(e, len.value);
      case SeqFix(e, len) =>
        ok := SkipList(e, len);
      case Dictionary(k, e, _, fixed) =>
        var len := fixed;
        if fixed.None? {
          len := this.VarU32();
          if len.None? {
            return false;
          }
        }
        ok := SkipList(k, len.value);
        if ok {
          ok := SkipList(e, len.value);
        }
      case Pair(a, b) =>
        ok := SkipValue(a);
        if ok {
          ok := SkipValue(b);
        }
      case Union(ds) =>
        var idx := this.VarU32();
        if idx.None? || idx.value >= |ds| {
          return false;
        }
        ok := SkipValue(ds[idx.value]);
      case Class(ds) =>
        var sizeHint := Hint(d);
        if sizeHint.exact {
          ok := Advance(sizeHint.bytes);
        } else {
          ok := SkipRecord(ds);
        }
    }

    method SkipVar() returns (ok: bool)
      requires Valid()
      modifies this
      ensures Valid() && ok == SkipNat(old(Rest())).Some?
      ensures Rest() == if ok then SkipNat(old(Rest())).value else AfterFirst(old(Rest()))
    {
      hide HeaderBytes, FromLE;
      var firstByte := Number(1);
      if firstByte.None? {
        return false;
      }
      OneByte(old(Rest()));
      ok := Advance(HeaderBytes(firstByte.value));
    }

    method SkipList(d: Desc, len: nat) returns (ok: bool)
      requires Valid()
      modifies this
      ensures Valid() && ok == SkipItems(d, len, old(Rest())).Some?
      ensures Rest() == if ok then SkipItems(d, len, old(Rest())).value else ItemsStop(d, len, old(Rest()))
      decreases d, 4, 0
    {
      hide Skip, SkipStop;
      for i := 0 to len
        invariant Valid() && SkipItems(d, len, old(Rest())) == SkipItems(d, len - i, Rest())
        invariant ItemsStop(d, len, old(Rest())) == ItemsStop(d, len - i, Rest())
      {
        ok := SkipValue(d);
        if !ok {
          return;
        }
      }
      ok := true;
    }

    method SkipRecord(ds: seq<Desc>) returns (ok: bool)
      requires Valid()
      modifies this
      ensures Valid() && ok == SkipFields(ds, old(Rest())).Some?
      ensures Rest() == if ok then SkipFields(ds, old(Rest())).value else FieldsStop(ds, old(Rest()))
      decreases ds, 0, 0
    {
      hide Skip, SkipStop;
      assert ds[0..] == ds;
      for i := 0 to |ds|
        invariant Valid() && SkipFields(ds, old(Rest())) == SkipFields(ds[i..], Rest())
        invariant FieldsStop(ds, old(Rest())) == FieldsStop(ds[i..], Rest())
      {
        assert ds[i..][0] == ds[i] && ds[i..][1..] == ds[i + 1..];
        ok := SkipValue(ds[i]);
        if !ok {
          return;
        }
      }
      ok := true;
    }
  }

  /** `Decoder.decodeObject`: bytes that are left over are an error. */
  method DecodeObject(d: Desc, bs: seq<byte>) returns (r: Option<Value>)
    ensures forall v :: r == Some(v) <==> Decode(d, bs) == Some((v, []))
  {
    hide Decode;
    var decoder := new Decoder(bs, 0);
    assert bs[0..] == bs;
    r := decoder.DecodeValue(d);
    if r.Some? && decoder.offset < |bs| {
      return None;
    }
  }

  predicate IsPrimitive(d: Desc) {
    d.Nothing? || d.UInt? || d.Int? || d.Boolean? || d.VarU32? || d.VarU64? || d.FixBytes? || d.Blob? ||
        d.BitVecFix? || d.BitVecVar?
  }

  // ----- steps of the loops -----

  /** A decoded list in front of which `done` has been decoded. */
  function After(done: seq<Value>, r: Option<(seq<Value>, seq<byte>)>): Option<(seq<Value>, seq<byte>)> {
    match r case None => None case Some((vs, rest)) => Some((done + vs, rest))
  }

  lemma StartsEmpty(r: Option<(seq<Value>, seq<byte>)>)
    ensures After([], r) == r
  {
    if r.Some? {
      assert [] + r.value.0 == r.value.0;
    }
  }

  lemma AfterOne(done: seq<Value>, v: Value, r: Option<(seq<Value>, seq<byte>)>)
    ensures After(done + [v], r) == After(done, After([v], r))
  {
    if r.Some? {
      assert done + [v] + r.value.0 == done + ([v] + r.value.0);
    }
  }

  lemma ItemStep(d: Desc, n: nat, bs: seq<byte>, done: seq<Value>)
    requires n > 0
    ensures After(done, DecodeItems(d, n, bs)) ==
            match Decode(d, bs) case None => None case Some((v, rest)) => After(done + [v], DecodeItems(d, n - 1, rest))
  {
    hide Decode;
    if Decode(d, bs).Some? {
      var (v, rest) := Decode(d, bs).value;
      AfterOne(done, v, DecodeItems(d, n - 1, rest));
    }
  }

  lemma NoMoreItems(d: Desc, bs: seq<byte>, done: seq<Value>)
    ensures After(done, DecodeItems(d, 0, bs)) == Some((done, bs))
  {
    assert done + [] == done;
  }

  lemma FieldStep(ds: seq<Desc>, i: nat, bs: seq<byte>, done: seq<Value>)
    requires i < |ds|
    ensures After(done, DecodeFields(ds[i..], bs)) ==
            match Decode(ds[i], bs) case None => None case Some((v, rest)) => After(done + [v],
                DecodeFields(ds[i + 1..], rest))
  {
    hide Decode;
    assert ds[i..][0] == ds[i] && ds[i..][1..] == ds[i + 1..];
    if Decode(ds[i], bs).Some? {
      var (v, rest) := Decode(ds[i], bs).value;
      AfterOne(done, v, DecodeFields(ds[i + 1..], rest));
    }
  }

  lemma NoMoreFields(ds: seq<Desc>, bs: seq<byte>, done: seq<Value>)
    requires ds == []
    ensures After(done, DecodeFields(ds, bs)) == Some((done, bs))
  {
    assert done + [] == done;
  }

  lemma OneByte(bs: seq<byte>)
    requires |bs| > 0
    ensures FromLE(bs[..1]) == bs[0]
  {
    assert bs[..1] == [bs[0]];
    assert FromLE([bs[0]]) == bs[0] + 256 * FromLE([bs[0]][1..]);
  }

  lemma NoBytes()
    ensures FromLE([]) == 0
  {
  }

  lemma OneByteNumber(first: byte)
    requires HeaderBytes(first) == 0
    ensures Assemble(first, []) == first
  {
  }

  lemma {:induction false} FromLEAppend(bs: seq<byte>, b: byte)
    requires |bs| <= 8
    ensures FromLE(bs + [b]) == FromLE(bs) + Times(b, Radix(|bs|))
  {
    if bs == [] {
      assert [] + [b] == [b];
      assert FromLE([b][1..]) == 0;
    } else {
      assert (bs + [b])[1..] == bs[1..] + [b];
      FromLEAppend(bs[1..], b);
      assert Times(b, Radix(|bs|)) == 256 * Times(b, Radix(|bs| - 1)) by {
        assert Radix(|bs|) == 256 * Radix(|bs| - 1);
      }
    }
  }
}

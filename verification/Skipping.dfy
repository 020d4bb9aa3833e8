/** Moving past a value without decoding it, and the size hints the skipper relies on. */
module Skipping {
  import opened Bytes
  import opened Naturals
  import opened Descriptors

  const TYPICAL_SEQUENCE_LENGTH := 64
  const TYPICAL_DICTIONARY_LENGTH := 32

  datatype SizeHint = SizeHint(bytes: nat, exact: bool)

  function AddHints(a: SizeHint, b: SizeHint): SizeHint {
    SizeHint(a.bytes + b.bytes, a.exact && b.exact)
  }

  function Times(n: nat, m: nat): nat {
    n * m
  }

  /** The size hint every combinator attaches to its descriptor. */
  function Hint(d: Desc): SizeHint
    decreases d, 0
  {
    match d
    case Nothing => SizeHint(0, true)
    case UInt(size) => SizeHint(size, true)
    case Int(size) => SizeHint(size, true)
    case Boolean => SizeHint(1, true)
    case VarU32 => SizeHint(4, false)
    case VarU64 => SizeHint(8, false)
    case FixBytes(len) => SizeHint(len, true)
    case Blob => SizeHint(TYPICAL_SEQUENCE_LENGTH, false)
    case BitVecFix(bits) => SizeHint(bits / 8, true)
    case BitVecVar => SizeHint(TYPICAL_SEQUENCE_LENGTH / 8, false)
    case Optional(e) => AddHints(SizeHint(1, false), Hint(e))
    case SeqVar(e, _, _) => SizeHint(Times(TYPICAL_SEQUENCE_LENGTH, Hint(e).bytes), false)
    case SeqFix(e, len) => SizeHint(Times(len, Hint(e).bytes), Hint(e).exact)
    case Dictionary(k, e, _, fixed) =>
      var both := AddHints(Hint(k), Hint(e));
      if fixed.Some? then SizeHint(Times(fixed.value, both.bytes), both.exact)
      else SizeHint(Times(TYPICAL_DICTIONARY_LENGTH, both.bytes), false)
    case Pair(a, b) => AddHints(Hint(a), Hint(b))
    case Union(ds) => SizeHint(1 + MaxHint(ds), false)
    case Class(ds) => FieldsHint(ds)
  }

  function FieldsHint(ds: seq<Desc>): SizeHint
    decreases ds, 0
  {
    if ds == [] then SizeHint(0, true) else AddHints(Hint(ds[0]), FieldsHint(ds[1..]))
  }

  function MaxHint(ds: seq<Desc>): nat
    decreases ds, 0
  {
    if ds == [] then 0
    else if Hint(ds[0]).bytes >= MaxHint(ds[1..]) then Hint(ds[0]).bytes
    else MaxHint(ds[1..])
  }

  function Drop(bs: seq<byte>, n: nat): Option<seq<byte>> {
    if |bs| < n then None else Some(bs[n..])
  }

  /** The `skip` function of every combinator. */
  function Skip(d: Desc, bs: seq<byte>): Option<seq<byte>>
    decreases d, 1, 0
  {
    match d
    case Nothing => Some(bs)
    case UInt(size) => Drop(bs, size)
    case Int(size) => Drop(bs, size)
    case Boolean => Drop(bs, 1)
    case VarU32 => SkipNat(bs)
    case VarU64 => SkipNat(bs)
    case FixBytes(len) => Drop(bs, len)
    case Blob => (match DecodeNat32(bs) case None => None case Some((len, rest)) => Drop(rest, len))
    case BitVecFix(bits) => Drop(bs, ByteLength(bits))
    case BitVecVar => (match DecodeNat32(bs) case None => None case Some((bits, rest)) => Drop(rest, ByteLength(bits)))
    case Optional(e) =>
      if |bs| == 0 || bs[0] > 1 then None else if bs[0] == 0 then Some(bs[1..]) else Skip(e, bs[1..])
    case SeqVar(e, min, max) =>
      (match DecodeNat32(bs)
       case None => None
       case Some((len, rest)) => if min <= len <= max then SkipItems(e, len, rest) else None)
    case SeqFix(e, len) => SkipItems(e, len, bs)
    case Dictionary(_, _, _, fixed) =>
      if fixed.Some? then SkipKeysThenValues(d, fixed.value, bs)
      else (match DecodeNat32(bs) case None => None case Some((len, rest)) => SkipKeysThenValues(d, len, rest))
    case Pair(a, b) => (match Skip(a, bs) case None => None case Some(rest) => Skip(b, rest))
    case Union(ds) =>
      (match DecodeNat32(bs) case None => None case Some((i, rest)) => if i >= |ds| then None else Skip(ds[i], rest))
    case Class(ds) => if Hint(d).exact then Drop(bs, Hint(d).bytes) else SkipFields(ds, bs)
  }

  function SkipNat(bs: seq<byte>): Option<seq<byte>> {
    if |bs| == 0 then None else Drop(bs[1..], HeaderBytes(bs[0]))
  }

  function SkipItems(d: Desc, n: nat, bs: seq<byte>): Option<seq<byte>>
    decreases d, 2, n
  {
    if n == 0 then Some(bs)
    else (match Skip(d, bs) case None => None case Some(rest) => SkipItems(d, n - 1, rest))
  }

  /** The dictionary skipper passes over all keys and then over all values. */
  function SkipKeysThenValues(d: Desc, n: nat, bs: seq<byte>): Option<seq<byte>>
    requires d.Dictionary?
    decreases d, 0, 0
  {
    match SkipItems(d.key, n, bs) case None => None case Some(rest) => SkipItems(d.value, n, rest)
  }

  function SkipFields(ds: seq<Desc>, bs: seq<byte>): Option<seq<byte>>
    decreases ds, 0, 0
  {
    if ds == [] then Some(bs)
    else (match Skip(ds[0], bs) case None => None case Some(rest) => SkipFields(ds[1..], rest))
  }

  // ----- where skipping throws -----

  function AfterFirst(bs: seq<byte>): seq<byte> {
    if |bs| == 0 then bs else bs[1..]
  }

  /** What the cursor has not passed when skipping throws. */
  function SkipStop(d: Desc, bs: seq<byte>): seq<byte>
    decreases d, 1, 0
  {
    match d
    case VarU32 => AfterFirst(bs)
    case VarU64 => AfterFirst(bs)
    case Blob => LengthStop(bs)
    case BitVecVar => LengthStop(bs)
    case Optional(e) => if |bs| == 0 || bs[0] != 1 then AfterFirst(bs) else SkipStop(e, bs[1..])
    case SeqVar(e, min, max) =>
      (match DecodeNat32(bs)
       case None => AfterFirst(bs)
       case Some((len, rest)) => if min <= len <= max then ItemsStop(e, len, rest) else rest)
    case SeqFix(e, len) => ItemsStop(e, len, bs)
    case Dictionary(_, _, _, fixed) =>
      if fixed.Some? then KeysThenValuesStop(d, fixed.value, bs)
      else
        (match DecodeNat32(bs) case None => AfterFirst(bs) case Some((len, rest)) => KeysThenValuesStop(d, len, rest))
    case Pair(a, b) => (match Skip(a, bs) case None => SkipStop(a, bs) case Some(rest) => SkipStop(b, rest))
    case Union(ds) =>
      (match DecodeNat32(bs)
       case None => AfterFirst(bs)
       case Some((i, rest)) => if i >= |ds| then rest else SkipStop(ds[i], rest))
    case Class(ds) => if Hint(d).exact then bs else FieldsStop(ds, bs)
    case _ => bs
  }

  /** A length that cannot be read, or one that goes beyond the end. */
  function LengthStop(bs: seq<byte>): seq<byte> {
    match DecodeNat32(bs) case None => AfterFirst(bs) case Some((_, rest)) => rest
  }

  function ItemsStop(d: Desc, n: nat, bs: seq<byte>): seq<byte>
    decreases d, 2, n
  {
    if n == 0 then bs
    else (match Skip(d, bs) case None => SkipStop(d, bs) case Some(rest) => ItemsStop(d, n - 1, rest))
  }

  function KeysThenValuesStop(d: Desc, n: nat, bs: seq<byte>): seq<byte>
    requires d.Dictionary?
    decreases d, 0, 0
  {
    match SkipItems(d.key, n, bs)
    case None => ItemsStop(d.key, n, bs)
    case Some(rest) => ItemsStop(d.value, n, rest)
  }

  function FieldsStop(ds: seq<Desc>, bs: seq<byte>): seq<byte>
    decreases ds, 0, 0
  {
    if ds == [] then bs
    else (match Skip(ds[0], bs) case None => SkipStop(ds[0], bs) case Some(rest) => FieldsStop(ds[1..], rest))
  }

  // ----- fixed sizes -----

  /** The number of bytes every encoding of a fixed-size descriptor has. */
  function TrueSize(d: Desc): Option<nat>
    decreases d, 0
  {
    match d
    case Nothing => Some(0)
    case UInt(size) => Some(size)
    case Int(size) => Some(size)
    case Boolean => Some(1)
    case FixBytes(len) => Some(len)
    case BitVecFix(bits) => Some(ByteLength(bits))
    case SeqFix(e, len) => (match TrueSize(e) case None => None case Some(n) => Some(Times(len, n)))
    case Dictionary(k, e, _, fixed) =>
      (match (TrueSize(k), TrueSize(e), fixed)
       case (Some(n), Some(m), Some(len)) => Some(Times(len, n + m))
       case _ => None)
    case Pair(a, b) => Sum(TrueSize(a), TrueSize(b))
    case Class(ds) => FieldsSize(ds)
    case _ => None
  }

  function Sum(a: Option<nat>, b: Option<nat>): Option<nat> {
    if a.Some? && b.Some? then Some(a.value + b.value) else None
  }

  function FieldsSize(ds: seq<Desc>): Option<nat>
    decreases ds, 0
  {
    if ds == [] then Some(0) else Sum(TrueSize(ds[0]), FieldsSize(ds[1..]))
  }

  /** Every fixed bit vector that contributes to the size has a length divisible by 8. */
  ghost predicate Aligned(d: Desc)
    decreases d, 0
  {
    match d
    case BitVecFix(bits) => bits % 8 == 0
    case SeqFix(e, len) => len == 0 || Aligned(e)
    case Dictionary(k, e, _, fixed) => fixed == Some(0) || (Aligned(k) && Aligned(e))
    case Pair(a, b) => Aligned(a) && Aligned(b)
    case Class(ds) => forall e | e in ds :: Aligned(e)
    case _ => true
  }

  lemma TimesStep(n: nat, m: nat)
    requires n > 0
    ensures Times(n, m) == m + Times(n - 1, m)
  {
  }

  lemma TimesZero(m: nat)
    ensures Times(0, m) == 0
  {
  }

  lemma {:induction false} TimesAtMost(n: nat, a: nat, b: nat)
    requires a <= b
    ensures Times(n, a) <= Times(n, b)
    ensures Times(n, a) == Times(n, b) <==> n == 0 || a == b
  {
    hide Times;
    if n == 0 {
      TimesZero(a);
      TimesZero(b);
    } else {
      TimesStep(n, a);
      TimesStep(n, b);
      TimesAtMost(n - 1, a, b);
    }
  }

  /**
   Hints marked exact: fixed-size descriptors have them, and they are the true size exactly when bit vectors are
   aligned.
   */
  lemma {:induction false} ExactHints(d: Desc)
    ensures Hint(d).exact <==> TrueSize(d).Some?
    ensures Hint(d).exact ==> Hint(d).bytes <= TrueSize(d).value && (Hint(d).bytes == TrueSize(d).value <==> Aligned(d))
    decreases d, 0
  {
    hide Times;
    match d
    case SeqFix(e, len) =>
      ExactHints(e);
      if Hint(e).exact {
        TimesAtMost(len, Hint(e).bytes, TrueSize(e).value);
      }
    case Dictionary(k, e, _, fixed) =>
      ExactHints(k);
      ExactHints(e);
      if Hint(d).exact {
        TimesAtMost(fixed.value, Hint(k).bytes + Hint(e).bytes, TrueSize(k).value + TrueSize(e).value);
      }
    case Pair(a, b) =>
      ExactHints(a);
      ExactHints(b);
    case Class(ds) => ExactFieldHints(ds);
    case _ =>
  }

  lemma {:induction false} ExactFieldHints(ds: seq<Desc>)
    ensures FieldsHint(ds).exact <==> FieldsSize(ds).Some?
    ensures FieldsHint(ds).exact ==>
            && FieldsHint(ds).bytes <= FieldsSize(ds).value
            && (FieldsHint(ds).bytes == FieldsSize(ds).value <==> forall e | e in ds :: Aligned(e))
    decreases ds, 0
  {
    if ds != [] {
      ExactHints(ds[0]);
      ExactFieldHints(ds[1..]);
      assert ds == [ds[0]] + ds[1..];
    }
  }

  // ----- decoding a fixed-size descriptor consumes its true size -----

  lemma {:induction false} FixedDecode(d: Desc, bs: seq<byte>)
    requires TrueSize(d).Some? && Decode(d, bs).Some?
    ensures TrueSize(d).value <= |bs| && Decode(d, bs).value.1 == bs[TrueSize(d).value..]
    decreases d, 1, 0
  {
    hide Pow2, FromLE, TailIsZero, HasKey, Times, DecodeItems, DecodeEntries, DecodeFields, FieldsSize;
    match d
    case SeqFix(e, len) => FixedDecodeItems(e, len, bs);
    case Dictionary(_, _, _, fixed) => FixedDecodeEntries(d, fixed.value, bs, []);
    case Pair(a, b) =>
      FixedDecode(a, bs);
      FixedDecode(b, Decode(a, bs).value.1);
    case Class(ds) => FixedDecodeFields(ds, bs);
    case _ =>
  }

  lemma {:induction false} FixedDecodeItems(d: Desc, n: nat, bs: seq<byte>)
    requires TrueSize(d).Some? && DecodeItems(d, n, bs).Some?
    ensures Times(n, TrueSize(d).value) <= |bs| && DecodeItems(d, n, bs).value.1 == bs[Times(n, TrueSize(d).value)..]
    decreases d, 2, n
  {
    hide Times, Decode, TrueSize;
    if n == 0 {
      TimesZero(TrueSize(d).value);
    } else {
      FixedDecode(d, bs);
      FixedDecodeItems(d, n - 1, Decode(d, bs).value.1);
      TimesStep(n, TrueSize(d).value);
    }
  }

  lemma {:induction false} FixedDecodeEntries(d: Desc, n: nat, bs: seq<byte>, done: seq<Entry>)
    requires d.Dictionary? && TrueSize(d.key).Some? && TrueSize(d.value).Some? && DecodeEntries(d, n, bs, done).Some?
    ensures var m := Times(n, TrueSize(d.key).value + TrueSize(d.value).value);
            m <= |bs| && DecodeEntries(d, n, bs, done).value.1 == bs[m..]
    decreases d, 0, n
  {
    hide Times, Decode, TrueSize, HasKey;
    var m := TrueSize(d.key).value + TrueSize(d.value).value;
    if n == 0 {
      TimesZero(m);
    } else {
      FixedDecode(d.key, bs);
      var (k, rest) := Decode(d.key, bs).value;
      FixedDecode(d.value, rest);
      var (v, rest') := Decode(d.value, rest).value;
      FixedDecodeEntries(d, n - 1, rest', done + [(k, v)]);
      TimesStep(n, m);
    }
  }

  lemma {:induction false} FixedDecodeFields(ds: seq<Desc>, bs: seq<byte>)
    requires FieldsSize(ds).Some? && DecodeFields(ds, bs).Some?
    ensures FieldsSize(ds).value <= |bs| && DecodeFields(ds, bs).value.1 == bs[FieldsSize(ds).value..]
    decreases ds, 0, 0
  {
    hide Decode, TrueSize;
    if ds != [] {
      FixedDecode(ds[0], bs);
      FixedDecodeFields(ds[1..], Decode(ds[0], bs).value.1);
    }
  }

  // ----- when skipping agrees with decoding -----

  /** Numbers of either width are skipped alike. */
  ghost predicate SkipsAlike(k: Desc, e: Desc) {
    k == e || ((k.VarU32? || k.VarU64?) && (e.VarU32? || e.VarU64?))
  }

  /** Dictionaries for which it does not matter that keys and values alternate. */
  ghost predicate OrderFree(k: Desc, e: Desc, fixed: Option<nat>) {
    || (TrueSize(k).Some? && TrueSize(e).Some?) || TrueSize(k) == Some(0) || TrueSize(e) == Some(0)
    || SkipsAlike(k, e) || (fixed.Some? && fixed.value <= 1)
  }

  /** Descriptors of a fixed size whose `Class` shortcuts are sound are skipped by that size, whatever the bytes are. */
  ghost predicate SkipSound(d: Desc)
    decreases d
  {
    match d
    case Optional(e) => SkipSound(e)
    case SeqVar(e, _, _) => SkipSound(e)
    case SeqFix(e, _) => SkipSound(e)
    case Dictionary(k, e, _, fixed) =>
      SkipSound(k) && SkipSound(e) && OrderFree(k, e, fixed)
    case Pair(a, b) => SkipSound(a) && SkipSound(b)
    case Union(ds) => forall e | e in ds :: SkipSound(e)
    case Class(ds) => if Hint(d).exact then Aligned(d) else forall e | e in ds :: SkipSound(e)
    case _ => true
  }

  lemma {:induction false} SkipFixed(d: Desc, bs: seq<byte>)
    requires TrueSize(d).Some? && SkipSound(d)
    ensures Skip(d, bs) == Drop(bs, TrueSize(d).value)
    decreases d, 1, 0
  {
    hide Times, SkipItems, FieldsHint, FieldsSize;
    match d
    case SeqFix(e, len) => SkipFixedItems(e, len, bs);
    case Dictionary(k, e, _, fixed) => SkipFixedEntries(d, fixed.value, bs);
    case Pair(a, b) =>
      SkipFixed(a, bs);
      if Skip(a, bs).Some? {
        SkipFixed(b, Skip(a, bs).value);
      }
    case Class(ds) => ExactHints(d);
    case _ =>
  }

  lemma {:induction false} SkipFixedItems(d: Desc, n: nat, bs: seq<byte>)
    requires TrueSize(d).Some? && SkipSound(d)
    ensures SkipItems(d, n, bs) == Drop(bs, Times(n, TrueSize(d).value))
    decreases d, 2, n
  {
    hide Times, Skip, TrueSize, SkipSound;
    if n == 0 {
      TimesZero(TrueSize(d).value);
    } else {
      TimesStep(n, TrueSize(d).value);
      SkipFixed(d, bs);
      if Skip(d, bs).Some? {
        SkipFixedItems(d, n - 1, Skip(d, bs).value);
      }
    }
  }

  lemma {:induction false} TimesSum(n: nat, a: nat, b: nat)
    ensures Times(n, a + b) == Times(n, a) + Times(n, b)
  {
  }

  lemma SkipFixedEntries(d: Desc, n: nat, bs: seq<byte>)
    requires d.Dictionary? && TrueSize(d.key).Some? && TrueSize(d.value).Some? && SkipSound(d.key) && SkipSound(d.value)
    ensures SkipKeysThenValues(d, n, bs) == Drop(bs, Times(n, TrueSize(d.key).value + TrueSize(d.value).value))
    decreases d, 0, n
  {
    hide Times, SkipItems, TrueSize, SkipSound;
    SkipFixedItems(d.key, n, bs);
    TimesSum(n, TrueSize(d.key).value, TrueSize(d.value).value);
    if SkipItems(d.key, n, bs).Some? {
      SkipFixedItems(d.value, n, SkipItems(d.key, n, bs).value);
    }
  }

  lemma SkipNatAgrees(bs: seq<byte>)
    ensures DecodeNat(bs).Some? ==> SkipNat(bs) == Some(DecodeNat(bs).value.1)
    ensures DecodeNat32(bs).Some? ==> SkipNat(bs) == Some(DecodeNat32(bs).value.1)
  {
    if DecodeNat(bs).Some? {
      assert bs[1..][HeaderBytes(bs[0])..] == bs[HeaderBytes(bs[0]) + 1..];
    }
  }

  /** Whenever decoding succeeds, skipping stops at the same byte. */
  lemma {:induction false} SkipAgrees(d: Desc, bs: seq<byte>)
    requires SkipSound(d) && Decode(d, bs).Some?
    ensures Skip(d, bs) == Some(Decode(d, bs).value.1)
    decreases d, 1, 0
  {
    hide Pow2, FromLE, TailIsZero, HasKey, Times, DecodeNat, DecodeNat32, DecodeItems, DecodeEntries, DecodeFields;
    hide SkipItems, SkipFields, SkipKeysThenValues, SkipNat, FieldsHint, FieldsSize;
    match d
    case VarU32 => SkipNatAgrees(bs);
    case VarU64 => SkipNatAgrees(bs);
    case Optional(e) =>
      if bs[0] == 1 {
        SkipAgrees(e, bs[1..]);
      }
    case SeqVar(e, _, _) =>
      var (len, rest) := DecodeNat32(bs).value;
      SkipAgreesItems(e, len, rest);
    case SeqFix(e, len) => SkipAgreesItems(e, len, bs);
    case Dictionary(_, _, _, fixed) =>
      if fixed.Some? {
        SkipAgreesEntries(d, fixed.value, bs);
      } else {
        var (len, rest) := DecodeNat32(bs).value;
        SkipAgreesEntries(d, len, rest);
      }
    case Pair(a, b) =>
      SkipAgrees(a, bs);
      SkipAgrees(b, Decode(a, bs).value.1);
    case Union(ds) =>
      var (i, rest) := DecodeNat32(bs).value;
      SkipAgrees(ds[i], rest);
    case Class(ds) =>
      if Hint(d).exact {
        ExactHints(d);
        FixedDecode(d, bs);
      } else {
        SkipAgreesFields(ds, bs);
      }
    case _ =>
  }

  lemma {:induction false} SkipAgreesItems(d: Desc, n: nat, bs: seq<byte>)
    requires SkipSound(d) && DecodeItems(d, n, bs).Some?
    ensures SkipItems(d, n, bs) == Some(DecodeItems(d, n, bs).value.1)
    decreases d, 2, n
  {
    hide Decode, Skip, SkipSound;
    if n > 0 {
      SkipAgrees(d, bs);
      SkipAgreesItems(d, n - 1, Decode(d, bs).value.1);
    }
  }

  lemma {:induction false} SkipAgreesFields(ds: seq<Desc>, bs: seq<byte>)
    requires (forall e | e in ds :: SkipSound(e)) && DecodeFields(ds, bs).Some?
    ensures SkipFields(ds, bs) == Some(DecodeFields(ds, bs).value.1)
    decreases ds, 0, 0
  {
    hide Decode, Skip, SkipSound;
    if ds != [] {
      assert ds[0] in ds && forall e | e in ds[1..] :: e in ds;
      SkipAgrees(ds[0], bs);
      SkipAgreesFields(ds[1..], Decode(ds[0], bs).value.1);
    }
  }

  lemma SkipAgreesEntries(d: Desc, n: nat, bs: seq<byte>)
    requires d.Dictionary? && SkipSound(d) && DecodeEntries(d, n, bs, []).Some?
    requires d.fixedLength.Some? ==> n == d.fixedLength.value
    ensures SkipKeysThenValues(d, n, bs) == Some(DecodeEntries(d, n, bs, []).value.1)
    decreases d, 0, n + 1
  {
    hide Decode, Skip, SkipSound, Times, TrueSize, HasKey;
    SkipSoundParts(d);
    if TrueSize(d.key).Some? && TrueSize(d.value).Some? {
      SkipFixedEntries(d, n, bs);
      FixedDecodeEntries(d, n, bs, []);
    } else if n <= 1 {
      if n == 1 {
        SkipAgreesEntry(d, bs);
      }
    } else if TrueSize(d.value) == Some(0) {
      SkipAgreesKeysOnly(d, n, bs, []);
      SkipFixedItems(d.value, n, DecodeEntries(d, n, bs, []).value.1);
      TimesOfZero(n);
    } else if TrueSize(d.key) == Some(0) {
      SkipFixedItems(d.key, n, bs);
      TimesOfZero(n);
      SkipAgreesValuesOnly(d, n, bs, []);
    } else {
      SkipAgreesAlternating(d, n, bs, []);
    }
  }

  lemma {:induction false} TimesOfZero(n: nat)
    ensures Times(n, 0) == 0
  {
    if n > 0 {
      TimesOfZero(n - 1);
    }
  }

  /** Values without bytes: only the keys are skipped. */
  lemma {:induction false} SkipAgreesKeysOnly(d: Desc, n: nat, bs: seq<byte>, done: seq<Entry>)
    requires d.Dictionary? && SkipSound(d.key) && TrueSize(d.value) == Some(0) && DecodeEntries(d, n, bs, done).Some?
    ensures SkipItems(d.key, n, bs) == Some(DecodeEntries(d, n, bs, done).value.1)
    decreases d, 0, n
  {
    hide Decode, Skip, SkipSound, TrueSize, HasKey;
    if n > 0 {
      SkipAgrees(d.key, bs);
      var (k, rest) := Decode(d.key, bs).value;
      FixedDecode(d.value, rest);
      var (v, rest') := Decode(d.value, rest).value;
      assert rest' == rest;
      SkipAgreesKeysOnly(d, n - 1, rest', done + [(k, v)]);
    }
  }

  /** Keys without bytes: only the values are skipped. */
  lemma {:induction false} SkipAgreesValuesOnly(d: Desc, n: nat, bs: seq<byte>, done: seq<Entry>)
    requires d.Dictionary? && SkipSound(d.value) && TrueSize(d.key) == Some(0) && DecodeEntries(d, n, bs, done).Some?
    ensures SkipItems(d.value, n, bs) == Some(DecodeEntries(d, n, bs, done).value.1)
    decreases d, 0, n
  {
    hide Decode, Skip, SkipSound, TrueSize, HasKey;
    if n > 0 {
      FixedDecode(d.key, bs);
      var (k, rest) := Decode(d.key, bs).value;
      assert rest == bs;
      SkipAgrees(d.value, rest);
      var (v, rest') := Decode(d.value, rest).value;
      SkipAgreesValuesOnly(d, n - 1, rest', done + [(k, v)]);
    }
  }

  lemma {:induction false} AlikeItems(k: Desc, e: Desc, n: nat, bs: seq<byte>)
    requires SkipsAlike(k, e)
    ensures Skip(k, bs) == Skip(e, bs) && SkipItems(k, n, bs) == SkipItems(e, n, bs)
    decreases n
  {
    if n > 0 {
      AlikeItems(k, e, n - 1, bs);
      if Skip(k, bs).Some? {
        AlikeItems(k, e, n - 1, Skip(k, bs).value);
      }
    }
  }

  lemma SkipSoundParts(d: Desc)
    requires d.Dictionary? && SkipSound(d)
    ensures SkipSound(d.key) && SkipSound(d.value)
    ensures OrderFree(d.key, d.value, d.fixedLength)
  {
  }

  lemma SkipAgreesEntry(d: Desc, bs: seq<byte>)
    requires d.Dictionary? && SkipSound(d.key) && SkipSound(d.value) && DecodeEntries(d, 1, bs, []).Some?
    ensures SkipKeysThenValues(d, 1, bs) == Some(DecodeEntries(d, 1, bs, []).value.1)
    decreases d, 0, 0
  {
    hide Decode, Skip, SkipSound, HasKey;
    SkipAgrees(d.key, bs);
    SkipAgrees(d.value, Decode(d.key, bs).value.1);
    SkipOne(d.key, bs);
    SkipOne(d.value, Decode(d.key, bs).value.1);
  }

  lemma SkipOne(d: Desc, bs: seq<byte>)
    ensures SkipItems(d, 1, bs) == Skip(d, bs)
  {
    hide Skip;
    if Skip(d, bs).Some? {
      assert SkipItems(d, 0, Skip(d, bs).value) == Skip(d, bs);
    }
  }

  lemma {:induction false} SkipItemsSum(d: Desc, m: nat, n: nat, bs: seq<byte>)
    ensures SkipItems(d, m + n, bs)
         == match SkipItems(d, m, bs) case None => None case Some(rest) => SkipItems(d, n, rest)
    decreases m
  {
    hide Skip;
    if m > 0 && Skip(d, bs).Some? {
      SkipItemsSum(d, m - 1, n, Skip(d, bs).value);
    }
  }

  /** When keys and values are coded alike, it does not matter that they alternate. */
  lemma {:induction false} SkipAgreesAlternating(d: Desc, n: nat, bs: seq<byte>, done: seq<Entry>)
    requires d.Dictionary? && SkipsAlike(d.key, d.value) && SkipSound(d.key) && SkipSound(d.value)
    requires DecodeEntries(d, n, bs, done).Some?
    ensures SkipKeysThenValues(d, n, bs) == Some(DecodeEntries(d, n, bs, done).value.1)
    decreases d, 0, n
  {
    hide Decode, Skip, SkipSound, HasKey, SkipsAlike;
    SkipItemsSum(d.key, n, n, bs);
    if SkipItems(d.key, n, bs).Some? {
      AlikeItems(d.key, d.value, n, SkipItems(d.key, n, bs).value);
    }
    if n > 0 {
      SkipAgrees(d.key, bs);
      var (k, rest) := Decode(d.key, bs).value;
      SkipAgrees(d.value, rest);
      AlikeItems(d.key, d.value, 0, rest);
      var (v, rest') := Decode(d.value, rest).value;
      SkipAgreesAlternating(d, n - 1, rest', done + [(k, v)]);
      SkipItemsSum(d.key, n - 1, n - 1, rest');
      if SkipItems(d.key, n - 1, rest').Some? {
        AlikeItems(d.key, d.value, n - 1, SkipItems(d.key, n - 1, rest').value);
      }
      assert SkipItems(d.key, 2 * n, bs) == SkipItems(d.key, 2 * n - 2, rest');
    }
  }

  // ----- where it does not -----

  /** A class of fixed size is skipped correctly exactly when its bit vectors are aligned. */
  lemma ClassShortcutExactly(ds: seq<Desc>, bs: seq<byte>)
    requires Hint(Class(ds)).exact && Decode(Class(ds), bs).Some?
    ensures Skip(Class(ds), bs) == Some(Decode(Class(ds), bs).value.1) <==> Aligned(Class(ds))
  {
    var d := Class(ds);
    hide Decode, Aligned, TrueSize, FieldsHint;
    ExactHints(d);
    FixedDecode(d, bs);
  }

  /** A class of one four-bit vector: the byte it was read from is not skipped. */
  lemma MisalignedClassFails()
    ensures var d, bs := Class([BitVecFix(4)]), [0 as byte];
            Decode(d, bs).Some? && Decode(d, bs).value.1 == [] && Skip(d, bs) == Some(bs)
  {
    hide Decode, Skip;
    OneBitVector([0 as byte]);
    OneFieldClass(BitVecFix(4), [0 as byte]);
    assert Hint(BitVecFix(4)) == SizeHint(0, true);
  }

  lemma OneBitVector(bs: seq<byte>)
    requires bs == [0 as byte]
    ensures Decode(BitVecFix(4), bs).Some? && Decode(BitVecFix(4), bs).value.1 == []
  {
  }

  lemma OneFieldClass(d: Desc, bs: seq<byte>)
    ensures Decode(d, bs).Some? ==>
        Decode(Class([d]), bs) == Some((Record([Decode(d, bs).value.0]), Decode(d, bs).value.1))
    ensures Hint(d) == SizeHint(0, true) ==> Skip(Class([d]), bs) == Some(bs)
  {
    if Decode(d, bs).Some? {
      DecodeOneField(d, bs);
    }
    if Hint(d) == SizeHint(0, true) {
      SkipOneField(d, bs);
    }
  }

  lemma DecodeOneField(d: Desc, bs: seq<byte>)
    requires Decode(d, bs).Some?
    ensures Decode(Class([d]), bs) == Some((Record([Decode(d, bs).value.0]), Decode(d, bs).value.1))
  {
    hide Pow2, FromLE, DecodeNat, DecodeItems, DecodeEntries, TailIsZero;
    DecodeFieldsOne(d, bs);
  }

  lemma DecodeFieldsOne(d: Desc, bs: seq<byte>)
    requires Decode(d, bs).Some?
    ensures DecodeFields([d], bs) == Some(([Decode(d, bs).value.0], Decode(d, bs).value.1))
  {
    hide Decode;
    assert [d][1..] == [];
    var (v, rest) := Decode(d, bs).value;
    assert DecodeFields([], rest) == Some(([], rest));
    assert [v] + [] == [v];
  }

  lemma SkipOneField(d: Desc, bs: seq<byte>)
    requires Hint(d) == SizeHint(0, true)
    ensures Skip(Class([d]), bs) == Some(bs)
  {
    hide Skip;
    OneFieldHint(d);
    SkipByHint([d], bs);
    assert bs[0..] == bs;
  }

  lemma OneFieldHint(d: Desc)
    ensures FieldsHint([d]) == AddHints(Hint(d), SizeHint(0, true))
  {
    hide Hint;
    assert [d][1..] == [];
  }

  lemma SkipByHint(ds: seq<Desc>, bs: seq<byte>)
    requires FieldsHint(ds).exact
    ensures Skip(Class(ds), bs) == Drop(bs, FieldsHint(ds).bytes)
  {
    hide FieldsHint, SkipFields, SkipItems, Drop;
  }
  lemma EntryStep(d: Desc, n: nat, bs: seq<byte>, done: seq<Entry>, k: Value, v: Value, mid: seq<byte>, rest: seq<byte>)
    requires d.Dictionary? && n > 0
    requires Decode(d.key, bs) == Some((k, mid)) && Decode(d.value, mid) == Some((v, rest))
    requires forall e | e in done :: e.0 != k
    requires done != [] ==> d.sortKeys(done[|done| - 1].0, k) < 0
    ensures DecodeEntries(d, n, bs, done) == DecodeEntries(d, n - 1, rest, done + [(k, v)])
  {
    hide Decode;
    assert forall i | 0 <= i < |done| :: done[i] in done;
  }

  /**
   A dictionary of two entries with one-byte keys and variable-length values: the skipper fails on a valid encoding.
   */
  lemma DictionarySkipFails(cmp: Comparator)
    requires cmp(Num(1), Num(2)) < 0
    ensures var d, bs := Dictionary(UInt(1), Blob, cmp, Some(2)), [1 as byte, 0 as byte, 2 as byte, 0 as byte];
            Decode(d, bs) == Some((Dict([(Num(1), Raw([])), (Num(2), Raw([]))]), [])) && Skip(d, bs) == None
  {
    hide Decode, Skip, SkipItems, DecodeEntries;
    var d, bs := Dictionary(UInt(1), Blob, cmp, Some(2)), [1 as byte, 0 as byte, 2 as byte, 0 as byte];
    var e1: Entry, e2: Entry := (Num(1), Raw([])), (Num(2), Raw([]));
    ReadsByteThenEmptyBlob(bs, 1);
    ReadsByteThenEmptyBlob(bs[2..], 2);
    assert bs[2..][2..] == [] && [] + [e1] == [e1] && [e1] + [e2] == [e1, e2];
    EntryStep(d, 2, bs, [], Num(1), Raw([]), bs[1..], bs[2..]);
    EntryStep(d, 1, bs[2..], [e1], Num(2), Raw([]), bs[2..][1..], []);
    assert DecodeEntries(d, 0, [], [e1, e2]) == Some(([e1, e2], [])) by { NoMoreEntries(d, [e1, e2]); }
    FixedDictionary(d, 2, bs);
    TwoBytesThenBlob(bs);
  }

  lemma NoMoreEntries(d: Desc, done: seq<Entry>)
    requires d.Dictionary?
    ensures DecodeEntries(d, 0, [], done) == Some((done, []))
  {
  }

  lemma FixedDictionary(d: Desc, n: nat, bs: seq<byte>)
    requires d.Dictionary? && d.fixedLength == Some(n)
    ensures Decode(d, bs) == DictOf(DecodeEntries(d, n, bs, [])) && Skip(d, bs) == SkipKeysThenValues(d, n, bs)
  {
  }

  lemma TwoBytesThenBlob(bs: seq<byte>)
    requires |bs| == 4 && bs[2] == 2
    ensures SkipItems(UInt(1), 2, bs) == Some(bs[2..]) && SkipItems(Blob, 2, bs[2..]) == None
  {
    SkipOne(UInt(1), bs[1..]);
    assert bs[1..][1..] == bs[2..];
    var tail := bs[2..];
    assert FromLE([]) == 0 && tail[1..1] == [];
    assert DecodeNat32(tail) == Some((2, tail[1..]));
  }

  lemma ReadsByteThenEmptyBlob(bs: seq<byte>, k: byte)
    requires |bs| >= 2 && bs[0] == k && bs[1] == 0
    ensures Decode(UInt(1), bs) == Some((Num(k), bs[1..])) && Decode(Blob, bs[1..]) == Some((Raw([]), bs[2..]))
  {
    assert bs[..1] == [k];
    assert FromLE([k]) == k;
    var tail := bs[1..];
    assert tail[1..1] == [];
    assert DecodeNat32(tail) == Some((0, tail[1..]));
    assert tail[1..] == bs[2..] && bs[2..][..0] == [] && bs[2..][0..] == bs[2..];
  }
}

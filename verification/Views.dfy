/** Lazy views: items and fields found by skipping, decoded on demand, and cached. */
module Views {
  import opened Bytes
  import opened Naturals
  import opened Descriptors
  import opened Skipping
  import opened Decoder
  import opened Locality

  /** The bytes of `bs` in front of what is left. */
  function Consumed(bs: seq<byte>, rest: Option<seq<byte>>): Option<seq<byte>> {
    if rest.Some? && |rest.value| <= |bs| then Some(bs[..|bs| - |rest.value|]) else None
  }

  function First(r: Decoded): Option<Value> {
    if r.Some? then Some(r.value.0) else None
  }

  lemma {:induction false} SkipShrinks(d: Desc, bs: seq<byte>)
    ensures Skip(d, bs).Some? ==> |Skip(d, bs).value| <= |bs|
    decreases d, 1, 0
  {
    hide DecodeNat32, SkipItems, SkipFields, FieldsHint;
    match d
    case Blob => Nat32Shrinks(bs);
    case BitVecVar => Nat32Shrinks(bs);
    case Optional(e) =>
      if |bs| > 0 {
        SkipShrinks(e, bs[1..]);
      }
    case SeqVar(e, _, _) =>
      Nat32Shrinks(bs);
      if DecodeNat32(bs).Some? {
        SkipItemsShrinks(e, DecodeNat32(bs).value.0, DecodeNat32(bs).value.1);
      }
    case SeqFix(e, len) => SkipItemsShrinks(e, len, bs);
    case Dictionary(_, _, _, fixed) =>
      if fixed.Some? {
        SkipEntriesShrinks(d, fixed.value, bs);
      } else {
        Nat32Shrinks(bs);
        if DecodeNat32(bs).Some? {
          SkipEntriesShrinks(d, DecodeNat32(bs).value.0, DecodeNat32(bs).value.1);
        }
      }
    case Pair(a, b) =>
      SkipShrinks(a, bs);
      if Skip(a, bs).Some? {
        SkipShrinks(b, Skip(a, bs).value);
      }
    case Union(ds) =>
      Nat32Shrinks(bs);
      if DecodeNat32(bs).Some? && DecodeNat32(bs).value.0 < |ds| {
        SkipShrinks(ds[DecodeNat32(bs).value.0], DecodeNat32(bs).value.1);
      }
    case Class(ds) => SkipFieldsShrinks(ds, bs);
    case _ =>
  }

  lemma Nat32Shrinks(bs: seq<byte>)
    ensures DecodeNat32(bs).Some? ==> |DecodeNat32(bs).value.1| < |bs|
  {
  }

  lemma {:induction false} SkipItemsShrinks(d: Desc, n: nat, bs: seq<byte>)
    ensures SkipItems(d, n, bs).Some? ==> |SkipItems(d, n, bs).value| <= |bs|
    decreases d, 2, n
  {
    hide Skip;
    SkipShrinks(d, bs);
    if n > 0 && Skip(d, bs).Some? {
      SkipItemsShrinks(d, n - 1, Skip(d, bs).value);
    }
  }

  lemma SkipEntriesShrinks(d: Desc, n: nat, bs: seq<byte>)
    requires d.Dictionary?
    ensures SkipKeysThenValues(d, n, bs).Some? ==> |SkipKeysThenValues(d, n, bs).value| <= |bs|
    decreases d, 0, 0
  {
    hide SkipItems;
    SkipItemsShrinks(d.key, n, bs);
    if SkipItems(d.key, n, bs).Some? {
      SkipItemsShrinks(d.value, n, SkipItems(d.key, n, bs).value);
    }
  }

  lemma {:induction false} SkipFieldsShrinks(ds: seq<Desc>, bs: seq<byte>)
    ensures SkipFields(ds, bs).Some? ==> |SkipFields(ds, bs).value| <= |bs|
    decreases ds, 0, 0
  {
    hide Skip;
    if ds != [] {
      SkipShrinks(ds[0], bs);
      if Skip(ds[0], bs).Some? {
        SkipFieldsShrinks(ds[1..], Skip(ds[0], bs).value);
      }
    }
  }

  // ----- the `View` of a descriptor -----

  predicate HasUniqueView(d: Desc) {
    match d
    case UInt(size) => size > 1
    case Int(size) => size > 1
    case SeqVar(_, _, _) => true
    case SeqFix(_, _) => true
    case Class(_) => true
    case Optional(e) => HasUniqueView(e)
    case Dictionary(_, e, _, _) => HasUniqueView(e)
    case Pair(a, b) => HasUniqueView(a) && HasUniqueView(b)
    case _ => false
  }

  function After<T>(r: Option<(T, seq<byte>)>): Option<seq<byte>> {
    if r.Some? then Some(r.value.1) else None
  }

  /**
   What is left after the view of a value has been read: lazy sequences and objects are skipped, everything else is
   decoded.
   */
  function ViewRead(d: Desc, bs: seq<byte>): Option<seq<byte>>
    decreases d, 1, 0
  {
    if !HasUniqueView(d) then After(Decode(d, bs))
    else
      match d
      case UInt(size) => Drop(bs, size)
      case Int(size) => Drop(bs, size)
      case Optional(e) =>
        if |bs| == 0 || bs[0] > 1 then None else if bs[0] == 0 then Some(bs[1..]) else ViewRead(e, bs[1..])
      case Dictionary(_, _, _, fixed) =>
        if fixed.Some? then After(ViewEntries(d, fixed.value, bs))
        else (match DecodeNat32(bs) case None => None case Some((len, rest)) => After(ViewEntries(d, len, rest)))
      case Pair(a, b) => (match ViewRead(a, bs) case None => None case Some(rest) => ViewRead(b, rest))
      case _ => Skip(d, bs)
  }

  /** The keys of the first `n` entries, whose values are read as views, and what is left after them. */
  function ViewEntries(d: Desc, n: nat, bs: seq<byte>): Option<(seq<Value>, seq<byte>)>
    requires d.Dictionary?
    decreases d, 0, n
  {
    if n == 0 then Some(([], bs))
    else
      match ViewEntries(d, n - 1, bs)
      case None => None
      case Some((keys, start)) =>
        match Decode(d.key, start)
        case None => None
        case Some((k, mid)) =>
          match ViewRead(d.value, mid)
          case None => None
          case Some(rest) =>
            if KnownKey(keys, k) || (keys != [] && d.sortKeys(keys[|keys| - 1], k) >= 0) then None
            else Some((keys + [k], rest))
  }

  predicate KnownKey(keys: seq<Value>, k: Value) {
    exists i | 0 <= i < |keys| :: keys[i] == k
  }

  lemma {:induction false} ViewEntriesStop(d: Desc, i: nat, n: nat, bs: seq<byte>)
    requires d.Dictionary? && i <= n && ViewEntries(d, i, bs).None?
    ensures ViewEntries(d, n, bs).None?
  {
    hide Decode, ViewRead, KnownKey;
    if i < n {
      ViewEntriesStop(d, i, n - 1, bs);
    }
  }

  /** One entry more. */
  lemma {:induction false} DecodeEntriesLast(d: Desc, n: nat, bs: seq<byte>, done: seq<Entry>)
    requires d.Dictionary? && DecodeEntries(d, n + 1, bs, done).Some?
    ensures DecodeEntries(d, n, bs, done).Some?
    ensures var (es, start) := DecodeEntries(d, n, bs, done).value;
            && Decode(d.key, start).Some?
            && var (k, mid) := Decode(d.key, start).value;
            && Decode(d.value, mid).Some?
            && var (v, rest) := Decode(d.value, mid).value;
            && !HasKey(es, k) && (es != [] ==> d.sortKeys(es[|es| - 1].0, k) < 0)
            && DecodeEntries(d, n + 1, bs, done) == Some((es + [(k, v)], rest))
    decreases n
  {
    hide Decode, HasKey;
    if n > 0 {
      var (k, mid) := Decode(d.key, bs).value;
      var (v, rest) := Decode(d.value, mid).value;
      DecodeEntriesLast(d, n - 1, rest, done + [(k, v)]);
    } else {
      var (k, mid) := Decode(d.key, bs).value;
      var (v, rest) := Decode(d.value, mid).value;
      assert DecodeEntries(d, 0, rest, done + [(k, v)]) == Some((done + [(k, v)], rest));
    }
  }

  /**
   Whenever decoding succeeds, reading the view stops at the same byte, so every part is opened where decoding reads it.
   */
  lemma {:induction false} ViewReadsSame(d: Desc, bs: seq<byte>)
    requires SkipSound(d) && Decode(d, bs).Some?
    ensures ViewRead(d, bs) == Some(Decode(d, bs).value.1)
    decreases d, 1, 0
  {
    hide DecodeEntries, DecodeNat32, FromLE, Pow2, Skip, SkipItems, ViewEntries, DecodeItems, DecodeFields;
    if HasUniqueView(d) {
      match d
      case Optional(e) =>
        if bs[0] == 1 {
          ViewReadsSame(e, bs[1..]);
        }
      case Dictionary(_, e, _, fixed) =>
        if fixed.Some? {
          ViewEntriesSame(d, fixed.value, bs);
        } else {
          ViewEntriesSame(d, DecodeNat32(bs).value.0, DecodeNat32(bs).value.1);
        }
      case Pair(a, b) =>
        ViewReadsSame(a, bs);
        ViewReadsSame(b, Decode(a, bs).value.1);
      case Class(_) => SkipAgrees(d, bs);
      case SeqVar(_, _, _) => SkipAgrees(d, bs);
      case SeqFix(_, _) => SkipAgrees(d, bs);
      case _ =>
    }
  }

  function KeysOf(es: seq<Entry>): (keys: seq<Value>)
    ensures |keys| == |es| && forall i | 0 <= i < |es| :: keys[i] == es[i].0
  {
    seq(|es|, i requires 0 <= i < |es| => es[i].0)
  }

  lemma {:induction false} ViewEntriesSame(d: Desc, n: nat, bs: seq<byte>)
    requires d.Dictionary? && SkipSound(d.value) && DecodeEntries(d, n, bs, []).Some?
    ensures var (es, rest) := DecodeEntries(d, n, bs, []).value;
            ViewEntries(d, n, bs) == Some((KeysOf(es), rest))
    decreases d, 0, n
  {
    hide Decode, ViewRead, SkipSound;
    if n == 0 {
      assert KeysOf([]) == [];
    } else {
      DecodeEntriesLast(d, n - 1, bs, []);
      ViewEntriesSame(d, n - 1, bs);
      var (es, start) := DecodeEntries(d, n - 1, bs, []).value;
      var (k, mid) := Decode(d.key, start).value;
      var (v, _) := Decode(d.value, mid).value;
      ViewReadsSame(d.value, mid);
      assert KeysOf(es + [(k, v)]) == KeysOf(es) + [k];
      assert KnownKey(KeysOf(es), k) == HasKey(es, k);
    }
  }

  // ----- fields -----

  /** A view: a value, a lazy sequence or object, or views inside an optional, a pair or a dictionary. */
  datatype View =
    | Plain(value: Value)
    | Items(sequence: SequenceView)
    | Fields(obj: ObjectView)
    | Nil
    | Just(inner: View)
    | Both(first: View, second: View)
    | Entries(entries: seq<(Value, View)>)

  /** The view of a value read by `d` that starts `bs`, the end of `source`. */
  ghost predicate Shows(view: View, d: Desc, source: seq<byte>, bs: seq<byte>)
    decreases d, 1
  {
    if !HasUniqueView(d) then view.Plain? && First(Decode(d, bs)) == Some(view.value)
    else
      match d
      case UInt(size) => |bs| >= size && view == Plain(Raw(bs[..size]))
      case Int(size) => |bs| >= size && view == Plain(Raw(bs[..size]))
      case Optional(e) =>
        && |bs| > 0
        && (if bs[0] == 0 then view == Nil else bs[0] == 1 && view.Just? && Shows(view.inner, e, source, bs[1..]))
      case Dictionary(_, _, _, fixed) =>
        && view.Entries?
        && (if fixed.Some? then |view.entries| == fixed.value && ShowsEntries(view.entries, d, source, bs)
            else
              && DecodeNat32(bs).Some? && |view.entries| == DecodeNat32(bs).value.0
              && ShowsEntries(view.entries, d, source, DecodeNat32(bs).value.1))
      case Pair(a, b) =>
        && view.Both? && Shows(view.first, a, source, bs)
        && ViewRead(a, bs).Some? && Shows(view.second, b, source, ViewRead(a, bs).value)
      case Class(ds) => view.Fields? &&
          StartsAt(view.obj.decoder.source, view.obj.initialDecoderOffset, source, bs) && view.obj.ds == ds
      case SeqVar(e, _, _) => IsSequence(view, e, None) &&
          StartsAt(view.sequence.decoder.source, view.sequence.initialDecoderOffset, source, bs)
      case SeqFix(e, len) => IsSequence(view, e, Some(len)) &&
          StartsAt(view.sequence.decoder.source, view.sequence.initialDecoderOffset, source, bs)
      case _ => false
  }

  ghost predicate IsSequence(view: View, d: Desc, fixedLength: Option<nat>) {
    view.Items? && view.sequence.d == d && view.sequence.fixedLength == fixedLength
  }

  ghost predicate StartsAt(viewed: seq<byte>, offset: nat, source: seq<byte>, bs: seq<byte>) {
    viewed == source && offset <= |source| && source[offset..] == bs
  }

  /** Every value is shown where the entries before it and its key end. */
  ghost predicate ShowsEntries(es: seq<(Value, View)>, d: Desc, source: seq<byte>, bs: seq<byte>)
    requires d.Dictionary?
    decreases d, 0
  {
    forall i | 0 <= i < |es| ::
      && ViewEntries(d, i, bs).Some? && Decode(d.key, ViewEntries(d, i, bs).value.1).Some?
      && var (k, mid) := Decode(d.key, ViewEntries(d, i, bs).value.1).value;
      es[i].0 == k && Shows(es[i].1, d.value, source, mid)
  }

  /** The view gives the value `v`: bytes decode to it, lazy parts start where it is decoded. */
  ghost predicate StandsFor(view: View, d: Desc, v: Value)
    decreases d, 1
  {
    if !HasUniqueView(d) then view == Plain(v)
    else
      match d
      case UInt(size) => view.Plain? && view.value.Raw? && First(Decode(d, view.value.bytes)) == Some(v)
      case Int(size) => view.Plain? && view.value.Raw? && First(Decode(d, view.value.bytes)) == Some(v)
      case Optional(e) => if v == Absent then view == Nil else v.Present? && view.Just? && StandsFor(view.inner, e, v.v)
      case Dictionary(_, e, _, _) =>
        && v.Dict? && view.Entries? && |view.entries| == |v.entries|
        && forall i | 0 <= i < |v.entries| :: view.entries[i].0 == v.entries[i].0 &&
            StandsFor(view.entries[i].1, e, v.entries[i].1)
      case Pair(a, b) =>
        && v.Record? && |v.fields| == 2 && view.Both?
        && StandsFor(view.first, a, v.fields[0]) && StandsFor(view.second, b, v.fields[1])
      case Class(ds) =>
        view.Fields? && view.obj.ds == ds && DecodesAt(d, view.obj.decoder.source, view.obj.initialDecoderOffset, v)
      case SeqVar(e, _, _) => IsSequence(view, e, None) &&
          DecodesAt(d, view.sequence.decoder.source, view.sequence.initialDecoderOffset, v)
      case SeqFix(e, len) => IsSequence(view, e, Some(len)) &&
          DecodesAt(d, view.sequence.decoder.source, view.sequence.initialDecoderOffset, v)
      case _ => false
  }

  ghost predicate DecodesAt(d: Desc, source: seq<byte>, offset: nat, v: Value) {
    offset <= |source| && First(Decode(d, source[offset..])) == Some(v)
  }

  /** A view that shows a place stands for the value that is decoded there. */
  lemma {:induction false} ShownStandsFor(view: View, d: Desc, source: seq<byte>, bs: seq<byte>)
    requires SkipSound(d) && Shows(view, d, source, bs) && Decode(d, bs).Some?
    ensures StandsFor(view, d, Decode(d, bs).value.0)
    decreases d
  {
    hide DecodeEntries, DecodeNat32, FromLE, Pow2, Skip, SkipItems, ViewEntries, DecodeItems, DecodeFields;
    hide ViewRead, ShowsEntries;
    if HasUniqueView(d) {
      match d
      case UInt(size) => assert bs[..size][..size] == bs[..size];
      case Int(size) => assert bs[..size][..size] == bs[..size];
      case Optional(e) =>
        if bs[0] == 1 {
          ShownStandsFor(view.inner, e, source, bs[1..]);
        }
      case Dictionary(_, e, _, fixed) =>
        if fixed.Some? {
          ShownEntries(view.entries, d, source, bs);
        } else {
          ShownEntries(view.entries, d, source, DecodeNat32(bs).value.1);
        }
      case Pair(a, b) =>
        ViewReadsSame(a, bs);
        ShownStandsFor(view.first, a, source, bs);
        ShownStandsFor(view.second, b, source, Decode(a, bs).value.1);
      case _ =>
    }
  }

  lemma ShownEntries(es: seq<(Value, View)>, d: Desc, source: seq<byte>, bs: seq<byte>)
    requires d.Dictionary? && SkipSound(d) && ShowsEntries(es, d, source, bs) && DecodeEntries(d, |es|, bs, []).Some?
    ensures var vs := DecodeEntries(d, |es|, bs, []).value.0;
            |vs| == |es| && forall i | 0 <= i < |es| :: es[i].0 == vs[i].0 && StandsFor(es[i].1, d.value, vs[i].1)
    decreases d, 0
  {
    hide Decode, ViewRead, SkipSound, StandsFor, Shows;
    SkipSoundParts(d);
    var vs := DecodeEntries(d, |es|, bs, []).value.0;
    EntriesCount(d, |es|, bs);
    forall i | 0 <= i < |es|
      ensures |vs| == |es| && es[i].0 == vs[i].0 && StandsFor(es[i].1, d.value, vs[i].1)
    {
      EntryOf(d, i, |es|, bs);
      DecodeEntriesLast(d, i, bs, []);
      EntriesCount(d, i, bs);
      ViewEntriesSame(d, i, bs);
      var (k, mid) := Decode(d.key, ViewEntries(d, i, bs).value.1).value;
      ShownStandsFor(es[i].1, d.value, source, mid);
    }
  }

  /** The entries decoded first are the same however many follow. */
  lemma {:induction false} EntryOf(d: Desc, i: nat, n: nat, bs: seq<byte>)
    requires d.Dictionary? && i < n && DecodeEntries(d, n, bs, []).Some?
    ensures DecodeEntries(d, i + 1, bs, []).Some?
    ensures |DecodeEntries(d, n, bs, []).value.0| == n && |DecodeEntries(d, i + 1, bs, []).value.0| == i + 1
    ensures DecodeEntries(d, n, bs, []).value.0[i] == DecodeEntries(d, i + 1, bs, []).value.0[i]
    decreases n
  {
    hide Decode, HasKey, DecodeEntries;
    DecodeEntriesLast(d, n - 1, bs, []);
    EntriesCount(d, n, bs);
    EntriesCount(d, n - 1, bs);
    if i < n - 1 {
      EntryOf(d, i, n - 1, bs);
    }
  }

  lemma {:induction false} EntriesCount(d: Desc, n: nat, bs: seq<byte>)
    requires d.Dictionary? && DecodeEntries(d, n, bs, []).Some?
    ensures |DecodeEntries(d, n, bs, []).value.0| == n
  {
    hide Decode, HasKey;
    if n > 0 {
      DecodeEntriesLast(d, n - 1, bs, []);
      EntriesCount(d, n - 1, bs);
    }
  }

  /** The lazy sequences inside a view. */
  ghost function Sequences(view: View): set<SequenceView> {
    match view
    case Items(s) => {s}
    case Just(inner) => Sequences(inner)
    case Both(x, y) => Sequences(x) + Sequences(y)
    case Entries(es) => set i, s | 0 <= i < |es| && s in Sequences(es[i].1) :: s
    case _ => {}
  }

  /** The lazy objects inside a view. */
  ghost function Objects(view: View): set<ObjectView> {
    match view
    case Fields(o) => {o}
    case Just(inner) => Objects(inner)
    case Both(x, y) => Objects(x) + Objects(y)
    case Entries(es) => set i, o | 0 <= i < |es| && o in Objects(es[i].1) :: o
    case _ => {}
  }

  class ViewField {
    const source: seq<byte>
    const offset: nat
    const d: Desc
    var cachedValue: Option<Value>
    var cachedView: Option<View>
    var cachedBlob: Option<seq<byte>>

    constructor (source: seq<byte>, offset: nat, d: Desc)
      requires offset <= |source|
      ensures Valid() && this.source == source && this.offset == offset && this.d == d
    {
      this.source, this.offset, this.d := source, offset, d;
      cachedValue, cachedView, cachedBlob := None, None, None;
    }

    /** The source from the place the field starts at. */
    ghost function At(): seq<byte>
      requires offset <= |source|
    {
      source[offset..]
    }

    /** Whatever is cached is what decoding or skipping at the start of the field gives. */
    ghost predicate Valid()
      reads this
    {
      && offset <= |source|
      && (cachedValue.Some? ==> cachedValue == First(Decode(d, At())))
      && (cachedBlob.Some? ==> cachedBlob == Consumed(At(), Skip(d, At())))
      && (cachedView.Some? ==> Shows(cachedView.value, d, source, At()))
    }

    method Materialize() returns (r: Option<Value>)
      requires Valid()
      modifies this`cachedValue
      ensures Valid() && r == First(Decode(d, At()))
    {
      hide Decode, Skip, Shows;
      if cachedValue.None? {
        var decoder := new Decoder(source, offset);
        cachedValue := decoder.DecodeValue(d);
      }
      r := cachedValue;
    }

    /** `view`: the same view, with lazy parts that have caches of their own, however often it is asked for. */
    method View() returns (r: Option<View>)
      requires Valid()
      modifies this`cachedView
      ensures Valid() && (r.Some? ==> cachedView == r && Shows(r.value, d, source, At()))
      ensures old(cachedView).Some? ==> r == old(cachedView)
      ensures old(cachedView).None? ==> (r.Some? <==> ViewRead(d, At()).Some?)
      ensures old(cachedView).None? && r.Some? ==>
                && (forall s | s in Sequences(r.value) :: fresh(s) && s.Valid())
                && (forall o | o in Objects(r.value) :: fresh(o) && o.Valid())
    {
      hide Decode, Skip, ViewRead, Shows, Sequences, Objects;
      if cachedView.None? {
        var decoder := new Decoder(source, offset);
        cachedView := DecodeView(decoder, d);
      }
      r := cachedView;
    }

    /** `skipEncoded`: the slice the skipper passes over. */
    method Encoded() returns (r: Option<seq<byte>>)
      requires Valid()
      modifies this`cachedBlob
      ensures Valid() && r == Consumed(At(), Skip(d, At()))
    {
      hide Decode, Skip, Shows;
      if cachedBlob.None? {
        var decoder := new Decoder(source, offset);
        var initBytes := decoder.offset;
        var ok := decoder.SkipValue(d);
        if ok {
          SkipShrinks(d, At());
          assert source[initBytes..decoder.offset] == At()[..|At()| - |decoder.Rest()|];
          cachedBlob := Some(source[initBytes..decoder.offset]);
        }
      }
      r := cachedBlob;
    }
  }

  /** The `decode` function of the `View` of every combinator. */
  method DecodeView(decoder: Decoder, d: Desc) returns (view: Option<View>)
    requires decoder.Valid()
    modifies decoder
    ensures decoder.Valid() && (view.Some? <==> ViewRead(d, old(decoder.Rest())).Some?)
    ensures view.Some? ==>
        ViewRead(d, old(decoder.Rest())) == Some(decoder.Rest()) &&
        Shows(view.value, d, decoder.source, old(decoder.Rest()))
    ensures view.Some? ==>
              && (forall s | s in Sequences(view.value) ::
                  allocated(s) && fresh(s) && fresh(s.decoder) && s.cache.Values == {} && s.Valid())
              && (forall o | o in Objects(view.value) ::
                  allocated(o) && fresh(o) && fresh(o.decoder) && o.cache.Values == {} && o.Valid())
    decreases d, 2
  {
    hide Decode, Skip, SkipItems, SkipFields, DecodeNat32, ViewEntries, ShowsEntries, SequenceView.Valid;
    hide ObjectView.Valid;
    if !HasUniqueView(d) {
      var v := decoder.DecodeValue(d);
      return if v.None? then None else Some(Plain(v.value));
    }
    if d.Optional? || d.Pair? || d.Dictionary? {
      view := DecodeInside(decoder, d);
      return;
    }
    match d {
      case UInt(size) =>
        var bytes := decoder.Read(size);
        view := if bytes.None? then None else Some(Plain(Raw(bytes.value)));
      case Int(size) =>
        var bytes := decoder.Read(size);
        view := if bytes.None? then None else Some(Plain(Raw(bytes.value)));
      case Class(_) =>
        var obj := OpenObject(decoder, d);
        view := if obj == null then None else Some(Fields(obj));
      case SeqVar(_, _, _) =>
        var sequence := OpenSequence(decoder, d);
        view := if sequence == null then None else Some(Items(sequence));
      case SeqFix(_, _) =>
        var sequence := OpenSequence(decoder, d);
        view := if sequence == null then None else Some(Items(sequence));
    }
  }

  /** The view of a pair: reading the second part leaves what was opened in the first alone. */
  method DecodeBoth(decoder: Decoder, d: Desc) returns (view: Option<View>)
    requires decoder.Valid() && HasUniqueView(d) && d.Pair?
    modifies decoder
    ensures decoder.Valid() && (view.Some? <==> ViewRead(d, old(decoder.Rest())).Some?)
    ensures view.Some? ==>
        ViewRead(d, old(decoder.Rest())) == Some(decoder.Rest()) &&
        Shows(view.value, d, decoder.source, old(decoder.Rest()))
    ensures view.Some? ==>
              && (forall s | s in Sequences(view.value) ::
                  allocated(s) && fresh(s) && fresh(s.decoder) && s.cache.Values == {} && s.Valid())
              && (forall o | o in Objects(view.value) ::
                  allocated(o) && fresh(o) && fresh(o.decoder) && o.cache.Values == {} && o.Valid())
    decreases d, 0
  {
    hide Decode, Skip, SequenceView.Valid, ObjectView.Valid, Sequences, Objects;
    var first := DecodeView(decoder, d.a);
    if first.None? {
      return None;
    }
    label firstRead:
    var second := DecodeView(decoder, d.b);
    forall s | s in Sequences(first.value)
      ensures allocated(s) && fresh(s) && fresh(s.decoder) && s.cache.Values == {} && s.Valid()
    {
      assert old@firstRead(s.Valid()) && s.cache == old@firstRead(s.cache) && s.decoder != decoder;
    }
    forall o | o in Objects(first.value)
      ensures allocated(o) && fresh(o) && fresh(o.decoder) && o.cache.Values == {} && o.Valid()
    {
      assert old@firstRead(o.Valid()) && o.cache == old@firstRead(o.cache) && o.decoder != decoder;
    }
    if second.None? {
      return None;
    }
    PartsOfBoth(first.value, second.value);
    view := Some(Both(first.value, second.value));
  }

  /** Optionals, pairs and dictionaries have views of their parts. */
  method DecodeInside(decoder: Decoder, d: Desc) returns (view: Option<View>)
    requires decoder.Valid() && HasUniqueView(d) && (d.Optional? || d.Pair? || d.Dictionary?)
    modifies decoder
    ensures decoder.Valid() && (view.Some? <==> ViewRead(d, old(decoder.Rest())).Some?)
    ensures view.Some? ==>
        ViewRead(d, old(decoder.Rest())) == Some(decoder.Rest()) &&
        Shows(view.value, d, decoder.source, old(decoder.Rest()))
    ensures view.Some? ==>
              && (forall s | s in Sequences(view.value) ::
                  allocated(s) && fresh(s) && fresh(s.decoder) && s.cache.Values == {} && s.Valid())
              && (forall o | o in Objects(view.value) ::
                  allocated(o) && fresh(o) && fresh(o.decoder) && o.cache.Values == {} && o.Valid())
    decreases d, 1
  {
    hide Decode, Skip, SkipItems, SkipFields, DecodeNat32, ViewEntries, ShowsEntries, SequenceView.Valid;
    hide ObjectView.Valid, Sequences, Objects;
    match d {
      case Optional(e) =>
        var isSet := decoder.Bool();
        if isSet.None? {
          return None;
        }
        if !isSet.value {
          PartsOfJust(Nil);
          return Some(Nil);
        }
        var inner := DecodeView(decoder, e);
        if inner.None? {
          return None;
        }
        PartsOfJust(inner.value);
        view := Some(Just(inner.value));
      case Pair(_, _) =>
        view := DecodeBoth(decoder, d);
      case Dictionary(_, _, _, fixed) =>
        var len := if fixed.Some? then fixed.value else 0;
        if fixed.None? {
          var prefix := decoder.VarU32();
          if prefix.None? {
            return None;
          }
          len := prefix.value;
        }
        var entries := DecodeViewEntries(decoder, d, len);
        view := if entries.None? then None else Some(Entries(entries.value));
    }
  }

  /** The decoding loop of `dictionary`, with views for values. */
  method DecodeViewEntries(decoder: Decoder, d: Desc, len: nat) returns (entries: Option<seq<(Value, View)>>)
    requires decoder.Valid() && d.Dictionary?
    modifies decoder
    ensures decoder.Valid() && (entries.Some? <==> ViewEntries(d, len, old(decoder.Rest())).Some?)
    ensures entries.Some? ==>
              && ViewEntries(d, len, old(decoder.Rest())).value.1 == decoder.Rest() && |entries.value| == len
              && ShowsEntries(entries.value, d, decoder.source, old(decoder.Rest()))
              && (forall s | s in Sequences(Entries(entries.value)) ::
                  allocated(s) && fresh(s) && fresh(s.decoder) && s.cache.Values == {} && s.Valid())
              && (forall o | o in Objects(Entries(entries.value)) ::
                  allocated(o) && fresh(o) && fresh(o.decoder) && o.cache.Values == {} && o.Valid())
    decreases d, 0
  {
    hide Decode, ViewRead, Shows, Sequences, Objects, SequenceView.Valid, ObjectView.Valid;
    ghost var bs := decoder.Rest();
    var es: seq<(Value, View)> := [];
    var keys: seq<Value> := [];
    NoViews();
    for i := 0 to len
      invariant decoder.Valid() && |es| == i && ViewEntries(d, i, bs) == Some((keys, decoder.Rest()))
      invariant ShowsEntries(es, d, decoder.source, bs)
      invariant forall s | s in Sequences(Entries(es)) ::
          allocated(s) && fresh(s) && fresh(s.decoder) && s.cache == map[] && s.Valid()
      invariant forall o | o in Objects(Entries(es)) ::
          allocated(o) && fresh(o) && fresh(o.decoder) && o.cache == map[] && o.Valid()
    {
      var k := decoder.DecodeValue(d.key);
      if k.None? {
        ViewEntriesStop(d, i + 1, len, bs);
        return None;
      }
      label keyRead:
      var v := DecodeView(decoder, d.value);
      forall s | s in Sequences(Entries(es))
        ensures allocated(s) && fresh(s) && fresh(s.decoder) && s.cache.Values == {} && s.Valid()
      {
        assert old@keyRead(s.Valid()) && s.cache == old@keyRead(s.cache) && s.decoder != decoder;
      }
      forall o | o in Objects(Entries(es))
        ensures allocated(o) && fresh(o) && fresh(o.decoder) && o.cache.Values == {} && o.Valid()
      {
        assert old@keyRead(o.Valid()) && o.cache == old@keyRead(o.cache) && o.decoder != decoder;
      }
      if v.None? || KnownKey(keys, k.value) || (keys != [] && d.sortKeys(keys[|keys| - 1], k.value) >= 0) {
        ViewEntriesStop(d, i + 1, len, bs);
        return None;
      }
      OneViewMore(es, (k.value, v.value));
      es := es + [(k.value, v.value)];
      keys := keys + [k.value];
    }
    entries := Some(es);
  }

  lemma PartsOfJust(inner: View)
    ensures Sequences(Just(inner)) == Sequences(inner) && Objects(Just(inner)) == Objects(inner)
    ensures Sequences(Nil) == {} && Objects(Nil) == {}
  {
  }

  lemma PartsOfBoth(first: View, second: View)
    ensures Sequences(Both(first, second)) == Sequences(first) + Sequences(second)
    ensures Objects(Both(first, second)) == Objects(first) + Objects(second)
  {
  }

  lemma NoViews()
    ensures Sequences(Entries([])) == {} && Objects(Entries([])) == {}
  {
  }

  lemma OneViewMore(es: seq<(Value, View)>, e: (Value, View))
    ensures Sequences(Entries(es + [e])) == Sequences(Entries(es)) + Sequences(e.1)
    ensures Objects(Entries(es + [e])) == Objects(Entries(es)) + Objects(e.1)
  {
    var more := es + [e];
    assert more[|es|] == e && forall i | 0 <= i < |es| :: more[i] == es[i];
  }

  /** The `View` of a sequence is decoded by creating it on a copy of the decoder and skipping the original. */
  method OpenSequence(decoder: Decoder, d: Desc) returns (view: SequenceView?)
    requires decoder.Valid() && (d.SeqVar? || d.SeqFix?)
    modifies decoder
    ensures decoder.Valid()
    ensures view != null <==> Skip(d, old(decoder.Rest())).Some?
    ensures view != null ==>
            && Skip(d, old(decoder.Rest())) == Some(decoder.Rest())
            && view.Valid() && fresh(view) && fresh(view.decoder) && view.cache == map[]
            && view.decoder.source == decoder.source && view.initialDecoderOffset == old(decoder.offset)
            && view.d == d.d && view.fixedLength == (if d.SeqFix? then Some(d.len) else None)
            && SkipItems(d.d, view.length, view.start) == Some(decoder.Rest())
  {
    hide SkipItems, DecodeNat32;
    var copy := decoder.Clone();
    var length := if d.SeqFix? then d.len else 0;
    if d.SeqVar? {
      var prefix := copy.VarU32();
      if prefix.None? {
        return null;
      }
      length := prefix.value;
    }
    NoItemsSkipped(d.d, copy.Rest());
    view := new SequenceView(copy, d.d, if d.SeqFix? then Some(d.len) else None, decoder.offset, length);
    var ok := decoder.SkipValue(d);
    if !ok {
      return null;
    }
  }

  method OpenObject(decoder: Decoder, d: Desc) returns (view: ObjectView?)
    requires decoder.Valid() && d.Class?
    modifies decoder
    ensures decoder.Valid()
    ensures view != null <==> Skip(d, old(decoder.Rest())).Some?
    ensures view != null ==>
            && Skip(d, old(decoder.Rest())) == Some(decoder.Rest())
            && view.Valid() && fresh(view) && fresh(view.decoder) && view.cache == map[]
            && view.decoder.source == decoder.source && view.initialDecoderOffset == old(decoder.offset) &&
                view.ds == d.fields
  {
    hide SkipFields, Skip;
    var copy := decoder.Clone();
    NoFieldsSkipped([], copy.Rest());
    view := new ObjectView(copy, d.fields);
    var ok := decoder.SkipValue(d);
    if !ok {
      return null;
    }
  }

  // ----- sequences -----

  /** What `get` gives: `undefined`, an error, or the item. */
  datatype Lookup = Missing | Failed | Found(field: ViewField)

  /** A field read by `d` that starts where `i` items after `start` end. */
  ghost predicate IsItem(f: ViewField, source: seq<byte>, d: Desc, start: seq<byte>, i: nat) {
    f.source == source && f.d == d && f.offset <= |source| && SkipItems(d, i, start) == Some(f.At())
  }

  /** The field starts where the given bytes do. */
  ghost predicate StartsWhere(f: ViewField, place: Option<seq<byte>>) {
    f.offset <= |f.source| && place == Some(f.At())
  }

  class SequenceView {
    const decoder: Decoder
    const d: Desc
    const fixedLength: Option<nat>
    const length: nat
    const initialDecoderOffset: nat
    /** The first item starts here. */
    ghost const start: seq<byte>
    var cache: map<nat, ViewField>
    var lastDecodedIdx: int

    /** Where the view was created, and what it read there. */
    ghost predicate Opened() {
      && initialDecoderOffset <= |decoder.source|
      && var bs := decoder.source[initialDecoderOffset..];
      if fixedLength.Some? then length == fixedLength.value && start == bs else DecodeNat32(bs) == Some((length, start))
    }

    /** Exactly the items up to the last decoded one are cached, each somewhere in the source. */
    ghost predicate Usable()
      reads this, decoder, cache.Values
    {
      && Opened() && decoder.Valid()
      && -1 <= lastDecodedIdx < (if length == 0 then 1 else length)
      && (length == 0 ==> lastDecodedIdx == -1)
      && (forall i :: i in cache <==> 0 <= i <= lastDecodedIdx)
      && forall i | i in cache :: cache[i].Valid() && cache[i].source == decoder.source && cache[i].d == d
    }

    /** Each cached item is at its place. */
    ghost predicate CacheRight()
      reads this, decoder, cache.Values
    {
      && Usable() && SkipItems(d, lastDecodedIdx + 1, start).Some?
      && forall i | i in cache :: IsItem(cache[i], decoder.source, d, start, i)
    }

    /** The cursor sits just after the last cached item. */
    ghost predicate Valid()
      reads this, decoder, cache.Values
    {
      CacheRight() && SkipItems(d, lastDecodedIdx + 1, start) == Some(decoder.Rest())
    }

    /**
     From item `from` on, with `bs` not yet passed, the items after it have been decoded: up to `index`, or up to the
     one where skipping throws, with the cursor where it does.
     */
    ghost predicate Moved(from: int, bs: seq<byte>, index: nat, r: Lookup)
      requires Usable() && -1 <= from < index
      reads this, decoder, cache.Values
    {
      match r
      case Missing => false
      case Found(field) => lastDecodedIdx == index && field == cache[index] && CursorAfter(from, bs)
      case Failed => lastDecodedIdx < index && StoppedAfter(from, bs)
    }

    ghost predicate CursorAfter(from: int, bs: seq<byte>)
      requires Usable() && -1 <= from
      reads this, decoder, cache.Values
    {
      DecodedFrom(from, bs) && decoder.Rest() == SkipItems(d, lastDecodedIdx - from, bs).value
    }

    /** Skipping the next item threw. */
    ghost predicate StoppedAfter(from: int, bs: seq<byte>)
      requires Usable() && -1 <= from
      reads this, decoder, cache.Values
    {
      && DecodedFrom(from, bs)
      && var rest := SkipItems(d, lastDecodedIdx - from, bs).value;
         Skip(d, rest).None? && decoder.Rest() == SkipStop(d, rest)
    }

    /** The items after `from` start one after the other in `bs`. */
    ghost predicate DecodedFrom(from: int, bs: seq<byte>)
      requires Usable() && -1 <= from
      reads this, decoder, cache.Values
    {
      && from <= lastDecodedIdx && SkipItems(d, lastDecodedIdx - from, bs).Some?
      && forall i | from < i <= lastDecodedIdx :: StartsWhere(cache[i], SkipItems(d, i - from - 1, bs))
    }

    /** The bytes the sequence occupies, its length prefix included. */
    ghost function Slice(): Option<seq<byte>>
      requires initialDecoderOffset <= |decoder.source|
    {
      Consumed(decoder.source[initialDecoderOffset..], SkipItems(d, length, start))
    }

    constructor (decoder: Decoder, d: Desc, fixedLength: Option<nat>, initialDecoderOffset: nat, length: nat)
      requires decoder.Valid() && initialDecoderOffset <= |decoder.source|
      requires var bs := decoder.source[initialDecoderOffset..];
               if fixedLength.Some? then length == fixedLength.value && decoder.Rest() == bs
               else DecodeNat32(bs) == Some((length, decoder.Rest()))
      ensures Valid() && cache == map[] && this.decoder == decoder && this.d == d && this.fixedLength == fixedLength
      ensures this.initialDecoderOffset == initialDecoderOffset && this.length == length
    {
      this.decoder, this.d, this.fixedLength, this.initialDecoderOffset, this.length :=
          decoder, d, fixedLength, initialDecoderOffset, length;
      this.start := decoder.Rest();
      cache := map[];
      lastDecodedIdx := -1;
    }

    /**
     An item. After a failed access the items cached before can still be had, and the next ones are read from where the
     cursor was left.
     */
    method Get(index: nat) returns (r: Lookup)
      requires Usable()
      modifies this, decoder
      ensures Usable() && (r.Missing? <==> index >= length)
      ensures index in old(cache) ==> r == Found(old(cache)[index])
      ensures index in old(cache) || index >= length ==>
          lastDecodedIdx == old(lastDecodedIdx) && decoder.offset == old(decoder.offset)
      ensures old(lastDecodedIdx) < index < length ==> Moved(old(lastDecodedIdx), old(decoder.Rest()), index, r)
      ensures old(Valid()) ==>
                && CacheRight() && (!r.Failed? ==> Valid())
                && (r.Failed? <==> index < length && SkipItems(d, index + 1, start).None?)
      ensures old(Valid() || (CacheRight() && index in cache)) && r.Found? ==>
                index in cache && r.field == cache[index] && IsItem(r.field, decoder.source, d, start, index)
      ensures forall i | i in old(cache) :: i in cache && cache[i] == old(cache[i])
      ensures forall i | i in cache && i !in old(cache) :: fresh(cache[i])
    {
      hide SkipItems, Decode, Skip, DecodeNat32, SkipStop, ViewField.Valid, Moved;
      if index >= length {
        return Missing;
      }
      if index in cache {
        if SkipItems(d, index + 1, start).None? {
          NoItemAfterNext(d, index + 1, lastDecodedIdx + 1, start);
        }
        return Found(cache[index]);
      }
      r := DecodeUpTo(index);
    }

    /** One turn of the loop that decodes: the next item, or `null` where skipping it throws. */
    method DecodeNext(ghost from: int, ghost bs: seq<byte>) returns (field: ViewField?)
      requires Usable() && lastDecodedIdx + 1 < length && -1 <= from && CursorAfter(from, bs)
      modifies this, decoder
      ensures Usable() && (field == null <==> Skip(d, old(decoder.Rest())).None?)
      ensures field == null ==>
                && cache == old(cache) && lastDecodedIdx == old(lastDecodedIdx)
                && decoder.Rest() == SkipStop(d, old(decoder.Rest()))
      ensures field != null ==>
                && fresh(field) && field.offset == old(decoder.offset) && lastDecodedIdx == old(lastDecodedIdx) + 1
                && cache == old(cache)[lastDecodedIdx := field]
                && Skip(d, old(decoder.Rest())) == Some(decoder.Rest())
      ensures if field == null then StoppedAfter(from, bs) else CursorAfter(from, bs)
    {
      hide SkipItems, Decode, Skip, DecodeNat32, Shows, ViewField.Valid, SkipStop;
      NextItem(d, lastDecodedIdx - from, bs);
      var i := lastDecodedIdx + 1;
      field := new ViewField(decoder.source, decoder.offset, d);
      var ok := decoder.SkipValue(d);
      if !ok {
        return null;
      }
      cache := cache[i := field];
      lastDecodedIdx := i;
    }

    method DecodeUpTo(index: nat) returns (r: Lookup)
      requires Usable() && lastDecodedIdx < index < length
      modifies this, decoder
      ensures Usable() && Moved(old(lastDecodedIdx), old(decoder.Rest()), index, r)
      ensures !r.Missing? && (r.Found? ==> index in cache && r.field == cache[index])
      ensures old(Valid()) ==>
                && CacheRight() && (!r.Failed? ==> Valid())
                && (r.Failed? <==> SkipItems(d, index + 1, start).None?)
      ensures old(Valid()) && r.Found? ==> IsItem(r.field, decoder.source, d, start, index)
      ensures forall i | i in old(cache) :: i in cache && cache[i] == old(cache[i])
      ensures forall i | i in cache && i !in old(cache) :: fresh(cache[i])
    {
      hide SkipItems, Decode, Skip, DecodeNat32, ViewField.Valid, Shows, SkipStop, IsItem, CursorAfter, StoppedAfter;
      var lastItem: ViewField? := null;
      ghost var from, bs, right := lastDecodedIdx, decoder.Rest(), Valid();
      CursorAtStart();
      while lastDecodedIdx < index
        invariant Usable() && from <= lastDecodedIdx <= index
        invariant if lastItem == null then lastDecodedIdx == from
                  else lastDecodedIdx in cache && lastItem == cache[lastDecodedIdx]
        invariant CursorAfter(from, bs)
        invariant forall j | j in old(cache) :: j in cache && cache[j] == old(cache[j])
        invariant forall j | j in cache && j !in old(cache) :: fresh(cache[j])
      {
        lastItem := DecodeNext(from, bs);
        if lastItem == null {
          if right {
            MovedRight(from, bs, index, Failed);
          }
          return Failed;
        }
      }
      r := Found(lastItem);
      if right {
        MovedRight(from, bs, index, r);
      }
    }

    lemma CursorAtStart()
      requires Usable()
      ensures CursorAfter(lastDecodedIdx, decoder.Rest())
    {
      NoItemsSkipped(d, decoder.Rest());
    }

    /** With the cursor after item `from` before, every item is at its place. */
    lemma MovedRight(from: int, bs: seq<byte>, index: nat, r: Lookup)
      requires Usable() && -1 <= from < index < length && Moved(from, bs, index, r)
      requires SkipItems(d, from + 1, start) == Some(bs)
      requires forall i | 0 <= i <= from :: IsItem(cache[i], decoder.source, d, start, i)
      ensures CacheRight() && (!r.Failed? ==> Valid()) && (r.Failed? <==> SkipItems(d, index + 1, start).None?)
      ensures r.Found? ==> IsItem(r.field, decoder.source, d, start, index)
    {
      hide SkipItems, Skip, SkipStop, ViewField.Valid, DecodeNat32;
      SkipItemsSum(d, from + 1, lastDecodedIdx - from, start);
      forall i | from < i <= lastDecodedIdx
        ensures IsItem(cache[i], decoder.source, d, start, i)
      {
        SkipItemsSum(d, from + 1, i - from - 1, start);
      }
      if r.Failed? {
        NextItem(d, lastDecodedIdx + 1, start);
        NoItemAfterNext(d, lastDecodedIdx + 2, index + 1, start);
      }
    }

    /** `encoded`: the slice the view was created from, except that an empty sequence gives no bytes at all. */
    method Encoded() returns (r: Option<seq<byte>>)
      requires Valid()
      modifies this, decoder
      ensures r.Some? ==> Valid()
      ensures r == if length == 0 then Some([]) else Slice()
    {
      hide SkipItems, Decode, Skip, DecodeNat32;
      NoItemsSkipped(d, start);
      if length == 0 {
        return Some([]);
      }
      if lastDecodedIdx < length - 1 {
        var last := DecodeUpTo(length - 1);
        if last.Failed? {
          return None;
        }
      }
      SkipItemsShrinks(d, length, start);
      Nat32Shrinks(decoder.source[initialDecoderOffset..]);
      ghost var bs := decoder.source[initialDecoderOffset..];
      assert SkipItems(d, length, start) == Some(decoder.Rest());
      assert decoder.source[initialDecoderOffset..decoder.offset] == bs[..|bs| - |decoder.Rest()|];
      r := Some(decoder.source[initialDecoderOffset..decoder.offset]);
    }

    /** `map` with a callback that materializes every item. */
    method MapMaterialized() returns (r: Option<seq<Value>>)
      requires Valid()
      modifies this, decoder, cache.Values
      ensures r.Some? ==> Valid()
      ensures r == ItemwiseDecode(d, length, start)
    {
      hide SkipItems, Decode, Skip, DecodeNat32, ViewField.Valid, Moved, DecodedFrom, SkipStop;
      var res: seq<Value> := [];
      for i := 0 to length
        invariant Valid()
        invariant forall j | j in cache :: cache[j] in old(cache.Values) || fresh(cache[j])
        invariant ItemwiseDecode(d, i, start) == Some(res)
      {
        NextItem(d, i, start);
        var found := Get(i);
        if found.Failed? {
          ItemwiseStops(d, i + 1, length, start);
          return None;
        }
        label before:
        var v := found.field.Materialize();
        assert forall j | j in cache && cache[j] != found.field :: old@before(cache[j].Valid()) && cache[j].Valid();
        if v.None? {
          ItemwiseStops(d, i + 1, length, start);
          return None;
        }
        res := res + [v.value];
      }
      r := Some(res);
    }
  }

  /** The first `n` items, each decoded where skipping the ones before it ends. */
  function ItemwiseDecode(d: Desc, n: nat, bs: seq<byte>): Option<seq<Value>> {
    if n == 0 then Some([])
    else
      match ItemwiseDecode(d, n - 1, bs)
      case None => None
      case Some(vs) =>
        if SkipItems(d, n, bs).None? || SkipItems(d, n - 1, bs).None? then None
        else
          var v := First(Decode(d, SkipItems(d, n - 1, bs).value));
          if v.None? then None else Some(vs + [v.value])
  }

  lemma {:induction false} ItemwiseStops(d: Desc, i: nat, n: nat, bs: seq<byte>)
    requires i <= n && ItemwiseDecode(d, i, bs).None?
    ensures ItemwiseDecode(d, n, bs).None?
  {
    hide Skip, Decode, SkipItems;
    if i < n {
      ItemwiseStops(d, i, n - 1, bs);
    }
  }

  // ----- objects -----

  /** Skipping the first `n` fields. */
  function SkipTo(ds: seq<Desc>, n: nat, bs: seq<byte>): Option<seq<byte>> {
    if n <= |ds| then SkipFields(ds[..n], bs) else None
  }

  lemma SkipToEnd(ds: seq<Desc>, bs: seq<byte>)
    ensures SkipTo(ds, |ds|, bs) == SkipFields(ds, bs)
  {
    assert ds[..|ds|] == ds;
  }

  /** A field of an object that starts where the fields before it end. */
  ghost predicate IsField(f: ViewField, source: seq<byte>, ds: seq<Desc>, start: seq<byte>, i: nat) {
    i < |ds| && f.source == source && f.d == ds[i] && f.offset <= |source| && SkipTo(ds, i, start) == Some(f.At())
  }

  class ObjectView {
    const decoder: Decoder
    const ds: seq<Desc>
    const initialDecoderOffset: nat
    var cache: map<nat, ViewField>
    var lastDecodedFieldIdx: int

    ghost function Start(): seq<byte>
      requires initialDecoderOffset <= |decoder.source|
    {
      decoder.source[initialDecoderOffset..]
    }

    /** Exactly the fields up to the last decoded one are cached, each somewhere in the source. */
    ghost predicate Usable()
      reads this, decoder, cache.Values
    {
      && initialDecoderOffset <= |decoder.source| && decoder.Valid()
      && -1 <= lastDecodedFieldIdx < |ds|
      && (forall i :: i in cache <==> 0 <= i <= lastDecodedFieldIdx)
      && forall i | i in cache :: cache[i].Valid() && cache[i].source == decoder.source && cache[i].d == ds[i]
    }

    /** Each cached field is at its place. */
    ghost predicate CacheRight()
      reads this, decoder, cache.Values
    {
      && Usable() && SkipTo(ds, lastDecodedFieldIdx + 1, Start()).Some?
      && forall i | i in cache :: IsField(cache[i], decoder.source, ds, Start(), i)
    }

    /** The cursor sits just after the last cached field. */
    ghost predicate Valid()
      reads this, decoder, cache.Values
    {
      CacheRight() && SkipTo(ds, lastDecodedFieldIdx + 1, Start()) == Some(decoder.Rest())
    }

    /**
     From field `from` on, with `bs` not yet passed, the fields after it have been decoded: up to `index`, or up to the
     one where skipping throws, with the cursor where it does.
     */
    ghost predicate Moved(from: int, bs: seq<byte>, index: nat, r: Lookup)
      requires Usable() && -1 <= from < index < |ds|
      reads this, decoder, cache.Values
    {
      match r
      case Missing => false
      case Found(field) => lastDecodedFieldIdx == index && field == cache[index] && CursorAfter(from, bs)
      case Failed => lastDecodedFieldIdx < index && StoppedAfter(from, bs)
    }

    ghost predicate CursorAfter(from: int, bs: seq<byte>)
      requires Usable() && -1 <= from < |ds|
      reads this, decoder, cache.Values
    {
      DecodedFrom(from, bs) && decoder.Rest() == SkipTo(ds[from + 1..], lastDecodedFieldIdx - from, bs).value
    }

    /** Skipping the next field threw. */
    ghost predicate StoppedAfter(from: int, bs: seq<byte>)
      requires Usable() && -1 <= from < |ds| && lastDecodedFieldIdx + 1 < |ds|
      reads this, decoder, cache.Values
    {
      && DecodedFrom(from, bs)
      && var rest := SkipTo(ds[from + 1..], lastDecodedFieldIdx - from, bs).value;
         Skip(ds[lastDecodedFieldIdx + 1], rest).None? && decoder.Rest() == SkipStop(ds[lastDecodedFieldIdx + 1], rest)
    }

    /** The fields after `from` start one after the other in `bs`. */
    ghost predicate DecodedFrom(from: int, bs: seq<byte>)
      requires Usable() && -1 <= from < |ds|
      reads this, decoder, cache.Values
    {
      && from <= lastDecodedFieldIdx && SkipTo(ds[from + 1..], lastDecodedFieldIdx - from, bs).Some?
      && forall i | from < i <= lastDecodedFieldIdx :: StartsWhere(cache[i], SkipTo(ds[from + 1..], i - from - 1, bs))
    }

    constructor (decoder: Decoder, ds: seq<Desc>)
      requires decoder.Valid()
      ensures Valid() && cache == map[] && this.decoder == decoder && this.ds == ds
      ensures initialDecoderOffset == decoder.offset
    {
      this.decoder, this.ds, this.initialDecoderOffset := decoder, ds, decoder.offset;
      cache := map[];
      lastDecodedFieldIdx := -1;
    }

    /**
     A field. After a failed access the fields cached before can still be had, and the next ones are read from where the
     cursor was left.
     */
    method Get(index: nat) returns (r: Lookup)
      requires Usable() && index < |ds|
      modifies this, decoder
      ensures Usable() && !r.Missing?
      ensures index in old(cache) ==>
                && r == Found(old(cache)[index])
                && lastDecodedFieldIdx == old(lastDecodedFieldIdx) && decoder.offset == old(decoder.offset)
      ensures old(lastDecodedFieldIdx) < index ==> Moved(old(lastDecodedFieldIdx), old(decoder.Rest()), index, r)
      ensures old(Valid()) ==>
                && CacheRight() && (!r.Failed? ==> Valid())
                && (r.Failed? <==> SkipTo(ds, index + 1, Start()).None?)
      ensures old(Valid() || (CacheRight() && index in cache)) && r.Found? ==>
                index in cache && r.field == cache[index] && IsField(r.field, decoder.source, ds, Start(), index)
      ensures forall i | i in old(cache) :: i in cache && cache[i] == old(cache[i])
      ensures forall i | i in cache && i !in old(cache) :: fresh(cache[i])
    {
      hide SkipFields, SkipTo, Decode, Skip, SkipStop, ViewField.Valid, Moved;
      if index in cache {
        NoFieldAfterNext(ds, index + 1, lastDecodedFieldIdx + 1, Start());
        return Found(cache[index]);
      }
      r := DecodeUpTo(index);
    }

    /** One turn of the loop that decodes: the next field, or `null` where skipping it throws. */
    method DecodeNext(ghost from: int, ghost bs: seq<byte>) returns (field: ViewField?)
      requires Usable() && lastDecodedFieldIdx + 1 < |ds| && -1 <= from < |ds| && CursorAfter(from, bs)
      modifies this, decoder
      ensures Usable() && (field == null <==> Skip(ds[old(lastDecodedFieldIdx) + 1], old(decoder.Rest())).None?)
      ensures field == null ==>
                && cache == old(cache) && lastDecodedFieldIdx == old(lastDecodedFieldIdx)
                && decoder.Rest() == SkipStop(ds[lastDecodedFieldIdx + 1], old(decoder.Rest()))
      ensures field != null ==>
                && fresh(field) && field.offset == old(decoder.offset)
                && lastDecodedFieldIdx == old(lastDecodedFieldIdx) + 1
                && cache == old(cache)[lastDecodedFieldIdx := field]
                && Skip(ds[lastDecodedFieldIdx], old(decoder.Rest())) == Some(decoder.Rest())
      ensures if field == null then StoppedAfter(from, bs) else CursorAfter(from, bs)
    {
      hide SkipFields, SkipTo, Decode, Skip, DecodeNat32, Shows, ViewField.Valid, SkipStop;
      var i := lastDecodedFieldIdx + 1;
      NextField(ds[from + 1..], i - 1 - from, bs);
      field := new ViewField(decoder.source, decoder.offset, ds[i]);
      var ok := decoder.SkipValue(ds[i]);
      if !ok {
        return null;
      }
      cache := cache[i := field];
      lastDecodedFieldIdx := i;
    }

    method DecodeUpTo(index: nat) returns (r: Lookup)
      requires Usable() && lastDecodedFieldIdx < index < |ds|
      modifies this, decoder
      ensures Usable() && Moved(old(lastDecodedFieldIdx), old(decoder.Rest()), index, r)
      ensures !r.Missing? && (r.Found? ==> index in cache && r.field == cache[index])
      ensures old(Valid()) ==>
                && CacheRight() && (!r.Failed? ==> Valid())
                && (r.Failed? <==> SkipTo(ds, index + 1, Start()).None?)
      ensures old(Valid()) && r.Found? ==> IsField(r.field, decoder.source, ds, Start(), index)
      ensures forall i | i in old(cache) :: i in cache && cache[i] == old(cache[i])
      ensures forall i | i in cache && i !in old(cache) :: fresh(cache[i])
    {
      hide SkipFields, SkipTo, Decode, Skip, ViewField.Valid, Shows, SkipStop, IsField, CursorAfter, StoppedAfter;
      hide CacheRight, Valid;
      var lastItem: ViewField? := null;
      ghost var from, bs, right := lastDecodedFieldIdx, decoder.Rest(), Valid();
      if right {
        RightPlaces();
      }
      CursorAtStart();
      while lastDecodedFieldIdx < index
        invariant Usable() && from <= lastDecodedFieldIdx <= index
        invariant if lastItem == null then lastDecodedFieldIdx == from
                  else lastDecodedFieldIdx in cache && lastItem == cache[lastDecodedFieldIdx]
        invariant CursorAfter(from, bs)
        invariant forall j | j in old(cache) :: j in cache && cache[j] == old(cache[j])
        invariant forall j | j in cache && j !in old(cache) :: fresh(cache[j])
      {
        lastItem := DecodeNext(from, bs);
        if lastItem == null {
          if right {
            MovedRight(from, bs, index, Failed);
          }
          return Failed;
        }
      }
      r := Found(lastItem);
      if right {
        MovedRight(from, bs, index, r);
      }
    }

    lemma RightPlaces()
      requires Valid()
      ensures SkipTo(ds, lastDecodedFieldIdx + 1, Start()) == Some(decoder.Rest())
      ensures forall i | 0 <= i <= lastDecodedFieldIdx :: IsField(cache[i], decoder.source, ds, Start(), i)
    {
    }

    lemma CursorAtStart()
      requires Usable()
      ensures CursorAfter(lastDecodedFieldIdx, decoder.Rest())
    {
      NoFieldsPassed(ds[lastDecodedFieldIdx + 1..], decoder.Rest());
    }

    /** With the cursor after field `from` before, every field is at its place. */
    lemma MovedRight(from: int, bs: seq<byte>, index: nat, r: Lookup)
      requires Usable() && -1 <= from < index < |ds| && Moved(from, bs, index, r)
      requires SkipTo(ds, from + 1, Start()) == Some(bs)
      requires forall i | 0 <= i <= from :: IsField(cache[i], decoder.source, ds, Start(), i)
      ensures CacheRight() && (!r.Failed? ==> Valid()) && (r.Failed? <==> SkipTo(ds, index + 1, Start()).None?)
      ensures r.Found? ==> IsField(r.field, decoder.source, ds, Start(), index)
    {
      hide SkipFields, SkipTo, Skip, SkipStop, ViewField.Valid;
      SkipToSum(ds, from + 1, lastDecodedFieldIdx - from, Start());
      forall i | from < i <= lastDecodedFieldIdx
        ensures IsField(cache[i], decoder.source, ds, Start(), i)
      {
        SkipToSum(ds, from + 1, i - from - 1, Start());
      }
      if r.Failed? {
        NextField(ds, lastDecodedFieldIdx + 1, Start());
        NoFieldAfterNext(ds, lastDecodedFieldIdx + 2, index + 1, Start());
      }
    }

    /** `encoded`: the slice the fields occupy. */
    method Encoded() returns (r: Option<seq<byte>>)
      requires Valid()
      modifies this, decoder
      ensures r.Some? ==> Valid()
      ensures r == Consumed(decoder.source[initialDecoderOffset..], SkipFields(ds, Start()))
    {
      hide SkipFields, SkipTo, Decode, Skip;
      SkipToEnd(ds, Start());
      SkipFieldsShrinks(ds, Start());
      if |ds| == 0 {
        NoFieldsSkipped(ds, Start());
        return Some([]);
      }
      if lastDecodedFieldIdx < |ds| - 1 {
        var last := DecodeUpTo(|ds| - 1);
        if last.Failed? {
          return None;
        }
      }
      assert SkipFields(ds, Start()) == Some(decoder.Rest());
      assert decoder.source[initialDecoderOffset..decoder.offset] == Start()[..|Start()| - |decoder.Rest()|];
      r := Some(decoder.source[initialDecoderOffset..decoder.offset]);
    }

    /** A field is looked up and materialized. */
    method FieldValue(index: nat) returns (v: Option<Value>)
      requires Valid() && index < |ds|
      modifies this, decoder, cache.Values
      ensures v == DecodedField(ds, index, Start()) && (v.Some? ==> Valid())
      ensures forall j | j in cache :: cache[j] in old(cache.Values) || fresh(cache[j])
    {
      hide SkipFields, SkipTo, Decode, Skip, ViewField.Valid, Moved, DecodedFrom, SkipStop;
      NextField(ds, index, Start());
      var found := Get(index);
      if found.Failed? {
        return None;
      }
      label before:
      v := found.field.Materialize();
      assert forall j | j in cache && cache[j] != found.field :: old@before(cache[j].Valid()) && cache[j].Valid();
    }

    /** `materialize`: all fields, through the cache. */
    method Materialize() returns (r: Option<seq<Value>>)
      requires Valid()
      modifies this, decoder, cache.Values
      ensures r.Some? ==> Valid()
      ensures r == FieldwiseDecode(ds, |ds|, Start())
    {
      hide DecodedField, SkipTo, ViewField.Valid, IsField;
      var constructorParams: seq<Value> := [];
      for i := 0 to |ds|
        invariant Valid()
        invariant forall j | j in cache :: cache[j] in old(cache.Values) || fresh(cache[j])
        invariant FieldwiseDecode(ds, i, Start()) == Some(constructorParams)
      {
        var v := FieldValue(i);
        if v.None? {
          FieldwiseStops(ds, i + 1, |ds|, Start());
          return None;
        }
        constructorParams := constructorParams + [v.value];
      }
      r := Some(constructorParams);
    }
  }

  /** A field, decoded where skipping the ones before it ends. */
  function DecodedField(ds: seq<Desc>, i: nat, bs: seq<byte>): Option<Value>
    requires i < |ds|
  {
    if SkipTo(ds, i + 1, bs).None? || SkipTo(ds, i, bs).None? then None
    else First(Decode(ds[i], SkipTo(ds, i, bs).value))
  }

  /** The first `n` fields, each decoded where skipping the ones before it ends. */
  function FieldwiseDecode(ds: seq<Desc>, n: nat, bs: seq<byte>): Option<seq<Value>>
    requires n <= |ds|
  {
    if n == 0 then Some([])
    else
      match FieldwiseDecode(ds, n - 1, bs)
      case None => None
      case Some(vs) =>
        var v := DecodedField(ds, n - 1, bs);
        if v.None? then None else Some(vs + [v.value])
  }

  lemma NoItemsSkipped(d: Desc, bs: seq<byte>)
    ensures SkipItems(d, 0, bs) == Some(bs)
  {
  }

  lemma NextItem(d: Desc, i: nat, bs: seq<byte>)
    ensures SkipItems(d, i + 1, bs) == match SkipItems(d, i, bs) case None => None case Some(rest) => Skip(d, rest)
  {
    hide Skip;
    SkipItemsSum(d, i, 1, bs);
    if SkipItems(d, i, bs).Some? {
      SkipOne(d, SkipItems(d, i, bs).value);
    }
  }

  lemma NoItemAfter(d: Desc, i: nat, n: nat, bs: seq<byte>)
    requires i <= n && SkipItems(d, i, bs).None?
    ensures SkipItems(d, n, bs).None?
  {
    SkipItemsSum(d, i, n - i, bs);
  }

  lemma NoItemAfterNext(d: Desc, i: nat, n: nat, bs: seq<byte>)
    requires i <= n
    ensures SkipItems(d, i, bs).None? ==> SkipItems(d, n, bs).None?
  {
    hide SkipItems;
    if SkipItems(d, i, bs).None? {
      NoItemAfter(d, i, n, bs);
    }
  }

  lemma NoFieldAfterNext(ds: seq<Desc>, i: nat, n: nat, bs: seq<byte>)
    requires i <= n <= |ds|
    ensures SkipTo(ds, i, bs).None? ==> SkipTo(ds, n, bs).None?
  {
    hide SkipTo;
    if SkipTo(ds, i, bs).None? {
      NoFieldAfter(ds, i, n, bs);
    }
  }

  lemma NoFieldsSkipped(ds: seq<Desc>, bs: seq<byte>)
    requires ds == []
    ensures SkipFields(ds, bs) == Some(bs)
  {
  }

  lemma {:induction false} SkipFieldsSum(cs: seq<Desc>, ds: seq<Desc>, bs: seq<byte>)
    ensures SkipFields(cs + ds, bs) ==
        match SkipFields(cs, bs) case None => None case Some(rest) => SkipFields(ds, rest)
    decreases |cs|
  {
    hide Skip;
    if cs == [] {
      assert cs + ds == ds;
    } else {
      assert (cs + ds)[0] == cs[0] && (cs + ds)[1..] == cs[1..] + ds;
      if Skip(cs[0], bs).Some? {
        SkipFieldsSum(cs[1..], ds, Skip(cs[0], bs).value);
      }
    }
  }

  lemma NoFieldsPassed(ds: seq<Desc>, bs: seq<byte>)
    ensures SkipTo(ds, 0, bs) == Some(bs)
  {
  }

  lemma SkipToSum(ds: seq<Desc>, m: nat, n: nat, bs: seq<byte>)
    requires m + n <= |ds|
    ensures SkipTo(ds, m + n, bs) ==
        match SkipTo(ds, m, bs) case None => None case Some(rest) => SkipTo(ds[m..], n, rest)
  {
    hide SkipFields;
    assert ds[..m + n] == ds[..m] + ds[m..][..n];
    SkipFieldsSum(ds[..m], ds[m..][..n], bs);
  }

  lemma NextField(ds: seq<Desc>, i: nat, bs: seq<byte>)
    requires i < |ds|
    ensures SkipTo(ds, i + 1, bs) == match SkipTo(ds, i, bs) case None => None case Some(rest) => Skip(ds[i], rest)
  {
    hide Skip;
    assert ds[..i + 1] == ds[..i] + [ds[i]];
    SkipFieldsSum(ds[..i], [ds[i]], bs);
    if SkipTo(ds, i, bs).Some? {
      OneField(ds[i], SkipTo(ds, i, bs).value);
    }
  }

  lemma OneField(d: Desc, bs: seq<byte>)
    ensures SkipFields([d], bs) == Skip(d, bs)
  {
    hide Skip;
    assert [d][1..] == [];
    if Skip(d, bs).Some? {
      NoFieldsSkipped([], Skip(d, bs).value);
    }
  }

  lemma NoFieldAfter(ds: seq<Desc>, i: nat, n: nat, bs: seq<byte>)
    requires i <= n <= |ds| && SkipTo(ds, i, bs).None?
    ensures SkipTo(ds, n, bs).None?
  {
    assert ds[..n] == ds[..i] + ds[i..n];
    SkipFieldsSum(ds[..i], ds[i..n], bs);
  }

  lemma {:induction false} FieldwiseStops(ds: seq<Desc>, i: nat, n: nat, bs: seq<byte>)
    requires i <= n <= |ds| && FieldwiseDecode(ds, i, bs).None?
    ensures FieldwiseDecode(ds, n, bs).None?
  {
    hide Skip, Decode, SkipFields, SkipTo;
    if i < n {
      FieldwiseStops(ds, i, n - 1, bs);
    }
  }

  // ----- agreement with eager decoding -----

  /** Whenever the whole sequence decodes, the i-th item view stands for the i-th decoded item. */
  lemma {:induction false} ItemsAgree(d: Desc, n: nat, bs: seq<byte>, i: nat)
    requires SkipSound(d) && DecodeItems(d, n, bs).Some? && i < n
    ensures SkipItems(d, i, bs).Some? && First(Decode(d, SkipItems(d, i, bs).value)) ==
        Some(DecodeItems(d, n, bs).value.0[i])
    ensures SkipItems(d, i + 1, bs).Some?
    decreases n
  {
    hide Decode, Skip, SkipSound;
    SkipAgrees(d, bs);
    var (v, rest) := Decode(d, bs).value;
    NextItem(d, i, bs);
    if i == 0 {
      NoItemsSkipped(d, bs);
    } else {
      ItemsAgree(d, n - 1, rest, i - 1);
      NextItem(d, i - 1, rest);
      assert DecodeItems(d, n, bs).value.0[i] == DecodeItems(d, n - 1, rest).value.0[i - 1];
      assert SkipItems(d, i, bs) == SkipItems(d, i - 1, rest);
      assert SkipItems(d, i + 1, bs) == SkipItems(d, i, rest);
    }
  }

  /** So does mapping over the view. */
  lemma {:induction false} MapAgrees(d: Desc, n: nat, bs: seq<byte>, k: nat)
    requires SkipSound(d) && DecodeItems(d, n, bs).Some? && k <= n
    ensures ItemwiseDecode(d, k, bs) == Some(DecodeItems(d, n, bs).value.0[..k])
    decreases k
  {
    hide Decode, Skip, SkipSound, SkipItems, DecodeItems;
    if k > 0 {
      MapAgrees(d, n, bs, k - 1);
      ItemsAgree(d, n, bs, k - 1);
      var vs := DecodeItems(d, n, bs).value.0;
      assert vs[..k] == vs[..k - 1] + [vs[k - 1]];
    }
  }

  /** Whenever the object decodes, its view materializes to the same fields. */
  lemma {:induction false} FieldsAgree(ds: seq<Desc>, bs: seq<byte>, k: nat)
    requires (forall e | e in ds :: SkipSound(e)) && DecodeFields(ds, bs).Some? && k <= |ds|
    ensures SkipTo(ds, k, bs).Some?
    ensures FieldwiseDecode(ds, k, bs) == Some(DecodeFields(ds, bs).value.0[..k])
    decreases k
  {
    hide Decode, Skip, SkipSound, SkipFields, DecodeFields;
    if k == 0 {
      assert ds[..0] == [];
      NoFieldsSkipped(ds[..0], bs);
    } else {
      FieldsAgree(ds, bs, k - 1);
      FieldAgrees(ds, bs, k - 1);
      var vs := DecodeFields(ds, bs).value.0;
      assert vs[..k] == vs[..k - 1] + [vs[k - 1]];
    }
  }

  lemma {:induction false} FieldAgrees(ds: seq<Desc>, bs: seq<byte>, i: nat)
    requires (forall e | e in ds :: SkipSound(e)) && DecodeFields(ds, bs).Some? && i < |ds|
    ensures SkipTo(ds, i, bs).Some? && First(Decode(ds[i], SkipTo(ds, i, bs).value)) ==
        Some(DecodeFields(ds, bs).value.0[i])
    ensures SkipTo(ds, i + 1, bs).Some?
    decreases |ds|
  {
    hide Decode, Skip, SkipSound;
    assert ds[0] in ds && forall e | e in ds[1..] :: e in ds;
    SkipAgrees(ds[0], bs);
    var (v, rest) := Decode(ds[0], bs).value;
    NextField(ds, i, bs);
    if i == 0 {
      assert ds[..0] == [];
      NoFieldsSkipped(ds[..0], bs);
    } else {
      FieldAgrees(ds[1..], rest, i - 1);
      assert ds[..i][0] == ds[0] && ds[..i][1..] == ds[1..][..i - 1];
      assert ds[..i + 1][0] == ds[0] && ds[..i + 1][1..] == ds[1..][..i];
    }
  }

  /**
   `encoded` of a sequence view is the slice it was decoded from exactly when there is an item or no length prefix.
   */
  lemma EncodedIsSliceExactly(view: SequenceView)
    requires view.Opened() && view.Slice().Some?
    ensures (if view.length == 0 then Some([]) else view.Slice()) == view.Slice() <==>
        view.fixedLength.Some? || view.length > 0
  {
    hide SkipItems, DecodeNat32, Skip;
    var bs := view.decoder.source[view.initialDecoderOffset..];
    NoItemsSkipped(view.d, view.start);
    Nat32Shrinks(bs);
  }

  /** The view of an empty sequence, which is the byte 0: it is `encoded` as no bytes, but its slice is that byte. */
  method EmptySequence() returns (view: SequenceView)
    ensures view.Valid() && view.d == Boolean && view.length == 0 && view.Slice() == Some([0 as byte])
    ensures Decode(SeqVar(Boolean, 0, 1), [0 as byte]) == Some((List([]), []))
  {
    var d, bs := SeqVar(Boolean, 0, 1), [0 as byte];
    EmptySequenceRead(bs);
    var decoder := new Decoder(bs, 0);
    assert decoder.Rest() == bs;
    view := OpenSequence(decoder, d);
    assert view.Slice() == Consumed(bs, Some([])) && bs[..1] == bs;
  }

  /** One blob that says it has five bytes and has one: the first access fails, the second gives an item inside it. */
  method AfterFailure() returns (view: SequenceView, first: Lookup, second: Lookup)
    ensures view.Usable() && view.d == Blob && view.length == 1 && view.start == [5 as byte, 0 as byte]
    ensures SkipItems(view.d, 1, view.start) == None && first == Failed
    ensures view.cache.Keys == {0} && second == Found(view.cache[0]) && view.cache[0].At() == [0 as byte]
  {
    hide Decode, Skip, SkipItems, SkipStop, DecodeNat32, ViewField.Valid;
    var bs := [5 as byte, 0 as byte];
    BlobTooShort(bs);
    var decoder := new Decoder(bs, 0);
    assert decoder.Rest() == bs;
    NoItemsSkipped(Blob, bs);
    view := new SequenceView(decoder, Blob, Some(1), 0, 1);
    SkipOne(Blob, bs);
    first := view.Get(0);
    second := GetFirst(view);
  }

  /** The first item is read from where the cursor is. */
  method GetFirst(view: SequenceView) returns (r: Lookup)
    requires view.Usable() && view.lastDecodedIdx == -1 && view.length == 1 && Skip(view.d, view.decoder.Rest()).Some?
    modifies view, view.decoder
    ensures view.Usable() && view.cache.Keys == {0} && r == Found(view.cache[0])
    ensures view.cache[0].At() == old(view.decoder.Rest())
  {
    hide Decode, Skip, SkipItems, SkipStop, DecodeNat32, ViewField.Valid;
    SkipOne(view.d, view.decoder.Rest());
    NoItemsSkipped(view.d, view.decoder.Rest());
    r := view.Get(0);
  }

  lemma BlobTooShort(bs: seq<byte>)
    requires bs == [5 as byte, 0 as byte]
    ensures Skip(Blob, bs) == None && SkipStop(Blob, bs) == bs[1..] == [0 as byte]
    ensures Skip(Blob, bs[1..]) == Some([])
  {
    assert bs[1..1] == [] && bs[1..][1..] == [] && bs[1..][1..1] == [];
    assert DecodeNat32(bs) == Some((5, bs[1..]));
    assert DecodeNat32(bs[1..]) == Some((0, bs[1..][1..]));
  }

  lemma EmptySequenceRead(bs: seq<byte>)
    requires bs == [0 as byte]
    ensures DecodeNat32(bs) == Some((0, []))
    ensures Decode(SeqVar(Boolean, 0, 1), bs) == Some((List([]), [])) && Skip(SeqVar(Boolean, 0, 1), bs) == Some([])
  {
    assert bs[1..1] == [] && bs[1..] == [];
    NoItemsSkipped(Boolean, []);
    assert DecodeItems(Boolean, 0, []) == Some(([], []));
  }

  /** The slice a field gives as its encoding decodes, on its own, to the value of the field. */
  lemma EncodedDecodesAlone(d: Desc, bs: seq<byte>)
    requires SkipSound(d) && Decode(d, bs).Some?
    ensures var p := Consumed(bs, Skip(d, bs));
            p.Some? && Decode(d, p.value) == Some((Decode(d, bs).value.0, []))
  {
    hide Decode, Skip, SkipSound;
    SkipAgrees(d, bs);
    DecodeLocal(d, bs, []);
    var rest := Decode(d, bs).value.1;
    assert Taken(bs, rest) + [] == bs[..|bs| - |rest|];
  }
}

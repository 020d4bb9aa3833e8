/** Decoding looks at the bytes it consumes and at nothing behind them. */
module Locality {
  import opened Bytes
  import opened Naturals
  import opened Descriptors

  ghost predicate IsSuffix(rest: seq<byte>, bs: seq<byte>) {
    |rest| <= |bs| && bs[|bs| - |rest|..] == rest
  }

  /** The bytes of `bs` in front of `rest`. */
  function Taken(bs: seq<byte>, rest: seq<byte>): seq<byte> {
    if |rest| <= |bs| then bs[..|bs| - |rest|] else []
  }

  lemma TakenTwice(bs: seq<byte>, mid: seq<byte>, rest: seq<byte>, x: seq<byte>)
    requires IsSuffix(mid, bs) && IsSuffix(rest, mid)
    ensures IsSuffix(rest, bs) && Taken(bs, rest) + x == Taken(bs, mid) + (Taken(mid, rest) + x)
  {
    assert bs == bs[..|bs| - |mid|] + mid;
    assert mid == mid[..|mid| - |rest|] + rest;
  }

  lemma TakenFront(bs: seq<byte>, n: nat, x: seq<byte>)
    requires n <= |bs|
    ensures IsSuffix(bs[n..], bs) && Taken(bs, bs[n..]) == bs[..n]
    ensures (bs[..n] + x)[..n] == bs[..n] && (bs[..n] + x)[n..] == x
  {
  }

  lemma NatLocal(bs: seq<byte>, x: seq<byte>)
    requires DecodeNat(bs).Some?
    ensures var (n, rest) := DecodeNat(bs).value;
            IsSuffix(rest, bs) && DecodeNat(Taken(bs, rest) + x) == Some((n, x))
  {
    hide FromLE, HeaderBytes, Assemble;
    var l := HeaderBytes(bs[0]);
    TakenFront(bs, l + 1, x);
    assert (bs[..l + 1] + x)[1..l + 1] == bs[1..l + 1];
  }

  lemma Nat32Local(bs: seq<byte>, x: seq<byte>)
    requires DecodeNat32(bs).Some?
    ensures var (n, rest) := DecodeNat32(bs).value;
            IsSuffix(rest, bs) && DecodeNat32(Taken(bs, rest) + x) == Some((n, x))
  {
    hide DecodeNat, HeaderBytes;
    NatLocal(bs, x);
    var (n, rest) := DecodeNat(bs).value;
    NatConsumes(bs);
    assert (Taken(bs, rest) + x)[0] == bs[0];
  }

  lemma NatConsumes(bs: seq<byte>)
    requires DecodeNat(bs).Some?
    ensures |DecodeNat(bs).value.1| < |bs|
  {
  }

  lemma BitsLocal(bits: nat, bs: seq<byte>, x: seq<byte>)
    requires DecodeBits(bs, bits).Some?
    ensures var (v, rest) := DecodeBits(bs, bits).value;
            IsSuffix(rest, bs) && DecodeBits(Taken(bs, rest) + x, bits) == Some((v, x))
  {
    hide TailIsZero, ByteLength;
    TakenFront(bs, ByteLength(bits), x);
  }

  lemma BytesLocal(len: nat, bs: seq<byte>, x: seq<byte>)
    requires DecodeBytes(bs, len).Some?
    ensures var (v, rest) := DecodeBytes(bs, len).value;
            IsSuffix(rest, bs) && DecodeBytes(Taken(bs, rest) + x, len) == Some((v, x))
  {
    TakenFront(bs, len, x);
  }

  /** The consumed bytes, in front of anything else, decode to the same value and leave exactly the rest. */
  lemma {:induction false} DecodeLocal(d: Desc, bs: seq<byte>, x: seq<byte>)
    requires Decode(d, bs).Some?
    ensures var (v, rest) := Decode(d, bs).value;
            IsSuffix(rest, bs) && Decode(d, Taken(bs, rest) + x) == Some((v, x))
    decreases d, 1, 0
  {
    hide Pow2, FromLE, DecodeNat, DecodeNat32, DecodeBits, DecodeItems, DecodeEntries, DecodeFields, HasKey;
    hide Taken, IsSuffix;
    var (v, rest) := Decode(d, bs).value;
    match d
    case Optional(e) =>
      Front(bs, 1, x);
      if bs[0] == 1 {
        DecodeLocal(e, bs[1..], x);
        Front(bs, 1, Taken(bs[1..], rest) + x);
        TakenTwice(bs, bs[1..], rest, x);
      }
    case SeqVar(e, _, _) =>
      var (len, mid) := DecodeNat32(bs).value;
      ItemsLocal(e, len, mid, x);
      Nat32Local(bs, Taken(mid, rest) + x);
      TakenTwice(bs, mid, rest, x);
    case SeqFix(e, len) => ItemsLocal(e, len, bs, x);
    case Dictionary(_, _, _, fixed) =>
      if fixed.Some? {
        EntriesLocal(d, fixed.value, bs, [], x);
      } else {
        var (len, mid) := DecodeNat32(bs).value;
        EntriesLocal(d, len, mid, [], x);
        Nat32Local(bs, Taken(mid, rest) + x);
        TakenTwice(bs, mid, rest, x);
      }
    case Pair(a, b) =>
      var mid := Decode(a, bs).value.1;
      DecodeLocal(b, mid, x);
      DecodeLocal(a, bs, Taken(mid, rest) + x);
      TakenTwice(bs, mid, rest, x);
    case Union(ds) =>
      var (i, mid) := DecodeNat32(bs).value;
      DecodeLocal(ds[i], mid, x);
      Nat32Local(bs, Taken(mid, rest) + x);
      TakenTwice(bs, mid, rest, x);
    case Class(ds) => FieldsLocal(ds, bs, x);
    case _ => LeafLocal(d, bs, x);
  }

  lemma LeafLocal(d: Desc, bs: seq<byte>, x: seq<byte>)
    requires Decode(d, bs).Some?
    requires !d.Optional? && !d.SeqVar? && !d.SeqFix? && !d.Dictionary? && !d.Pair? && !d.Union? && !d.Class?
    ensures var (v, rest) := Decode(d, bs).value;
            IsSuffix(rest, bs) && Decode(d, Taken(bs, rest) + x) == Some((v, x))
  {
    hide Pow2, FromLE, DecodeNat, DecodeNat32, DecodeBits, Taken, IsSuffix;
    var rest := Decode(d, bs).value.1;
    match d
    case Nothing => Front(bs, 0, x);
    case UInt(size) => Front(bs, size, x);
    case Int(size) => Front(bs, size, x);
    case Boolean => Front(bs, 1, x);
    case VarU32 => Nat32Local(bs, x);
    case VarU64 => NatLocal(bs, x);
    case FixBytes(len) => Front(bs, len, x);
    case Blob =>
      var (len, mid) := DecodeNat32(bs).value;
      BytesLocal(len, mid, x);
      Nat32Local(bs, Taken(mid, rest) + x);
      TakenTwice(bs, mid, rest, x);
    case BitVecFix(bits) => BitsLocal(bits, bs, x);
    case BitVecVar =>
      var (bits, mid) := DecodeNat32(bs).value;
      BitsLocal(bits, mid, x);
      Nat32Local(bs, Taken(mid, rest) + x);
      TakenTwice(bs, mid, rest, x);
  }

  lemma Front(bs: seq<byte>, n: nat, x: seq<byte>)
    requires n <= |bs|
    ensures IsSuffix(bs[n..], bs) && |Taken(bs, bs[n..]) + x| == n + |x|
    ensures (Taken(bs, bs[n..]) + x)[..n] == bs[..n] && (Taken(bs, bs[n..]) + x)[n..] == x
    ensures n > 0 ==> (Taken(bs, bs[n..]) + x)[0] == bs[0]
  {
    TakenFront(bs, n, x);
  }

  lemma {:induction false} ItemsLocal(d: Desc, n: nat, bs: seq<byte>, x: seq<byte>)
    requires DecodeItems(d, n, bs).Some?
    ensures var (vs, rest) := DecodeItems(d, n, bs).value;
            IsSuffix(rest, bs) && DecodeItems(d, n, Taken(bs, rest) + x) == Some((vs, x))
    decreases d, 2, n
  {
    hide Decode, Taken, IsSuffix;
    var rest := DecodeItems(d, n, bs).value.1;
    if n == 0 {
      Whole(bs, x);
    } else {
      var mid := Decode(d, bs).value.1;
      ItemsLocal(d, n - 1, mid, x);
      DecodeLocal(d, bs, Taken(mid, rest) + x);
      TakenTwice(bs, mid, rest, x);
    }
  }

  lemma Whole(bs: seq<byte>, x: seq<byte>)
    ensures IsSuffix(bs, bs) && Taken(bs, bs) + x == x
  {
  }

  lemma {:induction false} EntriesLocal(d: Desc, n: nat, bs: seq<byte>, done: seq<Entry>, x: seq<byte>)
    requires d.Dictionary? && DecodeEntries(d, n, bs, done).Some?
    ensures var (es, rest) := DecodeEntries(d, n, bs, done).value;
            IsSuffix(rest, bs) && DecodeEntries(d, n, Taken(bs, rest) + x, done) == Some((es, x))
    decreases d, 0, n
  {
    hide Decode, Taken, IsSuffix, HasKey;
    var rest := DecodeEntries(d, n, bs, done).value.1;
    if n == 0 {
      Whole(bs, x);
    } else {
      var (k, mid) := Decode(d.key, bs).value;
      var (v, last) := Decode(d.value, mid).value;
      EntriesLocal(d, n - 1, last, done + [(k, v)], x);
      DecodeLocal(d.value, mid, Taken(last, rest) + x);
      TakenTwice(mid, last, rest, x);
      DecodeLocal(d.key, bs, Taken(mid, rest) + x);
      TakenTwice(bs, mid, rest, x);
    }
  }

  lemma {:induction false} FieldsLocal(ds: seq<Desc>, bs: seq<byte>, x: seq<byte>)
    requires DecodeFields(ds, bs).Some?
    ensures var (vs, rest) := DecodeFields(ds, bs).value;
            IsSuffix(rest, bs) && DecodeFields(ds, Taken(bs, rest) + x) == Some((vs, x))
    decreases ds, 0, 0
  {
    hide Decode, Taken, IsSuffix;
    var rest := DecodeFields(ds, bs).value.1;
    if ds == [] {
      Whole(bs, x);
    } else {
      var mid := Decode(ds[0], bs).value.1;
      FieldsLocal(ds[1..], mid, x);
      DecodeLocal(ds[0], bs, Taken(mid, rest) + x);
      TakenTwice(bs, mid, rest, x);
    }
  }
}

/** The encoder: a growing buffer that behaves like an append-only byte sequence, whatever the size hints. */
module Encoder {
  import opened Bytes
  import opened Naturals
  import opened Descriptors
  import opened Skipping

  const DEFAULT_START_LENGTH: nat := 512
  const MAX_LENGTH: nat := 20 * 1024 * 1024

  /** Writing `bytes` behind `before` succeeds exactly when the limit allows it; a failure may leave a part behind. */
  ghost predicate Outcome(before: seq<byte>, after: seq<byte>, bytes: seq<byte>, limit: nat, ok: bool) {
    && (ok <==> |before| + |bytes| <= limit)
    && (if ok then after == before + bytes else before <= after)
  }

  lemma OutcomeThen(w0: seq<byte>, w1: seq<byte>, w2: seq<byte>, a: seq<byte>, b: seq<byte>, limit: nat, ok: bool)
    requires Outcome(w0, w1, a, limit, true) && Outcome(w1, w2, b, limit, ok)
    ensures Outcome(w0, w2, a + b, limit, ok)
  {
    assert w0 + (a + b) == w0 + a + b;
  }

  lemma OutcomeFailed(w0: seq<byte>, w1: seq<byte>, a: seq<byte>, b: seq<byte>, limit: nat)
    requires Outcome(w0, w1, a, limit, false)
    ensures Outcome(w0, w1, a + b, limit, false)
  {
  }

  lemma OutcomeNothing(w0: seq<byte>, limit: nat)
    requires |w0| <= limit
    ensures Outcome(w0, w0, [], limit, true)
  {
    assert w0 + [] == w0;
  }

  class Encoder {
    var offset: nat
    var destination: array<byte>
    /** The destination is the encoder's own resizable buffer and not one given by the caller. */
    const growable: bool

    ghost predicate Valid()
      reads this
    {
      offset <= destination.Length && offset <= MAX_LENGTH
    }

    /** `viewResult`: what has been encoded so far. */
    function Written(): seq<byte>
      requires Valid()
      reads this, destination
    {
      destination[..offset]
    }

    /** Total size that can ever be written. */
    ghost function Limit(): nat
      reads this
    {
      if growable || destination.Length > MAX_LENGTH then MAX_LENGTH else destination.Length
    }

    constructor Growing(expectedLength: nat)
      ensures Valid() && fresh(destination) && growable && Written() == []
    {
      destination := new byte[if expectedLength < MAX_LENGTH then expectedLength else MAX_LENGTH](_ => 0);
      offset := 0;
      growable := true;
    }

    constructor Into(destination: array<byte>)
      ensures Valid() && this.destination == destination && !growable && Written() == []
    {
      this.destination := destination;
      offset := 0;
      growable := false;
    }

    /**
     `ensureBigEnough`: `ok` is false where the source throws. What has been written never changes; a
     silent call never fails, a loud one fails exactly when the limit would be exceeded.
     */
    method EnsureBigEnough(length: nat, silent: bool) returns (ok: bool)
      requires Valid()
      modifies this`destination
      ensures Valid() && Written() == old(Written()) && Limit() == old(Limit())
      ensures destination == old(destination) || fresh(destination)
      ensures silent ==> ok
      ensures !silent ==> (ok <==> offset + length <= Limit())
      ensures !silent && ok ==> offset + length <= destination.Length
    {
      var newLength := offset + length;
      if newLength > MAX_LENGTH {
        return silent;
      }
      if newLength > destination.Length {
        if growable {
          var doubled := destination.Length * 2;
          var minExtend := if newLength > doubled then newLength else doubled;
          Resize(if minExtend < MAX_LENGTH then minExtend else MAX_LENGTH);
        }
        if newLength > destination.Length {
          return silent;
        }
      }
      ok := true;
    }

    /** `ArrayBuffer.resize` to at least the current length. */
    method Resize(length: nat)
      requires Valid() && length >= destination.Length
      modifies this`destination
      ensures fresh(destination) && destination.Length == length &&
          destination[..old(destination.Length)] == old(destination[..])
    {
      var larger := new byte[length](_ => 0);
      forall i | 0 <= i < destination.Length {
        larger[i] := destination[i];
      }
      destination := larger;
    }

    /** Copy bytes to the end, or fail without writing. */
    method PutBytes(bytes: seq<byte>) returns (ok: bool)
      requires Valid()
      modifies this, destination
      ensures Valid() && Limit() == old(Limit()) && (destination == old(destination) || fresh(destination))
      ensures ok <==> old(offset) + |bytes| <= Limit()
      ensures Written() == if ok then old(Written()) + bytes else old(Written())
    {
      ok := EnsureBigEnough(|bytes|, false);
      if ok {
        forall i | 0 <= i < |bytes| {
          destination[offset + i] := bytes[i];
        }
        offset := offset + |bytes|;
      }
    }

    /** The outcome of writing `bytes`: all of them or, where the limit is hit, an error after a part of them. */
    twostate predicate Appended(bytes: seq<byte>, ok: bool)
      reads this, destination
    {
      && old(Valid()) && Valid()
      && Limit() == old(Limit()) && (destination == old(destination) || fresh(destination))
      && Outcome(old(Written()), Written(), bytes, Limit(), ok)
    }

    /** The last loop of `varU64`: low bytes of `rest`, least significant first, into space already ensured. */
    method WriteLow(number: nat, l: nat)
      requires Valid() && offset + l <= destination.Length && offset + l <= MAX_LENGTH
      modifies this`offset, destination
      ensures Valid() && offset == old(offset) + l && Written() == old(Written()) + LE(number, l)
    {
      hide LE;
      ghost var bytes := LE(number, l);
      ghost var before := destination[..offset];
      var rest := number;
      for i := 0 to l
        invariant offset == old(offset) && offset + l <= destination.Length && destination[..offset] == before
        invariant forall j | 0 <= j < i :: destination[offset + j] == bytes[j]
        invariant LE(rest, l - i) == bytes[i..]
      {
        LEParts(rest, l - i);
        ghost var tail := bytes[i..];
        assert bytes[i] == tail[0] == rest % 256 && tail[1..] == bytes[i + 1..];
        destination[offset + i] := rest % 256;
        rest := rest / 256;
      }
      offset := offset + l;
      assert destination[..offset] == before + bytes;
    }

    /** `varU64`. */
    method VarU64(num: nat) returns (ok: bool)
      requires Valid() && num < LIMIT
      modifies this, destination
      ensures Appended(EncodeNat(num), ok)
    {
      hide LE, Radix, Bound, Marker;
      EncodedParts(num);
      if num == 0 {
        ok := PutBytes([0]);
        return;
      }
      var l := FindLength(num);
      ok := EnsureBigEnough(l + 1, false);
      if ok {
        var first := FirstByteOf(num, l);
        destination[offset] := first;
        offset := offset + 1;
        assert Written() == old(Written()) + [first];
        WriteLow(if l == 8 then num else num % Radix(l), l);
      }
    }
  }

  lemma LEParts(n: nat, k: nat)
    ensures LE(n, k) == if k == 0 then [] else [n % 256] + LE(n / 256, k - 1)
    ensures k > 0 ==> LE(n, k)[0] == n % 256 && LE(n, k)[1..] == LE(n / 256, k - 1)
  {
  }

  lemma EncodedParts(num: nat)
    requires num < LIMIT
    ensures EncodeNat(0) == [0]
    ensures var l := ExtraBytes(num);
            EncodeNat(num) == [FirstByteOf(num, l)] + LE(if l == 8 then num else num % Radix(l), l)
  {
  }

  /** The search loop of `varU64`: from the longest form down to the first that is needed. */
  method FindLength(num: nat) returns (l: nat)
    requires 0 < num < LIMIT
    ensures l == ExtraBytes(num)
  {
    var maxEncoded := Bound(7);
    if num >= maxEncoded {
      BoundsGrow(8, ExtraBytes(num));
      return 8;
    }
    var minEncoded := maxEncoded / 128;
    l := 7;
    while num < minEncoded
      invariant 0 <= l <= 7 && num < Bound(l)
      invariant minEncoded == if l == 0 then 1 else Bound(l - 1)
      decreases l
    {
      LowerBound(l);
      l := l - 1;
      minEncoded := minEncoded / 128;
    }
    BoundsGrow(l, ExtraBytes(num));
  }

  function FirstByteOf(num: nat, l: nat): byte
    requires l == ExtraBytes(num) && num < LIMIT
  {
    FirstByteFixesLength(num);
    if l == 8 then 0xff else 256 - Marker(l) + num / Radix(l)
  }

  lemma LowerBound(l: nat)
    requires l <= 7
    ensures l > 1 ==> Bound(l - 1) / 128 == Bound(l - 2)
    ensures l == 1 ==> Bound(0) / 128 == 1
  {
  }

  lemma BoundsGrow(l: nat, m: nat)
    requires l <= 8
    ensures m < l ==> Bound(m) <= Bound(l - 1)
  {
    if l == 0 {} else if l == 1 {} else if l == 2 {} else if l == 3 {} else if l == 4 {} else if l == 5 {}
        else if l == 6 {} else {}
  }
}

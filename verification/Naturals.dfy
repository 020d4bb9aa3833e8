/** The compact encoding of natural numbers below 2^64 (Gray Paper, Appendix C). */
module Naturals {
  import opened Bytes

  const LIMIT: nat := 0x1_0000_0000_0000_0000
  const LIMIT32: nat := 0x1_0000_0000

  /** 2^(7(l+1)): numbers below it fit into `l` bytes after the first one. */
  function Bound(l: nat): nat
    requires l < 8
  {
    if l == 0 then 0x80 else if l == 1 then 0x4000 else if l == 2 then 0x20_0000 else if l == 3 then 0x1000_0000
    else if l == 4 then 0x8_0000_0000 else if l == 5 then 0x400_0000_0000 else if l == 6 then 0x2_0000_0000_0000
    else 0x100_0000_0000_0000
  }

  /** 2^(8l). */
  function Radix(l: nat): (p: nat)
    requires l <= 8
    ensures p >= 1
  {
    if l == 0 then 1 else if l == 1 then 0x100 else if l == 2 then 0x1_0000 else if l == 3 then 0x100_0000
    else if l == 4 then 0x1_0000_0000 else if l == 5 then 0x100_0000_0000 else if l == 6 then 0x1_0000_0000_0000
    else if l == 7 then 0x100_0000_0000_0000 else 0x1_0000_0000_0000_0000
  }

  /** 2^(8-l), the number of first bytes that announce at least `l` more bytes. */
  function Marker(l: nat): nat
    requires l <= 8
  {
    if l == 0 then 256 else if l == 1 then 128 else if l == 2 then 64 else if l == 3 then 32
    else if l == 4 then 16 else if l == 5 then 8 else if l == 6 then 4 else if l == 7 then 2 else 1
  }

  lemma TablesArePowers(l: nat)
    requires l <= 8
    ensures Radix(l) == Pow2(8 * l) && Marker(l) == Pow2(8 - l) && (l < 8 ==> Bound(l) == Pow2(7 * l + 7))
  {
    hide Pow2;
    Powers();
    if l == 0 {} else if l == 1 {} else if l == 2 {} else if l == 3 {} else if l == 4 {}
    else if l == 5 {} else if l == 6 {} else if l == 7 {} else {}
  }

  /** Number of bytes after the first one: the smallest `l` with `n < 2^(7(l+1))`, and 8 beyond that. */
  function ExtraBytes(n: nat): (l: nat)
    ensures l <= 8
    ensures l < 8 ==> n < Bound(l)
    ensures forall k | 0 <= k < l :: n >= Bound(k)
  {
    ExtraFrom(n, 0)
  }

  function ExtraFrom(n: nat, i: nat): (l: nat)
    requires i <= 8 && forall k | 0 <= k < i :: n >= Bound(k)
    ensures i <= l <= 8
    ensures l < 8 ==> n < Bound(l)
    ensures forall k | 0 <= k < l :: n >= Bound(k)
    decreases 8 - i
  {
    if i == 8 || n < Bound(i) then i else ExtraFrom(n, i + 1)
  }

  /** The first byte: `l` leading one bits, then the most significant bits of the number. */
  function FirstByte(n: nat): int {
    var l := ExtraBytes(n);
    if l == 8 then 255 else 256 - Marker(l) + n / Radix(l)
  }

  /** `decodeVariableLengthExtraBytes`: the mask table, searched from the largest. */
  function HeaderBytes(first: byte): (l: nat)
    ensures l <= 8
  {
    if first >= 0xff then 8 else if first >= 0xfe then 7 else if first >= 0xfc then 6 else if first >= 0xf8 then 5
    else if first >= 0xf0 then 4 else if first >= 0xe0 then 3 else if first >= 0xc0 then 2
        else if first >= 0x80 then 1 else 0
  }

  lemma FirstByteFixesLength(n: nat)
    requires n < LIMIT
    ensures 0 <= FirstByte(n) < 256 && HeaderBytes(FirstByte(n)) == ExtraBytes(n)
    ensures ExtraBytes(n) < 8 ==> FirstByte(n) + Marker(ExtraBytes(n)) - 256 == n / Radix(ExtraBytes(n))
  {
    var l := ExtraBytes(n);
    if l == 0 {} else if l == 1 {} else if l == 2 {} else if l == 3 {}
    else if l == 4 {} else if l == 5 {} else if l == 6 {} else if l == 7 {} else {}
  }

  function EncodeNat(n: nat): (bs: seq<byte>)
    requires n < LIMIT
    ensures |bs| == ExtraBytes(n) + 1 && HeaderBytes(bs[0]) == ExtraBytes(n)
  {
    FirstByteFixesLength(n);
    var l := ExtraBytes(n);
    [FirstByte(n)] + LE(if l == 8 then n else n % Radix(l), l)
  }

  /** `varU64`: the number and what is left of the input. */
  function DecodeNat(bs: seq<byte>): (r: Option<(nat, seq<byte>)>) {
    if |bs| == 0 || |bs| <= HeaderBytes(bs[0]) then None
    else Some((Assemble(bs[0], bs[1..HeaderBytes(bs[0]) + 1]), bs[HeaderBytes(bs[0]) + 1..]))
  }

  /** The number made of the bits below the length marker and the little-endian bytes. */
  function Assemble(first: byte, low: seq<byte>): nat
    requires |low| == HeaderBytes(first)
  {
    HeaderNonNegative(first);
    var l := |low|;
    if l == 8 then FromLE(low) else (first + Marker(l) - 256) * Radix(l) + FromLE(low)
  }

  lemma HeaderNonNegative(first: byte)
    ensures var l := HeaderBytes(first);
            l < 8 ==> 0 <= first + Marker(l) - 256 < Marker(l) / 2
  {
  }

  /** `varU32`: like `varU64`, but longer forms and a non-zero top in the 4-byte form are errors. */
  function DecodeNat32(bs: seq<byte>): (r: Option<(nat, seq<byte>)>) {
    if |bs| == 0 || HeaderBytes(bs[0]) > 4 || (HeaderBytes(bs[0]) == 4 && bs[0] != 0xf0) then None else DecodeNat(bs)
  }

  // ----- round trip -----

  lemma CompactRoundTrip(n: nat, rest: seq<byte>)
    requires n < LIMIT
    ensures DecodeNat(EncodeNat(n) + rest) == Some((n, rest))
  {
    hide Pow2, HeaderBytes, LE, FromLE, Marker;
    FirstByteFixesLength(n);
    var l := ExtraBytes(n);
    var bs := EncodeNat(n) + rest;
    var low := if l == 8 then n else n % Radix(l);
    assert bs[1..l + 1] == LE(low, l) && bs[l + 1..] == rest;
    TablesArePowers(l);
    FromLEofLE(low, l);
    assert bs[0] == FirstByte(n);
    if l < 8 {
      DivMod(n, Radix(l));
    }
  }

  lemma DivSmall(n: nat, p: nat)
    ensures n < p ==> n / p == 0
  {
  }

  lemma DivMod(n: nat, p: nat)
    requires p > 0
    ensures n / p * p + n % p == n
  {
  }

  lemma CompactRoundTrip32(n: nat, rest: seq<byte>)
    requires n < LIMIT32
    ensures DecodeNat32(EncodeNat(n) + rest) == Some((n, rest))
  {
    hide Pow2, LE, FromLE;
    CompactRoundTrip(n, rest);
    FirstByteFixesLength(n);
    var l := ExtraBytes(n);
    assert n < Bound(4) && l <= 4;
    assert (EncodeNat(n) + rest)[0] == FirstByte(n);
    DivSmall(n, Radix(4));
  }

  /** No encoding is a prefix of another, so a stream of numbers splits in one way only. */
  lemma PrefixFree(m: nat, n: nat, x: seq<byte>, y: seq<byte>)
    requires m < LIMIT && n < LIMIT && EncodeNat(m) + x == EncodeNat(n) + y
    ensures m == n && x == y
  {
    CompactRoundTrip(m, x);
    CompactRoundTrip(n, y);
  }

  // ----- shortest form -----

  lemma DecodedBound(bs: seq<byte>)
    requires DecodeNat(bs).Some?
    ensures |bs| > 0
    ensures var l := HeaderBytes(bs[0]);
            var n := DecodeNat(bs).value.0;
            && n < LIMIT
            && (l < 8 ==>
                n < Bound(l) && n / Radix(l) == bs[0] + Marker(l) - 256 &&
                n % Radix(l) == FromLE(bs[1..l + 1]))
  {
    hide Pow2, FromLE;
    var l := HeaderBytes(bs[0]);
    HeaderNonNegative(bs[0]);
    var low := FromLE(bs[1..l + 1]);
    TablesArePowers(l);
    FromLEBound(bs[1..l + 1]);
    if l < 8 {
      var top := bs[0] + Marker(l) - 256;
      Quotient(top, Radix(l), low);
      if l == 0 {} else if l == 1 {} else if l == 2 {} else if l == 3 {} else if l == 4 {} else if l == 5 {}
          else if l == 6 {} else {}
    }
  }

  lemma Quotient(q: nat, p: nat, r: nat)
    requires r < p
    ensures (q * p + r) / p == q && (q * p + r) % p == r
  {
    DivMod(q * p + r, p);
    SameMultiple((q * p + r) / p, q, p, (q * p + r) % p, r);
  }

  lemma SameMultiple(a: int, b: int, p: nat, x: nat, y: nat)
    requires a * p + x == b * p + y && x < p && y < p
    ensures a == b && x == y
  {
    assert (a - b) * p == y - x;
    Multiple(a - b, p);
  }

  lemma Multiple(d: int, p: int)
    requires p >= 0
    ensures d >= 1 ==> d * p >= p
    ensures d <= -1 ==> d * p <= -p
  {
  }

  /** Nothing shorter decodes to `n`, and nothing else of the same length does. */
  lemma ShortestForm(n: nat, bs: seq<byte>, rest: seq<byte>)
    requires n < LIMIT && DecodeNat(bs) == Some((n, rest))
    ensures |bs| - |rest| >= |EncodeNat(n)|
    ensures |bs| - |rest| == |EncodeNat(n)| ==> bs == EncodeNat(n) + rest
  {
    hide Pow2, LE, FromLE;
    var l := HeaderBytes(bs[0]);
    DecodedBound(bs);
    FirstByteFixesLength(n);
    assert |bs| - |rest| == l + 1;
    assert l < 8 ==> n < Bound(l) && ExtraBytes(n) <= l;
    if l == ExtraBytes(n) {
      LEofFromLE(bs[1..l + 1]);
      assert bs[0] == FirstByte(n);
      assert bs == [bs[0]] + bs[1..l + 1] + bs[l + 1..];
    }
  }

  /** The decoder also accepts longer forms, so re-encoding what was decoded need not give the same bytes. */
  lemma LongerFormsAccepted()
    ensures DecodeNat([0x80 as byte, 0 as byte]) == Some((0, [])) && EncodeNat(0) == [0]
  {
    var bs: seq<byte> := [0x80, 0];
    assert bs[1..2] == [0] && bs[2..] == [];
    assert HeaderBytes(bs[0]) == 1 && FromLE([0]) == 0;
  }

  /** The 32-bit decoder accepts exactly the forms of at most five bytes that denote a 32-bit number. */
  lemma Decode32Exactly(bs: seq<byte>)
    ensures DecodeNat32(bs).Some? <==>
        |bs| > 0 && DecodeNat(bs).Some? && HeaderBytes(bs[0]) <= 4 &&
        DecodeNat(bs).value.0 < LIMIT32
    ensures DecodeNat32(bs).Some? ==> DecodeNat32(bs) == DecodeNat(bs)
  {
    hide Pow2, FromLE;
    if DecodeNat(bs).Some? {
      DecodedBound(bs);
      var l := HeaderBytes(bs[0]);
      var n := DecodeNat(bs).value.0;
      if l == 4 {
        var first: int := bs[0];
        assert n / Radix(4) == first + 16 - 256;
      } else if l < 4 {
        assert Bound(l) <= Bound(3) by { if l == 0 {} else if l == 1 {} else if l == 2 {} else {} }
      }
    }
  }
}

/**
 Truncated state keys: 31 bytes as the source stores them, and the 248-bit path they stand for. The byte-wise routines
 (`getBit`, `findSharedPrefix`, the byte order of the sorted leaf set) are shown to act on paths.
 */
module TrieKeys {

  const KEY_BYTES := 31
  const KEY_BITS := 248

  type Path = p: seq<bool> | |p| == KEY_BITS witness seq(KEY_BITS, _ => false)
  type Key = k: seq<bv8> | |k| == KEY_BYTES witness seq(KEY_BYTES, _ => 0 as bv8)

  // ----- one byte -----

  /** Bit `j` of a byte, counted from the most significant one. */
  predicate ByteBit(x: bv8, j: nat)
    requires j < 8
  {
    if j == 0 then x & 0x80 != 0 else if j == 1 then x & 0x40 != 0
    else if j == 2 then x & 0x20 != 0 else if j == 3 then x & 0x10 != 0
    else if j == 4 then x & 0x08 != 0 else if j == 5 then x & 0x04 != 0
    else if j == 6 then x & 0x02 != 0 else x & 0x01 != 0
  }

  /** Position of the highest bit set in a non-zero byte: the source's mask table. */
  function HighestSetBit(diff: bv8): (m: nat)
    requires diff != 0
    ensures m < 8 && ByteBit(diff, m)
    ensures forall j | 0 <= j < m :: !ByteBit(diff, j)
  {
    if diff & 0x80 != 0 then 0
    else if diff & 0x40 != 0 then 1
    else if diff & 0x20 != 0 then 2
    else if diff & 0x10 != 0 then 3
    else if diff & 0x08 != 0 then 4
    else if diff & 0x04 != 0 then 5
    else if diff & 0x02 != 0 then 6
    else 7
  }

  lemma XorBit(x: bv8, y: bv8, j: nat)
    requires j < 8
    ensures ByteBit(x ^ y, j) <==> ByteBit(x, j) != ByteBit(y, j)
  {
    if j == 0 {} else if j == 1 {} else if j == 2 {} else if j == 3 {}
    else if j == 4 {} else if j == 5 {} else if j == 6 {} else {}
  }

  lemma XorZero(x: bv8, y: bv8)
    ensures x ^ y == 0 <==> x == y
  {
  }

  lemma OrderByBits(x: bv8, y: bv8)
    ensures x < y <==>
            if x & 0x80 != y & 0x80 then y & 0x80 != 0 else if x & 0x40 != y & 0x40 then y & 0x40 != 0
            else if x & 0x20 != y & 0x20 then y & 0x20 != 0 else if x & 0x10 != y & 0x10 then y & 0x10 != 0
            else if x & 0x08 != y & 0x08 then y & 0x08 != 0 else if x & 0x04 != y & 0x04 then y & 0x04 != 0
            else if x & 0x02 != y & 0x02 then y & 0x02 != 0 else x & 0x01 != y & 0x01 && y & 0x01 != 0
  {
  }

  predicate ByteLess(x: bv8, y: bv8) {
    x < y
  }

  /** Two different bytes first differ at the highest bit of their xor, and that bit orders them. */
  lemma ByteDifference(x: bv8, y: bv8) returns (m: nat)
    requires x != y
    ensures x ^ y != 0 && m == HighestSetBit(x ^ y)
    ensures ByteBit(x, m) != ByteBit(y, m)
    ensures forall j | 0 <= j < m :: ByteBit(x, j) == ByteBit(y, j)
    ensures ByteLess(x, y) <==> ByteBit(y, m)
  {
    XorZero(x, y);
    m := HighestSetBit(x ^ y);
    forall j | 0 <= j < 8
      ensures ByteBit(x ^ y, j) <==> ByteBit(x, j) != ByteBit(y, j)
    {
      XorBit(x, y, j);
    }
    DifferenceOrders(x, y, m);
  }

  lemma DifferenceOrders(x: bv8, y: bv8, m: nat)
    requires m < 8 && ByteBit(x, m) != ByteBit(y, m)
    requires forall j | 0 <= j < m :: ByteBit(x, j) == ByteBit(y, j)
    ensures ByteLess(x, y) <==> ByteBit(y, m)
  {
    OrderByBits(x, y);
    if m > 0 { assert ByteBit(x, 0) == ByteBit(y, 0); }
    if m > 1 { assert ByteBit(x, 1) == ByteBit(y, 1); }
    if m > 2 { assert ByteBit(x, 2) == ByteBit(y, 2); }
    if m > 3 { assert ByteBit(x, 3) == ByteBit(y, 3); }
    if m > 4 { assert ByteBit(x, 4) == ByteBit(y, 4); }
    if m > 5 { assert ByteBit(x, 5) == ByteBit(y, 5); }
    if m > 6 { assert ByteBit(x, 6) == ByteBit(y, 6); }
  }

  /** The byte with the given eight bits, most significant first. */
  function ByteOf(bits: seq<bool>): (x: bv8)
    requires |bits| == 8
  {
    (if bits[0] then 0x80 else 0) | (if bits[1] then 0x40 else 0) | (if bits[2] then 0x20
        else 0) | (if bits[3] then 0x10 else 0)
    | (if bits[4] then 0x08 else 0) | (if bits[5] then 0x04 else 0) | (if bits[6] then 0x02
        else 0) | (if bits[7] then 0x01 else 0)
  }

  lemma ByteOfBit(bits: seq<bool>, j: nat)
    requires |bits| == 8 && j < 8
    ensures ByteBit(ByteOf(bits), j) == bits[j]
  {
    ByteFromBools(bits[0], bits[1], bits[2], bits[3], bits[4], bits[5], bits[6], bits[7]);
  }

  lemma ByteFromBools(a: bool, b: bool, c: bool, d: bool, e: bool, f: bool, g: bool, h: bool)
    ensures var x: bv8 := (if a then 0x80 else 0) | (if b then 0x40 else 0) | (if c then 0x20
        else 0) | (if d then 0x10 else 0)
                        | (if e then 0x08 else 0) | (if f then 0x04 else 0) | (if g then 0x02
                            else 0) | (if h then 0x01 else 0);
            && (x & 0x80 != 0) == a && (x & 0x40 != 0) == b && (x & 0x20 != 0) == c && (x & 0x10 != 0) == d
            && (x & 0x08 != 0) == e && (x & 0x04 != 0) == f && (x & 0x02 != 0) == g && (x & 0x01 != 0) == h
  {
  }

  // ----- whole keys -----

  /** `getBit`: the byte is chosen by `i >>> 3`, the bit inside it by the remainder. */
  predicate GetBit(k: Key, i: nat)
    requires i < KEY_BITS
  {
    ByteBit(k[i / 8], i - i / 8 * 8)
  }

  /** The path a stored key stands for, and its inverse. */
  function Unpack(k: Key): Path {
    seq(KEY_BITS, i requires 0 <= i < KEY_BITS => GetBit(k, i))
  }

  function Pack(p: Path): Key {
    seq(KEY_BYTES, b requires 0 <= b < KEY_BYTES => ByteOf(p[8 * b..8 * b + 8]))
  }

  lemma UnpackPack(p: Path)
    ensures Unpack(Pack(p)) == p
  {
    forall i | 0 <= i < KEY_BITS
      ensures Unpack(Pack(p))[i] == p[i]
    {
      var b := i / 8;
      ByteOfBit(p[8 * b..8 * b + 8], i - 8 * b);
    }
  }

  lemma PackUnpack(k: Key)
    ensures Pack(Unpack(k)) == k
  {
    var k' := Pack(Unpack(k));
    UnpackPack(Unpack(k));
    forall b | 0 <= b < KEY_BYTES
      ensures k'[b] == k[b]
    {
      if k'[b] != k[b] {
        var m := ByteDifference(k'[b], k[b]);
        UnpackAt(k', b, m);
        UnpackAt(k, b, m);
        assert false;
      }
    }
  }

  lemma UnpackAt(k: Key, b: nat, j: nat)
    requires b < KEY_BYTES && j < 8
    ensures Unpack(k)[8 * b + j] == ByteBit(k[b], j)
  {
    assert (8 * b + j) / 8 == b;
  }

  /** Number of leading bits two paths have in common. */
  ghost function SharedPrefix(a: Path, b: Path): (n: nat)
    ensures n <= KEY_BITS && a[..n] == b[..n]
    ensures n < KEY_BITS ==> a[n] != b[n]
  {
    SharedFrom(a, b, 0)
  }

  ghost function SharedFrom(a: Path, b: Path, i: nat): (n: nat)
    requires i <= KEY_BITS && a[..i] == b[..i]
    ensures i <= n <= KEY_BITS && a[..n] == b[..n]
    ensures n < KEY_BITS ==> a[n] != b[n]
    decreases KEY_BITS - i
  {
    if i == KEY_BITS || a[i] != b[i] then i
    else
      assert a[..i + 1] == a[..i] + [a[i]] && b[..i + 1] == b[..i] + [b[i]];
      SharedFrom(a, b, i + 1)
  }

  lemma PrefixPointwise(a: Path, b: Path, n: nat)
    requires n <= KEY_BITS
    ensures a[..n] == b[..n] <==> forall t | 0 <= t < n :: a[t] == b[t]
  {
    if a[..n] == b[..n] {
      forall t | 0 <= t < n
        ensures a[t] == b[t]
      {
        assert a[..n][t] == b[..n][t];
      }
    }
  }

  /** The shared prefix is the only length at which the paths agree before and differ at. */
  lemma SharedPrefixUnique(a: Path, b: Path, n: nat)
    requires n <= KEY_BITS && a[..n] == b[..n] && (n < KEY_BITS ==> a[n] != b[n])
    ensures n == SharedPrefix(a, b)
  {
    var s := SharedPrefix(a, b);
    PrefixPointwise(a, b, n);
    PrefixPointwise(a, b, s);
  }

  /** Byte `i` is the first to differ, and bit `m` the first inside it: there the shared prefix ends. */
  lemma FirstBitDifference(a: Key, b: Key, i: nat, m: nat)
    requires i < KEY_BYTES && a[..i] == b[..i] && m < 8 && ByteBit(a[i], m) != ByteBit(b[i], m)
    requires forall j | 0 <= j < m :: ByteBit(a[i], j) == ByteBit(b[i], j)
    ensures SharedPrefix(Unpack(a), Unpack(b)) == 8 * i + m
    ensures Unpack(b)[8 * i + m] == ByteBit(b[i], m)
  {
    var p, q, n := Unpack(a), Unpack(b), 8 * i + m;
    UnpackAt(a, i, m);
    UnpackAt(b, i, m);
    forall t | 0 <= t < n
      ensures p[t] == q[t]
    {
      UnpackAt(a, t / 8, t % 8);
      UnpackAt(b, t / 8, t % 8);
      if t / 8 < i {
        assert a[t / 8] == a[..i][t / 8] == b[..i][t / 8];
      }
    }
    PrefixPointwise(p, q, n);
    SharedPrefixUnique(p, q, n);
  }

  /** `findSharedPrefix`: the first non-zero xor of two bytes gives the shared prefix of the paths. */
  method FindSharedPrefix(a: Key, b: Key) returns (n: nat)
    ensures n == SharedPrefix(Unpack(a), Unpack(b))
  {
    for i := 0 to KEY_BYTES
      invariant a[..i] == b[..i]
    {
      var diff := a[i] ^ b[i];
      if diff != 0 {
        ghost var m := ByteDifference(a[i], b[i]);
        FirstBitDifference(a, b, i, m);
        return i * 8 + HighestSetBit(diff);
      }
      XorZero(a[i], b[i]);
      assert a[..i + 1] == a[..i] + [a[i]] && b[..i + 1] == b[..i] + [b[i]];
    }
    assert a == a[..KEY_BYTES] && b == b[..KEY_BYTES];
    SharedPrefixUnique(Unpack(a), Unpack(b), KEY_BITS);
    n := KEY_BITS;
  }

  /** The byte-wise lexicographic order that keeps the leaf set sorted. */
  ghost predicate KeyBefore(a: Key, b: Key) {
    exists i | 0 <= i < KEY_BYTES :: ByteLess(a[i], b[i]) && a[..i] == b[..i]
  }

  /** At the first bit where the paths differ, `a` has 0 and `b` has 1. */
  ghost predicate Before(a: Path, b: Path) {
    SharedPrefix(a, b) < KEY_BITS && b[SharedPrefix(a, b)]
  }

  lemma FirstDifferentByte(a: Key, b: Key) returns (i: nat)
    ensures i <= KEY_BYTES && a[..i] == b[..i]
    ensures i < KEY_BYTES ==> a[i] != b[i]
    ensures i == KEY_BYTES ==> a == b
  {
    i := 0;
    while i < KEY_BYTES && a[i] == b[i]
      invariant i <= KEY_BYTES && a[..i] == b[..i]
    {
      i := i + 1;
    }
    assert i == KEY_BYTES ==> a == a[..i] && b == b[..i];
  }

  /** Sorting leaves by key bytes is sorting them by path. */
  lemma KeyOrderIsPathOrder(a: Key, b: Key)
    ensures KeyBefore(a, b) <==> Before(Unpack(a), Unpack(b))
  {
    var i := FirstDifferentByte(a, b);
    if i < KEY_BYTES {
      var m := ByteDifference(a[i], b[i]);
      FirstBitDifference(a, b, i, m);
    } else {
      SharedPrefixUnique(Unpack(a), Unpack(b), KEY_BITS);
    }
    if KeyBefore(a, b) {
      var q :| 0 <= q < KEY_BYTES && ByteLess(a[q], b[q]) && a[..q] == b[..q];
      var m := ByteDifference(a[q], b[q]);
      FirstBitDifference(a, b, q, m);
    }
  }
}

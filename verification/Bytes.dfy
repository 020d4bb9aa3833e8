/** Bytes, and numbers stored in little-endian order. */
module Bytes {

  type byte = x: int | 0 <= x < 256

  datatype Option<+T> = None | Some(value: T)

  function Pow2(n: nat): (p: nat)
    ensures p >= 1
  {
    if n == 0 then 1 else 2 * Pow2(n - 1)
  }

  /** The `k` low bytes of `n`, least significant first. */
  function LE(n: nat, k: nat): (bs: seq<byte>)
    ensures |bs| == k
  {
    if k == 0 then [] else [n % 256] + LE(n / 256, k - 1)
  }

  function FromLE(bs: seq<byte>): nat {
    if bs == [] then 0 else bs[0] + 256 * FromLE(bs[1..])
  }

  lemma {:induction false} Pow2Byte(k: nat)
    ensures Pow2(8 * k + 8) == 256 * Pow2(8 * k)
  {
    var n := 8 * k;
    assert Pow2(n + 8) == 2 * Pow2(n + 7) == 4 * Pow2(n + 6) == 8 * Pow2(n + 5) == 16 * Pow2(n + 4);
    assert Pow2(n + 4) == 2 * Pow2(n + 3) == 4 * Pow2(n + 2) == 8 * Pow2(n + 1) == 16 * Pow2(n);
  }

  lemma {:induction false} FromLEBound(bs: seq<byte>)
    ensures FromLE(bs) < Pow2(8 * |bs|)
  {
    if bs != [] {
      FromLEBound(bs[1..]);
      Pow2Byte(|bs| - 1);
    }
  }

  lemma {:induction false} FromLEofLE(n: nat, k: nat)
    requires n < Pow2(8 * k)
    ensures FromLE(LE(n, k)) == n
  {
    if k > 0 {
      Pow2Byte(k - 1);
      FromLEofLE(n / 256, k - 1);
      assert LE(n, k)[1..] == LE(n / 256, k - 1);
    }
  }

  lemma {:induction false} LEofFromLE(bs: seq<byte>)
    ensures LE(FromLE(bs), |bs|) == bs
  {
    if bs != [] {
      LEofFromLE(bs[1..]);
      LowByte(bs[0], FromLE(bs[1..]));
    }
  }

  lemma LowByte(b: byte, n: nat)
    ensures (b + 256 * n) % 256 == b && (b + 256 * n) / 256 == n
  {
  }

  /** Values of the powers the codec uses. */
  lemma Powers()
    ensures Pow2(0) == 1 && Pow2(1) == 2 && Pow2(2) == 4 && Pow2(3) == 8 && Pow2(4) == 16
    ensures Pow2(5) == 32 && Pow2(6) == 64 && Pow2(7) == 128 && Pow2(8) == 256
    ensures Pow2(14) == 0x4000 && Pow2(16) == 0x1_0000 && Pow2(21) == 0x20_0000 && Pow2(24) == 0x100_0000
    ensures Pow2(28) == 0x1000_0000 && Pow2(32) == 0x1_0000_0000 && Pow2(35) == 0x8_0000_0000
    ensures Pow2(40) == 0x100_0000_0000 && Pow2(42) == 0x400_0000_0000 && Pow2(48) == 0x1_0000_0000_0000
    ensures Pow2(49) == 0x2_0000_0000_0000 && Pow2(56) == 0x100_0000_0000_0000 && Pow2(64) == 0x1_0000_0000_0000_0000
  {
    Pow2Byte(0);
    Pow2Byte(1);
    Pow2Byte(2);
    Pow2Byte(3);
    Pow2Byte(4);
    Pow2Byte(5);
    Pow2Byte(6);
    Pow2Byte(7);
    PowStep(8, 14);
    PowStep(16, 21);
    PowStep(24, 28);
    PowStep(32, 35);
    PowStep(40, 42);
    PowStep(48, 49);
  }

  function Times2(p: nat, n: nat): nat
    decreases n
  {
    if n == 0 then p else Times2(2 * p, n - 1)
  }

  lemma {:induction false} PowStep(a: nat, b: nat)
    requires a <= b
    ensures Pow2(b) == Times2(Pow2(a), b - a)
    decreases b - a
  {
    if a < b {
      PowStep(a + 1, b);
    }
  }
}

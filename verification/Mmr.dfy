/** Merkle mountain ranges (Gray Paper, Appendix E.2). The two hash functions and the zero hash are parameters. */
module Mmr {
  import opened Bytes

  datatype Mountain<H> = Mountain(peak: H, size: nat)

  datatype Hasher<!H> = Hasher(concat: (H, H) -> H, concatPrepend: (H, H) -> H, zero: H)

  type Peaks<H> = seq<Option<H>>

  // ----- sizes -----

  predicate IsPower(n: nat) {
    n == 1 || (n > 1 && n % 2 == 0 && IsPower(n / 2))
  }

  lemma {:induction false} PowerGap(a: nat, b: nat)
    requires IsPower(a) && IsPower(b) && a < b
    ensures 2 * a <= b && IsPower(2 * a)
  {
    if a > 1 {
      PowerGap(a / 2, b / 2);
    }
  }

  lemma {:induction false} Pow2IsPower(k: nat)
    ensures IsPower(Pow2(k))
  {
    if k > 0 {
      Pow2IsPower(k - 1);
      assert Pow2(k) / 2 == Pow2(k - 1);
    }
  }

  /** Sizes are powers of two, each smaller than the one before. */
  ghost predicate Descending<H>(ms: seq<Mountain<H>>) {
    && (forall i | 0 <= i < |ms| :: IsPower(ms[i].size))
    && forall i | 0 < i < |ms| :: ms[i].size < ms[i - 1].size
  }

  function Sizes<H>(ms: seq<Mountain<H>>): (ss: seq<nat>)
    ensures |ss| == |ms| && forall i | 0 <= i < |ms| :: ss[i] == ms[i].size
  {
    seq(|ms|, i requires 0 <= i < |ms| => ms[i].size)
  }

  function Doubled(ss: seq<nat>): (r: seq<nat>)
    ensures |r| == |ss| && forall i | 0 <= i < |ss| :: r[i] == 2 * ss[i]
  {
    seq(|ss|, i requires 0 <= i < |ss| => 2 * ss[i])
  }

  /** The powers of two in the binary form of a number, largest first. */
  function BinaryForm(n: nat): seq<nat> {
    if n == 0 then [] else Doubled(BinaryForm(n / 2)) + (if n % 2 == 1 then [1] else [])
  }

  function Sum(ss: seq<nat>): nat {
    if ss == [] then 0 else Sum(ss[..|ss| - 1]) + ss[|ss| - 1]
  }

  predicate DescendingPowers(ss: seq<nat>) {
    && (forall i | 0 <= i < |ss| :: IsPower(ss[i]))
    && forall i | 0 < i < |ss| :: ss[i] < ss[i - 1]
  }

  lemma {:induction false} SumDoubled(ss: seq<nat>)
    ensures Sum(Doubled(ss)) == 2 * Sum(ss)
  {
    if ss != [] {
      var front := ss[..|ss| - 1];
      assert Doubled(ss)[..|ss| - 1] == Doubled(front);
      SumDoubled(front);
    }
  }

  function Halved(ss: seq<nat>): (r: seq<nat>)
    ensures |r| == |ss| && forall i | 0 <= i < |ss| :: r[i] == ss[i] / 2
  {
    seq(|ss|, i requires 0 <= i < |ss| => ss[i] / 2)
  }

  /** Without the size 1, everything can be halved. */
  lemma HalvedSizes(ss: seq<nat>)
    requires DescendingPowers(ss) && (ss == [] || ss[|ss| - 1] != 1)
    ensures DescendingPowers(Halved(ss)) && Doubled(Halved(ss)) == ss && Sum(ss) == 2 * Sum(Halved(ss))
  {
    AllAbove(ss);
    assert Doubled(Halved(ss)) == ss;
    SumDoubled(Halved(ss));
  }

  lemma {:induction false} AllAbove(ss: seq<nat>)
    requires DescendingPowers(ss) && (ss == [] || ss[|ss| - 1] != 1)
    ensures forall i | 0 <= i < |ss| :: ss[i] > 1 && ss[i] % 2 == 0 && IsPower(ss[i] / 2)
  {
    if ss != [] {
      assert ss[|ss| - 1] > 1;
      var front := ss[..|ss| - 1];
      AllAbove(front);
    }
  }

  lemma {:induction false} SumAtLeastLast(ss: seq<nat>)
    requires DescendingPowers(ss)
    ensures ss != [] ==> Sum(ss) >= 1
    ensures Sum(ss) == 0 <==> ss == []
  {
    if ss != [] {
      assert IsPower(ss[|ss| - 1]);
    }
  }

  /** Strictly descending powers of two are the binary form of their sum. */
  lemma {:induction false} SizesAreBinaryForm(ss: seq<nat>)
    requires DescendingPowers(ss)
    ensures ss == BinaryForm(Sum(ss))
    decreases Sum(ss)
  {
    SumAtLeastLast(ss);
    if ss != [] {
      var rest := if ss[|ss| - 1] == 1 then ss[..|ss| - 1] else ss;
      assert rest != [] ==> rest[|rest| - 1] != 1;
      HalvedSizes(rest);
      SumAtLeastLast(Halved(rest));
      SizesAreBinaryForm(Halved(rest));
      assert Sum(ss) / 2 == Sum(Halved(rest));
    }
  }

  // ----- mountains over leaves -----

  /** The Merkle root of a perfect tree. */
  function Root<H>(h: Hasher<H>, xs: seq<H>): H
    requires IsPower(|xs|)
  {
    if |xs| == 1 then xs[0] else h.concat(Root(h, xs[..|xs| / 2]), Root(h, xs[|xs| / 2..]))
  }

  /** The mountains cover the leaves in consecutive blocks, older blocks first. */
  predicate Covers<H(==)>(h: Hasher<H>, ms: seq<Mountain<H>>, xs: seq<H>) {
    if ms == [] then xs == []
    else
      var last := ms[|ms| - 1];
      && IsPower(last.size) && last.size <= |xs| && (|ms| > 1 ==> ms[|ms| - 2].size > last.size)
      && last.peak == Root(h, xs[|xs| - last.size..])
      && Covers(h, ms[..|ms| - 1], xs[..|xs| - last.size])
  }

  /** After n leaves the mountain sizes are the binary form of n. */
  lemma {:induction false} CoversSizes<H>(h: Hasher<H>, ms: seq<Mountain<H>>, xs: seq<H>)
    requires Covers(h, ms, xs)
    ensures Descending(ms) && Sum(Sizes(ms)) == |xs|
  {
    hide Root, IsPower;
    if ms != [] {
      var front, last := ms[..|ms| - 1], ms[|ms| - 1];
      CoversSizes(h, front, xs[..|xs| - last.size]);
      assert Sizes(ms)[..|ms| - 1] == Sizes(front);
    }
  }

  lemma BinaryCounter<H>(h: Hasher<H>, ms: seq<Mountain<H>>, xs: seq<H>)
    requires Covers(h, ms, xs)
    ensures Sizes(ms) == BinaryForm(|xs|)
  {
    CoversSizes(h, ms, xs);
    SizesAreBinaryForm(Sizes(ms));
  }

  // ----- appending -----

  function Merge<H>(h: Hasher<H>, left: Mountain<H>, right: Mountain<H>): Mountain<H> {
    Mountain(h.concat(left.peak, right.peak), left.size + right.size)
  }

  /** Adding a mountain: equal sizes carry over, as in a binary counter. */
  function Add<H>(h: Hasher<H>, ms: seq<Mountain<H>>, m: Mountain<H>): seq<Mountain<H>> {
    if ms == [] then [m]
    else if ms[|ms| - 1].size != m.size then ms + [m]
    else Add(h, ms[..|ms| - 1], Merge(h, ms[|ms| - 1], m))
  }

  lemma RootOfHalves<H>(h: Hasher<H>, left: seq<H>, right: seq<H>)
    requires |left| == |right| && IsPower(|left|)
    ensures IsPower(|left + right|) && Root(h, left + right) == h.concat(Root(h, left), Root(h, right))
  {
    var both := left + right;
    assert |both| / 2 == |left| && both[..|both| / 2] == left && both[|both| / 2..] == right;
  }

  lemma CoversMore<H>(h: Hasher<H>, ms: seq<Mountain<H>>, xs: seq<H>, ys: seq<H>)
    requires Covers(h, ms, xs) && IsPower(|ys|) && (ms == [] || ms[|ms| - 1].size > |ys|)
    ensures Covers(h, ms + [Mountain(Root(h, ys), |ys|)], xs + ys)
  {
    hide Root, IsPower;
    var more := ms + [Mountain(Root(h, ys), |ys|)];
    assert (xs + ys)[|xs + ys| - |ys|..] == ys && (xs + ys)[..|xs + ys| - |ys|] == xs;
    assert more[..|more| - 1] == ms;
  }

  /** Adding a block of leaves that is no larger than the last one. */
  lemma {:induction false} AddCovers<H>(h: Hasher<H>, ms: seq<Mountain<H>>, m: Mountain<H>, xs: seq<H>, ys: seq<H>)
    requires Covers(h, ms, xs) && IsPower(|ys|) && m == Mountain(Root(h, ys), |ys|)
    requires ms == [] || ms[|ms| - 1].size >= |ys|
    ensures Covers(h, Add(h, ms, m), xs + ys)
  {
    hide Root, IsPower;
    if ms == [] || ms[|ms| - 1].size != |ys| {
      CoversMore(h, ms, xs, ys);
      assert ms == [] ==> ms + [m] == [m];
    } else {
      var front, last := ms[..|ms| - 1], ms[|ms| - 1];
      var before, block := xs[..|xs| - last.size], xs[|xs| - last.size..];
      RootOfHalves(h, block, ys);
      assert before + (block + ys) == xs + ys;
      if front != [] {
        CoversSizes(h, ms, xs);
        PowerGap(last.size, front[|front| - 1].size);
      }
      AddCovers(h, front, Merge(h, last, m), before, block + ys);
    }
  }

  /** Every append covers one leaf more. */
  lemma AppendCovers<H>(h: Hasher<H>, ms: seq<Mountain<H>>, xs: seq<H>, x: H)
    requires Covers(h, ms, xs)
    ensures Covers(h, Add(h, ms, Mountain(x, 1)), xs + [x])
  {
    assert Root(h, [x]) == x;
    if ms != [] {
      assert IsPower(ms[|ms| - 1].size);
    }
    AddCovers(h, ms, Mountain(x, 1), xs, [x]);
  }

  lemma {:induction false} AddDescending<H>(h: Hasher<H>, ms: seq<Mountain<H>>, m: Mountain<H>)
    requires Descending(ms) && IsPower(m.size) && (ms == [] || ms[|ms| - 1].size >= m.size)
    ensures Descending(Add(h, ms, m))
  {
    if ms != [] && ms[|ms| - 1].size == m.size {
      var front := ms[..|ms| - 1];
      if front != [] {
        PowerGap(m.size, front[|front| - 1].size);
      } else {
        DoublePower(m.size);
      }
      AddDescending(h, front, Merge(h, ms[|ms| - 1], m));
    }
  }

  lemma DoublePower(n: nat)
    requires IsPower(n)
    ensures IsPower(n + n)
  {
    assert (n + n) / 2 == n;
  }

  // ----- peaks -----

  /** The mountains a list of peaks stands for: the peak at index i has 2^i leaves. */
  function Ranges<H>(peaks: Peaks<H>): seq<Mountain<H>> {
    if peaks == [] then []
    else
      var last := peaks[|peaks| - 1];
      (if last.Some? then [Mountain(last.value, Pow2(|peaks| - 1))] else []) + Ranges(peaks[..|peaks| - 1])
  }

  function Trimmed<H>(peaks: Peaks<H>): Peaks<H> {
    if peaks == [] || peaks[|peaks| - 1].Some? then peaks else Trimmed(peaks[..|peaks| - 1])
  }

  lemma {:induction false} TrimmedRanges<H>(peaks: Peaks<H>)
    ensures Ranges(Trimmed(peaks)) == Ranges(peaks)
    ensures Trimmed(peaks) == [] || Trimmed(peaks)[|Trimmed(peaks)| - 1].Some?
  {
    if peaks != [] && peaks[|peaks| - 1].None? {
      TrimmedRanges(peaks[..|peaks| - 1]);
    }
  }

  lemma {:induction false} Pow2Grows(a: nat, b: nat)
    requires a < b
    ensures Pow2(a) < Pow2(b)
  {
    if b - 1 > a {
      Pow2Grows(a, b - 1);
    }
  }

  lemma {:induction false} RangesDescend<H>(peaks: Peaks<H>)
    ensures Descending(Ranges(peaks))
    ensures Ranges(peaks) != [] ==> Ranges(peaks)[0].size < Pow2(|peaks|)
  {
    hide Pow2;
    if peaks != [] {
      var front := peaks[..|peaks| - 1];
      RangesDescend(front);
      Pow2IsPower(|front|);
      Pow2Grows(|front|, |peaks|);
      var rest := Ranges(front);
      if peaks[|peaks| - 1].Some? {
        assert Ranges(peaks)[1..] == rest;
      } else {
        assert Ranges(peaks) == rest;
      }
    }
  }

  /** Peak lists without trailing nulls stand for different mountains. */
  lemma {:induction false} RangesInjective<H>(p: Peaks<H>, q: Peaks<H>)
    requires |p| == |q| && Ranges(p) == Ranges(q)
    ensures p == q
  {
    hide Pow2, Ranges;
    if p != [] {
      var n := |p| - 1;
      var front, front' := p[..n], q[..n];
      RangesSplit(p);
      RangesSplit(q);
      assert p[n] == q[n];
      assert Ranges(front) == Ranges(front');
      RangesInjective(front, front');
      assert p == front + [p[n]] && q == front' + [q[n]];
    }
  }

  lemma RangesStep<H>(p: Peaks<H>)
    requires p != []
    ensures var n := |p| - 1;
            Ranges(p) == (if p[n].Some? then [Mountain(p[n].value, Pow2(n))] else []) + Ranges(p[..n])
  {
    hide Pow2;
  }

  lemma RangesBelow<H>(p: Peaks<H>)
    ensures Ranges(p) == [] || Ranges(p)[0].size < Pow2(|p|)
  {
    hide Pow2, Ranges;
    RangesDescend(p);
  }

  lemma RangesSplit<H>(p: Peaks<H>)
    requires p != []
    ensures var n := |p| - 1;
            && (p[n].Some? <==> Ranges(p) != [] && Ranges(p)[0].size == Pow2(n))
            && (p[n].Some? ==> Ranges(p)[0] == Mountain(p[n].value, Pow2(n)) && Ranges(p)[1..] == Ranges(p[..n]))
            && (p[n].None? ==> Ranges(p) == Ranges(p[..n]))
  {
    hide Pow2, Ranges;
    var n := |p| - 1;
    RangesBelow(p[..n]);
    RangesStep(p);
    if p[n].Some? {
      assert Ranges(p)[1..] == Ranges(p[..n]);
    } else {
      assert Ranges(p) == Ranges(p[..n]);
    }
  }

  /** A list without trailing nulls is the only one of its kind for its mountains. */
  lemma PeaksUnique<H>(p: Peaks<H>, q: Peaks<H>)
    requires Ranges(p) == Ranges(q)
    requires (p == [] || p[|p| - 1].Some?) && (q == [] || q[|q| - 1].Some?)
    ensures p == q
  {
    hide Pow2, Ranges;
    if p != [] {
      RangesSplit(p);
    }
    if q != [] {
      RangesSplit(q);
    }
    EmptyRanges<H>();
    if p != [] && q != [] {
      SamePower(|p| - 1, |q| - 1);
      RangesInjective(p, q);
    }
  }

  lemma EmptyRanges<H>()
    ensures Ranges<H>([]) == []
  {
  }

  lemma SamePower(a: nat, b: nat)
    requires Pow2(a) == Pow2(b)
    ensures a == b
  {
    if a < b {
      Pow2Grows(a, b);
    } else if b < a {
      Pow2Grows(b, a);
    }
  }

  // ----- appending to a list of peaks, as the Gray Paper defines it -----

  function AppendPeak<H>(h: Hasher<H>, peaks: Peaks<H>, l: H, n: nat): Peaks<H>
    requires n <= |peaks|
    decreases |peaks| - n
  {
    if n == |peaks| then peaks + [Some(l)]
    else if peaks[n].None? then peaks[n := Some(l)]
    else AppendPeak(h, peaks[n := None], h.concat(peaks[n].value, l), n + 1)
  }

  /** The mountains of the peaks at index `k` and above. */
  function RangesFrom<H>(peaks: Peaks<H>, k: nat): seq<Mountain<H>> {
    if |peaks| <= k then []
    else
      var last := peaks[|peaks| - 1];
      (if last.Some? then [Mountain(last.value, Pow2(|peaks| - 1))] else []) + RangesFrom(peaks[..|peaks| - 1], k)
  }

  lemma {:induction false} NoRanges<H>(peaks: Peaks<H>)
    requires forall i | 0 <= i < |peaks| :: peaks[i].None?
    ensures Ranges(peaks) == []
  {
    if peaks != [] {
      NoRanges(peaks[..|peaks| - 1]);
    }
  }

  lemma RangesFromStep<H>(peaks: Peaks<H>, k: nat)
    ensures |peaks| <= k ==> RangesFrom(peaks, k) == []
    ensures |peaks| > k ==>
            var n := |peaks| - 1;
            RangesFrom(peaks, k) == (if peaks[n].Some? then [Mountain(peaks[n].value, Pow2(n))] else []) +
                RangesFrom(peaks[..n], k)
  {
    hide Pow2;
  }

  lemma {:induction false} RangesAbove<H>(peaks: Peaks<H>, n: nat)
    requires n < |peaks| && forall i | 0 <= i < n :: peaks[i].None?
    ensures Ranges(peaks) == RangesFrom(peaks, n + 1) +
        (if peaks[n].Some? then [Mountain(peaks[n].value, Pow2(n))] else [])
  {
    hide Pow2, Ranges, RangesFrom;
    var front := peaks[..|peaks| - 1];
    RangesStep(peaks);
    RangesFromStep(peaks, n + 1);
    if n == |peaks| - 1 {
      NoRanges(front);
    } else {
      RangesAbove(front, n);
    }
  }

  lemma {:induction false} RangesFromIgnoresBelow<H>(peaks: Peaks<H>, n: nat, v: Option<H>)
    requires n < |peaks|
    ensures RangesFrom(peaks[n := v], n + 1) == RangesFrom(peaks, n + 1)
  {
    hide Pow2;
    if n < |peaks| - 1 {
      assert peaks[n := v][..|peaks| - 1] == peaks[..|peaks| - 1][n := v];
      RangesFromIgnoresBelow(peaks[..|peaks| - 1], n, v);
    }
  }

  lemma {:induction false} RangesFromLarge<H>(peaks: Peaks<H>, n: nat)
    ensures forall i | 0 <= i < |RangesFrom(peaks, n)| :: RangesFrom(peaks, n)[i].size >= Pow2(n)
  {
    hide Pow2;
    if |peaks| > n {
      RangesFromLarge(peaks[..|peaks| - 1], n);
      if |peaks| - 1 > n {
        Pow2Grows(n, |peaks| - 1);
      }
    }
  }

  /** Appending to the mountains is appending to the list of peaks. */
  lemma {:induction false} AppendAgrees<H>(h: Hasher<H>, peaks: Peaks<H>, l: H, n: nat)
    requires n <= |peaks| && forall i | 0 <= i < n :: peaks[i].None?
    ensures Ranges(AppendPeak(h, peaks, l, n)) == Add(h, Ranges(peaks), Mountain(l, Pow2(n)))
    decreases |peaks| - n
  {
    hide Pow2, Ranges, RangesFrom;
    var m := Mountain(l, Pow2(n));
    if n == |peaks| {
      NoRanges(peaks);
      RangesStep(peaks + [Some(l)]);
      assert (peaks + [Some(l)])[..n] == peaks;
    } else {
      RangesAbove(peaks, n);
      Pow2Grows(n, n + 1);
      var above := RangesFrom(peaks, n + 1);
      if peaks[n].None? {
        RangesAbove(peaks[n := Some(l)], n);
        RangesFromIgnoresBelow(peaks, n, Some(l));
        RangesFromLarge(peaks, n + 1);
        assert Ranges(peaks) == above && above + [m] == Add(h, above, m);
      } else {
        var cleared, up := peaks[n := None], h.concat(peaks[n].value, l);
        RangesAbove(cleared, n);
        RangesFromIgnoresBelow(peaks, n, None);
        assert Ranges(cleared) == above;
        AppendAgrees(h, cleared, up, n + 1);
        assert Ranges(peaks)[..|above|] == above;
        assert Merge(h, Mountain(peaks[n].value, Pow2(n)), m) == Mountain(up, Pow2(n + 1)) by { TwicePow2(n); }
      }
    }
  }

  lemma TwicePow2(n: nat)
    ensures Pow2(n) + Pow2(n) == Pow2(n + 1)
  {
  }

  // ----- the super peak -----

  /** Folding the peaks, smallest first. */
  function SuperPeak<H>(h: Hasher<H>, peaks: seq<H>): H {
    if peaks == [] then h.zero
    else if |peaks| == 1 then peaks[0]
    else h.concatPrepend(SuperPeak(h, peaks[..|peaks| - 1]), peaks[|peaks| - 1])
  }

  function Reverse<T>(s: seq<T>): (r: seq<T>)
    ensures |r| == |s| && forall i | 0 <= i < |s| :: r[i] == s[|s| - 1 - i]
  {
    seq(|s|, i requires 0 <= i < |s| => s[|s| - 1 - i])
  }

  function PeakHashes<H>(ms: seq<Mountain<H>>): (r: seq<H>)
    ensures |r| == |ms| && forall i | 0 <= i < |ms| :: r[i] == ms[i].peak
  {
    seq(|ms|, i requires 0 <= i < |ms| => ms[i].peak)
  }

  /** The peaks that are there, smallest first. */
  function Present<H>(peaks: Peaks<H>): seq<H> {
    if peaks == [] then []
    else
      var last := peaks[|peaks| - 1];
      Present(peaks[..|peaks| - 1]) + (if last.Some? then [last.value] else [])
  }

  /** From the smallest mountain to the largest, their peaks are those of the list in its own order. */
  lemma {:induction false} PeaksInOrder<H>(peaks: Peaks<H>)
    ensures PeakHashes(Reverse(Ranges(peaks))) == Present(peaks)
  {
    hide Pow2, Ranges;
    if peaks == [] {
      EmptyRanges<H>();
    } else {
      var n := |peaks| - 1;
      PeaksInOrder(peaks[..n]);
      RangesStep(peaks);
      var rest := Ranges(peaks[..n]);
      if peaks[n].Some? {
        assert PeakHashes(Reverse(Ranges(peaks))) == PeakHashes(Reverse(rest)) + [peaks[n].value];
      } else {
        assert Ranges(peaks) == rest;
      }
    }
  }

  // ----- the 32-bit scan -----

  /** `currentSize << 1` on numbers: 32 bits, signed. */
  function ShiftLeft(x: int): int {
    var y := (2 * x) % 0x1_0000_0000;
    if y >= 0x8000_0000 then y - 0x1_0000_0000 else y
  }

  /** The value of `currentSize` after `i` rounds. */
  function ScanSize(i: nat): int {
    if i == 0 then 1 else ShiftLeft(ScanSize(i - 1))
  }

  lemma {:induction false} ScanSizes(i: nat)
    ensures i <= 30 ==> ScanSize(i) == Pow2(i) <= 0x4000_0000
    ensures i == 31 ==> ScanSize(i) == -0x8000_0000
    ensures i > 31 ==> ScanSize(i) == 0
  {
    hide Pow2, ShiftLeft;
    if i == 0 {
      Powers();
    } else {
      ScanSizes(i - 1);
      Shifts(ScanSize(i - 1));
      if i <= 30 {
        TwicePow2(i - 1);
        Pow2Bound(i);
      } else if i == 31 {
        ThirtyBits();
      }
    }
  }

  lemma Shifts(x: int)
    ensures 0 <= x < 0x4000_0000 ==> ShiftLeft(x) == 2 * x
    ensures x == 0x4000_0000 ==> ShiftLeft(x) == -0x8000_0000
    ensures x == -0x8000_0000 || x == 0 ==> ShiftLeft(x) == 0
  {
  }

  lemma ThirtyBits()
    ensures Pow2(30) == 0x4000_0000
  {
    hide Pow2;
    Powers();
    PowStep(28, 30);
  }

  lemma Pow2Bound(i: nat)
    requires i <= 30
    ensures Pow2(i) <= 0x4000_0000
  {
    ThirtyBits();
    if i < 30 {
      Pow2Grows(i, 30);
    }
  }

  /** A size of more than 2^30 is never found: the scan would go on for ever. */
  lemma NeverFound(size: nat, i: nat)
    requires IsPower(size)
    ensures (exists j :: 0 <= j <= 30 && size == Pow2(j)) || !(size >= ScanSize(i) && size < 2 * ScanSize(i))
  {
    ScanSizes(i);
    if i <= 30 && size >= ScanSize(i) && size < 2 * ScanSize(i) {
      Pow2IsPower(i);
      if size > Pow2(i) {
        PowerGap(Pow2(i), size);
      }
    }
  }

  // ----- the range itself -----

  class MerkleMountainRange<H> {
    const hasher: Hasher<H>
    /** Non-empty mountains by descending size. */
    var mountains: seq<Mountain<H>>

    ghost predicate Valid()
      reads this
    {
      Descending(mountains)
    }

    constructor Empty(hasher: Hasher<H>)
      ensures this.hasher == hasher && mountains == [] && Valid() && Covers(hasher, mountains, [])
    {
      this.hasher := hasher;
      mountains := [];
    }

    constructor FromPeaks(hasher: Hasher<H>, peaks: Peaks<H>)
      ensures this.hasher == hasher && mountains == Ranges(peaks) && Valid()
    {
      hide Pow2, Ranges;
      var acc: seq<Mountain<H>> := [];
      EmptyRanges<H>();
      for index := 0 to |peaks|
        invariant Reverse(acc) == Ranges(peaks[..index])
      {
        RangesStep(peaks[..index + 1]);
        assert peaks[..index + 1][..index] == peaks[..index];
        ghost var before := acc;
        if peaks[index].Some? {
          acc := acc + [Mountain(peaks[index].value, Pow2(index))];
          assert Reverse(acc) == [Mountain(peaks[index].value, Pow2(index))] + Reverse(before);
        } else {
          assert [] + Ranges(peaks[..index]) == Ranges(peaks[..index]);
        }
      }
      assert peaks[..|peaks|] == peaks;
      RangesDescend(peaks);
      this.hasher := hasher;
      mountains := Reverse(acc);
    }

    /** Appending behaves like counting up in binary; what that means for the leaves is `AppendCovers`. */
    method Append(hash: H)
      requires Valid()
      modifies this
      ensures Valid() && mountains == Add(hasher, old(mountains), Mountain(hash, 1))
    {
      hide Descending, IsPower;
      var newMountain := Mountain(hash, 1);
      SmallestLast(mountains);
      AddDescending(hasher, mountains, newMountain);
      while true
        invariant Add(hasher, mountains, newMountain) == Add(hasher, old(mountains), Mountain(hash, 1))
        decreases |mountains|
      {
        if mountains == [] {
          mountains := [newMountain];
          return;
        }
        var last := mountains[|mountains| - 1];
        assert mountains[..|mountains| - 1] + [last] == mountains;
        mountains := mountains[..|mountains| - 1];
        if last.size != newMountain.size {
          mountains := mountains + [last];
          mountains := mountains + [newMountain];
          return;
        }
        newMountain := Merge(hasher, last, newMountain);
      }
    }

    method GetSuperPeakHash() returns (hash: H)
      requires Valid()
      ensures hash == SuperPeak(hasher, PeakHashes(Reverse(mountains)))
    {
      if |mountains| == 0 {
        return hasher.zero;
      }
      var revMountains := Reverse(mountains);
      var length := |revMountains|;
      ghost var hashes := PeakHashes(revMountains);
      hash := revMountains[0].peak;
      for i := 1 to length
        invariant hash == SuperPeak(hasher, hashes[..i])
      {
        assert hashes[..i + 1][..i] == hashes[..i];
        hash := hasher.concatPrepend(hash, revMountains[i].peak);
      }
      assert hashes[..length] == hashes;
    }

    /** The peaks list that stands for the mountains. The scan ends because no mountain has more than 2^30 leaves. */
    method GetPeaks() returns (peaks: Peaks<H>)
      requires Valid() && forall i | 0 <= i < |mountains| :: mountains[i].size <= 0x4000_0000
      ensures Ranges(peaks) == mountains && (peaks == [] || peaks[|peaks| - 1].Some?)
    {
      hide Pow2, Ranges, IsPower, ShiftLeft, Descending;
      peaks := [];
      var currentSize := 1;
      var currentIdx := |mountains| - 1;
      EmptyRanges<H>();
      ghost var i: nat := 0;
      assert mountains[|mountains|..] == [];
      AtLeastOne(mountains);
      while currentIdx >= 0
        invariant -1 <= currentIdx < |mountains| && i == |peaks|
        invariant Ranges(peaks) == mountains[currentIdx + 1..] && currentSize == ScanSize(i)
        invariant currentIdx >= 0 ==> mountains[currentIdx].size >= Pow2(i)
        invariant currentIdx == -1 ==> peaks == [] || peaks[|peaks| - 1].Some?
        decreases if currentIdx >= 0 then 32 - i else 0
      {
        var currentItem := mountains[currentIdx];
        SizeInScan(mountains, currentIdx, i);
        ScanSizes(i);
        OnePeakMore(peaks, currentItem.peak);
        if currentItem.size >= currentSize && currentItem.size < 2 * currentSize {
          peaks := peaks + [Some(currentItem.peak)];
          currentIdx := currentIdx - 1;
        } else {
          peaks := peaks + [None];
        }
        currentSize := ShiftLeft(currentSize);
        i := i + 1;
      }
    }
  }

  lemma SmallestLast<H>(ms: seq<Mountain<H>>)
    requires Descending(ms)
    ensures IsPower(1) && (ms == [] || ms[|ms| - 1].size >= 1)
  {
  }

  lemma AtLeastOne<H>(ms: seq<Mountain<H>>)
    requires Descending(ms)
    ensures Pow2(0) == 1 && (ms == [] || ms[|ms| - 1].size >= 1)
  {
  }

  /** Where the scan stands for a mountain that is not too large, and for the next larger one. */
  lemma SizeAt(size: nat, i: nat, larger: nat)
    requires IsPower(size) && Pow2(i) <= size <= 0x4000_0000 && size < larger && (IsPower(larger) || larger == 2 * size)
    ensures i <= 30 && (size < 2 * Pow2(i) <==> size == Pow2(i)) && (size != Pow2(i) ==> size >= Pow2(i + 1))
    ensures size == Pow2(i) ==> larger >= Pow2(i + 1)
  {
    ThirtyBits();
    if i > 30 {
      Pow2Grows(30, i);
    }
    Pow2IsPower(i);
    if size > Pow2(i) {
      PowerGap(Pow2(i), size);
    }
    if IsPower(larger) {
      PowerGap(size, larger);
    }
  }

  lemma SizeInScan<H>(ms: seq<Mountain<H>>, idx: nat, i: nat)
    requires Descending(ms) && idx < |ms| && Pow2(i) <= ms[idx].size <= 0x4000_0000
    ensures var size := ms[idx].size;
            && i <= 30 && (size < 2 * Pow2(i) <==> size == Pow2(i)) && (size != Pow2(i) ==> size >= Pow2(i + 1))
            && (size == Pow2(i) && idx > 0 ==> ms[idx - 1].size >= Pow2(i + 1))
  {
    hide Pow2, IsPower;
    SizeAt(ms[idx].size, i, if idx > 0 then ms[idx - 1].size else 2 * ms[idx].size);
  }

  lemma OnePeakMore<H>(peaks: Peaks<H>, peak: H)
    ensures Ranges(peaks + [Some(peak)]) == [Mountain(peak, Pow2(|peaks|))] + Ranges(peaks)
    ensures Ranges(peaks + [None]) == Ranges(peaks)
  {
    hide Pow2, Ranges;
    RangesStep(peaks + [Some(peak)]);
    RangesStep(peaks + [None]);
    assert (peaks + [Some(peak)])[..|peaks|] == peaks && (peaks + [None])[..|peaks|] == peaks;
    assert [] + Ranges(peaks) == Ranges(peaks);
  }

  /** The super-peak of a list of peaks folds the peaks that are there, in the order of the list. */
  method SuperPeakOf<H>(hasher: Hasher<H>, peaks: Peaks<H>) returns (hash: H)
    ensures hash == SuperPeak(hasher, Present(peaks))
  {
    hide Pow2, Ranges, Present, SuperPeak;
    var mmr := new MerkleMountainRange.FromPeaks(hasher, peaks);
    PeaksInOrder(peaks);
    hash := mmr.GetSuperPeakHash();
  }

  /** `fromPeaks` and then `getPeaks` gives the list without its trailing nulls. */
  method PeaksRoundTrip<H>(hasher: Hasher<H>, peaks: Peaks<H>) returns (back: Peaks<H>)
    requires |Trimmed(peaks)| <= 31
    ensures back == Trimmed(peaks)
  {
    hide Pow2, Ranges, Trimmed;
    var mmr := new MerkleMountainRange.FromPeaks(hasher, peaks);
    RangesDescend(peaks);
    TrimmedRanges(peaks);
    SmallSizes(Trimmed(peaks));
    back := mmr.GetPeaks();
    PeaksUnique(back, Trimmed(peaks));
  }

  lemma {:induction false} SmallSizes<H>(peaks: Peaks<H>)
    requires |peaks| <= 31
    ensures forall i | 0 <= i < |Ranges(peaks)| :: Ranges(peaks)[i].size <= 0x4000_0000
  {
    hide Pow2;
    if peaks != [] {
      SmallSizes(peaks[..|peaks| - 1]);
      Pow2Bound(|peaks| - 1);
    }
  }

  /** `getPeaks` and then `fromPeaks` restores the mountains. */
  method MountainsRoundTrip<H>(mmr: MerkleMountainRange<H>) returns (copy: MerkleMountainRange<H>)
    requires mmr.Valid() && forall i | 0 <= i < |mmr.mountains| :: mmr.mountains[i].size <= 0x4000_0000
    ensures fresh(copy) && copy.Valid() && copy.mountains == mmr.mountains && copy.hasher == mmr.hasher
  {
    var peaks := mmr.GetPeaks();
    copy := new MerkleMountainRange.FromPeaks(mmr.hasher, peaks);
  }

  /** Appending leaves one by one: the mountains cover all of them, in order. */
  method AppendAll<H>(hasher: Hasher<H>, leaves: seq<H>) returns (mmr: MerkleMountainRange<H>)
    ensures fresh(mmr) && mmr.Valid() && mmr.hasher == hasher && Covers(hasher, mmr.mountains, leaves)
    ensures Sizes(mmr.mountains) == BinaryForm(|leaves|)
  {
    hide Descending, Add, Root, Covers, BinaryForm, IsPower;
    mmr := new MerkleMountainRange.Empty(hasher);
    assert leaves[..0] == [];
    for i := 0 to |leaves|
      invariant fresh(mmr) && mmr.Valid() && mmr.hasher == hasher && Covers(hasher, mmr.mountains, leaves[..i])
    {
      AppendCovers(hasher, mmr.mountains, leaves[..i], leaves[i]);
      assert leaves[..i] + [leaves[i]] == leaves[..i + 1];
      mmr.Append(leaves[i]);
    }
    assert leaves[..|leaves|] == leaves;
    BinaryCounter(hasher, mmr.mountains, leaves);
  }
}

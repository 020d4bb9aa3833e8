/** Dealing the 1023 chunks out to validators, and reading them back. */
module Sharding {
  import opened Bytes
  import opened Naturals
  import opened ErasureCoding
  import opened Chunking

  function CeilDiv(a: nat, b: nat): nat
    requires b > 0
  {
    (a + b - 1) / b
  }

  function Mul(a: nat, b: nat): nat {
    a * b
  }

  /** Chunks per validator: enough for all validators together to hold every chunk. */
  function PerValidator(v: nat): (m: nat)
    requires v > 0
  {
    CeilDiv(N_CHUNKS_TOTAL, v)
  }

  lemma CeilDivBounds(a: nat, b: nat)
    requires b > 0
    ensures Mul(CeilDiv(a, b), b) >= a
    ensures a > 0 ==> CeilDiv(a, b) > 0 && Mul(CeilDiv(a, b) - 1, b) < a
  {
    var q, r := (a + b - 1) / b, (a + b - 1) % b;
    assert a + b - 1 == q * b + r;
    if a > 0 {
      assert q == 0 ==> q * b == 0;
      assert (q - 1) * b == q * b - b;
    }
  }

  lemma CeilDivUnique(a: nat, b: nat, q: nat)
    requires b > 0 && a > 0 && q > 0 && Mul(q, b) >= a && Mul(q - 1, b) < a
    ensures CeilDiv(a, b) == q
  {
    CeilDivBounds(a, b);
    var p := CeilDiv(a, b);
    if p < q {
      Grows(q - 1, p, b);
    } else if p > q {
      Grows(p - 1, q, b);
    }
  }

  lemma MulAssoc(a: nat, b: nat, c: nat)
    ensures Mul(Mul(a, b), c) == Mul(a, Mul(b, c)) && Mul(a, b) == Mul(b, a)
  {
  }

  lemma MulOrder(a: nat, b: nat, c: nat)
    ensures a <= b ==> Mul(a, c) <= Mul(b, c)
    ensures a < b && c > 0 ==> Mul(a, c) + c <= Mul(b, c)
  {
    if a < b {
      Grows(b, a + 1, c);
      assert (a + 1) * c == a * c + c;
    }
  }

  /** The two roundings up together give a whole number of chunks, however long the chunks are. */
  lemma AlignedBytes(v: nat, s: nat)
    requires v > 0 && s > 0
    ensures CeilDiv(CeilDiv(Mul(N_CHUNKS_TOTAL, s), v), s) == PerValidator(v)
  {
    hide Mul, CeilDiv;
    var total, m := Mul(N_CHUNKS_TOTAL, s), PerValidator(v);
    MulOrder(0, N_CHUNKS_TOTAL, s);
    var per := CeilDiv(total, v);
    CeilDivBounds(N_CHUNKS_TOTAL, v);
    CeilDivBounds(total, v);
    // m * s * v >= total, so per <= m * s
    MulOrder(N_CHUNKS_TOTAL, Mul(m, v), s);
    MulAssoc(m, v, s);
    MulAssoc(m, s, v);
    MulAssoc(v, s, s);
    assert Mul(Mul(m, s), v) >= total;
    if per > Mul(m, s) {
      MulOrder(Mul(m, s), per - 1, v);
    }
    // (m - 1) * s * v < total, so per > (m - 1) * s
    MulOrder(Mul(m - 1, v), N_CHUNKS_TOTAL, s);
    MulAssoc(m - 1, v, s);
    MulAssoc(m - 1, s, v);
    assert Mul(Mul(m - 1, s), v) < total;
    if per <= Mul(m - 1, s) {
      MulOrder(per, Mul(m - 1, s), v);
    }
    CeilDivUnique(per, s, m);
  }

  // ----- dealing out -----

  /** 1023 chunks of `s` bytes. */
  predicate AreChunks(chunks: seq<Blob>, s: nat) {
    |chunks| == N_CHUNKS_TOTAL && forall i | 0 <= i < |chunks| :: |chunks[i]| == s
  }

  /** The shards: consecutive stretches of the chunks, written down twice. */
  function Shards(v: nat, chunks: seq<Blob>, s: nat): (r: seq<Blob>)
    requires v > 0
    ensures |r| == v
  {
    var width := Mul(PerValidator(v), s);
    seq(v, i requires 0 <= i < v => (MulOrder(i, i + 1, width); Slice(Join(chunks + chunks), Mul(i, width),
        Mul(i + 1, width))))
  }

  /** Chunks of `s` bytes are as many bytes as they are many. */
  lemma {:induction false} JoinLength(parts: seq<Blob>, s: nat)
    requires forall i | 0 <= i < |parts| :: |parts[i]| == s
    ensures |Join(parts)| == Mul(|parts|, s)
  {
    hide Mul;
    if parts == [] {
      MulAssoc(0, s, s);
      MulZero(s);
    } else {
      JoinLength(parts[1..], s);
      MulStep(|parts| - 1, s);
    }
  }

  lemma MulZero(s: nat)
    ensures Mul(0, s) == 0
  {
  }

  lemma MulStep(n: nat, s: nat)
    ensures Mul(n + 1, s) == Mul(n, s) + s
  {
  }

  lemma {:induction false} JoinConcat(a: seq<Blob>, b: seq<Blob>)
    ensures Join(a + b) == Join(a) + Join(b)
  {
    if a == [] {
      assert a + b == b;
    } else {
      assert (a + b)[1..] == a[1..] + b;
      JoinConcat(a[1..], b);
    }
  }

  lemma JoinSlice(parts: seq<Blob>, s: nat, a: nat, b: nat)
    requires (forall i | 0 <= i < |parts| :: |parts[i]| == s) && a <= b <= |parts|
    ensures Mul(a, s) <= Mul(b, s) <= |Join(parts)| && Join(parts)[Mul(a, s)..Mul(b, s)] == Join(parts[a..b])
  {
    hide Join, Mul;
    assert parts == parts[..a] + parts[a..b] + parts[b..];
    JoinConcat(parts[..a] + parts[a..b], parts[b..]);
    JoinConcat(parts[..a], parts[a..b]);
    JoinLength(parts[..a], s);
    JoinLength(parts[a..b], s);
    assert parts[..b] == parts[..a] + parts[a..b];
    JoinLength(parts[..b], s);
  }

  /** `chunksToShards`. */
  method ChunksToShards(v: nat, chunks: seq<Blob>, ghost s: nat) returns (result: seq<Blob>)
    requires v > 0 && AreChunks(chunks, s)
    ensures result == Shards(v, chunks, s)
  {
    hide Join, Mul, CeilDiv;
    var allChunks := Join(chunks);
    JoinLength(chunks, s);
    MulOf1023(s);
    var shardSize := |allChunks| / N_CHUNKS_TOTAL;
    var bytesToDrawFrom := allChunks + allChunks;
    JoinConcat(chunks, chunks);
    var bytesPerValidator := CeilDiv(|allChunks|, v);
    // for empty chunks the division gives NaN, and slices up to NaN are empty
    var alignedBytesPerValidator := if shardSize == 0 then 0 else Mul(CeilDiv(bytesPerValidator, shardSize), shardSize);
    if s > 0 {
      AlignedBytes(v, s);
    } else {
      MulAssoc(PerValidator(v), 0, 0);
      MulZero(PerValidator(v));
    }
    ghost var width := Mul(PerValidator(v), s);
    assert alignedBytesPerValidator == width;
    result := [];
    for i := 0 to v
      invariant result == Shards(v, chunks, s)[..i]
    {
      var start := Mul(i, alignedBytesPerValidator);
      MulStep(i, alignedBytesPerValidator);
      var end := start + alignedBytesPerValidator;
      result := result + [Slice(bytesToDrawFrom, start, end)];
    }
  }

  lemma MulOf1023(s: nat)
    ensures Mul(N_CHUNKS_TOTAL, s) == 1023 * s
  {
  }

  // ----- reading back -----

  function TotalLength(shards: seq<Blob>): nat {
    if shards == [] then 0 else |shards[0]| + TotalLength(shards[1..])
  }

  lemma {:induction false} TotalOfEqual(shards: seq<Blob>, n: nat)
    requires forall i | 0 <= i < |shards| :: |shards[i]| == n
    ensures TotalLength(shards) == Mul(|shards|, n)
  {
    hide Mul;
    if shards == [] {
      MulZero(n);
    } else {
      TotalOfEqual(shards[1..], n);
      MulStep(|shards| - 1, n);
    }
  }

  function ChunkOf(shard: Blob, v: nat, i: nat, chunkSize: nat, pieces: nat): Numbered {
    MulOrder(i, i + 1, chunkSize);
    ((Mul(v, pieces) + i) % N_CHUNKS_TOTAL, Slice(shard, Mul(i, chunkSize), Mul(i + 1, chunkSize)))
  }

  /** Every shard cut into numbered chunks, the numbers running on from shard to shard. */
  function Numberings(shards: seq<Blob>, chunkSize: nat, pieces: nat): (r: seq<seq<Numbered>>)
    ensures |r| == |shards|
  {
    seq(|shards|, v requires 0 <= v < |shards| => seq(pieces,
        i requires 0 <= i < pieces => ChunkOf(shards[v], v, i, chunkSize, pieces)))
  }

  /** What rounding down a floating point quotient gives: dividing by zero gives infinity, and 0 / 0 is not a number. */
  datatype Floor = Finite(n: nat) | Infinity | NaN

  function FloorOf(a: nat, b: nat): Floor {
    if b > 0 then Finite(a / b) else if a > 0 then Infinity else NaN
  }

  /** `i < bound`. */
  predicate Below(i: nat, bound: Floor) {
    match bound case Finite(n) => i < n case Infinity => true case NaN => false
  }

  /** The bound of the inner loop for `v` equal shards. */
  function PiecesPerChunk(v: nat, shardSize: nat): Floor {
    FloorOf(shardSize, Mul(v, shardSize) / N_CHUNKS_TOTAL)
  }

  /** The inner loop goes on for ever exactly when the shards hold some bytes but fewer than there are chunks. */
  lemma EndlessExactly(v: nat, shardSize: nat)
    requires v > 0
    ensures (forall i: nat :: Below(i, PiecesPerChunk(v, shardSize))) <==> 0 < Mul(v, shardSize) < N_CHUNKS_TOTAL
  {
    hide Mul;
    var bound := PiecesPerChunk(v, shardSize);
    if bound.Finite? {
      assert !Below(bound.n, bound);
    } else if bound.NaN? {
      assert !Below(0, bound);
    }
    MulPositive(v, shardSize);
  }

  lemma MulPositive(a: nat, b: nat)
    requires a > 0
    ensures Mul(a, b) == 0 <==> b == 0
  {
  }

  predicate Unequal(shards: seq<Blob>)
    requires |shards| > 0
  {
    exists i | 0 <= i < |shards| :: |shards[i]| != |shards[0]|
  }

  function ReadBack(shards: seq<Blob>): Option<seq<seq<Numbered>>>
    requires |shards| > 0
  {
    var shardSize := |shards[0]|;
    if Unequal(shards) then None
    else
      var chunkSize := Mul(|shards|, shardSize) / N_CHUNKS_TOTAL;
      Some(Numberings(shards, chunkSize, if chunkSize == 0 then 0 else shardSize / chunkSize))
  }

  /** `shardsToChunks`, wherever it ends (`EndlessExactly`). */
  method ShardsToChunks(shards: seq<Blob>) returns (result: Option<seq<seq<Numbered>>>)
    requires |shards| > 0 && (Unequal(shards) || !(0 < Mul(|shards|, |shards[0]|) < N_CHUNKS_TOTAL))
    ensures result == ReadBack(shards)
  {
    hide Mul, Slice;
    var shardSize := |shards[0]|;
    if Unequal(shards) {
      return None;
    }
    var totalData := TotalLength(shards);
    TotalOfEqual(shards, shardSize);
    var chunkSize := totalData / N_CHUNKS_TOTAL;
    // an empty shard makes this 0 / 0, and no index is below NaN
    var piecesPerChunk := if chunkSize == 0 then 0 else shardSize / chunkSize;
    var currentChunk := 0;
    var lists: seq<seq<Numbered>> := [];
    MulZero(piecesPerChunk);
    for v := 0 to |shards|
      invariant currentChunk == Mul(v, piecesPerChunk) % N_CHUNKS_TOTAL
      invariant lists == Numberings(shards, chunkSize, piecesPerChunk)[..v]
    {
      var validatorChunks;
      validatorChunks, currentChunk := ReadShard(shards[v], v, chunkSize, piecesPerChunk, currentChunk);
      MulStep(v, piecesPerChunk);
      lists := lists + [validatorChunks];
    }
    assert lists == Numberings(shards, chunkSize, piecesPerChunk);
    result := Some(lists);
  }

  /** The inner loop: one validator's shard. */
  method ReadShard(shard: Blob, ghost v: nat, chunkSize: nat, piecesPerChunk: nat, current: nat)
    returns (validatorChunks: seq<Numbered>, currentChunk: nat)
    requires piecesPerChunk == if chunkSize == 0 then 0 else |shard| / chunkSize
    requires current == Mul(v, piecesPerChunk) % N_CHUNKS_TOTAL
    ensures validatorChunks ==
        seq(piecesPerChunk, i requires 0 <= i < piecesPerChunk => ChunkOf(shard, v, i, chunkSize, piecesPerChunk))
    ensures currentChunk == (Mul(v, piecesPerChunk) + piecesPerChunk) % N_CHUNKS_TOTAL
  {
    hide Mul, Slice;
    ghost var all := seq(piecesPerChunk,
        i requires 0 <= i < piecesPerChunk => ChunkOf(shard, v, i, chunkSize, piecesPerChunk));
    currentChunk := current;
    validatorChunks := [];
    for i := 0 to piecesPerChunk
      invariant currentChunk == (Mul(v, piecesPerChunk) + i) % N_CHUNKS_TOTAL
      invariant validatorChunks == all[..i]
    {
      var start := Mul(i, chunkSize);
      MulStep(i, chunkSize);
      var chunk := Slice(shard, start, start + chunkSize);
      FitsIn(|shard|, chunkSize, i);
      SliceLength(shard, start, start + chunkSize);
      if |chunk| == chunkSize {
        validatorChunks := validatorChunks + [(currentChunk, chunk)];
      }
      ModStep(Mul(v, piecesPerChunk) + i);
      currentChunk := (currentChunk + 1) % N_CHUNKS_TOTAL;
    }
  }

  lemma ModStep(c: nat)
    ensures (c % N_CHUNKS_TOTAL + 1) % N_CHUNKS_TOTAL == (c + 1) % N_CHUNKS_TOTAL
  {
  }

  lemma FitsIn(shardSize: nat, chunkSize: nat, i: nat)
    requires chunkSize > 0 && i < shardSize / chunkSize
    ensures Mul(i + 1, chunkSize) <= shardSize
  {
    var q, r := shardSize / chunkSize, shardSize % chunkSize;
    assert shardSize == q * chunkSize + r;
    Grows(q, i + 1, chunkSize);
  }

  lemma SliceLength(bs: Blob, start: nat, end: nat)
    requires start <= end
    ensures end <= |bs| ==> Slice(bs, start, end) == bs[start..end] && |Slice(bs, start, end)| == end - start
    ensures start >= |bs| ==> Slice(bs, start, end) == []
  {
  }

  // ----- when dealing out and reading back agree -----

  /** What every validator should get back: its own chunks with their own numbers. */
  function Dealt(v: nat, chunks: seq<Blob>): (r: seq<seq<Numbered>>)
    requires v > 0 && |chunks| == N_CHUNKS_TOTAL
  {
    var m := PerValidator(v);
    seq(v, x requires 0 <= x < v => seq(m, j requires 0 <= j < m =>
      ((Mul(x, m) + j) % N_CHUNKS_TOTAL, chunks[(Mul(x, m) + j) % N_CHUNKS_TOTAL])))
  }

  lemma PerValidatorBounds(v: nat)
    requires v > 0
    ensures PerValidator(v) >= 1 && N_CHUNKS_TOTAL <= Mul(v, PerValidator(v)) < N_CHUNKS_TOTAL + v
    ensures v >= N_CHUNKS_TOTAL ==> PerValidator(v) == 1 && Mul(v, PerValidator(v)) == v
  {
    hide Mul, CeilDiv;
    var m := PerValidator(v);
    CeilDivBounds(N_CHUNKS_TOTAL, v);
    MulAssoc(m, v, 0);
    MulStep(m - 1, v);
    if v >= N_CHUNKS_TOTAL {
      MulOne(v);
      CeilDivUnique(N_CHUNKS_TOTAL, v, 1);
      MulAssoc(1, v, 0);
    }
  }

  lemma MulOne(v: nat)
    ensures Mul(1, v) == v && Mul(0, v) == 0
  {
  }

  /** Chunks dealt a second time. */
  function Surplus(v: nat): nat
    requires v > 0
  {
    PerValidatorBounds(v);
    Mul(v, PerValidator(v)) - N_CHUNKS_TOTAL
  }

  /** Every chunk is dealt to some validator. */
  lemma EveryChunkDealt(v: nat, chunks: seq<Blob>, c: nat)
    requires v > 0 && |chunks| == N_CHUNKS_TOTAL && c < N_CHUNKS_TOTAL
    ensures exists x, j | 0 <= x < v && 0 <= j < PerValidator(v) :: Dealt(v, chunks)[x][j] == (c, chunks[c])
  {
    hide Mul, PerValidator;
    PerValidatorBounds(v);
    var m := PerValidator(v);
    var x, j := Split(c, m);
    if x >= v {
      MulOrder(v, x, m);
    }
    assert Dealt(v, chunks)[x][j] == (c, chunks[c]);
  }

  lemma Split(c: nat, m: nat) returns (q: nat, r: nat)
    requires m > 0
    ensures Mul(q, m) + r == c && r < m
  {
    q, r := c / m, c % m;
  }

  /** With 1023 validators reading back always works, with 6 of them exactly for chunks below 341 bytes. */
  lemma FullAndTiny(s: nat)
    ensures Mul(Surplus(1023), s) < N_CHUNKS_TOTAL
    ensures Mul(Surplus(6), s) < N_CHUNKS_TOTAL <==> s < 341
  {
    MulZero(s);
    assert PerValidator(6) == 171 && Mul(6, 171) == 1026;
  }

  /** Up to 2046 validators, every shard is the chunks dealt to the validator, one after the other. */
  lemma ShardIsChunks(v: nat, chunks: seq<Blob>, s: nat, x: nat)
    requires 0 < v <= 2 * N_CHUNKS_TOTAL && AreChunks(chunks, s) && x < v
    ensures var m := PerValidator(v);
            Mul(x, m) <= Mul(x + 1, m) == Mul(x, m) + m <= 2 * N_CHUNKS_TOTAL && |Shards(v, chunks, s)[x]| == Mul(m, s)
            && Shards(v, chunks, s)[x] == Join((chunks + chunks)[Mul(x, m)..Mul(x + 1, m)])
  {
    hide Mul, PerValidator, Join, Slice;
    PerValidatorBounds(v);
    var m := PerValidator(v);
    var width := Mul(m, s);
    MulStep(x, m);
    MulOrder(x + 1, v, m);
    JoinSlice(chunks + chunks, s, Mul(x, m), Mul(x + 1, m));
    MulAssoc(x, m, s);
    MulAssoc(x + 1, m, s);
    MulStep(x, width);
    SliceLength(Join(chunks + chunks), Mul(x, width), Mul(x + 1, width));
  }

  /** Cutting a shard at chunk borders gives the chunks back. */
  lemma PieceIsChunk(v: nat, chunks: seq<Blob>, s: nat, x: nat, j: nat)
    requires 0 < v <= 2 * N_CHUNKS_TOTAL && AreChunks(chunks, s) && x < v && j < PerValidator(v)
    ensures ChunkOf(Shards(v, chunks, s)[x], x, j, s, PerValidator(v)) == Dealt(v, chunks)[x][j]
  {
    hide Mul, PerValidator, Slice, Shards, Join;
    var m := PerValidator(v);
    ShardIsChunks(v, chunks, s, x);
    var parts := (chunks + chunks)[Mul(x, m)..Mul(x + 1, m)];
    JoinSlice(parts, s, j, j + 1);
    assert parts[j..j + 1] == [parts[j]];
    JoinOne(parts[j]);
    SliceLength(Join(parts), Mul(j, s), Mul(j + 1, s));
    var c := Mul(x, m) + j;
    assert parts[j] == (chunks + chunks)[c] == chunks[c % N_CHUNKS_TOTAL];
  }

  lemma JoinOne(part: Blob)
    ensures Join([part]) == part
  {
    assert Join([part][1..]) == [];
  }

  /** The size the reader derives is the size of the chunks exactly when the surplus bytes are fewer than 1023. */
  lemma DerivedSize(v: nat, s: nat)
    requires v > 0 && s > 0
    ensures var m := PerValidator(v);
            var surplus := Mul(Surplus(v), s);
            Mul(v, Mul(m, s)) / N_CHUNKS_TOTAL >= s
            && (Mul(v, Mul(m, s)) / N_CHUNKS_TOTAL == s <==> surplus < N_CHUNKS_TOTAL)
  {
    hide Mul, PerValidator;
    PerValidatorBounds(v);
    var m := PerValidator(v);
    MulAssoc(v, m, s);
    MulSplit(Mul(v, m), s);
  }

  lemma MulSplit(a: nat, s: nat)
    requires a >= N_CHUNKS_TOTAL
    ensures Mul(a, s) == 1023 * s + Mul(a - N_CHUNKS_TOTAL, s)
  {
  }

  lemma CutIntoChunks(m: nat, s: nat)
    requires s > 0
    ensures Mul(m, s) / s == m
  {
    Quotient(m, s, 0);
  }

  /** `shardsToChunks` gives every validator its own chunks back exactly when the dealt surplus is below 1023 bytes. */
  lemma ReadBackExactly(v: nat, chunks: seq<Blob>, s: nat)
    requires v > 0 && s > 0 && AreChunks(chunks, s)
    ensures ReadBack(Shards(v, chunks, s)) == Some(Dealt(v, chunks)) <==> Mul(Surplus(v), s) < N_CHUNKS_TOTAL
  {
    hide Mul, PerValidator, Slice, Shards, ChunkOf, Dealt;
    var m, shards := PerValidator(v), Shards(v, chunks, s);
    PerValidatorBounds(v);
    if v > 2 * N_CHUNKS_TOTAL {
      LastShardEmpty(v, chunks, s);
    } else {
      var shardSize := Mul(m, s);
      forall x | 0 <= x < v
        ensures |shards[x]| == shardSize
      {
        ShardIsChunks(v, chunks, s, x);
      }
      var chunkSize := Mul(v, shardSize) / N_CHUNKS_TOTAL;
      DerivedSize(v, s);
      var pieces := shardSize / chunkSize;
      assert ReadBack(shards) == Some(Numberings(shards, chunkSize, pieces));
      if chunkSize == s {
        CutIntoChunks(m, s);
        NumberingsAreDealt(v, chunks, s);
      } else {
        WrongSize(v, chunks, s, chunkSize, pieces);
      }
    }
  }

  lemma NumberingsAreDealt(v: nat, chunks: seq<Blob>, s: nat)
    requires 0 < v <= 2 * N_CHUNKS_TOTAL && AreChunks(chunks, s)
    ensures Numberings(Shards(v, chunks, s), s, PerValidator(v)) == Dealt(v, chunks)
  {
    hide Mul, PerValidator, Slice, Shards, ChunkOf;
    forall x | 0 <= x < v
      ensures Numberings(Shards(v, chunks, s), s, PerValidator(v))[x] == Dealt(v, chunks)[x]
    {
      forall j | 0 <= j < PerValidator(v)
        ensures Numberings(Shards(v, chunks, s), s, PerValidator(v))[x][j] == Dealt(v, chunks)[x][j]
      {
        PieceIsChunk(v, chunks, s, x, j);
      }
    }
  }

  lemma WrongSize(v: nat, chunks: seq<Blob>, s: nat, chunkSize: nat, pieces: nat)
    requires 0 < v <= 2 * N_CHUNKS_TOTAL && AreChunks(chunks, s) && chunkSize > s > 0
    requires pieces == Mul(PerValidator(v), s) / chunkSize
    ensures Numberings(Shards(v, chunks, s), chunkSize, pieces) != Dealt(v, chunks)
  {
    hide Mul, PerValidator, Slice, Shards;
    PerValidatorBounds(v);
    ShardIsChunks(v, chunks, s, 0);
    var shard := Shards(v, chunks, s)[0];
    var first := Numberings(Shards(v, chunks, s), chunkSize, pieces)[0];
    if pieces > 0 {
      FitsIn(|shard|, chunkSize, 0);
      MulOne(chunkSize);
      SliceLength(shard, 0, chunkSize);
      assert |first[0].1| == chunkSize;
      assert |Dealt(v, chunks)[0][0].1| == s;
    } else {
      assert |first| == 0 && |Dealt(v, chunks)[0]| == PerValidator(v);
    }
  }

  lemma LastShardEmpty(v: nat, chunks: seq<Blob>, s: nat)
    requires v > 2 * N_CHUNKS_TOTAL && s > 0 && AreChunks(chunks, s)
    ensures ReadBack(Shards(v, chunks, s)).None?
    ensures Mul(Surplus(v), s) >= N_CHUNKS_TOTAL
  {
    hide Mul, PerValidator, Slice, Join;
    PerValidatorBounds(v);
    MulOne(s);
    var bytes := Join(chunks + chunks);
    JoinLength(chunks + chunks, s);
    MulOrder(2 * N_CHUNKS_TOTAL, v - 1, s);
    MulStep(v - 1, s);
    SliceLength(bytes, Mul(v - 1, s), Mul(v, s));
    MulOrder(1, 2 * N_CHUNKS_TOTAL, s);
    SliceLength(bytes, 0, s);
    MulOrder(1, v - N_CHUNKS_TOTAL, s);
    MulOrder(N_CHUNKS_TOTAL, v - N_CHUNKS_TOTAL, s);
    MulOf1023(s);
    var shards := Shards(v, chunks, s);
    assert |shards[0]| == s && |shards[v - 1]| == 0;
  }
}

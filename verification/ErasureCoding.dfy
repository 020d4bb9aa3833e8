/**
 Erasure coding of data into 1023 chunks, any 342 of which restore it (Gray Paper, Appendix H). The Reed-Solomon
 code itself is a parameter; only its recovery law is used.
 */
module ErasureCoding {
  import opened Bytes

  const POINT_ALIGNMENT: nat := 64
  const N_CHUNKS_REQUIRED: nat := 342
  const N_CHUNKS_REDUNDANCY: nat := 681
  const N_CHUNKS_TOTAL: nat := 1023
  const HALF_POINT_SIZE: nat := 32
  const POINT_LENGTH: nat := 2
  const PIECE_SIZE: nat := 684

  type Blob = seq<byte>
  type Shard = s: seq<byte> | |s| == 64 witness seq(64, i => 0)
  /** `reedSolomon.encode`: redundancy shards for the original ones. */
  type Encoding = seq<Shard> -> seq<Shard>
  /** `reedSolomon.decode`: the indices and contents of restored shards. */
  type Decoding = (seq<Shard>, seq<nat>) -> (seq<nat>, seq<Shard>)

  // ----- points in shards -----

  /** A two-byte point in a 64-byte shard: bytes 0 and 32. */
  function Spread(p: Blob): (shard: Shard)
    requires |p| == POINT_LENGTH
  {
    seq(POINT_ALIGNMENT, k => if k == 0 then p[0] else if k == HALF_POINT_SIZE then p[1] else 0)
  }

  function Narrow(shard: Shard): (p: Blob)
    ensures |p| == POINT_LENGTH
  {
    [shard[0], shard[HALF_POINT_SIZE]]
  }

  lemma NarrowSpread(p: Blob)
    requires |p| == POINT_LENGTH
    ensures Narrow(Spread(p)) == p
  {
  }

  /** Only the two bytes of a point are used. */
  predicate Sparse(shards: seq<Shard>) {
    forall i | 0 <= i < |shards| :: shards[i] == Spread(Narrow(shards[i]))
  }

  predicate AreIndices(indices: seq<nat>) {
    && |indices| == N_CHUNKS_REQUIRED
    && (forall i | 0 <= i < |indices| :: indices[i] < N_CHUNKS_TOTAL)
    && forall i, j | 0 <= i < j < |indices| :: indices[i] != indices[j]
  }

  function Select<T>(all: seq<T>, indices: seq<nat>): (r: seq<T>)
    requires forall i | 0 <= i < |indices| :: indices[i] < |all|
    ensures |r| == |indices| && forall i | 0 <= i < |r| :: r[i] == all[indices[i]]
  {
    seq(|indices|, i requires 0 <= i < |indices| => all[indices[i]])
  }

  /** Any 342 of the original and redundancy shards give back the missing original ones; unused columns stay zero. */
  ghost predicate ReedSolomon(encode: Encoding, decode: Decoding) {
    && Encodes(encode)
    && (forall original: seq<Shard>, indices | |original| == N_CHUNKS_REQUIRED && AreIndices(indices) ::
          Recovers(original, indices, decode(SelectShards(encode, original, indices), indices)))
  }

  ghost predicate Encodes(encode: Encoding) {
    forall original: seq<Shard> | |original| == N_CHUNKS_REQUIRED ::
      && |encode(original)| == N_CHUNKS_REDUNDANCY
      && (Sparse(original) ==> Sparse(encode(original)))
  }

  ghost function SelectShards(encode: Encoding, original: seq<Shard>, indices: seq<nat>): seq<Shard> {
    if |original + encode(original)| == N_CHUNKS_TOTAL &&
        AreIndices(indices) then Select(original + encode(original), indices) else []
  }

  ghost predicate Recovers(original: seq<Shard>, indices: seq<nat>, result: (seq<nat>, seq<Shard>))
    requires |original| == N_CHUNKS_REQUIRED
  {
    && |result.0| == |result.1|
    && (forall i | 0 <= i < |result.0| :: result.0[i] < N_CHUNKS_REQUIRED && result.1[i] == original[result.0[i]])
    && (forall i | 0 <= i < N_CHUNKS_REQUIRED :: i in indices || i in result.0)
  }

  // ----- one piece -----

  function Point(piece: Blob, i: nat): (p: Blob)
    requires |piece| == PIECE_SIZE && i < N_CHUNKS_REQUIRED
    ensures |p| == POINT_LENGTH
  {
    piece[POINT_LENGTH * i..POINT_LENGTH * i + POINT_LENGTH]
  }

  function Originals(piece: Blob): (shards: seq<Shard>)
    requires |piece| == PIECE_SIZE
    ensures |shards| == N_CHUNKS_REQUIRED
  {
    seq(N_CHUNKS_REQUIRED, i requires 0 <= i < N_CHUNKS_REQUIRED => Spread(Point(piece, i)))
  }

  /** The 1023 points of a piece: its own 342, then the redundancy. */
  ghost function Points(encode: Encoding, piece: Blob): (points: seq<Blob>)
    requires |piece| == PIECE_SIZE
  {
    var redundancy := encode(Originals(piece));
    seq(N_CHUNKS_REQUIRED, i requires 0 <= i < N_CHUNKS_REQUIRED => Point(piece, i))
    + (if |redundancy| == N_CHUNKS_REDUNDANCY then
         seq(N_CHUNKS_REDUNDANCY, i requires 0 <= i < N_CHUNKS_REDUNDANCY => Narrow(redundancy[i]))
       else [])
  }

  /** `ShardsCollection`: flat data cut into shards. */
  function Cut(data: Blob): seq<Shard> {
    seq(|data| / POINT_ALIGNMENT,
        i requires 0 <= i < |data| / POINT_ALIGNMENT => data[i * POINT_ALIGNMENT..(i + 1) * POINT_ALIGNMENT])
  }

  /** The loop both coders write a point with. */
  method PutPoint(data: array<byte>, i: nat, p: Blob)
    requires |p| == POINT_LENGTH && POINT_ALIGNMENT * (i + 1) <= data.Length
    modifies data
    ensures forall t | 0 <= t < data.Length ::
      data[t] == if t == i * POINT_ALIGNMENT then p[0] else if t == i * POINT_ALIGNMENT + HALF_POINT_SIZE then p[1]
          else old(data[t])
  {
    var pointStart := i * POINT_ALIGNMENT;
    for j := 0 to POINT_LENGTH
      invariant forall t | 0 <= t < data.Length ::
        data[t] == if t == pointStart && j > 0 then p[0] else if t == pointStart + HALF_POINT_SIZE &&
            j > 1 then p[1] else old(data[t])
    {
      data[pointStart + j * HALF_POINT_SIZE] := p[j];
    }
  }

  /** The first `n` shards of the data hold the points, the others are zero. */
  ghost predicate Filled(data: seq<byte>, points: seq<Blob>, n: nat)
    requires n <= |points| && |data| == POINT_ALIGNMENT * |points|
    requires forall i | 0 <= i < |points| :: |points[i]| == POINT_LENGTH
  {
    && (forall i, k | 0 <= i < n && 0 <= k < POINT_ALIGNMENT :: data[i * POINT_ALIGNMENT + k] == Spread(points[i])[k])
    && (forall t | n * POINT_ALIGNMENT <= t < |data| :: data[t] == 0)
  }

  lemma FilledCut(data: seq<byte>, points: seq<Blob>)
    requires |data| == POINT_ALIGNMENT * |points|
    requires forall i | 0 <= i < |points| :: |points[i]| == POINT_LENGTH
    requires Filled(data, points, |points|)
    ensures |Cut(data)| == |points| && forall i | 0 <= i < |points| :: Cut(data)[i] == Spread(points[i])
  {
    forall i | 0 <= i < |points|
      ensures Cut(data)[i] == Spread(points[i])
    {
      forall k | 0 <= k < POINT_ALIGNMENT
        ensures Cut(data)[i][k] == Spread(points[i])[k]
      {
        assert data[i * POINT_ALIGNMENT + k] == Spread(points[i])[k];
      }
    }
  }

  method EncodePoints(encode: Encoding, input: Blob) returns (result: seq<Blob>)
    requires |input| == PIECE_SIZE && Encodes(encode)
    ensures result == Points(encode, input)
  {
    hide Spread;
    result := [];
    var data := new byte[POINT_ALIGNMENT * N_CHUNKS_REQUIRED](_ => 0);
    ghost var points := seq(N_CHUNKS_REQUIRED, i requires 0 <= i < N_CHUNKS_REQUIRED => Point(input, i));
    for i := 0 to N_CHUNKS_REQUIRED
      invariant result == points[..i] && Filled(data[..], points, i)
    {
      var pointStart := POINT_LENGTH * i;
      result := result + [input[pointStart..pointStart + POINT_LENGTH]];
      ghost var before := data[..];
      PutPoint(data, i, input[pointStart..pointStart + POINT_LENGTH]);
      OneMoreFilled(before, data[..], points, i);
    }
    FilledCut(data[..], points);
    assert Cut(data[..]) == Originals(input);
    var encoded := encode(Cut(data[..]));
    for i := 0 to N_CHUNKS_REDUNDANCY
      invariant |result| == N_CHUNKS_REQUIRED + i
      invariant result == Points(encode, input)[..N_CHUNKS_REQUIRED + i]
    {
      var redundancyPoint := new byte[POINT_LENGTH](_ => 0);
      for j := 0 to POINT_LENGTH
        invariant forall t | 0 <= t < j :: redundancyPoint[t] == Narrow(encoded[i])[t]
      {
        redundancyPoint[j] := encoded[i][j * HALF_POINT_SIZE];
      }
      assert redundancyPoint[..] == Narrow(encoded[i]);
      result := result + [redundancyPoint[..]];
    }
  }

  lemma OneMoreFilled(before: seq<byte>, after: seq<byte>, points: seq<Blob>, n: nat)
    requires n < |points| && |before| == |after| == POINT_ALIGNMENT * |points|
    requires forall i | 0 <= i < |points| :: |points[i]| == POINT_LENGTH
    requires Filled(before, points, n)
    requires forall t | 0 <= t < |after| ::
      after[t] == if t == n * POINT_ALIGNMENT then points[n][0]
          else if t == n * POINT_ALIGNMENT + HALF_POINT_SIZE then points[n][1] else before[t]
    ensures Filled(after, points, n + 1)
  {
    forall i, k | 0 <= i < n + 1 && 0 <= k < POINT_ALIGNMENT
      ensures after[i * POINT_ALIGNMENT + k] == Spread(points[i])[k]
    {
      if i < n {
        assert before[i * POINT_ALIGNMENT + k] == Spread(points[i])[k];
      }
    }
  }

  type Numbered = (nat, Blob)

  function Indices(input: seq<Numbered>): (r: seq<nat>)
    ensures |r| == |input|
  {
    seq(|input|, i requires 0 <= i < |input| => input[i].0)
  }

  /** The input is the points of the piece at its indices. */
  ghost predicate PointsOf(encode: Encoding, input: seq<Numbered>, piece: Blob) {
    && |piece| == PIECE_SIZE && AreIndices(Indices(input)) && |Points(encode, piece)| == N_CHUNKS_TOTAL
    && forall i | 0 <= i < |input| :: input[i].0 < N_CHUNKS_TOTAL && input[i].1 == Points(encode, piece)[input[i].0]
  }

  lemma OriginalsSparse(piece: Blob)
    requires |piece| == PIECE_SIZE
    ensures Sparse(Originals(piece))
  {
    hide Spread, Narrow;
    forall i | 0 <= i < N_CHUNKS_REQUIRED
      ensures Originals(piece)[i] == Spread(Narrow(Originals(piece)[i]))
    {
      NarrowSpread(Point(piece, i));
    }
  }

  /** What the decoder is given are the shards themselves. */
  lemma GivenShards(encode: Encoding, input: seq<Numbered>, piece: Blob, shards: seq<Shard>)
    requires Encodes(encode) && PointsOf(encode, input, piece)
    requires |shards| == |input| && forall i | 0 <= i < |input| ::
        |input[i].1| == POINT_LENGTH && shards[i] == Spread(input[i].1)
    ensures shards == SelectShards(encode, Originals(piece), Indices(input))
  {
    hide Spread, Narrow, Originals;
    OriginalsSparse(piece);
    var redundancy := encode(Originals(piece));
    assert |Originals(piece) + redundancy| == N_CHUNKS_TOTAL;
    forall i | 0 <= i < |input|
      ensures shards[i] == (Originals(piece) + redundancy)[input[i].0]
    {
      var index := input[i].0;
      if index < N_CHUNKS_REQUIRED {
        OriginalAt(piece, index);
      } else {
        assert redundancy[index - N_CHUNKS_REQUIRED] == Spread(Narrow(redundancy[index - N_CHUNKS_REQUIRED]));
      }
    }
  }

  lemma OriginalAt(piece: Blob, i: nat)
    requires |piece| == PIECE_SIZE && i < N_CHUNKS_REQUIRED
    ensures Originals(piece)[i] == Spread(Point(piece, i)) && Narrow(Originals(piece)[i]) == Point(piece, i)
  {
    NarrowSpread(Point(piece, i));
  }

  /** The points at the given indices are in place. */
  ghost predicate Restored(result: Blob, piece: Blob, indices: seq<nat>) {
    |result| == |piece| == PIECE_SIZE && forall x | 0 <= x < N_CHUNKS_REQUIRED && x in indices ::
      result[POINT_LENGTH * x] == piece[POINT_LENGTH * x] && result[POINT_LENGTH * x + 1] == piece[POINT_LENGTH * x + 1]
  }

  lemma RestoredAll(result: Blob, piece: Blob, indices: seq<nat>)
    requires |result| == |piece| == PIECE_SIZE && Restored(result, piece, indices)
    requires forall x | 0 <= x < N_CHUNKS_REQUIRED :: x in indices
    ensures result == piece
  {
    forall t | 0 <= t < PIECE_SIZE
      ensures result[t] == piece[t]
    {
      var x := t / POINT_LENGTH;
      assert x in indices && (t == POINT_LENGTH * x || t == POINT_LENGTH * x + 1);
    }
  }

  lemma OneMoreRestored(before: Blob, after: Blob, piece: Blob, seen: seq<nat>, index: nat)
    requires |before| == |after| == |piece| == PIECE_SIZE && Restored(before, piece, seen) && index < N_CHUNKS_REQUIRED
    requires forall t | 0 <= t < PIECE_SIZE :: after[t] == if t / POINT_LENGTH == index then piece[t] else before[t]
    ensures Restored(after, piece, seen + [index])
  {
  }

  /** The points are points of the piece, so far as they are original ones. */
  ghost predicate OriginalPointsOf(input: seq<Numbered>, piece: Blob) {
    |piece| == PIECE_SIZE && forall i | 0 <= i < |input| && input[i].0 < N_CHUNKS_REQUIRED ::
        input[i].1 == Point(piece, input[i].0)
  }

  /** Original points go to the result, all points to the data for the decoder. */
  method Gather(input: seq<Numbered>, data: array<byte>, bytes: array<byte>, ghost piece: Blob)
      returns (indices: seq<nat>)
    requires |input| == N_CHUNKS_REQUIRED && bytes.Length == PIECE_SIZE &&
        data.Length == N_CHUNKS_REQUIRED * POINT_ALIGNMENT
    requires forall i | 0 <= i < |input| :: |input[i].1| == POINT_LENGTH
    requires data != bytes && forall t | 0 <= t < data.Length :: data[t] == 0
    modifies data, bytes
    ensures indices == Indices(input) && (OriginalPointsOf(input, piece) ==> Restored(bytes[..], piece, indices))
    ensures |Cut(data[..])| == |input| && forall i | 0 <= i < |input| :: Cut(data[..])[i] == Spread(input[i].1)
  {
    hide Spread, Cut, Restored;
    indices := [];
    ghost var points := seq(|input|, i requires 0 <= i < |input| => input[i].1);
    ghost var good := OriginalPointsOf(input, piece);
    if good {
      NothingRestored(bytes[..], piece);
    }
    for i := 0 to N_CHUNKS_REQUIRED
      invariant indices == Indices(input)[..i] && Filled(data[..], points, i) &&
          (good ==> Restored(bytes[..], piece, indices))
    {
      var (index, point) := input[i];
      ghost var before, bytesBefore := data[..], bytes[..];
      PutPoint(data, i, point);
      OneMoreFilled(before, data[..], points, i);
      if index < N_CHUNKS_REQUIRED {
        var pointStartInResult := POINT_LENGTH * index;
        bytes[pointStartInResult] := point[0];
        bytes[pointStartInResult + 1] := point[1];
        if good {
          OneMoreRestored(bytesBefore, bytes[..], piece, indices, index);
        }
      } else if good {
        OtherIndex(bytes[..], piece, indices, index);
      }
      indices := indices + [index];
    }
    FilledCut(data[..], points);
  }

  lemma NothingRestored(bytes: Blob, piece: Blob)
    requires |bytes| == |piece| == PIECE_SIZE
    ensures Restored(bytes, piece, [])
  {
  }

  lemma OtherIndex(bytes: Blob, piece: Blob, seen: seq<nat>, index: nat)
    requires |bytes| == |piece| == PIECE_SIZE && Restored(bytes, piece, seen) && index >= N_CHUNKS_REQUIRED
    ensures Restored(bytes, piece, seen + [index])
  {
  }

  /** The restored shards are shards of the piece. */
  ghost predicate ShardsOf(resultIndices: seq<nat>, resultData: seq<Shard>, piece: Blob) {
    && |piece| == PIECE_SIZE && |resultIndices| == |resultData|
    && forall i | 0 <= i < |resultIndices| :: resultIndices[i] < N_CHUNKS_REQUIRED &&
        Narrow(resultData[i]) == Point(piece, resultIndices[i])
  }

  /** Restored shards go to the result; writes behind its end have no effect. */
  method Fill(resultIndices: seq<nat>, resultData: seq<Shard>, bytes: array<byte>, ghost piece: Blob,
      ghost seen: seq<nat>)
    requires |resultIndices| == |resultData| && bytes.Length == PIECE_SIZE
    modifies bytes
    ensures ShardsOf(resultIndices, resultData, piece) && old(Restored(bytes[..], piece, seen)) ==>
        Restored(bytes[..], piece, seen + resultIndices)
  {
    hide Restored, Narrow;
    ghost var good := ShardsOf(resultIndices, resultData, piece) && Restored(bytes[..], piece, seen);
    assert seen + resultIndices[..0] == seen;
    for i := 0 to |resultIndices|
      invariant good ==> Restored(bytes[..], piece, seen + resultIndices[..i])
    {
      var index := resultIndices[i];
      var resultIndex := POINT_LENGTH * index;
      ghost var before := bytes[..];
      ShardBytes(resultData[i]);
      for j := 0 to POINT_LENGTH
        invariant good ==> forall t | 0 <= t < PIECE_SIZE ::
            bytes[t] == if resultIndex <= t < resultIndex + j then piece[t] else before[t]
      {
        if resultIndex + j < bytes.Length {
          bytes[resultIndex + j] := resultData[i][j * HALF_POINT_SIZE];
        }
      }
      if good {
        OneMoreRestored(before, bytes[..], piece, seen + resultIndices[..i], index);
      }
      assert seen + resultIndices[..i] + [index] == seen + resultIndices[..i + 1];
    }
    assert resultIndices[..|resultIndices|] == resultIndices;
  }

  /** Any 342 points of a piece with different indices give the piece back. */
  method DecodePiece(ghost encode: Encoding, decode: Decoding, input: seq<Numbered>, ghost piece: Blob)
      returns (result: Option<Blob>)
    requires |input| == N_CHUNKS_REQUIRED && forall i | 0 <= i < |input| :: |input[i].1| == POINT_LENGTH
    ensures result.Some? ==> |result.value| == PIECE_SIZE
    ensures ReedSolomon(encode, decode) && PointsOf(encode, input, piece) ==> result == Some(piece)
  {
    hide Spread, Narrow, Points, Originals, SelectShards, Cut, Restored;
    ghost var good := ReedSolomon(encode, decode) && PointsOf(encode, input, piece);
    if good {
      OriginalsGiven(encode, input, piece);
    }
    var data := new byte[N_CHUNKS_REQUIRED * POINT_ALIGNMENT](_ => 0);
    var bytes := new byte[PIECE_SIZE](_ => 0);
    var indices := Gather(input, data, bytes, piece);
    var (resultIndices, resultData) := decode(Cut(data[..]), indices);
    if good {
      GivenShards(encode, input, piece, Cut(data[..]));
      DecodedShards(encode, decode, indices, piece);
    }
    if |resultData| != |resultIndices| {
      return None;
    }
    Fill(resultIndices, resultData, bytes, piece, indices);
    if good {
      RestoredAll(bytes[..], piece, indices + resultIndices);
    }
    result := Some(bytes[..]);
  }

  lemma DecodedShards(encode: Encoding, decode: Decoding, indices: seq<nat>, piece: Blob)
    requires ReedSolomon(encode, decode) && |piece| == PIECE_SIZE && AreIndices(indices)
    ensures var (resultIndices, resultData) := decode(SelectShards(encode, Originals(piece), indices), indices);
            ShardsOf(resultIndices, resultData, piece) && forall x | 0 <= x < N_CHUNKS_REQUIRED ::
                x in indices || x in resultIndices
  {
    hide Narrow, Originals, SelectShards;
    var (resultIndices, resultData) := decode(SelectShards(encode, Originals(piece), indices), indices);
    assert Recovers(Originals(piece), indices, (resultIndices, resultData));
    forall i | 0 <= i < |resultIndices|
      ensures Narrow(resultData[i]) == Point(piece, resultIndices[i])
    {
      OriginalAt(piece, resultIndices[i]);
    }
  }

  lemma OriginalsGiven(encode: Encoding, input: seq<Numbered>, piece: Blob)
    requires PointsOf(encode, input, piece)
    ensures OriginalPointsOf(input, piece)
  {
  }

  lemma ShardBytes(shard: Shard)
    ensures Narrow(shard)[0] == shard[0] && Narrow(shard)[1] == shard[HALF_POINT_SIZE]
  {
  }
}

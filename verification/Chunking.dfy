/** Data to 1023 chunks and back: unzip into pieces, code each piece, transpose, join (Gray Paper, Appendix H). */
module Chunking {
  import opened Bytes
  import opened Naturals
  import opened ErasureCoding

  // ----- row and column of a byte -----

  function At(j: nat, k: nat, i: nat): nat {
    j * k + i
  }

  function Row(t: nat, k: nat): nat
    requires k > 0
  {
    t / k
  }

  function Col(t: nat, k: nat): nat
    requires k > 0
  {
    t % k
  }

  function Cells(n: nat, k: nat): nat {
    n * k
  }

  lemma Coordinates(t: nat, n: nat, k: nat)
    requires t < Cells(n, k) && k > 0
    ensures Col(t, k) < k && Row(t, k) < n && At(Row(t, k), k, Col(t, k)) == t
  {
    var q, r := t / k, t % k;
    assert t == q * k + r && 0 <= r < k;
    if q >= n {
      assert q * k >= n * k by { Grows(q, n, k); }
    }
  }

  lemma Grows(a: nat, b: nat, k: nat)
    requires a >= b
    ensures a * k >= b * k
  {
  }

  lemma PositionOf(j: nat, n: nat, k: nat, i: nat)
    requires j < n && i < k
    ensures At(j, k, i) < Cells(n, k) && Row(At(j, k, i), k) == j && Col(At(j, k, i), k) == i
  {
    Grows(n, j + 1, k);
    assert (j + 1) * k == j * k + k;
    Quotient(j, k, i);
  }

  // ----- unzip and lace -----

  function Unzipped(input: Blob, n: nat, k: nat): (r: seq<Blob>)
    requires |input| == Cells(n, k)
    ensures |r| == k && forall i | 0 <= i < k :: |r[i]| == n
  {
    seq(k, i requires 0 <= i < k =>
      seq(n, j requires 0 <= j < n => (PositionOf(j, n, k, i); input[At(j, k, i)])))
  }

  function Laced(input: seq<Blob>, n: nat): (r: Blob)
    requires forall i | 0 <= i < |input| :: |input[i]| == n
    ensures |r| == Cells(n, |input|)
  {
    if |input| == 0 then NoCells(n); []
    else
      seq(Cells(n, |input|), t requires 0 <= t < Cells(n, |input|) =>
        (Coordinates(t, n, |input|); input[Col(t, |input|)][Row(t, |input|)]))
  }

  lemma NoCells(n: nat)
    ensures Cells(n, 0) == 0
  {
  }

  /** `lace` undoes `unzip`. */
  lemma LaceUnzip(input: Blob, n: nat, k: nat)
    requires |input| == Cells(n, k)
    ensures Laced(Unzipped(input, n, k), n) == input
  {
    hide At, Row, Col, Cells;
    if k == 0 {
      NoCells(n);
    } else {
      forall t | 0 <= t < |input|
        ensures Laced(Unzipped(input, n, k), n)[t] == input[t]
      {
        Coordinates(t, n, k);
      }
    }
  }

  /** And the other way round. */
  lemma UnzipLace(pieces: seq<Blob>, n: nat)
    requires forall i | 0 <= i < |pieces| :: |pieces[i]| == n
    ensures Unzipped(Laced(pieces, n), n, |pieces|) == pieces
  {
    hide At, Row, Col, Cells;
    var k := |pieces|;
    forall i | 0 <= i < k
      ensures Unzipped(Laced(pieces, n), n, k)[i] == pieces[i]
    {
      forall j | 0 <= j < n
        ensures Unzipped(Laced(pieces, n), n, k)[i][j] == pieces[i][j]
      {
        PositionOf(j, n, k, i);
      }
    }
  }

  method Unzip(input: Blob, n: nat, k: nat) returns (result: seq<Blob>)
    requires |input| == Cells(n, k)
    ensures result == Unzipped(input, n, k)
  {
    hide At, Cells;
    result := [];
    for i := 0 to k
      invariant result == Unzipped(input, n, k)[..i]
    {
      var entry := new byte[n](_ => 0);
      for j := 0 to n
        invariant forall t | 0 <= t < j :: entry[t] == Unzipped(input, n, k)[i][t]
      {
        PositionOf(j, n, k, i);
        entry[j] := input[At(j, k, i)];
      }
      assert entry[..] == Unzipped(input, n, k)[i];
      result := result + [entry[..]];
    }
  }

  /** Row-wise writing of columns: after it, every byte is where its coordinates say. */
  method Lace(input: seq<Blob>) returns (result: Blob)
    requires forall i, j | 0 <= i < |input| && 0 <= j < |input| :: |input[i]| == |input[j]|
    ensures result == if |input| == 0 then [] else Laced(input, |input[0]|)
  {
    hide At, Cells, Row, Col;
    var k := |input|;
    if k == 0 {
      return [];
    }
    var n := |input[0]|;
    var bytes := new byte[Cells(n, k)](_ => 0);
    for i := 0 to k
      invariant forall t | 0 <= t < Cells(n, k) && Col(t, k) < i :: bytes[t] == Laced(input, n)[t]
    {
      for j := 0 to n
        invariant forall t | 0 <= t < Cells(n, k) && (Col(t, k) < i || (Col(t, k) == i && Row(t, k) < j)) ::
            bytes[t] == Laced(input, n)[t]
      {
        PositionOf(j, n, k, i);
        ghost var before := bytes[..];
        bytes[At(j, k, i)] := input[i][j];
        forall t | 0 <= t < Cells(n, k) && (Col(t, k) < i || (Col(t, k) == i && Row(t, k) < j + 1))
          ensures bytes[t] == Laced(input, n)[t]
        {
          Coordinates(t, n, k);
          if Col(t, k) == i && Row(t, k) == j {
            assert t == At(j, k, i);
          } else {
            assert bytes[t] == before[t];
          }
        }
      }
      forall t | 0 <= t < Cells(n, k) && Col(t, k) < i + 1
        ensures bytes[t] == Laced(input, n)[t]
      {
        Coordinates(t, n, k);
      }
    }
    forall t | 0 <= t < Cells(n, k)
      ensures bytes[t] == Laced(input, n)[t]
    {
      Coordinates(t, n, k);
    }
    result := bytes[..];
  }

  // ----- transpose and join -----

  function Transposed<T>(input: seq<seq<T>>, k: nat): (r: seq<seq<T>>)
    requires forall i | 0 <= i < |input| :: |input[i]| == k
    ensures |r| == k && forall c | 0 <= c < k :: |r[c]| == |input|
  {
    seq(k, c requires 0 <= c < k => seq(|input|, r requires 0 <= r < |input| => input[r][c]))
  }

  /** Transposing twice changes nothing, unless there are no rows to tell the width. */
  lemma TransposeTwice<T>(input: seq<seq<T>>, k: nat)
    requires forall i | 0 <= i < |input| :: |input[i]| == k
    ensures Transposed(Transposed(input, k), |input|) == input
  {
    forall r | 0 <= r < |input|
      ensures Transposed(Transposed(input, k), |input|)[r] == input[r]
    {
      assert forall c | 0 <= c < k :: Transposed(input, k)[c][r] == input[r][c];
    }
  }

  method Transpose<T>(input: seq<seq<T>>, k: nat) returns (columns: seq<seq<T>>)
    requires forall i | 0 <= i < |input| :: |input[i]| == k
    ensures columns == Transposed(input, k)
  {
    var n := |input|;
    columns := [];
    for c := 0 to k
      invariant columns == Transposed(input, k)[..c]
    {
      var newColumn: seq<T> := [];
      for r := 0 to n
        invariant newColumn == Transposed(input, k)[c][..r]
      {
        newColumn := newColumn + [input[r][c]];
      }
      assert newColumn == Transposed(input, k)[c];
      columns := columns + [newColumn];
    }
  }

  function Join(parts: seq<Blob>): Blob {
    if parts == [] then [] else parts[0] + Join(parts[1..])
  }

  lemma {:induction false} JoinedPoint(parts: seq<Blob>, i: nat)
    requires (forall j | 0 <= j < |parts| :: |parts[j]| == POINT_LENGTH)
    ensures |Join(parts)| == POINT_LENGTH * |parts|
    ensures i < |parts| ==> Join(parts)[POINT_LENGTH * i..POINT_LENGTH * i + POINT_LENGTH] == parts[i]
  {
    if parts != [] {
      JoinedPoint(parts[1..], if i == 0 then 0 else i - 1);
      if 0 < i < |parts| {
        assert Join(parts)[POINT_LENGTH * i..POINT_LENGTH * i + POINT_LENGTH]
            == Join(parts[1..])[POINT_LENGTH * (i - 1)..POINT_LENGTH * (i - 1) + POINT_LENGTH];
      }
    }
  }

  // ----- chunks -----

  /** The points of all pieces of the data. */
  ghost function AllPoints(encode: Encoding, input: Blob, k: nat): (r: seq<seq<Blob>>)
    requires |input| == Cells(PIECE_SIZE, k) && Encodes(encode)
    ensures |r| == k && forall i | 0 <= i < k :: |r[i]| == N_CHUNKS_TOTAL
  {
    var pieces := Unzipped(input, PIECE_SIZE, k);
    seq(k, i requires 0 <= i < k => Points(encode, pieces[i]))
  }

  /** Chunk `c` is point `c` of every piece, in order. */
  ghost function Chunks(encode: Encoding, input: Blob, k: nat): (r: seq<Blob>)
    requires |input| == Cells(PIECE_SIZE, k) && Encodes(encode)
    ensures |r| == N_CHUNKS_TOTAL
  {
    var columns := Transposed(AllPoints(encode, input, k), N_CHUNKS_TOTAL);
    seq(N_CHUNKS_TOTAL, c requires 0 <= c < N_CHUNKS_TOTAL => Join(columns[c]))
  }

  method ChunkingFunction(encode: Encoding, input: Blob) returns (chunks: Option<seq<Blob>>)
    requires Encodes(encode)
    ensures chunks.Some? <==> |input| % PIECE_SIZE == 0
    ensures chunks.Some? ==>
        |input| == Cells(PIECE_SIZE, |input| / PIECE_SIZE) &&
        chunks.value == Chunks(encode, input, |input| / PIECE_SIZE)
  {
    hide Points, Unzipped, Join, Encodes;
    var k := |input| / PIECE_SIZE;
    if k * PIECE_SIZE != |input| {
      return None;
    }
    var pieces := Unzip(input, PIECE_SIZE, k);
    var points: seq<seq<Blob>> := [];
    for i := 0 to k
      invariant points == AllPoints(encode, input, k)[..i]
    {
      var p := EncodePoints(encode, pieces[i]);
      points := points + [p];
    }
    assert points == AllPoints(encode, input, k);
    var transposed := Transpose(points, N_CHUNKS_TOTAL);
    var joined: seq<Blob> := [];
    for c := 0 to N_CHUNKS_TOTAL
      invariant joined == Chunks(encode, input, k)[..c]
    {
      joined := joined + [Join(transposed[c])];
    }
    chunks := Some(joined);
  }

  function Padded(input: Blob): (r: Blob)
    ensures |r| % PIECE_SIZE == 0 && input <= r && |r| < |input| + PIECE_SIZE
    ensures forall t | |input| <= t < |r| :: r[t] == 0
  {
    input + seq((|input| + PIECE_SIZE - 1) / PIECE_SIZE * PIECE_SIZE - |input|, t => 0)
  }

  function Pieces(input: Blob): nat {
    |Padded(input)| / PIECE_SIZE
  }

  method PadAndEncodeData(encode: Encoding, input: Blob) returns (chunks: seq<Blob>)
    requires Encodes(encode)
    ensures |Padded(input)| == Cells(PIECE_SIZE, Pieces(input)) &&
        chunks == Chunks(encode, Padded(input), Pieces(input))
  {
    hide Chunks, Encodes;
    var paddedLength := (|input| + PIECE_SIZE - 1) / PIECE_SIZE * PIECE_SIZE;
    var padded := input;
    if |input| != paddedLength {
      padded := input + seq(paddedLength - |input|, t => 0);
    }
    assert padded == Padded(input);
    var result := ChunkingFunction(encode, padded);
    chunks := result.value;
  }

  /** The input is the chunks of the data at its indices. */
  ghost predicate ChunksOf(encode: Encoding, input: seq<Numbered>, data: Blob, k: nat) {
    && |data| == Cells(PIECE_SIZE, k) && Encodes(encode) && AreIndices(Indices(input))
    && forall i | 0 <= i < |input| :: input[i].0 < N_CHUNKS_TOTAL && input[i].1 == Chunks(encode, data, k)[input[i].0]
  }

  lemma ChunkParts(encode: Encoding, input: seq<Numbered>, data: Blob, k: nat, i: nat)
    requires ChunksOf(encode, input, data, k)
    ensures forall x | 0 <= x < |input| :: |input[x].1| == POINT_LENGTH * k
    ensures i < k ==> PointsOf(encode, PointsAt(input, i), Unzipped(data, PIECE_SIZE, k)[i])
  {
    hide Unzipped, Join, AreIndices;
    forall x | 0 <= x < |input|
      ensures |input[x].1| == POINT_LENGTH * k
      ensures i < k ==>
          input[x].1[POINT_LENGTH * i..POINT_LENGTH * i + POINT_LENGTH] ==
          Column(encode, data, k, input[x].0)[i]
    {
      PointsAreShort(encode, data, k, input[x].0);
      JoinedPoint(Column(encode, data, k, input[x].0), i);
    }
    assert Indices(PointsAt(input, i)) == Indices(input);
  }

  ghost function Column(encode: Encoding, data: Blob, k: nat, c: nat): (r: seq<Blob>)
    requires |data| == Cells(PIECE_SIZE, k) && Encodes(encode) && c < N_CHUNKS_TOTAL
    ensures |r| == k
  {
    Transposed(AllPoints(encode, data, k), N_CHUNKS_TOTAL)[c]
  }

  lemma PointsAreShort(encode: Encoding, data: Blob, k: nat, c: nat)
    requires |data| == Cells(PIECE_SIZE, k) && Encodes(encode) && c < N_CHUNKS_TOTAL
    ensures forall i | 0 <= i < k :: |Column(encode, data, k, c)[i]| == POINT_LENGTH
  {
  }

  /** The `i`-th point of every chunk. */
  function PointsAt(input: seq<Numbered>, i: nat): (r: seq<Numbered>)
    ensures |r| == |input|
  {
    seq(|input|, x requires 0 <= x < |input| => (input[x].0,
        Slice(input[x].1, POINT_LENGTH * i, POINT_LENGTH * i + POINT_LENGTH)))
  }

  /** `subarray`. */
  function Slice(bs: Blob, start: nat, end: nat): Blob
    requires start <= end
  {
    if start >= |bs| then [] else if end <= |bs| then bs[start..end] else bs[start..]
  }

  lemma DataSize(encode: Encoding, input: seq<Numbered>, data: Blob, k: nat)
    requires ChunksOf(encode, input, data, k)
    ensures |data| == Cells(PIECE_SIZE, k)
  {
  }

  lemma PointsAtLengths(input: seq<Numbered>, i: nat, points: nat)
    requires i < points && forall x | 0 <= x < |input| :: |input[x].1| == POINT_LENGTH * points
    ensures forall x | 0 <= x < |input| :: |PointsAt(input, i)[x].1| == POINT_LENGTH
  {
  }

  /** `None` where the source's checks fail: odd or unequal chunk lengths. */
  method DecodeData(ghost encode: Encoding, decode: Decoding, input: seq<Numbered>, ghost data: Blob, ghost k: nat)
      returns (r: Option<Blob>)
    requires |input| == N_CHUNKS_REQUIRED
    ensures ReedSolomon(encode, decode) && ChunksOf(encode, input, data, k) ==> r == Some(data)
    ensures |input[0].1| % POINT_LENGTH != 0 || (exists i | 0 <= i < |input| :: |input[i].1| != |input[0].1|) ==>
        r.None?
  {
    hide ReedSolomon, ChunksOf, Unzipped, Laced, Chunks, PointsOf, PointsAt;
    var pointBytes := |input[0].1|;
    var points := pointBytes / POINT_LENGTH;
    ghost var good := ReedSolomon(encode, decode) && ChunksOf(encode, input, data, k);
    if good {
      ChunkParts(encode, input, data, k, 0);
      DataSize(encode, input, data, k);
    }
    if points * POINT_LENGTH != pointBytes || exists i | 0 <= i < |input| :: |input[i].1| != pointBytes {
      return None;
    }
    var pieces: seq<Blob> := [];
    for i := 0 to points
      invariant |pieces| == i && forall x | 0 <= x < i :: |pieces[x]| == PIECE_SIZE
      invariant good ==> pieces == Unzipped(data, PIECE_SIZE, k)[..i]
    {
      var pieceChunks := PointsAt(input, i);
      PointsAtLengths(input, i, points);
      if good {
        ChunkParts(encode, input, data, k, i);
      }
      var piece := DecodePiece(encode, decode, pieceChunks, if good then Unzipped(data, PIECE_SIZE, k)[i] else []);
      if piece.None? {
        return None;
      }
      pieces := pieces + [piece.value];
    }
    var laced := Lace(pieces);
    if good {
      LaceUnzip(data, PIECE_SIZE, k);
      assert pieces == Unzipped(data, PIECE_SIZE, k);
    }
    r := Some(laced);
  }

  /** Any 342 different chunks of any data give back that data, padded, as far as the expected length goes. */
  method DecodeDataAndTrim(ghost encode: Encoding, decode: Decoding, input: seq<Numbered>, expectedLength: nat,
      ghost data: Blob)
    returns (r: Option<Blob>)
    requires |input| == N_CHUNKS_REQUIRED
    ensures ReedSolomon(encode, decode) && ChunksOf(encode, input, Padded(data), Pieces(data)) ==>
              && r == Some(Slice(Padded(data), 0, expectedLength))
              && (expectedLength <= |data| ==> r == Some(data[..expectedLength]))
  {
    hide ReedSolomon, ChunksOf;
    var decoded := DecodeData(encode, decode, input, Padded(data), Pieces(data));
    r := if decoded.None? then None else Some(Slice(decoded.value, 0, expectedLength));
    CutOfPadded(data, expectedLength);
  }

  lemma CutOfPadded(data: Blob, length: nat)
    ensures length <= |data| ==> Slice(Padded(data), 0, length) == data[..length]
  {
    assert data <= Padded(data);
    if length <= |data| {
      assert Padded(data)[0..length] == Padded(data)[..|data|][..length];
      assert Padded(data)[..|data|] == data;
    }
  }

  function Number(chunks: seq<Blob>, indices: seq<nat>): (r: seq<Numbered>)
    requires |chunks| == N_CHUNKS_TOTAL && AreIndices(indices)
  {
    seq(|indices|, i requires 0 <= i < |indices| => (indices[i], chunks[indices[i]]))
  }

  /** Encoding any data and decoding any 342 of its chunks is the identity. */
  method AnyChunksRestore(encode: Encoding, decode: Decoding, data: Blob, indices: seq<nat>) returns (r: Option<Blob>)
    requires ReedSolomon(encode, decode) && AreIndices(indices)
    ensures r == Some(data)
  {
    assert data[..|data|] == data;
    hide Chunks, Encodes, AreIndices, Padded;
    var chunks := PadAndEncodeData(encode, data);
    ghost var input := Number(chunks, indices);
    assert Indices(input) == indices;
    IndicesInRange(indices);
    r := DecodeDataAndTrim(encode, decode, Number(chunks, indices), |data|, data);
  }

  lemma IndicesInRange(indices: seq<nat>)
    requires AreIndices(indices)
    ensures |indices| == N_CHUNKS_REQUIRED && forall i | 0 <= i < |indices| :: indices[i] < N_CHUNKS_TOTAL
  {
  }
}

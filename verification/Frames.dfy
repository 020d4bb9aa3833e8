/** Reassembly of length-prefixed frames from a byte stream that arrives in arbitrary pieces. */
module Frames {
  import opened Bytes

  const MSG_LEN_PREFIX_BYTES: nat := 4
  const MAX_MESSAGE_BYTES: nat := 16 * 1024 * 1024

  type Blob = seq<byte>

  // ----- the stream -----

  /** The frame length a stream starts with. */
  function FrameLength(bs: Blob): nat
    requires |bs| >= MSG_LEN_PREFIX_BYTES
  {
    FromLE(bs[..MSG_LEN_PREFIX_BYTES])
  }

  predicate HasFrame(bs: Blob) {
    |bs| >= MSG_LEN_PREFIX_BYTES && |bs| >= MSG_LEN_PREFIX_BYTES + FrameLength(bs)
  }

  function FirstFrame(bs: Blob): Blob
    requires HasFrame(bs)
  {
    bs[MSG_LEN_PREFIX_BYTES..MSG_LEN_PREFIX_BYTES + FrameLength(bs)]
  }

  function AfterFrame(bs: Blob): (r: Blob)
    requires HasFrame(bs)
    ensures |r| < |bs|
  {
    bs[MSG_LEN_PREFIX_BYTES + FrameLength(bs)..]
  }

  /** All complete frames of a stream. */
  function Delivered(bs: Blob): seq<Blob>
    decreases |bs|
  {
    if HasFrame(bs) then [FirstFrame(bs)] + Delivered(AfterFrame(bs)) else []
  }

  /** What is left behind the last complete frame. */
  function Undelivered(bs: Blob): Blob
    decreases |bs|
  {
    if HasFrame(bs) then Undelivered(AfterFrame(bs)) else bs
  }

  lemma MoreBytes(bs: Blob, more: Blob)
    requires HasFrame(bs)
    ensures HasFrame(bs + more) && FirstFrame(bs + more) == FirstFrame(bs) &&
        AfterFrame(bs + more) == AfterFrame(bs) + more
  {
    hide FromLE;
    assert (bs + more)[..MSG_LEN_PREFIX_BYTES] == bs[..MSG_LEN_PREFIX_BYTES];
  }

  /** More bytes continue where the last complete frame ended. */
  lemma {:induction false} StreamsContinue(bs: Blob, more: Blob)
    ensures Delivered(bs + more) == Delivered(bs) + Delivered(Undelivered(bs) + more)
    ensures Undelivered(bs + more) == Undelivered(Undelivered(bs) + more)
    decreases |bs|
  {
    hide HasFrame, FirstFrame, AfterFrame;
    if HasFrame(bs) {
      MoreBytes(bs, more);
      StreamsContinue(AfterFrame(bs), more);
    }
  }

  lemma {:induction false} NothingMoreToDeliver(bs: Blob)
    ensures !HasFrame(Undelivered(bs)) && Undelivered(Undelivered(bs)) == Undelivered(bs) &&
        Delivered(Undelivered(bs)) == []
    decreases |bs|
  {
    if HasFrame(bs) {
      NothingMoreToDeliver(AfterFrame(bs));
    }
  }

  // ----- sending -----

  /** `encodeMessageLength` in front of the message. */
  function Frame(message: Blob): Blob {
    LE(|message|, MSG_LEN_PREFIX_BYTES) + message
  }

  function Stream(messages: seq<Blob>): Blob {
    if messages == [] then [] else Frame(messages[0]) + Stream(messages[1..])
  }

  lemma FrameHeader(message: Blob, rest: Blob)
    requires |message| < 0x1_0000_0000
    ensures var bs := Frame(message) + rest;
            HasFrame(bs) && FirstFrame(bs) == message && AfterFrame(bs) == rest
  {
    hide LE, FromLE;
    Powers();
    FromLEofLE(|message|, 4);
    var bs := Frame(message) + rest;
    assert bs[..MSG_LEN_PREFIX_BYTES] == LE(|message|, 4);
  }

  /** What was framed is what is delivered, empty messages included. */
  lemma {:induction false} FramesRoundTrip(messages: seq<Blob>, rest: Blob)
    requires forall m | m in messages :: |m| < 0x1_0000_0000
    ensures Delivered(Stream(messages) + rest) == messages + Delivered(rest)
    ensures Undelivered(Stream(messages) + rest) == Undelivered(rest)
  {
    hide HasFrame, FirstFrame, AfterFrame, Frame;
    if messages == [] {
      assert Stream(messages) + rest == rest;
    } else {
      var tail := Stream(messages[1..]) + rest;
      FrameHeader(messages[0], tail);
      FramesRoundTrip(messages[1..], rest);
      assert Stream(messages) + rest == Frame(messages[0]) + tail;
      assert messages + Delivered(rest) == [messages[0]] + (messages[1..] + Delivered(rest));
    }
  }

  // ----- the handler -----

  /** A complete first frame with too many bytes behind its header. */
  predicate Overflows(bs: Blob) {
    HasFrame(bs) && |bs| - MSG_LEN_PREFIX_BYTES > MAX_MESSAGE_BYTES
  }

  class FragmentHandler {
    var buffer: Blob
    var expectedLength: int

    ghost predicate Valid()
      reads this
    {
      -1 <= expectedLength < 0x1_0000_0000 && !HasFrame(Pending())
    }

    /** The bytes received and not delivered, the header already read included. */
    ghost function Pending(): Blob
      requires -1 <= expectedLength
      reads this
    {
      if expectedLength == -1 then buffer else LE(expectedLength, MSG_LEN_PREFIX_BYTES) + buffer
    }

    constructor ()
      ensures Valid() && Pending() == []
    {
      buffer := [];
      expectedLength := -1;
    }

    /**
     One data call: gives the frames the callback gets, in order. On an overflow nothing is delivered and
     nothing is lost; it happens exactly when a first frame is complete and too much has been buffered.
     */
    method Receive(data: Blob) returns (frames: seq<Blob>, overflow: bool)
      requires Valid()
      modifies this
      ensures overflow == Overflows(old(Pending()) + data)
      ensures !overflow ==>
          Valid() && frames == Delivered(old(Pending()) + data) &&
          Pending() == Undelivered(old(Pending()) + data)
      ensures overflow ==> frames == [] && -1 <= expectedLength && Pending() == old(Pending()) + data
    {
      hide LE, FromLE, HasFrame, FirstFrame, AfterFrame, Delivered, Undelivered, Overflows;
      OverflowOf(Pending() + data);
      ghost var total := Pending() + data;
      buffer := buffer + data;
      frames := [];
      overflow := false;
      assert Pending() == total;
      while true
        invariant -1 <= expectedLength < 0x1_0000_0000
        invariant frames + Delivered(Pending()) == Delivered(total) && Undelivered(Pending()) == Undelivered(total)
        invariant frames == [] ==> Pending() == total
        invariant frames != [] ==> |Pending()| < |total| && expectedLength == -1 && HasFrame(total) && !Overflows(total)
        decreases |Pending()|
      {
        ghost var pending := Pending();
        if expectedLength == -1 {
          if |buffer| < MSG_LEN_PREFIX_BYTES {
            NoHeader(buffer);
            break;
          }
          HeaderRead(buffer);
          expectedLength := FromLE(buffer[..MSG_LEN_PREFIX_BYTES]);
          buffer := buffer[MSG_LEN_PREFIX_BYTES..];
        }
        FrameOf(expectedLength, buffer);
        assert Pending() == pending;
        if |buffer| < expectedLength {
          NoFrame(pending);
          break;
        }
        if |buffer| > MAX_MESSAGE_BYTES {
          overflow := true;
          break;
        }
        var chunk := buffer[..expectedLength];
        buffer := buffer[expectedLength..];
        expectedLength := -1;
        OneFrame(pending);
        assert frames + ([chunk] + Delivered(buffer)) == frames + [chunk] + Delivered(buffer);
        frames := frames + [chunk];
        if |buffer| == 0 {
          NoHeader(buffer);
          break;
        }
      }
    }
  }

  lemma OverflowOf(bs: Blob)
    ensures Overflows(bs) <==> HasFrame(bs) && |bs| > MSG_LEN_PREFIX_BYTES + MAX_MESSAGE_BYTES
  {
  }

  lemma NoFrame(bs: Blob)
    requires !HasFrame(bs)
    ensures Delivered(bs) == [] && Undelivered(bs) == bs
  {
  }

  lemma NoHeader(bs: Blob)
    requires |bs| < MSG_LEN_PREFIX_BYTES
    ensures !HasFrame(bs) && Delivered(bs) == [] && Undelivered(bs) == bs
  {
  }

  lemma OneFrame(bs: Blob)
    requires HasFrame(bs)
    ensures Delivered(bs) == [FirstFrame(bs)] + Delivered(AfterFrame(bs)) &&
        Undelivered(bs) == Undelivered(AfterFrame(bs))
  {
  }

  lemma HeaderRead(buffer: Blob)
    requires |buffer| >= MSG_LEN_PREFIX_BYTES
    ensures FromLE(buffer[..MSG_LEN_PREFIX_BYTES]) < 0x1_0000_0000
    ensures LE(FromLE(buffer[..MSG_LEN_PREFIX_BYTES]), MSG_LEN_PREFIX_BYTES) + buffer[MSG_LEN_PREFIX_BYTES..] == buffer
  {
    hide FromLE, LE, Pow2;
    Powers();
    FromLEBound(buffer[..MSG_LEN_PREFIX_BYTES]);
    LEofFromLE(buffer[..MSG_LEN_PREFIX_BYTES]);
  }

  lemma FrameOf(expectedLength: nat, buffer: Blob)
    requires expectedLength < 0x1_0000_0000
    ensures var bs := LE(expectedLength, MSG_LEN_PREFIX_BYTES) + buffer;
            && |bs| == MSG_LEN_PREFIX_BYTES + |buffer|
            && (HasFrame(bs) <==> |buffer| >= expectedLength)
            && (|buffer| >= expectedLength ==>
                FirstFrame(bs) == buffer[..expectedLength] &&
                AfterFrame(bs) == buffer[expectedLength..])
  {
    hide FromLE, LE, Pow2;
    Powers();
    FromLEofLE(expectedLength, MSG_LEN_PREFIX_BYTES);
    var bs := LE(expectedLength, MSG_LEN_PREFIX_BYTES) + buffer;
    assert bs[..MSG_LEN_PREFIX_BYTES] == LE(expectedLength, MSG_LEN_PREFIX_BYTES);
  }

  // ----- whole runs -----

  function Concat(pieces: seq<Blob>): Blob {
    if pieces == [] then [] else Concat(pieces[..|pieces| - 1]) + pieces[|pieces| - 1]
  }

  lemma ConcatStep(pieces: seq<Blob>, i: nat)
    ensures Concat(pieces[..0]) == []
    ensures i < |pieces| ==> Concat(pieces[..i + 1]) == Concat(pieces[..i]) + pieces[i]
  {
    if i < |pieces| {
      assert pieces[..i + 1][..i] == pieces[..i];
    }
  }

  /** The call overflows that gets piece `i`. */
  ghost predicate OverflowsAt(pieces: seq<Blob>, i: nat) {
    i < |pieces| && Overflows(Undelivered(Concat(pieces[..i])) + pieces[i])
  }

  /**
   However the stream is cut into data calls, the frames of the whole stream are delivered, unless some call overflows.
   Then the frames of the pieces before the first such call are.
   */
  method Run(pieces: seq<Blob>) returns (frames: seq<Blob>, ok: bool)
    ensures ok <==> forall i: nat :: !OverflowsAt(pieces, i)
    ensures ok ==> frames == Delivered(Concat(pieces))
    ensures !ok ==> exists i: nat ::
              OverflowsAt(pieces, i) && (forall j: nat | j < i :: !OverflowsAt(pieces, j)) &&
              frames == Delivered(Concat(pieces[..i]))
  {
    hide HasFrame, Delivered, Undelivered, Overflows, Concat;
    var handler := new FragmentHandler();
    frames := [];
    NoHeader([]);
    ConcatStep(pieces, 0);
    for i := 0 to |pieces|
      invariant fresh(handler) && handler.Valid()
      invariant frames == Delivered(Concat(pieces[..i])) && handler.Pending() == Undelivered(Concat(pieces[..i]))
      invariant forall j | 0 <= j < i :: !OverflowsAt(pieces, j)
    {
      var more, overflow := handler.Receive(pieces[i]);
      assert overflow == OverflowsAt(pieces, i);
      if overflow {
        return frames, false;
      }
      StreamsContinue(Concat(pieces[..i]), pieces[i]);
      ConcatStep(pieces, i);
      frames := frames + more;
    }
    assert pieces[..|pieces|] == pieces;
    ok := true;
  }

  /** Messages that were framed and sent arrive as they were, in whatever pieces the bytes arrive. */
  lemma SentIsDelivered(messages: seq<Blob>, pieces: seq<Blob>)
    requires (forall m | m in messages :: |m| < 0x1_0000_0000) && Concat(pieces) == Stream(messages)
    ensures Delivered(Concat(pieces)) == messages && Undelivered(Concat(pieces)) == []
  {
    hide HasFrame, Delivered, Undelivered, Stream;
    FramesRoundTrip(messages, []);
    NoHeader([]);
    assert Stream(messages) + [] == Stream(messages) && messages + [] == messages;
  }
}

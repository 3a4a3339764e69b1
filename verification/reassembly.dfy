/**
 * The receiving side: every data event appends the chunk to the socket's
 * buffer and then handles at most one frame at the front of the buffer.
 * This module models the evident intent of the receiver (a matching magic
 * header leads to decoding, and decoding waits until the whole frame has
 * arrived); module AsWritten models the receiver exactly as it is written.
 */
module Reassembly {
  import opened Bytes
  import opened Outcome
  import opened Framing
  import Crc32

  /** The buffer left for the next data event, and the message emitted, if any. */
  datatype StepResult = StepResult(buffer: seq<byte>, message: Option<seq<byte>>)

  /** The buffer before the first data event. */
  const Initial: seq<byte> := []

  /**
   * One data event: buffer is what earlier events left, chunk the bytes just
   * received. The result buffer is always a suffix of buffer + chunk; a
   * message is emitted only when it is the payload of a complete frame at the
   * front of buffer + chunk whose stored checksum matches.
   */
  function Step(buffer: seq<byte>, chunk: seq<byte>): (r: StepResult)
    ensures var acc := buffer + chunk;
      |r.buffer| <= |acc| && r.buffer == acc[|acc| - |r.buffer|..]
    ensures r.message.Some? ==>
      var acc, m := buffer + chunk, r.message.value;
      && |acc| == HeaderLength + |m| + |r.buffer|
      && acc[..MagicLength] == Magic
      && ReadLE(acc[LengthOffset..ChecksumOffset]) == |m|
      && ReadLE(acc[ChecksumOffset..HeaderLength]) == Crc32.Checksum(m)
      && acc[HeaderLength..HeaderLength + |m|] == m
  {
    var acc := buffer + chunk;
    if |acc| < HeaderLength then StepResult(acc, None)
    else match ParseHeader(acc)
      case None => StepResult([], None)
      case Some(h) =>
        if |acc| < HeaderLength + h.length then StepResult(acc, None)
        else
          var payload := acc[HeaderLength..HeaderLength + h.length];
          var rest := acc[HeaderLength + h.length..];
          if Crc32.Checksum(payload) == h.checksum then StepResult(rest, Some(payload))
          else StepResult(rest, None)
  }

  /** Less than a header: nothing is emitted and every byte is kept. */
  lemma ShortBufferWaits(buffer: seq<byte>, chunk: seq<byte>)
    requires |buffer + chunk| < HeaderLength
    ensures Step(buffer, chunk) == StepResult(buffer + chunk, None)
  {
  }

  /** A full header without the magic: nothing is emitted and the buffer is emptied. */
  lemma BadHeaderClears(buffer: seq<byte>, chunk: seq<byte>)
    requires |buffer + chunk| >= HeaderLength
    requires (buffer + chunk)[..MagicLength] != Magic
    ensures Step(buffer, chunk) == StepResult([], None)
  {
  }

  /** A valid header whose payload has not fully arrived: nothing is emitted and every byte is kept. */
  lemma IncompleteFrameWaits(buffer: seq<byte>, chunk: seq<byte>)
    requires |buffer + chunk| >= HeaderLength
    requires (buffer + chunk)[..MagicLength] == Magic
    requires |buffer + chunk| < HeaderLength + ReadLE((buffer + chunk)[LengthOffset..ChecksumOffset])
    ensures Step(buffer, chunk) == StepResult(buffer + chunk, None)
  {
  }

  /**
   * A complete frame: exactly its header and payload are consumed, whether or
   * not the checksum matches, and the payload is emitted if and only if it does.
   */
  lemma CompleteFrameConsumed(buffer: seq<byte>, chunk: seq<byte>, len: nat)
    requires |buffer + chunk| >= HeaderLength
    requires (buffer + chunk)[..MagicLength] == Magic
    requires len == ReadLE((buffer + chunk)[LengthOffset..ChecksumOffset])
    requires |buffer + chunk| >= HeaderLength + len
    ensures Step(buffer, chunk).buffer == (buffer + chunk)[HeaderLength + len..]
    ensures var payload := (buffer + chunk)[HeaderLength..HeaderLength + len];
      Step(buffer, chunk).message ==
        if Crc32.Checksum(payload) == ReadLE((buffer + chunk)[ChecksumOffset..HeaderLength])
        then Some(payload) else None
  {
  }

  /** A stored checksum beyond 32 bits can never match, so such a frame is never emitted. */
  lemma WideChecksumNeverMatches(buffer: seq<byte>, chunk: seq<byte>)
    requires |buffer + chunk| >= HeaderLength
    requires ReadLE((buffer + chunk)[ChecksumOffset..HeaderLength]) >= 0x1_0000_0000
    ensures Step(buffer, chunk).message == None
  {
  }

  /**
   * A frame followed by anything: the frame's payload is emitted and exactly
   * the bytes after the frame stay buffered, however many frames they hold.
   */
  lemma OneFramePerStep(p: seq<byte>, rest: seq<byte>)
    requires |p| < FieldLimit
    ensures Step(Initial, Frame(p) + rest) == StepResult(rest, Some(p))
  {
    ParseFrame(p, rest);
    FrameLayout(p);
    var acc := Initial + (Frame(p) + rest);
    assert acc == Frame(p) + rest;
    assert acc[HeaderLength..HeaderLength + |p|] == Frame(p)[HeaderLength..] == p;
    assert acc[HeaderLength + |p|..] == rest;
  }

  /** Round trip: receiving the frame of p on an empty buffer emits p and leaves the buffer empty. */
  lemma RoundTrip(p: seq<byte>)
    requires |p| < FieldLimit
    ensures Step(Initial, Frame(p)) == StepResult(Initial, Some(p))
  {
    OneFramePerStep(p, []);
    assert Frame(p) + [] == Frame(p);
  }

  /**
   * Two frames arriving in one chunk: the first is emitted at once, the second
   * only at the next data event, even one that brings no bytes.
   */
  lemma BackToBackFrames(p: seq<byte>, q: seq<byte>)
    requires |p| < FieldLimit && |q| < FieldLimit
    ensures Step(Initial, Frame(p) + Frame(q)) == StepResult(Frame(q), Some(p))
    ensures Step(Frame(q), []) == StepResult(Initial, Some(q))
  {
    OneFramePerStep(p, Frame(q));
    OneFramePerStep(q, []);
    assert Initial + (Frame(q) + []) == Frame(q) + [];
  }

  /** A proper prefix of a frame: nothing is emitted and every byte is kept. */
  lemma FramePrefixWaits(p: seq<byte>, buffer: seq<byte>, chunk: seq<byte>)
    requires |p| < FieldLimit
    requires |buffer + chunk| < |Frame(p)| && buffer + chunk == Frame(p)[..|buffer + chunk|]
    ensures Step(buffer, chunk) == StepResult(buffer + chunk, None)
  {
    var acc := buffer + chunk;
    if |acc| >= HeaderLength {
      FrameLayout(p);
      assert acc[..MagicLength] == Frame(p)[..MagicLength];
      assert acc[LengthOffset..ChecksumOffset] == Frame(p)[LengthOffset..ChecksumOffset];
      IncompleteFrameWaits(buffer, chunk);
    }
  }

  /** What a sequence of data events leaves in the buffer and emits, in order. */
  datatype FeedResult = FeedResult(buffer: seq<byte>, messages: seq<seq<byte>>)

  /** The data events chunks, one after another, starting from buffer. */
  function Feed(buffer: seq<byte>, chunks: seq<seq<byte>>): (r: FeedResult)
    ensures |r.messages| <= |chunks|
    decreases |chunks|
  {
    if |chunks| == 0 then FeedResult(buffer, [])
    else
      var s := Step(buffer, chunks[0]);
      var later := Feed(s.buffer, chunks[1..]);
      var emitted := if s.message.Some? then [s.message.value] else [];
      FeedResult(later.buffer, emitted + later.messages)
  }

  /** All bytes of a sequence of chunks, in order. */
  function Concat(chunks: seq<seq<byte>>): (r: seq<byte>)
    decreases |chunks|
  {
    if |chunks| == 0 then [] else chunks[0] + Concat(chunks[1..])
  }

  /** Data events that bring no bytes change nothing on an empty buffer. */
  lemma {:induction false} FeedNothing(chunks: seq<seq<byte>>)
    requires Concat(chunks) == []
    ensures Feed(Initial, chunks) == FeedResult(Initial, [])
    decreases |chunks|
  {
    if |chunks| > 0 {
      assert chunks[0] == [] && Concat(chunks[1..]) == [];
      assert Step(Initial, chunks[0]) == StepResult(Initial, None);
      FeedNothing(chunks[1..]);
    }
  }

  lemma {:induction false} FeedRestOfFrame(p: seq<byte>, buffer: seq<byte>, chunks: seq<seq<byte>>)
    requires |p| < FieldLimit
    requires |buffer| < |Frame(p)| && buffer + Concat(chunks) == Frame(p)
    ensures Feed(buffer, chunks) == FeedResult(Initial, [p])
    decreases |chunks|
  {
    if |chunks| == 0 {
      assert false;
    } else {
      var acc := buffer + chunks[0];
      assert Frame(p) == acc + Concat(chunks[1..]);
      if |acc| < |Frame(p)| {
        assert acc == Frame(p)[..|acc|];
        FramePrefixWaits(p, buffer, chunks[0]);
        FeedRestOfFrame(p, acc, chunks[1..]);
      } else {
        assert acc == Frame(p) && Concat(chunks[1..]) == [];
        OneFramePerStep(p, []);
        assert Frame(p) + [] == acc && Initial + acc == acc;
        FeedNothing(chunks[1..]);
      }
    }
  }

  /**
   * However the network splits a frame into chunks, feeding them to a fresh
   * receiver emits the payload exactly once and leaves the buffer empty.
   */
  lemma SplitDelivery(p: seq<byte>, chunks: seq<seq<byte>>)
    requires |p| < FieldLimit
    requires Concat(chunks) == Frame(p)
    ensures Feed(Initial, chunks) == FeedResult(Initial, [p])
  {
    assert Initial + Concat(chunks) == Frame(p);
    FeedRestOfFrame(p, Initial, chunks);
  }
}

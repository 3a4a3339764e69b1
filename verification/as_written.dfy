/**
 * The receiver exactly as written. Two slips separate it from module
 * Reassembly:
 *  - the header test uses the result of a buffer comparison as a condition,
 *    and a comparison yields 0, which is false, when the magic matches; so a
 *    matching magic empties the buffer and a foreign header is decoded;
 *  - the length guard is an arrow function `currentLength => messageLen`,
 *    which is always true, so decoding never waits for the rest of a frame:
 *    the missing payload bytes are read as zeros (a fresh Buffer is
 *    zero-filled) and slicing past the end leaves an empty buffer.
 */
module AsWritten {
  import opened Bytes
  import opened Outcome
  import opened Framing
  import Crc32
  import Reassembly

  /** n zero bytes. */
  function Zeros(n: nat): (r: seq<byte>)
    ensures |r| == n && forall i :: 0 <= i < n ==> r[i] == 0
  {
    seq(n, _ => 0)
  }

  /** One data event of the receiver as written. */
  function Step(buffer: seq<byte>, chunk: seq<byte>): (r: Reassembly.StepResult)
    ensures var acc := buffer + chunk;
      |r.buffer| <= |acc| && r.buffer == acc[|acc| - |r.buffer|..]
    ensures r.message.Some? ==> |buffer + chunk| >= HeaderLength && (buffer + chunk)[..MagicLength] != Magic
  {
    var acc := buffer + chunk;
    if |acc| < HeaderLength then Reassembly.StepResult(acc, None)
    else if acc[..MagicLength] == Magic then Reassembly.StepResult([], None)
    else
      var len := ReadLE(acc[LengthOffset..ChecksumOffset]);
      var stored := ReadLE(acc[ChecksumOffset..HeaderLength]);
      var end := if HeaderLength + len <= |acc| then HeaderLength + len else |acc|;
      var copied := acc[HeaderLength..end];
      var payload := copied + Zeros(len - |copied|);
      var rest := acc[end..];
      if Crc32.Checksum(payload) == stored then Reassembly.StepResult(rest, Some(payload))
      else Reassembly.StepResult(rest, None)
  }

  /**
   * Every well-formed frame, whatever follows it, is thrown away together
   * with everything after it, and nothing is emitted.
   */
  lemma DiscardsEveryFrame(p: seq<byte>, rest: seq<byte>)
    requires |p| < FieldLimit
    ensures Step(Reassembly.Initial, Frame(p) + rest) == Reassembly.StepResult([], None)
  {
    FrameLayout(p);
    var acc := Reassembly.Initial + (Frame(p) + rest);
    assert acc[..MagicLength] == Frame(p)[..MagicLength];
  }

  /** The 22-byte header, without the magic, of a frame that announces five payload bytes. */
  function TruncatedHeader(): (h: seq<byte>)
    ensures |h| == HeaderLength
    ensures h[..MagicLength] != Magic
    ensures ReadLE(h[LengthOffset..ChecksumOffset]) == 5
    ensures ReadLE(h[ChecksumOffset..HeaderLength]) == 0
  {
    FieldLimitIsFieldRange();
    ReadWrite(5, FieldWidth);
    var front := Zeros(MagicLength) + WriteLE(5, FieldWidth);
    var h := front + Zeros(FieldWidth);
    assert h[1] != Magic[1];
    assert h[LengthOffset..ChecksumOffset] == front[LengthOffset..] == WriteLE(5, FieldWidth);
    assert |front| == ChecksumOffset && |h| == HeaderLength;
    assert h[|front|..] == Zeros(FieldWidth);
    assert h[ChecksumOffset..HeaderLength] == h[|front|..];
    ZeroFieldValue(FieldWidth);
    h
  }

  /**
   * A header without the magic (the only kind that reaches the length guard
   * as written) announcing five payload bytes, with none of them received
   * yet, is consumed at once: the buffer is emptied, five zero bytes that
   * never arrived are checksummed as the payload, and since their CRC-32 is
   * not the stored zero nothing is emitted.
   */
  lemma ConsumesIncompleteFrame()
    ensures Step(TruncatedHeader(), []) == Reassembly.StepResult([], None)
  {
    var h := TruncatedHeader();
    assert h + [] == h;
    assert h[HeaderLength..HeaderLength] == [];
    assert [] + Zeros(5) == [0, 0, 0, 0, 0];
    Crc32.FiveZeros();
  }

  /** Twenty-two zero bytes, which carry no magic, are decoded and emitted as an empty message. */
  lemma DecodesForeignHeader()
    ensures Step(Zeros(HeaderLength), []) == Reassembly.StepResult([], Some([]))
  {
    var z := Zeros(HeaderLength);
    assert z + [] == z;
    assert z[1] != Magic[1];
    assert z[LengthOffset..ChecksumOffset] == Zeros(FieldWidth);
    assert z[ChecksumOffset..HeaderLength] == Zeros(FieldWidth);
    ZeroFieldValue(FieldWidth);
    Crc32.EmptyChecksum();
  }

  lemma {:induction false} ZeroFieldValue(n: nat)
    ensures ReadLE(Zeros(n)) == 0
  {
    if n > 0 {
      assert Zeros(n)[1..] == Zeros(n - 1);
      ZeroFieldValue(n - 1);
    }
  }
}

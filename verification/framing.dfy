/**
 * The frame format of the socket wrapper: a fixed ten-byte magic header (the
 * first Fibonacci numbers), the payload length and the payload's CRC-32, each
 * as a six-byte little-endian field, then the payload itself.
 */
module Framing {
  import opened Bytes
  import opened Outcome
  import Crc32

  /** The magic header that opens every frame. */
  const Magic: seq<byte> := [0, 1, 1, 2, 3, 5, 8, 13, 21, 34]
  const MagicLength: nat := 10
  /** Width of the length field and of the checksum field. */
  const FieldWidth: nat := 6
  const SizeAndCrcLength: nat := 12
  const HeaderLength: nat := MagicLength + SizeAndCrcLength
  const LengthOffset: nat := MagicLength
  const ChecksumOffset: nat := MagicLength + FieldWidth
  /** The smallest value a six-byte field cannot hold: 2^48. */
  const FieldLimit: nat := 0x1_0000_0000_0000

  datatype EncodeError = PayloadTooLarge

  /** A decoded length-and-checksum header. */
  datatype Header = Header(length: nat, checksum: nat)

  lemma FieldLimitIsFieldRange()
    ensures Pow256(FieldWidth) == FieldLimit
    ensures SizeAndCrcLength == 2 * FieldWidth && |Magic| == MagicLength
  {
    assert Pow256(2) == 0x1_0000;
    assert Pow256(4) == 0x1_0000_0000;
  }

  /** The frame carrying payload p. */
  function Frame(p: seq<byte>): (r: seq<byte>)
    requires |p| < FieldLimit
    ensures |r| == HeaderLength + |p|
  {
    FieldLimitIsFieldRange();
    Magic + WriteLE(|p|, FieldWidth) + WriteLE(Crc32.Checksum(p), FieldWidth) + p
  }

  /**
   * Frame construction as the sender performs it; writing the length into its
   * six-byte field fails when the payload is too long for it.
   */
  function Encode(p: seq<byte>): (r: Result<seq<byte>, EncodeError>)
    ensures r.Failure? <==> |p| >= FieldLimit
    ensures r.Failure? ==> r.error == PayloadTooLarge
    ensures r.Success? ==> |r.value| == HeaderLength + |p| && r.value[HeaderLength..] == p
    ensures r.Success? ==> r.value == Frame(p)
  {
    if |p| < FieldLimit then Success(Frame(p)) else Failure(PayloadTooLarge)
  }

  /**
   * Reads the header at the front of a buffer holding at least a header:
   * nothing when the magic does not match, else the two fields.
   */
  function ParseHeader(acc: seq<byte>): (r: Option<Header>)
    requires |acc| >= HeaderLength
    ensures r.Some? <==> acc[..MagicLength] == Magic
    ensures r.Some? ==> r.value.length < FieldLimit && r.value.checksum < FieldLimit
    ensures r.Some? ==> WriteLE(r.value.length, FieldWidth) == acc[LengthOffset..ChecksumOffset]
    ensures r.Some? ==> WriteLE(r.value.checksum, FieldWidth) == acc[ChecksumOffset..HeaderLength]
  {
    FieldLimitIsFieldRange();
    WriteRead(acc[LengthOffset..ChecksumOffset]);
    WriteRead(acc[ChecksumOffset..HeaderLength]);
    if acc[..MagicLength] != Magic then None
    else Some(Header(ReadLE(acc[LengthOffset..ChecksumOffset]), ReadLE(acc[ChecksumOffset..HeaderLength])))
  }

  /**
   * The byte layout of a frame: the magic, the payload length, the payload's
   * checksum with its two high bytes zero, and the payload.
   */
  lemma FrameLayout(p: seq<byte>)
    requires |p| < FieldLimit
    ensures Frame(p)[..MagicLength] == Magic
    ensures ReadLE(Frame(p)[LengthOffset..ChecksumOffset]) == |p|
    ensures ReadLE(Frame(p)[ChecksumOffset..HeaderLength]) == Crc32.Checksum(p)
    ensures Frame(p)[HeaderLength - 2] == 0 && Frame(p)[HeaderLength - 1] == 0
    ensures Frame(p)[HeaderLength..] == p
  {
    FieldLimitIsFieldRange();
    var f := Frame(p);
    var len := WriteLE(|p|, FieldWidth);
    var sum := WriteLE(Crc32.Checksum(p), FieldWidth);
    assert f == Magic + len + sum + p;
    assert f[LengthOffset..ChecksumOffset] == len;
    assert f[ChecksumOffset..HeaderLength] == sum;
    ReadWrite(|p|, FieldWidth);
    ReadWrite(Crc32.Checksum(p), FieldWidth);
    assert Pow256(4) == 0x1_0000_0000;
    HighBytesZero(Crc32.Checksum(p), FieldWidth, 4);
    assert f[HeaderLength - 2] == sum[4] && f[HeaderLength - 1] == sum[5];
  }

  /** The header at the front of a frame, whatever follows it, reads back as written. */
  lemma ParseFrame(p: seq<byte>, rest: seq<byte>)
    requires |p| < FieldLimit
    ensures |Frame(p) + rest| >= HeaderLength
    ensures ParseHeader(Frame(p) + rest) == Some(Header(|p|, Crc32.Checksum(p)))
  {
    FrameLayout(p);
    var f := Frame(p);
    var acc := f + rest;
    assert acc[..HeaderLength] == f[..HeaderLength];
    assert acc[..MagicLength] == f[..MagicLength];
    assert acc[LengthOffset..ChecksumOffset] == f[LengthOffset..ChecksumOffset];
    assert acc[ChecksumOffset..HeaderLength] == f[ChecksumOffset..HeaderLength];
  }

  /**
   * A stream that starts with a frame determines that frame: no frame is a
   * proper prefix of another, so the receiver cannot mistake where one ends.
   */
  lemma FrameUnique(p: seq<byte>, q: seq<byte>, r1: seq<byte>, r2: seq<byte>)
    requires |p| < FieldLimit && |q| < FieldLimit
    requires Frame(p) + r1 == Frame(q) + r2
    ensures p == q && r1 == r2
  {
    ParseFrame(p, r1);
    ParseFrame(q, r2);
    FrameLayout(p);
    FrameLayout(q);
    var s := Frame(p) + r1;
    assert |p| == |q|;
    assert p == s[HeaderLength..HeaderLength + |p|];
    assert q == s[HeaderLength..HeaderLength + |q|];
    assert r1 == s[HeaderLength + |p|..];
  }
}

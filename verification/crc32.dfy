/**
 * The reflected CRC-32 of IEEE 802.3 (section 3.2.9), generator polynomial
 * 0xEDB88320 in bit-reversed form, computed with a 256-entry lookup table.
 * JavaScript keeps the running value as a signed 32-bit integer; the model
 * keeps its bit pattern as a bv32, on which `>>>`, `^` and `&` agree.
 */
module Crc32 {
  import opened Bytes

  /** A byte as the register sees it: eight bits. */
  type octet = bv8

  const Polynomial: bv32 := 0xEDB8_8320
  const BitsPerByte: nat := 8
  const TableSize: nat := 256

  /** The register value before the first byte: `0 ^ -1`, all ones. */
  const InitialValue: bv32 := 0xFFFF_FFFF

  /** One shift of the register, feeding the polynomial back when a 1 drops out. */
  function Round(c: bv32): bv32
  {
    if c & 1 == 1 then Polynomial ^ (c >> 1) else c >> 1
  }

  /** k successive shifts of the register. */
  function Rounds(c: bv32, k: nat): bv32
  {
    if k == 0 then c else Round(Rounds(c, k - 1))
  }

  /** The table entry for byte n: n shifted through one byte's worth of rounds. */
  function TableEntry(n: octet): bv32
  {
    Rounds(n as bv32, BitsPerByte)
  }

  /** The lookup table, as an immutable value. */
  function Table(): (t: seq<bv32>)
    ensures |t| == TableSize
  {
    seq(TableSize, n requires 0 <= n < TableSize => TableEntry(n as octet))
  }

  /** The table index of a byte: the low byte of the register xor-ed with it. */
  function Index(crc: bv32, b: octet): (i: nat)
    ensures i < TableSize
  {
    (((crc ^ b as bv32) & 0xFF) as octet) as nat
  }

  /** Feeds one byte into the register through the table. */
  function Step(crc: bv32, b: octet): bv32
  {
    (crc >> 8) ^ Table()[Index(crc, b)]
  }

  /** Feeds the bytes of s, first to last, into the register. */
  function Update(crc: bv32, s: seq<octet>): bv32
    decreases |s|
  {
    if |s| == 0 then crc else Update(Step(crc, s[0]), s[1..])
  }

  /** The bytes of a buffer as the register sees them. */
  function Octets(p: seq<byte>): (r: seq<octet>)
    ensures |r| == |p|
  {
    seq(|p|, i requires 0 <= i < |p| => p[i] as octet)
  }

  /** The CRC-32 of s, as the bit pattern of an unsigned 32-bit value. */
  function Crc(s: seq<octet>): bv32
  {
    Update(InitialValue, s) ^ 0xFFFF_FFFF
  }

  /** The number `crc32` returns for a buffer: `(crc ^ -1) >>> 0`, an unsigned 32-bit value. */
  function Checksum(p: seq<byte>): (r: nat)
    ensures r < 0x1_0000_0000
  {
    Crc(Octets(p)) as nat
  }

  /**
   * Builds the lookup table with the two nested loops of makeCRCTable: for every
   * byte value n, eight conditional shift-and-xor rounds.
   */
  method MakeCrcTable() returns (t: seq<bv32>)
    ensures |t| == TableSize
    ensures forall n :: 0 <= n < TableSize ==> t[n] == Rounds((n as octet) as bv32, BitsPerByte)
    ensures t == Table()
  {
    t := [];
    var n := 0;
    while n < TableSize
      invariant 0 <= n <= TableSize && |t| == n
      invariant forall m :: 0 <= m < n ==> t[m] == TableEntry(m as octet)
    {
      var c: bv32 := (n as octet) as bv32;
      var k := 0;
      while k < BitsPerByte
        invariant 0 <= k <= BitsPerByte
        invariant c == Rounds((n as octet) as bv32, k)
      {
        c := if c & 1 == 1 then Polynomial ^ (c >> 1) else c >> 1;
        k := k + 1;
      }
      t := t + [c];
      n := n + 1;
    }
  }

  /** The loop of crc32 over the buffer, with the table built first. */
  method ComputeCrc32(buf: seq<byte>) returns (r: nat)
    ensures r == Checksum(buf)
  {
    var table := MakeCrcTable();
    var octets := Octets(buf);
    var crc := InitialValue;
    var i := 0;
    while i < |octets|
      invariant 0 <= i <= |octets|
      invariant Update(crc, octets[i..]) == Update(InitialValue, octets)
    {
      var next := (crc >> 8) ^ table[Index(crc, octets[i])];
      UpdateFirst(crc, octets[i..], next);
      assert octets[i..][1..] == octets[i + 1..];
      crc := next;
      i := i + 1;
    }
    assert octets[i..] == [];
    r := Finalize(buf, crc);
  }

  /**
   * The final `(crc ^ -1) >>> 0` of crc32. It takes buf only to state that
   * the register it finishes is the buffer's; it exists as a separate function
   * because the closing step of ComputeCrc32 is too costly for the solver
   * when written inline.
   */
  function Finalize(buf: seq<byte>, crc: bv32): (r: nat)
    requires crc == Update(InitialValue, Octets(buf))
    ensures r == Checksum(buf)
  {
    (crc ^ 0xFFFF_FFFF) as nat
  }

  lemma UpdateFirst(crc: bv32, s: seq<octet>, next: bv32)
    requires |s| > 0 && next == Step(crc, s[0])
    ensures Update(crc, s) == Update(next, s[1..])
  {
  }

  /** The register after a + b is the register after a, fed with b. */
  lemma {:induction false} UpdateAppend(crc: bv32, a: seq<octet>, b: seq<octet>)
    decreases |a|
    ensures Update(crc, a + b) == Update(Update(crc, a), b)
  {
    if |a| > 0 {
      assert (a + b)[0] == a[0];
      assert (a + b)[1..] == a[1..] + b;
      UpdateAppend(Step(crc, a[0]), a[1..], b);
    } else {
      assert a + b == b;
    }
  }

  /** The checksum of the empty buffer is zero. */
  lemma EmptyChecksum()
    ensures Checksum([]) == 0
  {
  }

  lemma EightRounds(c: bv32)
    ensures Rounds(c, BitsPerByte) == Round(Round(Round(Round(Round(Round(Round(Round(c))))))))
  {
    assert Rounds(c, 1) == Round(c);
    assert Rounds(c, 2) == Round(Round(c));
    assert Rounds(c, 3) == Round(Round(Round(c)));
    assert Rounds(c, 4) == Round(Round(Round(Round(c))));
    assert Rounds(c, 5) == Round(Round(Round(Round(Round(c)))));
    assert Rounds(c, 6) == Round(Round(Round(Round(Round(Round(c))))));
    assert Rounds(c, 7) == Round(Round(Round(Round(Round(Round(Round(c)))))));
  }

  lemma IndexOf(crc: bv32, b: octet, i: octet)
    requires (crc ^ b as bv32) & 0xFF == i as bv32
    ensures Index(crc, b) == i as nat
  {
    assert ((crc ^ b as bv32) & 0xFF) as octet == i;
  }

  lemma TableAt(i: octet)
    ensures Table()[i as nat] == TableEntry(i)
  {
    assert (i as int) as octet == i;
  }

  /** One table step on concrete values, with the table entry computed bitwise. */
  lemma StepValue(crc: bv32, b: octet, i: octet, entry: bv32)
    requires (crc ^ b as bv32) & 0xFF == i as bv32
    requires Round(Round(Round(Round(Round(Round(Round(Round(i as bv32)))))))) == entry
    ensures Step(crc, b) == (crc >> 8) ^ entry
  {
    IndexOf(crc, b, i);
    TableAt(i);
    EightRounds(i as bv32);
  }

  /** The standard check value: the CRC-32 of the ASCII digits "123456789". */
  lemma {:induction false} CheckValue()
    ensures Checksum([0x31, 0x32, 0x33, 0x34, 0x35, 0x36, 0x37, 0x38, 0x39]) == 0xCBF4_3926
  {
    var digits: seq<byte> := [0x31, 0x32, 0x33, 0x34, 0x35, 0x36, 0x37, 0x38, 0x39];
    var s: seq<octet> := [0x31, 0x32, 0x33, 0x34, 0x35, 0x36, 0x37, 0x38, 0x39];
    assert Octets(digits) == s;
    StepValue(0xFFFF_FFFF, 0x31, 0xce, 0x7cdc_efb7);
    StepValue(0x7c23_1048, 0x32, 0x7a, 0xb0d0_9822);
    StepValue(0xb0ac_bb32, 0x33, 0x01, 0x7707_3096);
    StepValue(0x77b7_9c2d, 0x34, 0x19, 0x646b_a8c0);
    StepValue(0x641c_1f5c, 0x35, 0x69, 0x346e_d9fc);
    StepValue(0x340a_c5e3, 0x36, 0xd5, 0xf6b9_265b);
    StepValue(0xf68d_2c9e, 0x37, 0xa9, 0xaf0a_1b4c);
    StepValue(0xaffc_9660, 0x38, 0x58, 0x65b0_d9c6);
    StepValue(0x651f_2550, 0x39, 0x69, 0x346e_d9fc);
    assert Update(0x340b_c6d9, s[9..]) == 0x340b_c6d9;
    assert Update(0x651f_2550, s[8..]) == 0x340b_c6d9;
    assert Update(0xaffc_9660, s[7..]) == 0x340b_c6d9;
    assert Update(0xf68d_2c9e, s[6..]) == 0x340b_c6d9;
    assert Update(0x340a_c5e3, s[5..]) == 0x340b_c6d9;
    assert Update(0x641c_1f5c, s[4..]) == 0x340b_c6d9;
    assert Update(0x77b7_9c2d, s[3..]) == 0x340b_c6d9;
    assert Update(0xb0ac_bb32, s[2..]) == 0x340b_c6d9;
    assert Update(0x7c23_1048, s[1..]) == 0x340b_c6d9;
    assert Update(InitialValue, s) == 0x340b_c6d9;
  }

  /** The CRC-32 of five zero bytes is not zero. */
  lemma {:induction false} FiveZeros()
    ensures Checksum([0, 0, 0, 0, 0]) == 0xC622_F71D
  {
    var zeros: seq<byte> := [0, 0, 0, 0, 0];
    var s: seq<octet> := [0, 0, 0, 0, 0];
    assert Octets(zeros) == s;
    StepValue(0xFFFF_FFFF, 0x00, 0xff, 0x2d02_ef8d);
    StepValue(0x2dfd_1072, 0x00, 0x72, 0xbe0b_1010);
    StepValue(0xbe26_ed00, 0x00, 0x00, 0x0000_0000);
    StepValue(0x00be_26ed, 0x00, 0xed, 0xdebb_9ec5);
    StepValue(0xdebb_20e3, 0x00, 0xe3, 0x3903_b3c2);
    assert Update(0x39dd_08e2, s[5..]) == 0x39dd_08e2;
    assert Update(0xdebb_20e3, s[4..]) == 0x39dd_08e2;
    assert Update(0x00be_26ed, s[3..]) == 0x39dd_08e2;
    assert Update(0xbe26_ed00, s[2..]) == 0x39dd_08e2;
    assert Update(0x2dfd_1072, s[1..]) == 0x39dd_08e2;
    assert Update(InitialValue, s) == 0x39dd_08e2;
  }
}

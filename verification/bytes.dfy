/**
 * Bytes and fixed-width little-endian unsigned integers, the encoding Node's
 * Buffer.writeUIntLE and Buffer.readUIntLE use for the length and checksum
 * fields of a frame.
 */
module Bytes {

  /** A byte of a Node Buffer: an integer from 0 to 255. */
  newtype byte = x: int | 0 <= x < 256

  /** 256 to the power n: the number of values an n-byte field can hold. */
  function Pow256(n: nat): (r: nat)
    ensures r >= 1
  {
    if n == 0 then 1 else 256 * Pow256(n - 1)
  }

  /** The unsigned value of the bytes s, least significant byte first. */
  function ReadLE(s: seq<byte>): (r: nat)
    ensures r < Pow256(|s|)
  {
    if |s| == 0 then 0 else s[0] as nat + 256 * ReadLE(s[1..])
  }

  /** The n-byte little-endian encoding of v; v must fit in n bytes. */
  function WriteLE(v: nat, n: nat): (r: seq<byte>)
    requires v < Pow256(n)
    ensures |r| == n
  {
    if n == 0 then [] else [(v % 256) as byte] + WriteLE(v / 256, n - 1)
  }

  /** Reading back a written field yields the value written. */
  lemma {:induction false} ReadWrite(v: nat, n: nat)
    requires v < Pow256(n)
    ensures ReadLE(WriteLE(v, n)) == v
  {
    if n > 0 {
      ReadWrite(v / 256, n - 1);
      var w := WriteLE(v, n);
      assert w[1..] == WriteLE(v / 256, n - 1);
    }
  }

  /** Writing back a read field reproduces its bytes: the encoding is canonical. */
  lemma {:induction false} WriteRead(s: seq<byte>)
    ensures WriteLE(ReadLE(s), |s|) == s
  {
    if |s| > 0 {
      var v := ReadLE(s);
      WriteRead(s[1..]);
      assert v % 256 == s[0] as nat && v / 256 == ReadLE(s[1..]);
      assert WriteLE(v, |s|)[0] == s[0];
    }
  }

  /** A value below 256^k leaves the bytes from position k on zero. */
  lemma {:induction false} HighBytesZero(v: nat, n: nat, k: nat)
    requires k <= n && v < Pow256(k)
    ensures Pow256(k) <= Pow256(n)
    ensures forall i :: k <= i < n ==> WriteLE(v, n)[i] == 0
  {
    if k == 0 {
      PowMonotone(0, n);
      assert v == 0;
      ZeroField(n);
    } else {
      PowMonotone(k, n);
      HighBytesZero(v / 256, n - 1, k - 1);
      var w := WriteLE(v, n);
      assert w[1..] == WriteLE(v / 256, n - 1);
      forall i | k <= i < n
        ensures w[i] == 0
      {
        assert w[i] == w[1..][i - 1];
      }
    }
  }

  lemma {:induction false} ZeroField(n: nat)
    ensures forall i :: 0 <= i < n ==> WriteLE(0, n)[i] == 0
  {
    if n > 0 {
      ZeroField(n - 1);
      var w := WriteLE(0, n);
      assert w[1..] == WriteLE(0, n - 1);
      forall i | 0 <= i < n
        ensures w[i] == 0
      {
        if i > 0 {
          assert w[i] == w[1..][i - 1];
        }
      }
    }
  }

  lemma {:induction false} PowMonotone(k: nat, n: nat)
    requires k <= n
    ensures Pow256(k) <= Pow256(n)
  {
    if k < n {
      PowMonotone(k, n - 1);
    }
  }
}

/** Bytes and the network byte order of 32-bit integers (common/util.cc). */
module Bytes {

  type Byte = x: int | 0 <= x < 0x100

  const INT32_LIMIT: int := 0x8000_0000

  type Int32 = x: int | -0x8000_0000 <= x < 0x8000_0000

  /** n bytes, most significant first. */
  function BigEndian(u: nat, n: nat): (b: seq<Byte>)
    ensures |b| == n
  {
    if n == 0 then [] else BigEndian(u / 0x100, n - 1) + [u % 0x100]
  }

  /** The number that bytes denote, most significant first. */
  function Unsigned(b: seq<Byte>): nat {
    if b == [] then 0 else 0x100 * Unsigned(b[..|b| - 1]) + b[|b| - 1]
  }

  function Limit(n: nat): (l: nat)
    ensures 0 < l
  {
    if n == 0 then 1 else 0x100 * Limit(n - 1)
  }

  lemma {:induction false} UnsignedOfBigEndian(u: nat, n: nat)
    requires u < Limit(n)
    ensures Unsigned(BigEndian(u, n)) == u
    decreases n
  {
    if n > 0 {
      UnsignedOfBigEndian(u / 0x100, n - 1);
      var b := BigEndian(u, n);
      assert b[..n - 1] == BigEndian(u / 0x100, n - 1);
    }
  }

  lemma {:induction false} BigEndianOfUnsigned(b: seq<Byte>)
    ensures Unsigned(b) < Limit(|b|) && BigEndian(Unsigned(b), |b|) == b
    decreases |b|
  {
    if b != [] {
      var n := |b| - 1;
      BigEndianOfUnsigned(b[..n]);
      assert Unsigned(b) / 0x100 == Unsigned(b[..n]) && Unsigned(b) % 0x100 == b[n];
      assert b == b[..n] + [b[n]];
    }
  }

  /** The four bytes that htonl followed by memcpy leaves in memory. A value outside the 32-bit range is
      first truncated, as the assignment to int32_t does. */
  function PutInt32(v: int): (b: seq<Byte>)
    ensures |b| == 4
  {
    BigEndian(v % 0x1_0000_0000, 4)
  }

  /** Two's complement value of four bytes. */
  function GetInt32FromNetByte(b: seq<Byte>): Int32
    requires |b| == 4
  {
    BigEndianOfUnsigned(b);
    assert Limit(4) == 0x1_0000_0000;
    var u := Unsigned(b);
    if u < INT32_LIMIT then u else u - 0x1_0000_0000
  }

  /** Byte k of a printed integer is its k-th most significant one. */
  lemma PutInt32Bytes(v: int)
    ensures var u := v % 0x1_0000_0000;
      PutInt32(v) == [u / 0x100_0000, u / 0x1_0000 % 0x100, u / 0x100 % 0x100, u % 0x100]
  {
    var u := v % 0x1_0000_0000;
    var u1, u2, u3 := u / 0x100, u / 0x1_0000, u / 0x100_0000;
    assert u1 / 0x100 == u2 && u2 / 0x100 == u3 && u3 % 0x100 == u3;
    assert BigEndian(u3, 1) == [u3];
    assert BigEndian(u2, 2) == [u3, u2 % 0x100];
    assert BigEndian(u1, 3) == [u3, u2 % 0x100, u1 % 0x100];
  }

  lemma PutThenGet(v: Int32)
    ensures GetInt32FromNetByte(PutInt32(v)) == v
  {
    assert Limit(4) == 0x1_0000_0000;
    UnsignedOfBigEndian(v % 0x1_0000_0000, 4);
  }

  lemma GetThenPut(b: seq<Byte>)
    requires |b| == 4
    ensures PutInt32(GetInt32FromNetByte(b)) == b
  {
    assert Limit(4) == 0x1_0000_0000;
    BigEndianOfUnsigned(b);
    assert GetInt32FromNetByte(b) % 0x1_0000_0000 == Unsigned(b);
  }

  /** Writing and reading an int32 are inverse in both directions, so no two of them share a wire form
      and every four bytes denote one. */
  lemma NetByteRoundTrip(v: Int32, b: seq<Byte>)
    requires |b| == 4
    ensures GetInt32FromNetByte(PutInt32(v)) == v && PutInt32(GetInt32FromNetByte(b)) == b
  {
    PutThenGet(v);
    GetThenPut(b);
  }

  lemma ZeroBytes()
    ensures GetInt32FromNetByte([0, 0, 0, 0]) == 0
  {
    assert [0, 0, 0, 0] == PutInt32(0) by {
      assert BigEndian(0, 1) == [0] && BigEndian(0, 2) == [0, 0] && BigEndian(0, 3) == [0, 0, 0];
    }
    PutThenGet(0);
  }
}

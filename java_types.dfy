/**
 * The Java primitive types the node works with, written out: a nullable
 * reference becomes an Option, `int` and `long` become bounded integers,
 * and a `byte` is an 8-bit pattern whose signed and unsigned readings are
 * both available. The big-endian two's-complement layout that
 * `ByteBuffer.putInt`/`putLong` write and `getInt`/`getLong` read is defined
 * here once, together with its round trips.
 */
module JavaTypes {

  /** A Java reference that may be null. */
  datatype Option<+T> = None | Some(value: T)

  /**
   * A Java `byte`, held as its 8-bit pattern read unsigned (what
   * `Byte.toUnsignedInt` returns); SignedByte gives the value Java computes with.
   */
  type Byte = b: int | 0 <= b < 256

  /** A Java `byte[]` (or the remaining bytes of a buffer). */
  type Bytes = seq<Byte>

  /** Java `int`: 32-bit two's complement. */
  type Int32 = x: int | -0x8000_0000 <= x <= 0x7fff_ffff

  /** Java `long`: 64-bit two's complement. */
  type Int64 = x: int | -0x8000_0000_0000_0000 <= x <= 0x7fff_ffff_ffff_ffff

  const INT_MAX: Int32 := 0x7fff_ffff
  const INT_MIN: Int32 := -0x8000_0000
  /** `Integer.BYTES` and `Long.BYTES`. */
  const INTEGER_BYTES: nat := 4
  const LONG_BYTES: nat := 8
  /** `Byte.MIN_VALUE`. */
  const BYTE_MIN_VALUE: int := -128

  /** `Byte.toUnsignedInt(b)`. */
  function UnsignedByte(b: Byte): (u: int)
    ensures 0 <= u < 256
  {
    b
  }

  /** The value Java reads from a `byte`: its two's-complement meaning. */
  function SignedByte(b: Byte): (v: int)
    ensures -128 <= v < 128
    ensures v == UnsignedByte(b) || v == UnsignedByte(b) - 256
  {
    if b < 128 then b else b - 256
  }

  /** `(byte) x`: keeps the low 8 bits of an int. */
  function NarrowToByte(x: int): (b: Byte)
    ensures UnsignedByte(b) == x % 256
  {
    x % 256
  }

  /** 256 to the power n: the number of distinct n-byte patterns. */
  function Pow256(n: nat): (p: nat)
    ensures p >= 1
  {
    if n == 0 then 1 else 256 * Pow256(n - 1)
  }

  /** The n-byte big-endian representation of an unsigned number below 256^n. */
  function BigEndian(u: nat, n: nat): (s: Bytes)
    requires u < Pow256(n)
    ensures |s| == n
    decreases n
  {
    if n == 0 then [] else BigEndian(u / 256, n - 1) + [u % 256]
  }

  /** The unsigned number that a big-endian byte sequence denotes. */
  function FromBigEndian(s: Bytes): (u: nat)
    ensures u < Pow256(|s|)
  {
    if |s| == 0 then 0 else FromBigEndian(s[..|s| - 1]) * 256 + s[|s| - 1]
  }

  lemma {:induction false} FromBigEndianOfBigEndian(u: nat, n: nat)
    requires u < Pow256(n)
    ensures FromBigEndian(BigEndian(u, n)) == u
    decreases n
  {
    if n > 0 {
      var s := BigEndian(u, n);
      var q, r := u / 256, u % 256;
      assert s == BigEndian(q, n - 1) + [r];
      assert s[..n - 1] == BigEndian(q, n - 1);
      assert s[n - 1] == r;
      FromBigEndianOfBigEndian(q, n - 1);
      assert FromBigEndian(s) == q * 256 + r;
    }
  }

  lemma {:induction false} BigEndianOfFromBigEndian(s: Bytes)
    ensures BigEndian(FromBigEndian(s), |s|) == s
  {
    if |s| > 0 {
      var u := FromBigEndian(s);
      var p := s[..|s| - 1];
      assert u / 256 == FromBigEndian(p);
      assert u % 256 == s[|s| - 1];
      BigEndianOfFromBigEndian(p);
      assert s == p + [s[|s| - 1]];
    }
  }

  /** What `ByteBuffer.putInt(x)` writes: four bytes, most significant first. */
  function EncodeInt(x: Int32): (s: Bytes)
    ensures |s| == INTEGER_BYTES
  {
    assert Pow256(4) == 0x1_0000_0000;
    BigEndian(x % 0x1_0000_0000, 4)
  }

  /** What `ByteBuffer.getInt()` reads from four bytes. */
  function DecodeInt(s: Bytes): (x: Int32)
    requires |s| == INTEGER_BYTES
  {
    assert Pow256(4) == 0x1_0000_0000;
    var u := FromBigEndian(s);
    if u < 0x8000_0000 then u else u - 0x1_0000_0000
  }

  /** What `ByteBuffer.putLong(x)` writes: eight bytes, most significant first. */
  function EncodeLong(x: Int64): (s: Bytes)
    ensures |s| == LONG_BYTES
  {
    assert Pow256(8) == 0x1_0000_0000_0000_0000;
    BigEndian(x % 0x1_0000_0000_0000_0000, 8)
  }

  /** What `ByteBuffer.getLong()` reads from eight bytes. */
  function DecodeLong(s: Bytes): (x: Int64)
    requires |s| == LONG_BYTES
  {
    assert Pow256(8) == 0x1_0000_0000_0000_0000;
    var u := FromBigEndian(s);
    if u < 0x8000_0000_0000_0000 then u else u - 0x1_0000_0000_0000_0000
  }

  /** getInt reads back exactly what putInt wrote. */
  lemma IntRoundTrip(x: Int32)
    ensures DecodeInt(EncodeInt(x)) == x
  {
    assert Pow256(4) == 0x1_0000_0000;
    var u := x % 0x1_0000_0000;
    FromBigEndianOfBigEndian(u, 4);
    assert FromBigEndian(EncodeInt(x)) == u;
    assert x < 0 ==> u == x + 0x1_0000_0000;
  }

  /** putInt writes back exactly the four bytes getInt read. */
  lemma IntBytesRoundTrip(s: Bytes)
    requires |s| == INTEGER_BYTES
    ensures EncodeInt(DecodeInt(s)) == s
  {
    assert Pow256(4) == 0x1_0000_0000;
    var u := FromBigEndian(s);
    BigEndianOfFromBigEndian(s);
    assert DecodeInt(s) % 0x1_0000_0000 == u;
  }

  /** getLong reads back exactly what putLong wrote. */
  lemma LongRoundTrip(x: Int64)
    ensures DecodeLong(EncodeLong(x)) == x
  {
    assert Pow256(8) == 0x1_0000_0000_0000_0000;
    var u := x % 0x1_0000_0000_0000_0000;
    FromBigEndianOfBigEndian(u, 8);
    assert FromBigEndian(EncodeLong(x)) == u;
    assert x < 0 ==> u == x + 0x1_0000_0000_0000_0000;
  }

  /** putLong writes back exactly the eight bytes getLong read. */
  lemma LongBytesRoundTrip(s: Bytes)
    requires |s| == LONG_BYTES
    ensures EncodeLong(DecodeLong(s)) == s
  {
    assert Pow256(8) == 0x1_0000_0000_0000_0000;
    var u: int := FromBigEndian(s);
    var x := DecodeLong(s);
    assert x == u || x == u - 0x1_0000_0000_0000_0000;
    assert (x as int) % 0x1_0000_0000_0000_0000 == u;
    calc {
      EncodeLong(x);
      BigEndian(u, 8);
      { BigEndianOfFromBigEndian(s); }
      s;
    }
  }
}

/**
 * RocksUtils: copying bytes out of buffers for the storage engine, with an
 * optional shift of every byte by 128. Shifting going in and shifting back
 * coming out is a bijection on byte strings. The shift turns the unsigned
 * reading of each byte into the signed reading of its image and back, so the
 * engine, which compares stored keys byte by byte as unsigned numbers, keeps
 * them in the signed (Java `byte`) lexicographic order of the original keys.
 */
module RocksUtils {
  import opened JavaTypes
  import opened ByteBuffers

  /** `(byte) (Byte.toUnsignedInt(b) - shift)`. */
  function ShiftByte(b: Byte, shift: int): Byte
  {
    NarrowToByte(UnsignedByte(b) - shift)
  }

  /** The bytes of s after `shiftArrayInplace(_, shift)`. */
  function Shifted(s: Bytes, shift: int): (r: Bytes)
    ensures |r| == |s|
    ensures forall i :: 0 <= i < |s| ==> UnsignedByte(r[i]) == (UnsignedByte(s[i]) - shift) % 256
  {
    seq(|s|, i requires 0 <= i < |s| => ShiftByte(s[i], shift))
  }

  /** `shiftArrayInplace(array, shift)`: rewrites every element, never the length. */
  method ShiftArrayInplace(a: array<Byte>, shift: Int32)
    modifies a
    ensures a[..] == Shifted(old(a[..]), shift)
  {
    for i := 0 to a.Length
      invariant a[..i] == Shifted(old(a[..]), shift)[..i]
      invariant a[i..] == old(a[i..])
    {
      var uint := UnsignedByte(a[i]);
      a[i] := NarrowToByte(uint - shift);
    }
  }

  /** `toArray(buffer)`: the remaining bytes, read through a duplicate. */
  method ToArray(buffer: ByteBuffer) returns (result: array<Byte>)
    requires buffer.Valid()
    ensures fresh(result)
    ensures result[..] == buffer.RemainingBytes()
    ensures buffer.position == old(buffer.position)
  {
    var bufferCopy := buffer.Duplicate();
    result := new Byte[bufferCopy.Remaining()];
    bufferCopy.Get(result);
  }

  /** `toArrayShifted(buffer)`: the remaining bytes, each shifted by `Byte.MIN_VALUE`. */
  method ToArrayShifted(buffer: ByteBuffer) returns (result: array<Byte>)
    requires buffer.Valid()
    ensures fresh(result)
    ensures result[..] == Shifted(buffer.RemainingBytes(), BYTE_MIN_VALUE)
    ensures buffer.position == old(buffer.position)
  {
    var bufferCopy := buffer.Duplicate();
    result := new Byte[bufferCopy.Remaining()];
    bufferCopy.Get(result);
    ShiftArrayInplace(result, BYTE_MIN_VALUE);
  }

  /** `fromArrayShifted(array)`: a buffer over a shifted-back copy; the argument is left as it was. */
  method FromArrayShifted(a: array<Byte>) returns (buffer: ByteBuffer)
    ensures fresh(buffer) && fresh(buffer.hb) && buffer.Valid()
    ensures buffer.RemainingBytes() == Shifted(a[..], -BYTE_MIN_VALUE)
    ensures a[..] == old(a[..])
  {
    var arrayCopy := new Byte[a.Length](i reads a requires 0 <= i < a.Length => a[i]);
    ShiftArrayInplace(arrayCopy, -BYTE_MIN_VALUE);
    buffer := new ByteBuffer.Wrap(arrayCopy);
  }

  /** Shifting back undoes shifting in, and the other way round. */
  lemma {:induction false} ShiftRoundTrip(s: Bytes)
    ensures Shifted(Shifted(s, BYTE_MIN_VALUE), -BYTE_MIN_VALUE) == s
    ensures Shifted(Shifted(s, -BYTE_MIN_VALUE), BYTE_MIN_VALUE) == s
  {
    var there, back := Shifted(s, BYTE_MIN_VALUE), Shifted(Shifted(s, BYTE_MIN_VALUE), -BYTE_MIN_VALUE);
    forall i | 0 <= i < |s| ensures back[i] == s[i] {
      assert UnsignedByte(there[i]) == (UnsignedByte(s[i]) + 128) % 256;
      assert UnsignedByte(back[i]) == UnsignedByte(s[i]);
    }
    var there', back' := Shifted(s, -BYTE_MIN_VALUE), Shifted(Shifted(s, -BYTE_MIN_VALUE), BYTE_MIN_VALUE);
    forall i | 0 <= i < |s| ensures back'[i] == s[i] {
      assert UnsignedByte(there'[i]) == (UnsignedByte(s[i]) - 128) % 256;
      assert UnsignedByte(back'[i]) == UnsignedByte(s[i]);
    }
  }

  // Order preservation.

  /** The bytes read as unsigned numbers. */
  function Unsigneds(s: Bytes): (r: seq<int>)
    ensures |r| == |s|
  {
    seq(|s|, i requires 0 <= i < |s| => UnsignedByte(s[i]))
  }

  /** The bytes read as Java reads them, signed. */
  function Signeds(s: Bytes): (r: seq<int>)
    ensures |r| == |s|
  {
    seq(|s|, i requires 0 <= i < |s| => SignedByte(s[i]))
  }

  /** Strict lexicographic order: a proper prefix, or smaller at the first difference. */
  predicate LexLess(a: seq<int>, b: seq<int>)
    decreases |a|
  {
    if |a| == 0 then |b| > 0
    else if |b| == 0 then false
    else a[0] < b[0] || (a[0] == b[0] && LexLess(a[1..], b[1..]))
  }

  function Offset(a: seq<int>, c: int): (r: seq<int>)
    ensures |r| == |a|
  {
    seq(|a|, i requires 0 <= i < |a| => a[i] + c)
  }

  /** Moving every element by the same amount keeps lexicographic order. */
  lemma {:induction false} LexLessOffset(a: seq<int>, b: seq<int>, c: int)
    ensures LexLess(Offset(a, c), Offset(b, c)) == LexLess(a, b)
    decreases |a|
  {
    if |a| > 0 && |b| > 0 {
      assert Offset(a, c)[1..] == Offset(a[1..], c);
      assert Offset(b, c)[1..] == Offset(b[1..], c);
      LexLessOffset(a[1..], b[1..], c);
    }
  }

  /** Each stored byte, read signed, is the original byte read unsigned, minus 128. */
  lemma ShiftedSignedIsUnsignedMinus128(s: Bytes)
    ensures Signeds(Shifted(s, BYTE_MIN_VALUE)) == Offset(Unsigneds(s), BYTE_MIN_VALUE)
  {
    var shifted := Shifted(s, BYTE_MIN_VALUE);
    forall i | 0 <= i < |s|
      ensures Signeds(shifted)[i] == Offset(Unsigneds(s), BYTE_MIN_VALUE)[i]
    {
      assert UnsignedByte(shifted[i]) == (UnsignedByte(s[i]) + 128) % 256;
    }
  }

  /** Unsigned order of keys is exactly signed order of the shifted keys the engine stores. */
  lemma ShiftPreservesOrder(s: Bytes, t: Bytes)
    ensures LexLess(Unsigneds(s), Unsigneds(t)) <==>
            LexLess(Signeds(Shifted(s, BYTE_MIN_VALUE)), Signeds(Shifted(t, BYTE_MIN_VALUE)))
  {
    ShiftedSignedIsUnsignedMinus128(s);
    ShiftedSignedIsUnsignedMinus128(t);
    LexLessOffset(Unsigneds(s), Unsigneds(t), BYTE_MIN_VALUE);
  }

  /** Shifting by 128 and by -128 is the same thing, modulo 256. */
  lemma ShiftBy128IsShiftByMinus128(s: Bytes)
    ensures Shifted(s, 128) == Shifted(s, -128)
  {
    var a, b := Shifted(s, 128), Shifted(s, -128);
    forall i | 0 <= i < |s| ensures a[i] == b[i] {
      assert (UnsignedByte(s[i]) - 128) % 256 == (UnsignedByte(s[i]) + 128) % 256;
    }
  }

  /**
   * The order the engine keeps: unsigned lexicographic order of the stored
   * (shifted) keys is exactly signed lexicographic order of the original keys.
   */
  lemma StoredOrderIsSignedKeyOrder(s: Bytes, t: Bytes)
    ensures LexLess(Unsigneds(Shifted(s, BYTE_MIN_VALUE)), Unsigneds(Shifted(t, BYTE_MIN_VALUE))) <==>
            LexLess(Signeds(s), Signeds(t))
  {
    var u, w := Shifted(s, BYTE_MIN_VALUE), Shifted(t, BYTE_MIN_VALUE);
    ShiftRoundTrip(s);
    ShiftRoundTrip(t);
    ShiftBy128IsShiftByMinus128(u);
    ShiftBy128IsShiftByMinus128(w);
    assert Shifted(u, BYTE_MIN_VALUE) == s && Shifted(w, BYTE_MIN_VALUE) == t;
    ShiftPreservesOrder(u, w);
  }
}

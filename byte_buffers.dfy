/**
 * The part of `java.nio.ByteBuffer` the node relies on: a heap buffer is a
 * backing array with a position and a limit. `duplicate` makes a second
 * buffer over the SAME array with its own position, relative `put`s write at
 * the position and advance it, and a bulk `get` copies the next bytes out
 * and advances it. The limit never changes in the operations used here.
 */
module ByteBuffers {
  import opened JavaTypes

  class ByteBuffer {
    /** The backing array, shared with every duplicate of this buffer. */
    const hb: array<Byte>
    const limit: nat
    var position: nat

    ghost predicate Valid()
      reads this
    {
      position <= limit <= hb.Length
    }

    /** `remaining()`. */
    function Remaining(): nat
      reads this
      requires Valid()
    {
      limit - position
    }

    /** The bytes between the position and the limit. */
    ghost function RemainingBytes(): Bytes
      reads this, hb
      requires Valid()
    {
      hb[position..limit]
    }

    /** `ByteBuffer.allocate(capacity)`: a fresh zero-filled array. */
    constructor Allocate(capacity: nat)
      ensures Valid() && fresh(hb)
      ensures position == 0 && limit == capacity == hb.Length
      ensures forall k :: 0 <= k < capacity ==> hb[k] == 0
    {
      hb := new Byte[capacity](_ => 0);
      limit := capacity;
      position := 0;
    }

    /** `ByteBuffer.wrap(array)`: a buffer over the caller's array, no copy. */
    constructor Wrap(backing: array<Byte>)
      ensures Valid() && hb == backing
      ensures position == 0 && limit == backing.Length
    {
      hb := backing;
      limit := backing.Length;
      position := 0;
    }

    /** A buffer over `backing` with the given position and limit. */
    constructor View(backing: array<Byte>, position: nat, limit: nat)
      requires position <= limit <= backing.Length
      ensures Valid() && hb == backing
      ensures this.position == position && this.limit == limit
    {
      hb := backing;
      this.limit := limit;
      this.position := position;
    }

    /** `duplicate()`: shares the backing array, copies position and limit. */
    method Duplicate() returns (copy: ByteBuffer)
      requires Valid()
      ensures fresh(copy) && copy.Valid()
      ensures copy.hb == hb && copy.position == position && copy.limit == limit
    {
      copy := new ByteBuffer.View(hb, position, limit);
    }

    /** Relative bulk `put(src)`: writes src at the position and moves past it. */
    method Put(src: Bytes)
      requires Valid() && |src| <= Remaining()
      modifies this, hb
      ensures Valid() && position == old(position) + |src|
      ensures hb[..] == old(hb[..position]) + src + old(hb[position + |src|..])
    {
      ghost var before := hb[..];
      var start := position;
      var i := 0;
      while i < |src|
        invariant 0 <= i <= |src| && position == start
        invariant forall k :: 0 <= k < hb.Length ==>
                    hb[k] == if start <= k < start + i then src[k - start] else before[k]
      {
        hb[start + i] := src[i];
        i := i + 1;
      }
      position := start + |src|;
      assert hb[..] == before[..start] + src + before[start + |src|..];
    }

    /** `putInt(x)`: four big-endian bytes. */
    method PutInt(x: Int32)
      requires Valid() && INTEGER_BYTES <= Remaining()
      modifies this, hb
      ensures Valid() && position == old(position) + INTEGER_BYTES
      ensures hb[..] == old(hb[..position]) + EncodeInt(x) + old(hb[position + INTEGER_BYTES..])
    {
      Put(EncodeInt(x));
    }

    /** `putLong(x)`: eight big-endian bytes. */
    method PutLong(x: Int64)
      requires Valid() && LONG_BYTES <= Remaining()
      modifies this, hb
      ensures Valid() && position == old(position) + LONG_BYTES
      ensures hb[..] == old(hb[..position]) + EncodeLong(x) + old(hb[position + LONG_BYTES..])
    {
      Put(EncodeLong(x));
    }

    /** Relative bulk `get(dst)`: fills dst with the next bytes and moves past them. */
    method Get(dst: array<Byte>)
      requires Valid() && dst.Length <= Remaining() && dst != hb
      modifies this, dst
      ensures Valid() && position == old(position) + dst.Length
      ensures dst[..] == hb[old(position)..position]
    {
      var start := position;
      var i := 0;
      while i < dst.Length
        invariant 0 <= i <= dst.Length && position == start
        invariant dst[..i] == hb[start..start + i]
      {
        dst[i] := hb[start + i];
        i := i + 1;
      }
      position := start + dst.Length;
    }
  }
}

/**
 * Bytes and the big-endian encoding of a 32-bit value, as java.nio.ByteBuffer
 * writes it with putInt (its default byte order is big-endian).
 */
module Bytes {

  /** An unsigned byte; the JVM's signed Byte is the same eight bits. */
  type byte = x: int | 0 <= x < 0x100

  /** The eight bits of a byte. */
  function Bits(b: byte): bv8
  {
    b as bv8
  }

  /** The byte whose bits these are. */
  function FromBits(x: bv8): byte
  {
    x as int
  }

  lemma FromBitsRoundTrip(x: bv8)
    ensures Bits(FromBits(x)) == x
  {
  }

  /** The four bytes of `v`, most significant first. */
  function BigEndian(v: bv32): (r: seq<byte>)
    ensures |r| == 4
  {
    [FromBits((v >> 24) as bv8), FromBits(((v >> 16) & 0xFF) as bv8),
     FromBits(((v >> 8) & 0xFF) as bv8), FromBits((v & 0xFF) as bv8)]
  }

  /** Reads four bytes back, the first one as the most significant. */
  function FromBigEndian(b: seq<byte>): bv32
    requires |b| == 4
  {
    ((Bits(b[0]) as bv32) << 24) | ((Bits(b[1]) as bv32) << 16)
      | ((Bits(b[2]) as bv32) << 8) | (Bits(b[3]) as bv32)
  }

  lemma BigEndianRoundTrip(v: bv32)
    ensures FromBigEndian(BigEndian(v)) == v
  {
    FromBitsRoundTrip((v >> 24) as bv8);
    FromBitsRoundTrip(((v >> 16) & 0xFF) as bv8);
    FromBitsRoundTrip(((v >> 8) & 0xFF) as bv8);
    FromBitsRoundTrip((v & 0xFF) as bv8);
  }

  /** Distinct 32-bit values never share an encoding. */
  lemma BigEndianInjective(v: bv32, w: bv32)
    ensures BigEndian(v) == BigEndian(w) <==> v == w
  {
    BigEndianRoundTrip(v);
    BigEndianRoundTrip(w);
  }

  /**
   * java.nio.ByteBuffer as the checksum code uses it: a fixed-capacity array and
   * a write position; putInt stores four bytes at the position and advances it.
   */
  class ByteBuffer {
    const data: array<byte>
    var position: nat

    ghost predicate Valid()
      reads this
    {
      position <= data.Length
    }

    /** ByteBuffer.allocate: a zero-filled buffer of the given capacity. */
    constructor Allocate(capacity: nat)
      ensures Valid() && fresh(data)
      ensures data.Length == capacity && position == 0
      ensures data[..] == seq(capacity, _ => 0)
    {
      data := new byte[capacity](_ => 0);
      position := 0;
    }

    /** ByteBuffer.putInt: the four bytes of `v`, big-endian, at the current position. */
    method PutInt(v: bv32)
      requires Valid() && position + 4 <= data.Length
      modifies this, data
      ensures Valid() && position == old(position) + 4
      ensures data[..] == old(data[..position]) + BigEndian(v) + old(data[position + 4..])
    {
      var bytes := BigEndian(v);
      var p := position;
      ghost var before := data[..];
      for k := 0 to 4
        invariant forall i :: 0 <= i < data.Length ==>
          data[i] == if p <= i < p + k then bytes[i - p] else before[i]
      {
        data[p + k] := bytes[k];
      }
      assert data[..] == before[..p] + bytes + before[p + 4..];
      position := p + 4;
    }

    /** ByteBuffer.array: the backing bytes. */
    function Array(): (r: seq<byte>)
      reads this, data
      ensures |r| == data.Length
    {
      data[..]
    }
  }
}

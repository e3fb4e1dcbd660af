/**
 * CRC-32 as java.util.zip.CRC32 computes it: the checksum of ISO 3309 and
 * section 8.1.1.6.2 of ITU-T V.42, used by zlib and referenced in section 2.3.1
 * of RFC 1952. Bits are processed least significant first against the
 * reflected generator polynomial; the register starts at all ones and the
 * result is inverted.
 */
module Crc32 {
  import opened Bytes

  /** The generator polynomial 0x04C11DB7 with its bits reversed. */
  const Polynomial: bv32 := 0xEDB8_8320

  /** One bit of polynomial division. */
  function Step(r: bv32): bv32
  {
    if r & 1 == 1 then (r >> 1) ^ Polynomial else r >> 1
  }

  function Steps(r: bv32, k: nat): bv32
    decreases k
  {
    if k == 0 then r else Steps(Step(r), k - 1)
  }

  /** The register after one more byte. */
  function Feed(r: bv32, b: byte): bv32
  {
    Steps(r ^ (Bits(b) as bv32), 8)
  }

  /** The register after a sequence of bytes, fed first to last. */
  function Register(r: bv32, bytes: seq<byte>): bv32
    decreases |bytes|
  {
    if bytes == [] then r else Register(Feed(r, bytes[0]), bytes[1..])
  }

  /**
   * zlib's crc32(crc, buf, len): the running checksum is kept inverted between
   * calls, so a checksum can be extended by more bytes.
   */
  function Extended(crc: bv32, bytes: seq<byte>): bv32
  {
    !Register(!crc, bytes)
  }

  /** The CRC-32 of a byte sequence: the update of a fresh checksum, whose value is 0. */
  function Checksum(bytes: seq<byte>): bv32
  {
    Extended(0, bytes)
  }

  /** Feeding a concatenation is feeding its two parts in turn. */
  lemma {:induction false} RegisterAppend(r: bv32, a: seq<byte>, b: seq<byte>)
    ensures Register(r, a + b) == Register(Register(r, a), b)
    decreases |a|
  {
    if a == [] {
      assert a + b == b;
    } else {
      assert (a + b)[0] == a[0];
      assert (a + b)[1..] == a[1..] + b;
      RegisterAppend(Feed(r, a[0]), a[1..], b);
    }
  }

  /** Two extensions in a row are one extension over the concatenated bytes. */
  lemma ExtendedAppend(crc: bv32, a: seq<byte>, b: seq<byte>)
    ensures Extended(Extended(crc, a), b) == Extended(crc, a + b)
  {
    var r := Register(!crc, a);
    DoubleComplement(r);
    assert !Extended(crc, a) == r;
    RegisterAppend(!crc, a, b);
  }

  lemma DoubleComplement(r: bv32)
    ensures !!r == r
  {
  }

  /** The empty input leaves the checksum at zero. */
  lemma ChecksumEmpty()
    ensures Checksum([]) == 0
  {
  }

  /** The standard check value: the CRC-32 of the ASCII digits "123456789" is 0xCBF43926. */
  lemma CheckValue()
    ensures Checksum([0x31, 0x32, 0x33, 0x34, 0x35, 0x36, 0x37, 0x38, 0x39]) == 0xCBF4_3926
  {
    var digits: seq<byte> := [0x31, 0x32, 0x33, 0x34, 0x35, 0x36, 0x37, 0x38, 0x39];
    var r0: bv32 := 0xFFFF_FFFF;
    var r1 := Feed(r0, 0x31);
    assert r1 == 0x7C23_1048;
    var r2 := Feed(r1, 0x32);
    assert r2 == 0xB0AC_BB32;
    var r3 := Feed(r2, 0x33);
    assert r3 == 0x77B7_9C2D;
    var r4 := Feed(r3, 0x34);
    assert r4 == 0x641C_1F5C;
    var r5 := Feed(r4, 0x35);
    assert r5 == 0x340A_C5E3;
    var r6 := Feed(r5, 0x36);
    assert r6 == 0xF68D_2C9E;
    var r7 := Feed(r6, 0x37);
    assert r7 == 0xAFFC_9660;
    var r8 := Feed(r7, 0x38);
    assert r8 == 0x651F_2550;
    var r9 := Feed(r8, 0x39);
    assert r9 == 0x340B_C6D9;
    calc {
      Register(r0, digits);
      Register(r1, digits[1..]);
      Register(r2, digits[2..]);
      Register(r3, digits[3..]);
      Register(r4, digits[4..]);
      Register(r5, digits[5..]);
      Register(r6, digits[6..]);
      Register(r7, digits[7..]);
      Register(r8, digits[8..]);
      Register(r9, digits[9..]);
    }
  }

  /**
   * java.util.zip.CRC32: a checksum object whose value is updated in place as
   * bytes are fed to it.
   */
  class Crc32 {
    var crc: bv32

    /** A fresh checksum; its value is 0. */
    constructor ()
      ensures crc == 0
    {
      crc := 0;
    }

    /** CRC32.update(b, off, len): feeds `len` bytes of `b` starting at `off`. */
    method Update(b: seq<byte>, off: nat, len: nat)
      requires off + len <= |b|
      modifies this
      ensures crc == Extended(old(crc), b[off..off + len])
    {
      var r := !crc;
      var i := off;
      while i < off + len
        invariant off <= i <= off + len
        invariant r == Register(!old(crc), b[off..i])
      {
        var x := FeedByte(r, b[i]);
        assert b[off..i + 1] == b[off..i] + [b[i]];
        RegisterAppend(!old(crc), b[off..i], [b[i]]);
        r := x;
        i := i + 1;
      }
      crc := !r;
    }

    /** The table-free inner loop of zlib's crc32: eight shifts of one byte through the register. */
    static method FeedByte(r: bv32, b: byte) returns (x: bv32)
      ensures x == Feed(r, b)
    {
      x := r ^ (Bits(b) as bv32);
      var k := 0;
      while k < 8
        invariant 0 <= k <= 8
        invariant Steps(x, 8 - k) == Feed(r, b)
      {
        ghost var before := x;
        if x & 1 == 1 {
          x := (x >> 1) ^ Polynomial;
        } else {
          x := x >> 1;
        }
        assert x == Step(before);
        k := k + 1;
      }
    }

    /**
     * CRC32.getValue().toInt(): the value is a Long below 2^32 and toInt keeps
     * its 32 bits, which are the register's bits.
     */
    function Value(): bv32
      reads this
    {
      crc
    }
  }
}

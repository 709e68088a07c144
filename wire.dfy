/**
 * Octets and the big-endian integer fields of the RTCP wire format
 * (section 6.1 of RFC 3550: every multi-octet field is in network byte order).
 *
 * The readers model `parse_be_u32` and `parse_be_u64` of src/lib.rs, which
 * assemble an integer from shifted and masked byte lanes; the writers model the
 * `to_bytes` helpers of src/packet.rs, which print a value as a fixed-width
 * binary string and read it back eight digits at a time.
 */
module Wire {

  /** An unsigned machine integer of the source, as a bounded mathematical integer. */
  type byte = x: int | 0 <= x < 0x100
  type u16 = x: int | 0 <= x < 0x1_0000
  type u32 = x: int | 0 <= x < 0x1_0000_0000
  type u64 = x: int | 0 <= x < 0x1_0000_0000_0000_0000

  const TwoTo32: nat := 0x1_0000_0000
  const TwoTo64: nat := 0x1_0000_0000_0000_0000

  datatype Option<+T> = None | Some(value: T)

  datatype Result<+T, +E> = Ok(value: T) | Err(error: E)

  /**
   * The byte lane `((b as uN) << s) & (0xff << m)` of the source, with the
   * powers written out: `shl` is 2^s, `modulus` is 2^N and `lane` is 2^m. The
   * shift loses every bit at position N or above; the mask keeps bits m..m+7.
   */
  function Lane(b: byte, shl: nat, modulus: nat, lane: nat): nat
    requires modulus > 0 && lane > 0
  {
    (b * shl) % modulus / lane % 0x100 * lane
  }

  /** In a 32-bit lane that the shift moves a byte into exactly, the lane is the byte times its weight. */
  lemma Lanes32(b: byte)
    ensures Lane(b, 0x100_0000, TwoTo32, 0x100_0000) == b as int * 0x100_0000
    ensures Lane(b, 0x1_0000, TwoTo32, 0x1_0000) == b as int * 0x1_0000
    ensures Lane(b, 0x100, TwoTo32, 0x100) == b as int * 0x100
    ensures Lane(b, 1, TwoTo32, 1) == b
  {
    assert (b as int * 0x100_0000) % TwoTo32 == b as int * 0x100_0000;
    assert b as int * 0x100_0000 / 0x100_0000 == b;
    assert (b as int * 0x1_0000) % TwoTo32 == b as int * 0x1_0000;
    assert b as int * 0x1_0000 / 0x1_0000 == b;
    assert (b as int * 0x100) % TwoTo32 == b as int * 0x100;
    assert b as int * 0x100 / 0x100 == b;
  }

  /** The same for the upper four lanes of a 64-bit read. */
  lemma Lanes64High(b: byte)
    ensures Lane(b, 0x100_0000_0000_0000, TwoTo64, 0x100_0000_0000_0000) == b as int * 0x100_0000_0000_0000
    ensures Lane(b, 0x1_0000_0000_0000, TwoTo64, 0x1_0000_0000_0000) == b as int * 0x1_0000_0000_0000
    ensures Lane(b, 0x100_0000_0000, TwoTo64, 0x100_0000_0000) == b as int * 0x100_0000_0000
    ensures Lane(b, 0x1_0000_0000, TwoTo64, 0x1_0000_0000) == b as int * 0x1_0000_0000
  {
    assert (b as int * 0x100_0000_0000_0000) % TwoTo64 == b as int * 0x100_0000_0000_0000;
    assert b as int * 0x100_0000_0000_0000 / 0x100_0000_0000_0000 == b;
    assert (b as int * 0x1_0000_0000_0000) % TwoTo64 == b as int * 0x1_0000_0000_0000;
    assert b as int * 0x1_0000_0000_0000 / 0x1_0000_0000_0000 == b;
    assert (b as int * 0x100_0000_0000) % TwoTo64 == b as int * 0x100_0000_0000;
    assert b as int * 0x100_0000_0000 / 0x100_0000_0000 == b;
    assert (b as int * 0x1_0000_0000) % TwoTo64 == b as int * 0x1_0000_0000;
    assert b as int * 0x1_0000_0000 / 0x1_0000_0000 == b;
  }

  /** The same for the lower four lanes of a 64-bit read. */
  lemma Lanes64Low(b: byte)
    ensures Lane(b, 0x100_0000, TwoTo64, 0x100_0000) == b as int * 0x100_0000
    ensures Lane(b, 0x1_0000, TwoTo64, 0x1_0000) == b as int * 0x1_0000
    ensures Lane(b, 0x100, TwoTo64, 0x100) == b as int * 0x100
    ensures Lane(b, 1, TwoTo64, 1) == b
  {
    assert (b as int * 0x100_0000) % TwoTo64 == b as int * 0x100_0000;
    assert b as int * 0x100_0000 / 0x100_0000 == b;
    assert (b as int * 0x1_0000) % TwoTo64 == b as int * 0x1_0000;
    assert b as int * 0x1_0000 / 0x1_0000 == b;
    assert (b as int * 0x100) % TwoTo64 == b as int * 0x100;
    assert b as int * 0x100 / 0x100 == b;
  }

  /**
   * Big-endian 32-bit read at `offset`, as src/lib.rs:77-82 intends it: byte k
   * is shifted by 24 - 8k. The four lanes never overlap, so their bitwise or is
   * their sum. The source shifts byte 1 by 15 instead of 16 (a typo, see
   * ParseBeU32AsWritten); this is the corrected reader the rest of the model uses.
   */
  function ParseBeU32(packet: seq<byte>, offset: nat): (r: u32)
    requires offset + 4 <= |packet|
    ensures r == packet[offset] as int * 0x100_0000 + packet[offset + 1] as int * 0x1_0000
               + packet[offset + 2] as int * 0x100 + packet[offset + 3] as int
  {
    Lanes32(packet[offset]);
    Lanes32(packet[offset + 1]);
    Lanes32(packet[offset + 2]);
    Lanes32(packet[offset + 3]);
    Lane(packet[offset], 0x100_0000, TwoTo32, 0x100_0000)
    + Lane(packet[offset + 1], 0x1_0000, TwoTo32, 0x1_0000)
    + Lane(packet[offset + 2], 0x100, TwoTo32, 0x100)
    + Lane(packet[offset + 3], 1, TwoTo32, 1)
  }

  /**
   * src/lib.rs:77-82 as written: byte 1 is shifted left by 15, then masked to
   * bits 16..23. It never reads more than the intended reader.
   */
  function ParseBeU32AsWritten(packet: seq<byte>, offset: nat): (r: nat)
    requires offset + 4 <= |packet|
    ensures r <= ParseBeU32(packet, offset)
  {
    Shift15Lane(packet[offset + 1]);
    Lanes32(packet[offset]);
    Lanes32(packet[offset + 2]);
    Lanes32(packet[offset + 3]);
    Lane(packet[offset], 0x100_0000, TwoTo32, 0x100_0000)
    + Lane(packet[offset + 1], 0x8000, TwoTo32, 0x1_0000)
    + Lane(packet[offset + 2], 0x100, TwoTo32, 0x100)
    + Lane(packet[offset + 3], 1, TwoTo32, 1)
  }

  /** Shifting a byte by 15 and masking bits 16..23 keeps only its upper seven bits. */
  lemma Shift15Lane(b: byte)
    ensures Lane(b, 0x8000, TwoTo32, 0x1_0000) == (b / 2) * 0x1_0000
  {
    assert b as int * 0x8000 < TwoTo32;
    assert (b * 0x8000) / 0x1_0000 == b / 2;
  }

  /**
   * The reader as written loses the lowest bit of byte 1 and halves the rest of
   * it: it agrees with the intended reader exactly when byte 1 is zero.
   */
  lemma ParseBeU32AsWrittenLosesByte1(packet: seq<byte>, offset: nat)
    requires offset + 4 <= |packet|
    ensures ParseBeU32AsWritten(packet, offset)
            == ParseBeU32(packet, offset) - (packet[offset + 1] as int - packet[offset + 1] as int / 2) * 0x1_0000
    ensures ParseBeU32AsWritten(packet, offset) == ParseBeU32(packet, offset) <==> packet[offset + 1] == 0
  {
    Shift15Lane(packet[offset + 1]);
    Lanes32(packet[offset]);
    Lanes32(packet[offset + 2]);
    Lanes32(packet[offset + 3]);
    var b := packet[offset + 1];
    assert b - b / 2 == 0 <==> b == 0;
  }

  /** The input [0, 1, 0, 0] encodes 65536; the reader as written returns 0 for it. */
  lemma ParseBeU32AsWrittenCounterexample()
    ensures ParseBeU32([0, 1, 0, 0], 0) == 0x1_0000
    ensures ParseBeU32AsWritten([0, 1, 0, 0], 0) == 0
  {
    ParseBeU32AsWrittenLosesByte1([0, 1, 0, 0], 0);
  }

  /**
   * Big-endian 64-bit read at `offset`, as src/lib.rs:84-93 intends it: byte k
   * is shifted by 56 - 8k. The source shifts byte 0 by 46 (a typo, see
   * ParseBeU64AsWritten). The result is the high word times 2^32 plus the low word.
   */
  function ParseBeU64(packet: seq<byte>, offset: nat): (r: u64)
    requires offset + 8 <= |packet|
    ensures r == ParseBeU32(packet, offset) * TwoTo32 + ParseBeU32(packet, offset + 4)
  {
    Lanes64High(packet[offset]);
    Lanes64High(packet[offset + 1]);
    Lanes64High(packet[offset + 2]);
    Lanes64High(packet[offset + 3]);
    Lanes64Low(packet[offset + 4]);
    Lanes64Low(packet[offset + 5]);
    Lanes64Low(packet[offset + 6]);
    Lanes64Low(packet[offset + 7]);
    Lane(packet[offset], 0x100_0000_0000_0000, TwoTo64, 0x100_0000_0000_0000)
    + Lane(packet[offset + 1], 0x1_0000_0000_0000, TwoTo64, 0x1_0000_0000_0000)
    + Lane(packet[offset + 2], 0x100_0000_0000, TwoTo64, 0x100_0000_0000)
    + Lane(packet[offset + 3], 0x1_0000_0000, TwoTo64, 0x1_0000_0000)
    + Lane(packet[offset + 4], 0x100_0000, TwoTo64, 0x100_0000)
    + Lane(packet[offset + 5], 0x1_0000, TwoTo64, 0x1_0000)
    + Lane(packet[offset + 6], 0x100, TwoTo64, 0x100)
    + Lane(packet[offset + 7], 1, TwoTo64, 1)
  }

  /**
   * src/lib.rs:84-93 as written: byte 0 is shifted left by 46, then masked to
   * bits 56..63. No result has any of bits 56..63 set.
   */
  function ParseBeU64AsWritten(packet: seq<byte>, offset: nat): (r: nat)
    requires offset + 8 <= |packet|
    ensures r < 0x100_0000_0000_0000
  {
    Shift46Lane(packet[offset]);
    Lanes64High(packet[offset + 1]);
    Lanes64High(packet[offset + 2]);
    Lanes64High(packet[offset + 3]);
    Lanes64Low(packet[offset + 4]);
    Lanes64Low(packet[offset + 5]);
    Lanes64Low(packet[offset + 6]);
    Lanes64Low(packet[offset + 7]);
    Lane(packet[offset], 0x4000_0000_0000, TwoTo64, 0x100_0000_0000_0000)
    + Lane(packet[offset + 1], 0x1_0000_0000_0000, TwoTo64, 0x1_0000_0000_0000)
    + Lane(packet[offset + 2], 0x100_0000_0000, TwoTo64, 0x100_0000_0000)
    + Lane(packet[offset + 3], 0x1_0000_0000, TwoTo64, 0x1_0000_0000)
    + Lane(packet[offset + 4], 0x100_0000, TwoTo64, 0x100_0000)
    + Lane(packet[offset + 5], 0x1_0000, TwoTo64, 0x1_0000)
    + Lane(packet[offset + 6], 0x100, TwoTo64, 0x100)
    + Lane(packet[offset + 7], 1, TwoTo64, 1)
  }

  /** A byte shifted by 46 stays below bit 54, so the mask of bits 56..63 clears it. */
  lemma Shift46Lane(b: byte)
    ensures Lane(b, 0x4000_0000_0000, TwoTo64, 0x100_0000_0000_0000) == 0
  {
    assert b as int * 0x4000_0000_0000 < 0x100_0000_0000_0000;
  }

  /**
   * The 64-bit reader as written drops byte 0 entirely: it agrees with the
   * intended reader exactly when byte 0 is zero.
   */
  lemma ParseBeU64AsWrittenDropsByte0(packet: seq<byte>, offset: nat)
    requires offset + 8 <= |packet|
    ensures ParseBeU64AsWritten(packet, offset)
            == ParseBeU64(packet, offset) - packet[offset] as int * 0x100_0000_0000_0000
    ensures ParseBeU64AsWritten(packet, offset) == ParseBeU64(packet, offset) <==> packet[offset] == 0
  {
    Shift46Lane(packet[offset]);
    Lanes64High(packet[offset + 1]);
    Lanes64High(packet[offset + 2]);
    Lanes64High(packet[offset + 3]);
    Lanes64Low(packet[offset + 4]);
    Lanes64Low(packet[offset + 5]);
    Lanes64Low(packet[offset + 6]);
    Lanes64Low(packet[offset + 7]);
  }

  /**
   * A 32-bit value as the four bytes `to_bytes` writes in src/packet.rs:47-55:
   * the 32-digit binary rendering of the value, cut into four 8-digit groups,
   * most significant first. Reading them back gives the value again.
   */
  function Be32Bytes(n: u32): (bytes: seq<byte>)
    ensures |bytes| == 4
    ensures ParseBeU32(bytes, 0) == n
  {
    var bytes := [n / 0x100_0000, n / 0x1_0000 % 0x100, n / 0x100 % 0x100, n % 0x100];
    assert n / 0x1_0000 == (n / 0x100_0000) * 0x100 + n / 0x1_0000 % 0x100;
    assert n / 0x100 == (n / 0x1_0000) * 0x100 + n / 0x100 % 0x100;
    assert n == (n / 0x100) * 0x100 + n % 0x100;
    bytes
  }

  /** Writing the value read at `offset` reproduces the four bytes that were read. */
  lemma Be32BytesOfParse(packet: seq<byte>, offset: nat)
    requires offset + 4 <= |packet|
    ensures Be32Bytes(ParseBeU32(packet, offset)) == packet[offset..offset + 4]
  {
    var n := ParseBeU32(packet, offset);
    var b := Be32Bytes(n);
    assert b[0] == packet[offset];
    assert b[1] == packet[offset + 1];
    assert b[2] == packet[offset + 2];
    assert b[3] == packet[offset + 3];
  }

  /** The reader only looks at the four bytes at `offset`. */
  lemma ParseBeU32Local(packet: seq<byte>, offset: nat, other: seq<byte>, at: nat)
    requires offset + 4 <= |packet| && at + 4 <= |other|
    requires packet[offset..offset + 4] == other[at..at + 4]
    ensures ParseBeU32(packet, offset) == ParseBeU32(other, at)
  {
    assert packet[offset] == other[at];
    assert packet[offset + 1] == other[at + 1];
    assert packet[offset + 2] == other[at + 2];
    assert packet[offset + 3] == other[at + 3];
  }
}

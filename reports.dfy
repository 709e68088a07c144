/**
 * The packet values of src/lib.rs and the decoders for sender and receiver
 * reports (sections 6.4.1 and 6.4.2 of RFC 3550).
 *
 * A report block is a fixed 24-octet record; a sender report carries its SSRC
 * at octet 4, the 20-octet sender info at octets 8..28 and then `rc` report
 * blocks, a receiver report its SSRC at octet 4 and then `rc` report blocks.
 */
module Reports {
  import opened Wire
  import opened Sources

  datatype SenderInfo = SenderInfo(ntpTs: u64, rtpTs: u32, packetCount: u32, byteCount: u32)

  datatype ReportBlock = ReportBlock(
    ssrc: Ssrc,
    fractLost: byte,
    cumulLost: u32,
    extSeq: u32,
    jitter: u32,
    lsr: u32,
    dlsr: u32)

  /**
   * A decoded packet of a compound buffer. SR and RR are the variants of the
   * source; the parsers for SDES, BYE and APP are stubs there, so a packet of
   * those types is kept as its type, count field and undecoded body.
   */
  datatype RtcpPacket =
    | SR(ssrc: Ssrc, blocks: seq<ReportBlock>, info: SenderInfo)
    | RR(ssrc: Ssrc, blocks: seq<ReportBlock>)
    | Undecoded(pt: byte, count: byte, body: seq<byte>)

  /** A 32-bit word split into its top octet and its low 24 bits. */
  lemma LowWord(hi: byte, lo: nat)
    requires lo < 0x100_0000
    ensures (hi as int * 0x100_0000 + lo) % 0x100_0000 == lo
  {
  }

  /**
   * The report block at `offset` (src/lib.rs:95-105). The second word holds the
   * fraction lost in its top octet and the cumulative loss in its low 24 bits.
   */
  function ParseReportBlock(packet: seq<byte>, offset: nat): (r: ReportBlock)
    requires offset + 24 <= |packet|
    ensures r.cumulLost < 0x100_0000
    ensures r.fractLost as int * 0x100_0000 + r.cumulLost as int == ParseBeU32(packet, offset + 4)
  {
    var word := ParseBeU32(packet, offset + 4);
    LowWord(packet[offset + 4], packet[offset + 5] as int * 0x1_0000 + packet[offset + 6] as int * 0x100 + packet[offset + 7] as int);
    ReportBlock(
      Ssrc(ParseBeU32(packet, offset)),
      packet[offset + 4],
      word % 0x100_0000,
      ParseBeU32(packet, offset + 8),
      ParseBeU32(packet, offset + 12),
      ParseBeU32(packet, offset + 16),
      ParseBeU32(packet, offset + 20))
  }

  /** The decoder reads only the 24 octets of the block. */
  lemma ParseReportBlockLocal(packet: seq<byte>, offset: nat, other: seq<byte>, at: nat)
    requires offset + 24 <= |packet| && at + 24 <= |other|
    requires packet[offset..offset + 24] == other[at..at + 24]
    ensures ParseReportBlock(packet, offset) == ParseReportBlock(other, at)
  {
    var mine, theirs := packet[offset..offset + 24], other[at..at + 24];
    assert ParseReportBlock(packet, offset) == ParseReportBlock(mine, 0);
    assert ParseReportBlock(other, at) == ParseReportBlock(theirs, 0);
  }

  /**
   * The report block layout of section 6.4.1 of RFC 3550, written out as a
   * reference: the source has no report-block encoder. The cumulative loss must
   * fit its 24-bit field.
   */
  function ReportBlockBytes(rb: ReportBlock): (bytes: seq<byte>)
    requires rb.cumulLost < 0x100_0000
    ensures |bytes| == 24
  {
    Be32Bytes(rb.ssrc.id)
    + Be32Bytes(rb.fractLost as int * 0x100_0000 + rb.cumulLost as int)
    + Be32Bytes(rb.extSeq) + Be32Bytes(rb.jitter) + Be32Bytes(rb.lsr) + Be32Bytes(rb.dlsr)
  }

  /** Decoding an encoded report block gives the block back. */
  lemma ReportBlockRoundTrip(rb: ReportBlock)
    requires rb.cumulLost < 0x100_0000
    ensures ParseReportBlock(ReportBlockBytes(rb), 0) == rb
  {
    var bytes := ReportBlockBytes(rb);
    var word := rb.fractLost as int * 0x100_0000 + rb.cumulLost as int;
    ParseBeU32Local(bytes, 0, Be32Bytes(rb.ssrc.id), 0);
    ParseBeU32Local(bytes, 4, Be32Bytes(word), 0);
    ParseBeU32Local(bytes, 8, Be32Bytes(rb.extSeq), 0);
    ParseBeU32Local(bytes, 12, Be32Bytes(rb.jitter), 0);
    ParseBeU32Local(bytes, 16, Be32Bytes(rb.lsr), 0);
    ParseBeU32Local(bytes, 20, Be32Bytes(rb.dlsr), 0);
    assert bytes[4] == word / 0x100_0000;
  }

  /** Encoding a decoded report block reproduces the 24 octets it was read from. */
  lemma ReportBlockBytesOfParse(packet: seq<byte>, offset: nat)
    requires offset + 24 <= |packet|
    ensures ReportBlockBytes(ParseReportBlock(packet, offset)) == packet[offset..offset + 24]
  {
    var rb := ParseReportBlock(packet, offset);
    Be32BytesOfParse(packet, offset);
    Be32BytesOfParse(packet, offset + 4);
    Be32BytesOfParse(packet, offset + 8);
    Be32BytesOfParse(packet, offset + 12);
    Be32BytesOfParse(packet, offset + 16);
    Be32BytesOfParse(packet, offset + 20);
    assert packet[offset..offset + 24]
        == packet[offset..offset + 4] + packet[offset + 4..offset + 8] + packet[offset + 8..offset + 12]
           + packet[offset + 12..offset + 16] + packet[offset + 16..offset + 20] + packet[offset + 20..offset + 24];
  }

  /**
   * The `n` report blocks laid out from `base` at a 24-octet stride: block i is
   * the one decoded at base + 24 * i.
   */
  function ReportBlocks(packet: seq<byte>, base: nat, n: nat): (blocks: seq<ReportBlock>)
    requires base + 24 * n <= |packet|
    ensures |blocks| == n
    ensures forall i :: 0 <= i < n ==> blocks[i] == ParseReportBlock(packet, base + 24 * i)
  {
    if n == 0 then [] else ReportBlocks(packet, base, n - 1) + [ParseReportBlock(packet, base + 24 * (n - 1))]
  }

  /**
   * What `parse_sr` returns (src/lib.rs:107-128): nothing for a length field
   * too small to hold the header, the SSRC and the sender info, otherwise the
   * SSRC at octet 4, the sender info at octets 8, 16, 20 and 24 and `rc` report
   * blocks from octet 28. The smallest SR is 28 octets, 7 words, so its length
   * field is 6: the source refuses below 7 (see SrTooShortAsWritten), one word
   * too many; here the bound is 6. The source never checks that the blocks lie
   * inside the packet (an index panic); callers must.
   */
  function DecodeSr(rc: nat, len: nat, packet: seq<byte>): (r: Option<RtcpPacket>)
    requires len < 6 || 28 + 24 * rc <= |packet|
    ensures r.None? <==> len < 6
    ensures r.Some? ==> r.value.SR? && r.value.ssrc.id == ParseBeU32(packet, 4)
                        && r.value.info == SenderInfo(ParseBeU64(packet, 8), ParseBeU32(packet, 16),
                                                      ParseBeU32(packet, 20), ParseBeU32(packet, 24))
                        && |r.value.blocks| == rc
                        && forall i :: 0 <= i < rc ==> r.value.blocks[i] == ParseReportBlock(packet, 28 + 24 * i)
  {
    if len < 6 then None
    else
      Some(SR(Ssrc(ParseBeU32(packet, 4)),
              ReportBlocks(packet, 28, rc),
              SenderInfo(ParseBeU64(packet, 8), ParseBeU32(packet, 16), ParseBeU32(packet, 20), ParseBeU32(packet, 24))))
  }

  /**
   * `parse_sr` (src/lib.rs:107-128), with the length bound corrected to 6:
   * after the length check it pushes the
   * report blocks one by one, block i from offset 28 + 24 * i. The source
   * computes that offset in 8-bit arithmetic (see SrBlockOffsetAsWritten); here
   * it is computed without overflow.
   */
  method ParseSr(padding: bool, rc: byte, len: nat, packet: seq<byte>) returns (r: Option<RtcpPacket>)
    requires len < 6 || 28 + 24 * rc <= |packet|
    ensures r == DecodeSr(rc, len, packet)
  {
    if len < 6 {
      return None;
    }
    var ssrc := Ssrc(ParseBeU32(packet, 4));
    var si := SenderInfo(ParseBeU64(packet, 8), ParseBeU32(packet, 16), ParseBeU32(packet, 20), ParseBeU32(packet, 24));
    var rrList: seq<ReportBlock> := [];
    for i := 0 to rc
      invariant |rrList| == i
      invariant forall j :: 0 <= j < i ==> rrList[j] == ParseReportBlock(packet, 28 + 24 * j)
    {
      var rr := ParseReportBlock(packet, 28 + 24 * i);
      rrList := rrList + [rr];
    }
    assert rrList == ReportBlocks(packet, 28, rc);
    return Some(SR(ssrc, rrList, si));
  }

  /**
   * The length check of src/lib.rs:108 as written: a length field below 7 is
   * refused. It refuses every length DecodeSr refuses and one more, 6, the
   * length of an SR without report blocks (see Compound.EmptySrDecodes).
   */
  predicate SrTooShortAsWritten(len: nat)
    ensures len < 6 ==> SrTooShortAsWritten(len)
    ensures SrTooShortAsWritten(len) && 6 <= len <==> len == 6
  {
    len < 7
  }

  /**
   * What `parse_rr` returns (src/lib.rs:130-145): nothing for a length field
   * of 0, otherwise the SSRC at octet 4 and `rc` report blocks from octet 8.
   */
  function DecodeRr(rc: nat, len: nat, packet: seq<byte>): (r: Option<RtcpPacket>)
    requires len < 1 || 8 + 24 * rc <= |packet|
    ensures r.None? <==> len < 1
    ensures r.Some? ==> r.value.RR? && r.value.ssrc.id == ParseBeU32(packet, 4)
                        && |r.value.blocks| == rc
                        && forall i :: 0 <= i < rc ==> r.value.blocks[i] == ParseReportBlock(packet, 8 + 24 * i)
  {
    if len < 1 then None else Some(RR(Ssrc(ParseBeU32(packet, 4)), ReportBlocks(packet, 8, rc)))
  }

  /** `parse_rr` (src/lib.rs:130-145): the length check, then block i from offset 8 + 24 * i. */
  method ParseRr(padding: bool, rc: byte, len: nat, packet: seq<byte>) returns (r: Option<RtcpPacket>)
    requires len < 1 || 8 + 24 * rc <= |packet|
    ensures r == DecodeRr(rc, len, packet)
  {
    if len < 1 {
      return None;
    }
    var ssrc := Ssrc(ParseBeU32(packet, 4));
    var rrList: seq<ReportBlock> := [];
    for i := 0 to rc
      invariant |rrList| == i
      invariant forall j :: 0 <= j < i ==> rrList[j] == ParseReportBlock(packet, 8 + 24 * j)
    {
      var rr := ParseReportBlock(packet, 8 + 24 * i);
      rrList := rrList + [rr];
    }
    assert rrList == ReportBlocks(packet, 8, rc);
    return Some(RR(ssrc, rrList));
  }

  /** Reducing an addend modulo 256 first does not change the sum modulo 256. */
  lemma WrapSum(a: nat, b: nat)
    ensures (a + b % 0x100) % 0x100 == (a + b) % 0x100
  {
    var q := b / 0x100;
    assert a + b == a + b % 0x100 + q * 0x100;
  }

  /**
   * The block offset `(28 + (i * 24)) as usize` of src/lib.rs:123 as written:
   * `i` is a u8, so the product and the sum are taken modulo 256 (a release
   * build wraps; a debug build panics instead).
   */
  function SrBlockOffsetAsWritten(i: byte): (r: byte)
    ensures r == (28 + 24 * i) % 0x100
  {
    WrapSum(28, i * 24);
    (28 + (i * 24) % 0x100) % 0x100
  }

  /** The same for `(8 + (i * 24)) as usize` at src/lib.rs:140. */
  function RrBlockOffsetAsWritten(i: byte): (r: byte)
    ensures r == (8 + 24 * i) % 0x100
  {
    WrapSum(8, i * 24);
    (8 + (i * 24) % 0x100) % 0x100
  }

  /**
   * The 8-bit offsets are right for the first 10 SR blocks and the first 11 RR
   * blocks and wrong from there on, although the 5-bit count allows 31: block
   * 10 of an SR (count 11 or more) is read from octet 12, inside the sender
   * info, instead of 268, and block 11 of an RR (count 12 or more) from octet
   * 16 instead of 272.
   */
  lemma BlockOffsetsOverflow()
    ensures forall i: byte :: i < 10 ==> SrBlockOffsetAsWritten(i) == 28 + 24 * i
    ensures forall i: byte :: 10 <= i < 32 ==> SrBlockOffsetAsWritten(i) != 28 + 24 * i
    ensures forall i: byte :: i < 11 ==> RrBlockOffsetAsWritten(i) == 8 + 24 * i
    ensures forall i: byte :: 11 <= i < 32 ==> RrBlockOffsetAsWritten(i) != 8 + 24 * i
    ensures SrBlockOffsetAsWritten(10) == 12
    ensures RrBlockOffsetAsWritten(11) == 16
  {
    forall i: byte | i < 11
      ensures SrBlockOffsetAsWritten(i) == (28 + 24 * i) % 0x100
      ensures RrBlockOffsetAsWritten(i) == 8 + 24 * i
    {
      assert i * 24 < 0x100;
    }
  }
}

# rust-rtcp wire codec, modelled in Dafny

This project models the RTCP wire codec of rust-rtcp (section 6 of RFC 3550):

- the big-endian integer readers `parse_be_u32` and `parse_be_u64`;
- the report-block, sender-report and receiver-report decoders `parse_report_block`, `parse_sr` and `parse_rr`;
- the compound-packet walker `parse_rtcp_packet`, which cuts a buffer into RTCP packets by their length fields and dispatches each one on its packet type;
- the serialisers of `src/packet.rs`: `SSRC`/`CSRC` conversions, and `to_bytes` for SR, BYE and APP;
- the SDES item-type table `SDES_ITEM::from_u8`/`to_u8`.

Octets are integers in 0..255, and 16-, 32- and 64-bit fields are bounded integers. The shift-and-mask byte lanes of the readers are written out arithmetically (`Wire.Lane`). The binary-string rendering that `to_bytes` uses is modelled by its result: the value's octets, most significant first.

Modules, one per file:

| file | module | models |
|---|---|---|
| wire.dfy | Wire | octet and word types, `Option`/`Result`, the big-endian readers, the four-octet writer |
| sources.dfy | Sources | `SSRC` and `CSRC` |
| header.dfy | HeaderCodec | the 4-octet RTCP header: extraction in the walker and packing in `to_bytes` |
| reports.dfy | Reports | the decoded packet values, report blocks, `parse_sr`, `parse_rr` |
| compound.dfy | Compound | `parse_rtcp_packet`: a recursive specification `Walk`, the loop proved equal to it, and framing lemmas |
| packet.dfy | Packet | SR/BYE/APP `to_bytes`, the SDES item types |

Each loop of the source is a Dafny method proved equal to a specification function, and the properties are proved about those functions:

- `ParseSr`/`DecodeSr`, `ParseRr`/`DecodeRr`;
- `ParseRtcpPacket`/`DecodeCompound`;
- `Bye.ToBytes`/`Bye.Encoding`.

`App.ToBytes` has no loop; its sequence of pushes is likewise proved equal to `App.Encoding`.

The proved properties are these:

- Round trips: header, report block, 32-bit word, SSRC/CSRC.
- Read-backs of the BYE and APP encodings.
- The walker accepts exactly the concatenations of well-framed packets, and decodes each piece on its own.
- Size bounds and the rejection conditions of the walker.

Two behaviours of the code are kept as written:

- On an unknown packet type the walker stops (`break` at src/lib.rs:218). The model returns `UnknownPacketType`.
- The APP encoder writes an `ext_len` word between the name and the payload, which section 6.7 of RFC 3550 does not have. The model writes it too.

The source reports every failure as `None`. The walker never returns its packets: both are marked FIXME in the source. The model instead returns `Result` values. Their error kinds are `BufferTooShort`, `LengthMismatch`, `InvalidVersion`, `UnknownPacketType`, and `Malformed`/`BlocksOutOfBounds` for an SR or RR that its parser refuses or that would index past its slice. On success the walker returns the list of decoded packets. SDES, BYE and APP packets have stub parsers in the source, so they are kept as `Undecoded(pt, count, body)`.

## Model

| member | source | states |
|---|---|---|
| Wire.ParseBeU32 | src/lib.rs:77-82 | the value read is octet 0·2^24 + octet 1·2^16 + octet 2·2^8 + octet 3 (the intended shifts) |
| Wire.Shift15Lane | src/lib.rs:79 | shifting an octet left by 15 and masking bits 16..23 leaves half the octet, rounded down, times 2^16 |
| Wire.ParseBeU32AsWritten | src/lib.rs:77-82 | the reader as written (octet 1 shifted by 15) never returns more than the intended value |
| Wire.ParseBeU32AsWrittenLosesByte1 | src/lib.rs:77-82 | the reader as written returns the intended value minus (b1 − ⌊b1/2⌋)·2^16; it is right exactly when octet 1 is 0 |
| Wire.ParseBeU32AsWrittenCounterexample | src/lib.rs:79 | on [0, 1, 0, 0] the intended value is 65536 and the reader as written returns 0 |
| Wire.ParseBeU64 | src/lib.rs:84-93 | the 64-bit read is the 32-bit word at offset times 2^32 plus the word at offset + 4 |
| Wire.Shift46Lane | src/lib.rs:85 | octet 0 shifted by 46 never reaches the mask of bits 56..63 |
| Wire.ParseBeU64AsWritten | src/lib.rs:84-93 | the 64-bit reader as written (octet 0 shifted by 46) never sets any of bits 56..63 |
| Wire.ParseBeU64AsWrittenDropsByte0 | src/lib.rs:84-93 | the 64-bit reader as written returns the intended value minus octet 0·2^56; it is right exactly when octet 0 is 0 |
| Wire.Be32Bytes | src/packet.rs:47-55 | a 32-bit value written as four octets reads back, through the big-endian reader, as the same value |
| Wire.Be32BytesOfParse | src/packet.rs:47-55 | writing the value read at an offset reproduces the four octets read |
| Wire.ParseBeU32Local | src/lib.rs:77-82 | the reader depends only on the four octets at the offset |
| Sources.Ssrc.FromU32 | src/packet.rs:41-43 | `to_u32` of `from_u32(n)` is n |
| Sources.Ssrc.ToU32 | src/packet.rs:44-46 | the integer returned, wrapped again, is the same identifier |
| Sources.Ssrc.ToBytes | src/packet.rs:47-55 | the four octets are the identifier, most significant first, and read back as the identifier |
| Sources.SsrcU32RoundTrip | src/packet.rs:41-46 | `from_u32` and `to_u32` are inverse in both directions |
| Sources.Csrc.FromU32 | src/packet.rs:64-66 | `to_u32` of `from_u32(n)` is n |
| Sources.Csrc.ToU32 | src/packet.rs:67-69 | the integer returned, wrapped again, is the same identifier |
| Sources.Csrc.ToBytes | src/packet.rs:70-78 | the four octets are the identifier, most significant first, and read back as the identifier |
| Sources.CsrcU32RoundTrip | src/packet.rs:64-69 | `from_u32` and `to_u32` are inverse in both directions |
| HeaderCodec.ParseHeader | src/lib.rs:191-196 | version < 4, count < 32, and version·64 + padding·32 + count is octet 0 (every bit accounted for); the type is octet 1; the length is octets 2 and 3, big-endian |
| HeaderCodec.HeaderBytes | src/packet.rs:131-138 | the packed header is four octets |
| HeaderCodec.HeaderRoundTrip | src/packet.rs:131-138 | reading a written header gives back version, padding, count, type and length |
| HeaderCodec.HeaderBytesOfParse | src/lib.rs:191-196 | writing the fields of a read header reproduces its four octets |
| Reports.ParseReportBlock | src/lib.rs:95-105 | cumulative loss < 2^24, and fraction lost·2^24 + cumulative loss is the word at offset + 4 |
| Reports.ParseReportBlockLocal | src/lib.rs:95-105 | a report block depends only on its 24 octets |
| Reports.ReportBlockBytes | src/lib.rs:95-105 | the reference layout of a block (section 6.4.1 of RFC 3550) is 24 octets |
| Reports.ReportBlockRoundTrip | src/lib.rs:95-105 | decoding the layout of a block gives the block back |
| Reports.ReportBlockBytesOfParse | src/lib.rs:95-105 | the layout of a decoded block is the 24 octets it was read from |
| Reports.ReportBlocks | src/lib.rs:121-125 | n blocks, block i decoded at base + 24·i |
| Reports.DecodeSr | src/lib.rs:107-128 | None exactly when len < 6 (the smallest SR, corrected from the source's 7); otherwise an SR with the SSRC at 4, sender info at 8/16/20/24 and rc blocks, block i at 28 + 24·i |
| Reports.ParseSr | src/lib.rs:107-128 | the loop returns DecodeSr |
| Reports.SrTooShortAsWritten | src/lib.rs:108 | the check as written refuses every length DecodeSr refuses (below 6), and of the lengths DecodeSr accepts exactly one, 6 |
| Reports.DecodeRr | src/lib.rs:130-145 | None exactly when len < 1; otherwise an RR with the SSRC at 4 and rc blocks, block i at 8 + 24·i |
| Reports.ParseRr | src/lib.rs:130-145 | the loop returns DecodeRr |
| Reports.SrBlockOffsetAsWritten | src/lib.rs:123 | the 8-bit offset of SR block i is the intended offset 28 + 24·i modulo 256 |
| Reports.RrBlockOffsetAsWritten | src/lib.rs:140 | the 8-bit offset of RR block i is the intended offset 8 + 24·i modulo 256 |
| Reports.BlockOffsetsOverflow | src/lib.rs:122-140 | the 8-bit offsets as written are right for SR blocks 0..9 and RR blocks 0..10 and wrong for every later block up to 31; SR block 10 is read at octet 12 and RR block 11 at octet 16 |
| Compound.Dispatch | src/lib.rs:210-220 | UnknownPacketType exactly when the type is outside 200..204; an SR or RR carries count blocks; 202..204 stay undecoded with the body after the header |
| Compound.DispatchReports | src/lib.rs:210-212 | an SR or RR decodes exactly when its length field reaches the parser's minimum (6 for SR, 1 for RR) and its blocks lie inside the packet, and then it is DecodeSr/DecodeRr of the packet; Malformed exactly when the length field is too small; BlocksOutOfBounds exactly when it is large enough but the blocks run past the end |
| Compound.Walk | src/lib.rs:185-225 | the walk yields no packets exactly when no octets remain |
| Compound.DecodeCompound | src/lib.rs:176-228 | a buffer that decodes has at least 4 octets and at least one packet |
| Compound.ParsePacket | src/lib.rs:210-220 | the dispatch returns Dispatch |
| Compound.ParseRtcpPacket | src/lib.rs:176-228 | the walker loop over the first buflen octets returns DecodeCompound of them |
| Compound.ReadPacketAt | src/lib.rs:186-224 | one iteration either fails as the walk from the offset fails, or returns the first packet and the next offset, offset + 4·(len + 1), from which the walk goes on |
| Compound.WalkOk | src/lib.rs:208-224 | the walk past a first packet that decodes is that packet in front of the walk of the rest |
| Compound.WalkFirst | src/lib.rs:185-225 | a buffer starting with a well-framed packet decodes to that packet followed by the walk of the rest |
| Compound.DecodeSingle | src/lib.rs:176-228 | one well-framed packet decodes to exactly its decoding |
| Compound.EmptySrDecodes | src/lib.rs:107-128 | a 28-octet version-2 SR with count 0 and length 6 decodes to one SR with its SSRC and sender info and no blocks, although the check as written refuses its length |
| Compound.WalkConcat | src/lib.rs:185-225 | well-framed packets end to end walk to their decodings, one per packet, in order |
| Compound.DecodeCompoundOfConcat | src/lib.rs:176-228 | the same for the whole decode of one or more packets |
| Compound.WalkStep | src/lib.rs:185-225 | a successful walk starts with a well-framed packet and walks the rest successfully |
| Compound.WalkSplits | src/lib.rs:185-225 | a successful walk cuts the buffer into well-framed pieces, one per decoded packet |
| Compound.DecodeCompoundSplits | src/lib.rs:176-228 | a successful decode comes from one or more well-framed pieces whose concatenation is the buffer |
| Compound.WalkWords | src/lib.rs:224 | a successful walk covers a whole number of 32-bit words, at least one per packet |
| Compound.WalkSizes | src/lib.rs:198-224 | a buffer that decodes has a length divisible by 4 and at most one packet per 4 octets |
| Compound.DecodeRejects | src/lib.rs:177-219 | read off the raw first header: under 4 octets, an extent past the end, a version other than 2, and a type outside 200..204 each give their error |
| Compound.GuardPassesAsWritten | src/lib.rs:198 | the guard as written passes every packet whose full extent 4·(len + 1) fits the buffer |
| Compound.GuardAsWrittenOverruns | src/lib.rs:198-208 | the guard as written lets through exactly the extents that overrun the buffer by 1 to 4 octets; [0x80, 200, 0, 1] passes it and is refused with LengthMismatch |
| Packet.Sr.ToBytes | src/packet.rs:129-140 | the pushes produce the packed header, and reading it back gives every field |
| Packet.SsrcListBytes | src/packet.rs:310-312 | 4 octets per identifier, identifier i at octets 4·i..4·i + 4 |
| Packet.Bye.Encoding | src/packet.rs:300-314 | the encoding is 4 + 4·(number of sources) octets |
| Packet.Bye.ToBytes | src/packet.rs:300-314 | the loop produces the header followed by each identifier's octets, 4 + 4·n octets |
| Packet.ByeReadBack | src/packet.rs:300-314 | reading the encoding gives the header fields, and identifier i at octet 4 + 4·i |
| Packet.ByeDecodesAsOnePacket | src/packet.rs:300-314 | a version-2 BYE whose length counts its sources decodes, through the walker, as one type-203 packet whose body is the identifier list |
| Packet.App.Encoding | src/packet.rs:331-350 | the encoding is 12 + name + payload octets |
| Packet.App.ToBytes | src/packet.rs:331-350 | the pushes produce header, SSRC, name, `ext_len` and payload, 12 + name + payload octets |
| Packet.AppReadBack | src/packet.rs:331-350 | the encoding gives back the header, the SSRC at 4, the name at 8, `ext_len` after it and the payload at the end |
| Packet.AppDecodesAsOnePacket | src/packet.rs:331-350 | a version-2 APP whose length covers its octets decodes, through the walker, as one type-204 packet |
| Packet.KindCode | src/packet.rs:233-249 | every assigned item kind has a code below 12 |
| Packet.SdesItem.FromU8 | src/packet.rs:270-287 | never an error; codes 0..11 give the assigned kind with that code; 12..255 give UNASSIGNED; the item stores the code |
| Packet.SdesItem.ToU8 | src/packet.rs:253-269 | for an item whose stored code is its kind's, `from_u8` of the returned code gives that kind back; an UNASSIGNED item with a code of 12 or more gives UNASSIGNED |
| Packet.SdesCodeRoundTrip | src/packet.rs:253-287 | `to_u8` of `from_u8(n)` is n, and distinct assigned codes give distinct kinds |

## Left out

- `SSRC::new` and `CSRC::new` (src/packet.rs:37-40, 60-63): they draw a random identifier, and randomness is not modelled.
- `RtpSession::new`/`run` (src/lib.rs:57-68) and `parse_rtp_packet` (src/lib.rs:71-74) are stubs: `new` sets the SSRC to 0, `run` returns a zero packet count, and `parse_rtp_packet` prints and returns None. Session state, jitter and loss tracking are not modelled.
- The `println!` diagnostics on every rejection path are not modelled.
- `parse_sdes`, `parse_bye` and `parse_app` (src/lib.rs:147-174) are stubs. `parse_bye` and `parse_app` call `unimplemented!()`. `parse_sdes` returns None, but with SC ≥ 1 it first reads the word at octet 4 (src/lib.rs:148-152), so on a one-word SDES packet (length field 0) it indexes past its 4-octet slice and panics. The model keeps every SDES, BYE and APP packet undecoded, that one included. The SDES chunk structure and item text (UTF-8 validity) are not decoded.
- The RR and SDES structs of src/packet.rs have no operations. They are represented only by the decoded `Reports.RtcpPacket` values.
- The binary-string mechanism of `to_bytes` (`format!` with `{:0Nb}` and `u8::from_str_radix`) is modelled by its result only.
- Packet.Sr.ToBytes, Packet.Bye.ToBytes, Packet.App.ToBytes: require version < 4, padding < 2 and count < 32, the widths declared at src/packet.rs:122-124. Wider values widen their binary rendering. When the joined digits exceed 255 the `unwrap` panics, which happens for every version of 2 or more. Otherwise the source returns an octet in which the fields overlap, with no error. Examples: version 0, padding 0, count 32 gives 32; version 1, padding 2, count 0 gives 192. Those non-panicking outputs are not modelled.
- Code that does not compile is modelled as its evident intent. Octets are pushed as `Result`s without `unwrap` at src/packet.rs:50-53 and 73-76 (SSRC/CSRC), 137-138, 308-309 and 339-340 (length) and 344-347 (`ext_len`). `SDES_ITEM::from_u8` builds variants without their fields, which the model fills with the code, length 0 and empty content. `to_u8` dereferences a `u8` field. `APP::to_bytes` moves `self.ext` out of a borrow.
- Reports.ParseSr: requires that the report blocks lie inside the packet when len ≥ 6, because the source indexes past the slice otherwise (a panic). The walker checks this first and reports `BlocksOutOfBounds`.
- Reports.ParseRr: requires that the report blocks lie inside the packet when len ≥ 1, for the same reason.
- Compound.ParseRtcpPacket: requires buflen ≤ the buffer length. The source would panic on the first index past the buffer.
- Compound.ParseRtcpPacket: a refused SR or RR fails the whole decode. The source computes the parser result and then ignores it.
- The unused `p` (padding) argument of `parse_sr`/`parse_rr` is kept as a parameter but has no effect, as in the source.

## Findings

| source | as written | input that shows it | evidently intended | confidence | as-written member | corrected member |
|---|---|---|---|---|---|---|
| src/lib.rs:79 | octet 1 shifted left by 15 before masking bits 16..23 | octets [0, 1, 0, 0] read 0 instead of 65536 | shift by 16 | high; not executed | Wire.ParseBeU32AsWrittenCounterexample | Wire.ParseBeU32 |
| src/lib.rs:85 | octet 0 shifted left by 46 before masking bits 56..63 | any 8 octets with octet 0 ≠ 0, e.g. [1, 0, 0, 0, 0, 0, 0, 0] read 0 instead of 2^56 | shift by 56 | high; not executed | Wire.ParseBeU64AsWrittenDropsByte0 | Wire.ParseBeU64 |
| src/lib.rs:123 | block offset `28 + i*24` computed in u8 | an SR with count 11: its last block (i = 10) is read at octet 12 (wrapped) instead of 268; likewise at src/lib.rs:140 an RR with count 12: block i = 11 is read at octet 16 instead of 272 | compute the offset as usize | high; not executed | Reports.BlockOffsetsOverflow | Reports.ParseSr |
| src/lib.rs:108 | `len < 7` refuses an SR | an SR without report blocks, e.g. [0x80, 200, 0, 6] followed by 24 octets: 28 octets, length field 6, refused although every field read lies inside it | `len < 6`, since the smallest SR is 7 words | high; not executed | Reports.SrTooShortAsWritten | Compound.EmptySrDecodes |
| src/lib.rs:198 | bounds check `offset + 4*len > buflen` | [0x80, 200, 0, 1]: length 1 passes the check, then the 8-octet slice at line 208 overruns the 4-octet buffer | check `offset + 4*(len + 1) > buflen` | high; not executed | Compound.GuardAsWrittenOverruns | Compound.ParseRtcpPacket |

/**
 * The packet structures of src/packet.rs and their serialisers.
 *
 * `to_bytes` builds its output octet by octet: the header octets of
 * HeaderCodec.HeaderBytes, then the packet's own fields, each multi-octet field
 * most significant octet first. The `ToBytes` methods below make those pushes,
 * and the BYE and APP ones are proved equal to an `Encoding` function; the lemmas read the fields back
 * from the encoding and run the compound walker of src/lib.rs over it.
 *
 * Not-compiling constructs of the source are modelled as evidently intended:
 * the octets pushed at src/packet.rs:137-138, 308-309, 339-340 and 344-347 (and
 * in the identifier writers at 50-53 and 73-76) are `Result`s where the
 * `unwrap`ped octet is meant; `bytes.extend(self.ext)` at src/packet.rs:348
 * moves out of a borrowed field where a copy is meant.
 */
module Packet {
  import opened Wire
  import opened Sources
  import opened HeaderCodec
  import Reports
  import Compound

  /** The header fields of a sender report (src/packet.rs:120-127). */
  datatype Sr = Sr(version: byte, padding: byte, rc: byte, pt: byte, length: u16)
  {
    /**
     * `SR::to_bytes` (src/packet.rs:129-140): the four header octets. Reading
     * them with the header extraction of the compound walker gives every field
     * back. The requires clause keeps version, padding and count to their
     * declared widths (src/packet.rs:122-124); HeaderCodec.HeaderBytes says what
     * the source does with wider values.
     */
    method ToBytes() returns (bytes: seq<byte>)
      requires version < 4 && padding < 2 && rc < 32
      ensures bytes == HeaderBytes(version, padding, rc, pt, length)
      ensures |bytes| == 4
      ensures bytes[0] == version as int * 64 + padding as int * 32 + rc as int && bytes[1] == pt
      ensures bytes[2] as int * 0x100 + bytes[3] as int == length
      ensures ParseHeader(bytes, 0) == Header(version, padding == 1, rc, pt, length)
    {
      bytes := [];
      bytes := bytes + [version * 64 + padding * 32 + rc];
      bytes := bytes + [pt];
      bytes := bytes + [length / 0x100];
      bytes := bytes + [length % 0x100];
      HeaderRoundTrip(version, padding, rc, pt, length);
    }
  }

  /**
   * A list of identifiers, four octets each, in list order. Identifier i
   * occupies octets 4 * i .. 4 * i + 4.
   */
  function SsrcListBytes(list: seq<Ssrc>): (bytes: seq<byte>)
    ensures |bytes| == 4 * |list|
    ensures forall i :: 0 <= i < |list| ==> bytes[4 * i..4 * i + 4] == Be32Bytes(list[i].id)
  {
    if |list| == 0 then []
    else
      var init := SsrcListBytes(list[..|list| - 1]);
      var bytes := init + Be32Bytes(list[|list| - 1].id);
      assert forall i :: 0 <= i < |list| - 1 ==> bytes[4 * i..4 * i + 4] == init[4 * i..4 * i + 4];
      bytes
  }

  /** A goodbye packet (src/packet.rs:290-298): the header fields and the departing sources. */
  datatype Bye = Bye(version: byte, padding: byte, sc: byte, pt: byte, length: u16, ssrc: seq<Ssrc>)
  {
    /** The octets `BYE::to_bytes` writes: the header, then each identifier in list order. */
    function Encoding(): (bytes: seq<byte>)
      requires version < 4 && padding < 2 && sc < 32
      ensures |bytes| == 4 + 4 * |ssrc|
    {
      HeaderBytes(version, padding, sc, pt, length) + SsrcListBytes(ssrc)
    }

    /**
     * `BYE::to_bytes` (src/packet.rs:300-314): the header octets, then a loop
     * appending the four octets of each identifier.
     */
    method ToBytes() returns (bytes: seq<byte>)
      requires version < 4 && padding < 2 && sc < 32
      ensures bytes == Encoding()
      ensures |bytes| == 4 + 4 * |ssrc|
    {
      bytes := [];
      bytes := bytes + [version * 64 + padding * 32 + sc];
      bytes := bytes + [pt];
      bytes := bytes + [length / 0x100];
      bytes := bytes + [length % 0x100];
      for i := 0 to |ssrc|
        invariant bytes == HeaderBytes(version, padding, sc, pt, length) + SsrcListBytes(ssrc[..i])
      {
        var b := ssrc[i].ToBytes();
        assert ssrc[..i + 1][..i] == ssrc[..i];
        bytes := bytes + b;
      }
      assert ssrc[..|ssrc|] == ssrc;
    }
  }

  /**
   * Reading a BYE encoding back: the header gives every header field, and the
   * 32-bit word at octet 4 + 4 * i is identifier i.
   */
  lemma ByeReadBack(bye: Bye)
    requires bye.version < 4 && bye.padding < 2 && bye.sc < 32
    ensures ParseHeader(bye.Encoding(), 0) == Header(bye.version, bye.padding == 1, bye.sc, bye.pt, bye.length)
    ensures forall i :: 0 <= i < |bye.ssrc| ==> ParseBeU32(bye.Encoding(), 4 + 4 * i) == bye.ssrc[i].id
  {
    var w := bye.Encoding();
    var header := HeaderBytes(bye.version, bye.padding, bye.sc, bye.pt, bye.length);
    var list := SsrcListBytes(bye.ssrc);
    HeaderRoundTrip(bye.version, bye.padding, bye.sc, bye.pt, bye.length);
    assert ParseHeader(w, 0) == ParseHeader(header, 0);
    forall i | 0 <= i < |bye.ssrc|
      ensures ParseBeU32(w, 4 + 4 * i) == bye.ssrc[i].id
    {
      assert w[4 + 4 * i..4 + 4 * i + 4] == list[4 * i..4 * i + 4];
      ParseBeU32Local(w, 4 + 4 * i, Be32Bytes(bye.ssrc[i].id), 0);
    }
  }

  /**
   * A BYE of version 2 whose length field counts its identifiers, as section
   * 6.6 of RFC 3550 lays it out, is framed by the compound walker as exactly
   * one packet of type 203 whose body is the identifier list.
   */
  lemma ByeDecodesAsOnePacket(bye: Bye)
    requires bye.version == 2 && bye.padding < 2 && bye.sc < 32 && bye.pt == 203
    requires bye.length as int == |bye.ssrc|
    ensures Compound.DecodeCompound(bye.Encoding())
            == Wire.Ok([Reports.Undecoded(203, bye.sc, SsrcListBytes(bye.ssrc))])
  {
    var w := bye.Encoding();
    var h := Header(bye.version, bye.padding == 1, bye.sc, bye.pt, bye.length);
    HeaderRoundTrip(bye.version, bye.padding, bye.sc, bye.pt, bye.length);
    assert ParseHeader(w, 0) == h;
    assert w[4..] == SsrcListBytes(bye.ssrc);
    assert Compound.DecodeOne(w) == Wire.Ok(Reports.Undecoded(203, bye.sc, w[4..]));
    Compound.DecodeSingle(w);
  }

  /** An application-defined packet (src/packet.rs:317-329). */
  datatype App = App(
    version: byte,
    padding: byte,
    subtype: byte,
    pt: byte,
    length: u16,
    ssrc: Ssrc,
    name: seq<byte>,
    extLen: u32,
    ext: seq<byte>)
  {
    /**
     * The octets `APP::to_bytes` writes: the header, the SSRC, the name's octets
     * as they are, the `ext_len` field of the source (not part of section 6.7 of
     * RFC 3550) as four octets, and the payload.
     */
    function Encoding(): (bytes: seq<byte>)
      requires version < 4 && padding < 2 && subtype < 32
      ensures |bytes| == 12 + |name| + |ext|
    {
      HeaderBytes(version, padding, subtype, pt, length) + Be32Bytes(ssrc.id) + name + Be32Bytes(extLen) + ext
    }

    /** `APP::to_bytes` (src/packet.rs:331-350), field after field. */
    method ToBytes() returns (bytes: seq<byte>)
      requires version < 4 && padding < 2 && subtype < 32
      ensures bytes == Encoding()
      ensures |bytes| == 12 + |name| + |ext|
    {
      bytes := [];
      bytes := bytes + [version * 64 + padding * 32 + subtype];
      bytes := bytes + [pt];
      bytes := bytes + [length / 0x100];
      bytes := bytes + [length % 0x100];
      var id := ssrc.ToBytes();
      bytes := bytes + id;
      bytes := bytes + name;
      bytes := bytes + [extLen / 0x100_0000];
      bytes := bytes + [extLen / 0x1_0000 % 0x100];
      bytes := bytes + [extLen / 0x100 % 0x100];
      bytes := bytes + [extLen % 0x100];
      bytes := bytes + ext;
    }
  }

  /**
   * Reading an APP encoding back: the header, the SSRC at octet 4, the name at
   * octets 8 .. 8 + |name|, `ext_len` right after it and the payload at the end.
   */
  lemma AppReadBack(app: App)
    requires app.version < 4 && app.padding < 2 && app.subtype < 32
    ensures var w := app.Encoding();
            var n := |app.name|;
            ParseHeader(w, 0) == Header(app.version, app.padding == 1, app.subtype, app.pt, app.length)
            && ParseBeU32(w, 4) == app.ssrc.id
            && w[8..8 + n] == app.name
            && ParseBeU32(w, 8 + n) == app.extLen
            && w[12 + n..] == app.ext
  {
    var w := app.Encoding();
    var n := |app.name|;
    var header := HeaderBytes(app.version, app.padding, app.subtype, app.pt, app.length);
    HeaderRoundTrip(app.version, app.padding, app.subtype, app.pt, app.length);
    assert ParseHeader(w, 0) == ParseHeader(header, 0);
    assert w[4..8] == Be32Bytes(app.ssrc.id);
    ParseBeU32Local(w, 4, Be32Bytes(app.ssrc.id), 0);
    assert w[8 + n..12 + n] == Be32Bytes(app.extLen);
    ParseBeU32Local(w, 8 + n, Be32Bytes(app.extLen), 0);
  }

  /**
   * An APP of version 2 whose length field accounts for all of its octets is
   * framed by the compound walker as exactly one packet of type 204, its body
   * everything after the header.
   */
  lemma AppDecodesAsOnePacket(app: App)
    requires app.version == 2 && app.padding < 2 && app.subtype < 32 && app.pt == 204
    requires 4 * (app.length as int + 1) == 12 + |app.name| + |app.ext|
    ensures Compound.DecodeCompound(app.Encoding())
            == Wire.Ok([Reports.Undecoded(204, app.subtype, app.Encoding()[4..])])
  {
    var w := app.Encoding();
    var h := Header(app.version, app.padding == 1, app.subtype, app.pt, app.length);
    HeaderRoundTrip(app.version, app.padding, app.subtype, app.pt, app.length);
    assert ParseHeader(w, 0) == h;
    assert Compound.DecodeOne(w) == Wire.Ok(Reports.Undecoded(204, app.subtype, w[4..]));
    Compound.DecodeSingle(w);
  }

  /**
   * SDES item types (section 12.2 of RFC 3550 and the IANA registry, listed at
   * src/packet.rs:204-214 and 233-249). The source's enum has thirteen variants
   * that all carry the same three fields; here the variant is the `kind` of one
   * record type.
   */
  datatype SdesKind = End | Cname | Name | Email | Phone | Loc | Tool | Note | Priv | H323Caddr | Apsi | Rgrp | Unassigned

  /** The assigned item codes, as the registry lists them. */
  function KindCode(kind: SdesKind): (code: byte)
    requires kind != Unassigned
    ensures code < 12
  {
    match kind
    case End => 0
    case Cname => 1
    case Name => 2
    case Email => 3
    case Phone => 4
    case Loc => 5
    case Tool => 6
    case Note => 7
    case Priv => 8
    case H323Caddr => 9
    case Apsi => 10
    case Rgrp => 11
  }

  datatype SdesItem = SdesItem(kind: SdesKind, value: byte, length: byte, content: seq<byte>)
  {
    /**
     * `SDES_ITEM::to_u8` (src/packet.rs:253-269): the stored code, whatever the
     * variant. For an item whose code is its kind's, `from_u8` of the code
     * gives that kind back.
     */
    function ToU8(): (code: byte)
      ensures kind != Unassigned && value == KindCode(kind) ==> SdesItem.FromU8(code).value.kind == kind
      ensures kind == Unassigned && 12 <= value ==> SdesItem.FromU8(code).value.kind == Unassigned
    {
      value
    }

    /**
     * `SDES_ITEM::from_u8` (src/packet.rs:270-287). The source builds each
     * variant without its fields, which does not compile; the model fills in
     * the code it was given, an empty content and its length 0. Codes 0..11 are
     * the assigned kinds, each its own; every code from 12 to 255 is
     * UNASSIGNED, so the `Err` arm is never taken.
     */
    static function FromU8(n: byte): (r: Result<SdesItem, string>)
      ensures r.Ok?
      ensures r.value.value == n && r.value.length == 0 && r.value.content == []
      ensures n < 12 ==> r.value.kind != Unassigned && KindCode(r.value.kind) == n
      ensures n >= 12 ==> r.value.kind == Unassigned
    {
      var kind :=
        if n == 0 then End
        else if n == 1 then Cname
        else if n == 2 then Name
        else if n == 3 then Email
        else if n == 4 then Phone
        else if n == 5 then Loc
        else if n == 6 then Tool
        else if n == 7 then Note
        else if n == 8 then Priv
        else if n == 9 then H323Caddr
        else if n == 10 then Apsi
        else if n == 11 then Rgrp
        else Unassigned;
      if 0 <= n <= 255 then Ok(SdesItem(kind, n, 0, [])) else Err("_")
    }
  }

  /**
   * Item codes survive the trip through an item: `to_u8` of the item built by
   * `from_u8` is the code again, and distinct assigned codes give distinct kinds.
   */
  lemma SdesCodeRoundTrip(n: byte, m: byte)
    ensures SdesItem.FromU8(n).value.ToU8() == n
    ensures n < 12 && m < 12 && n != m ==> SdesItem.FromU8(n).value.kind != SdesItem.FromU8(m).value.kind
  {
  }
}

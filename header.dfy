/**
 * The four-octet header every RTCP packet starts with (section 6.1 of RFC 3550):
 * V(2) P(1) count(5) in octet 0, the packet type in octet 1 and the length, in
 * 32-bit words minus one, in octets 2 and 3.
 *
 * ParseHeader is the field extraction at the top of each iteration of the
 * compound walker (src/lib.rs:191-196); HeaderBytes is the header packing that
 * `to_bytes` of SR, BYE and APP share (src/packet.rs:131-138).
 */
module HeaderCodec {
  import opened Wire

  datatype Header = Header(version: byte, padding: bool, count: byte, pt: byte, length: u16)

  /**
   * The header fields at `offset`: version is octet 0 shifted right by 6 and
   * masked with 0x03, padding is bit 5, the count is the low five bits; the
   * length is octet 2 shifted into bits 8..15 plus octet 3 masked with 0x0fff
   * (a wider mask than needed, harmless for an octet). Together the three fields
   * of octet 0 account for every one of its bits.
   */
  function ParseHeader(buf: seq<byte>, offset: nat): (h: Header)
    requires offset + 4 <= |buf|
    ensures h.version < 4 && h.count < 32
    ensures buf[offset] as int == h.version as int * 64 + (if h.padding then 32 else 0) + h.count as int
    ensures h.pt == buf[offset + 1]
    ensures h.length as int == buf[offset + 2] as int * 0x100 + buf[offset + 3] as int
  {
    var b0 := buf[offset];
    Header(b0 / 64 % 4,
           b0 / 32 % 2 == 1,
           b0 % 32,
           buf[offset + 1],
           Lane(buf[offset + 2], 0x100, TwoTo64, 0x100) + buf[offset + 3] % 0x1000)
  }

  /**
   * The header octets written by `to_bytes`. The source renders the version,
   * padding and count as 2-, 1- and 5-digit binary strings, joins them and reads
   * the 8 digits back in base 2; it renders the length as 16 binary digits and
   * reads back the first and the last eight. The requires clause keeps the
   * three fields to the widths their declarations give them (2, 1 and 5 bits,
   * src/packet.rs:122-124). A wider value widens its rendering: when the joined
   * digits then exceed 255 the `unwrap` panics, and otherwise the fields run into
   * each other inside octet 0 (version 0, padding 0 and count 32 give octet 32).
   */
  function HeaderBytes(version: byte, padding: byte, count: byte, pt: byte, length: u16): (bytes: seq<byte>)
    requires version < 4 && padding < 2 && count < 32
    ensures |bytes| == 4
  {
    [version * 64 + padding * 32 + count, pt, length / 0x100, length % 0x100]
  }

  /** Reading back a header that `to_bytes` wrote recovers every field. */
  lemma HeaderRoundTrip(version: byte, padding: byte, count: byte, pt: byte, length: u16)
    requires version < 4 && padding < 2 && count < 32
    ensures ParseHeader(HeaderBytes(version, padding, count, pt, length), 0)
            == Header(version, padding == 1, count, pt, length)
  {
    var h := ParseHeader(HeaderBytes(version, padding, count, pt, length), 0);
    assert h.length == length;
    assert h.count == count;
    assert h.version == version;
  }

  /** Writing back the fields of a parsed header reproduces its four octets. */
  lemma HeaderBytesOfParse(buf: seq<byte>, offset: nat)
    requires offset + 4 <= |buf|
    ensures var h := ParseHeader(buf, offset);
            HeaderBytes(h.version, if h.padding then 1 else 0, h.count, h.pt, h.length)
            == buf[offset..offset + 4]
  {
    var h := ParseHeader(buf, offset);
    var bytes := HeaderBytes(h.version, if h.padding then 1 else 0, h.count, h.pt, h.length);
    assert bytes[0] == buf[offset];
    assert bytes[2] == buf[offset + 2];
    assert bytes[3] == buf[offset + 3];
  }
}

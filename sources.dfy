/**
 * The source identifiers of src/packet.rs: SSRC and CSRC wrap a 32-bit
 * integer (section 5.1 of RFC 3550), convert to and from it, and serialise as
 * four octets, most significant first.
 */
module Sources {
  import opened Wire

  /** A synchronization source identifier (src/packet.rs:35-56). */
  datatype Ssrc = Ssrc(id: u32)
  {
    /** `SSRC::from_u32` (src/packet.rs:41-43): the identifier converts back to the same integer. */
    static function FromU32(n: u32): (s: Ssrc)
      ensures s.ToU32() == n
    {
      Ssrc(n)
    }

    /** `SSRC::to_u32` (src/packet.rs:44-46): the integer that, wrapped again, is this identifier. */
    function ToU32(): (n: u32)
      ensures Ssrc(n) == this
    {
      id
    }

    /**
     * `SSRC::to_bytes` (src/packet.rs:47-55; the pushes at 50-53 lack the
     * `unwrap` that makes them octets): the 32-digit binary rendering of
     * the identifier, read back eight digits at a time. The four octets are the
     * identifier most significant first, and the big-endian reader of
     * src/lib.rs turns them back into the identifier.
     */
    method ToBytes() returns (bytes: seq<byte>)
      ensures bytes == Be32Bytes(id)
      ensures |bytes| == 4 && ParseBeU32(bytes, 0) == id
      ensures bytes[0] == id / 0x100_0000 && bytes[1] == id / 0x1_0000 % 0x100
              && bytes[2] == id / 0x100 % 0x100 && bytes[3] == id % 0x100
    {
      bytes := [];
      bytes := bytes + [id / 0x100_0000];
      bytes := bytes + [id / 0x1_0000 % 0x100];
      bytes := bytes + [id / 0x100 % 0x100];
      bytes := bytes + [id % 0x100];
    }
  }

  /** `SSRC::to_u32` undoes `SSRC::from_u32`, and the other way round. */
  lemma SsrcU32RoundTrip(n: u32, s: Ssrc)
    ensures Ssrc.FromU32(n).ToU32() == n
    ensures Ssrc.FromU32(s.ToU32()) == s
  {
  }

  /** A contributing source identifier (src/packet.rs:58-79), with the same conversions as Ssrc. */
  datatype Csrc = Csrc(id: u32)
  {
    /** `CSRC::from_u32` (src/packet.rs:64-66). */
    static function FromU32(n: u32): (c: Csrc)
      ensures c.ToU32() == n
    {
      Csrc(n)
    }

    /** `CSRC::to_u32` (src/packet.rs:67-69): the integer that, wrapped again, is this identifier. */
    function ToU32(): (n: u32)
      ensures Csrc(n) == this
    {
      id
    }

    /** `CSRC::to_bytes` (src/packet.rs:70-78): four octets, most significant first. */
    method ToBytes() returns (bytes: seq<byte>)
      ensures bytes == Be32Bytes(id)
      ensures |bytes| == 4 && ParseBeU32(bytes, 0) == id
      ensures bytes[0] == id / 0x100_0000 && bytes[1] == id / 0x1_0000 % 0x100
              && bytes[2] == id / 0x100 % 0x100 && bytes[3] == id % 0x100
    {
      bytes := [];
      bytes := bytes + [id / 0x100_0000];
      bytes := bytes + [id / 0x1_0000 % 0x100];
      bytes := bytes + [id / 0x100 % 0x100];
      bytes := bytes + [id % 0x100];
    }
  }

  /** `CSRC::to_u32` undoes `CSRC::from_u32`, and the other way round. */
  lemma CsrcU32RoundTrip(n: u32, c: Csrc)
    ensures Csrc.FromU32(n).ToU32() == n
    ensures Csrc.FromU32(c.ToU32()) == c
  {
  }
}

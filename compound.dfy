/**
 * The compound-packet walker `parse_rtcp_packet` (src/lib.rs:176-228): a
 * compound RTCP packet is a run of RTCP packets laid end to end (section 6.1 of
 * RFC 3550), each one's extent given by the length field of its own header.
 *
 * Walk is the specification, a recursion over the remaining octets;
 * ParseRtcpPacket is the loop of the source, proved to compute it. The lemmas
 * characterise success: a buffer decodes exactly when it is a non-empty
 * concatenation of well-framed packets, and then it decodes to those packets.
 */
module Compound {
  import opened Wire
  import opened HeaderCodec
  import opened Sources
  import opened Reports

  /** Why a buffer does not decode. The source prints a diagnostic and returns None for each. */
  datatype CodecError =
    | BufferTooShort               // fewer than 4 octets where a header is expected
    | LengthMismatch               // the declared extent runs past the end of the buffer
    | InvalidVersion               // the version field is not 2
    | UnknownPacketType(pt: byte)  // a packet type outside 200..204: the walk stops
    | Malformed(pt: byte)          // the SR or RR parser returned None
    | BlocksOutOfBounds(pt: byte)  // report blocks past the packet's end: an index panic in the source

  /** The octets a packet occupies: its length field counts 32-bit words minus one. */
  function Extent(h: Header): nat
  {
    4 * (h.length + 1)
  }

  /**
   * The dispatch on the packet type (src/lib.rs:210-220) for one packet whose
   * octets are `packet`. SR and RR go to their parsers; the SDES parser of the
   * source returns None (or, for a one-word packet with SC of 1 or more, reads
   * past its slice) and the BYE and APP parsers are unimplemented, so those
   * packets are kept undecoded; any other type stops the walk.
   */
  function Dispatch(h: Header, packet: seq<byte>): (r: Result<RtcpPacket, CodecError>)
    requires |packet| == Extent(h)
    ensures r == Err(UnknownPacketType(h.pt)) <==> !(200 <= h.pt <= 204)
    ensures r.Ok? && h.pt == 200 ==> r.value.SR? && |r.value.blocks| == h.count as int
    ensures r.Ok? && h.pt == 201 ==> r.value.RR? && |r.value.blocks| == h.count as int
    ensures 202 <= h.pt <= 204 ==> r == Ok(Undecoded(h.pt, h.count, packet[4..]))
  {
    if h.pt == 200 then
      if h.length < 6 || 28 + 24 * h.count <= |packet| then
        match DecodeSr(h.count, h.length, packet)
        case None => Err(Malformed(200))
        case Some(p) => Ok(p)
      else Err(BlocksOutOfBounds(200))
    else if h.pt == 201 then
      if h.length < 1 || 8 + 24 * h.count <= |packet| then
        match DecodeRr(h.count, h.length, packet)
        case None => Err(Malformed(201))
        case Some(p) => Ok(p)
      else Err(BlocksOutOfBounds(201))
    else if 202 <= h.pt <= 204 then
      Ok(Undecoded(h.pt, h.count, packet[4..]))
    else
      Err(UnknownPacketType(h.pt))
  }

  /**
   * What the dispatch makes of an SR or RR: it succeeds exactly when the
   * length field is large enough for the parser and the report blocks lie
   * inside the packet, and then it is the parser's result. A length field too
   * small is Malformed; blocks past the end are BlocksOutOfBounds.
   */
  lemma DispatchReports(h: Header, packet: seq<byte>)
    requires |packet| == Extent(h)
    ensures h.pt == 200 ==> (Dispatch(h, packet).Ok? <==> 6 <= h.length && 28 + 24 * h.count <= |packet|)
    ensures h.pt == 200 && Dispatch(h, packet).Ok? ==> Some(Dispatch(h, packet).value) == DecodeSr(h.count, h.length, packet)
    ensures h.pt == 200 ==> (Dispatch(h, packet) == Err(Malformed(200)) <==> h.length < 6)
    ensures h.pt == 200 ==> (Dispatch(h, packet) == Err(BlocksOutOfBounds(200))
                             <==> 6 <= h.length && |packet| < 28 + 24 * h.count)
    ensures h.pt == 201 ==> (Dispatch(h, packet).Ok? <==> 1 <= h.length && 8 + 24 * h.count <= |packet|)
    ensures h.pt == 201 && Dispatch(h, packet).Ok? ==> Some(Dispatch(h, packet).value) == DecodeRr(h.count, h.length, packet)
    ensures h.pt == 201 ==> (Dispatch(h, packet) == Err(Malformed(201)) <==> h.length < 1)
    ensures h.pt == 201 ==> (Dispatch(h, packet) == Err(BlocksOutOfBounds(201))
                             <==> 1 <= h.length && |packet| < 8 + 24 * h.count)
  {
  }

  /**
   * The walk over what remains of the buffer, in the order of the source's
   * checks: fewer than 4 octets left, then the extent, then the version, then
   * the packet type; a failure anywhere fails the whole walk. It yields no
   * packets exactly when nothing remains.
   */
  function Walk(buf: seq<byte>): (r: Result<seq<RtcpPacket>, CodecError>)
    ensures r == Ok([]) <==> |buf| == 0
    decreases |buf|
  {
    if |buf| == 0 then Ok([])
    else if |buf| < 4 then Err(BufferTooShort)
    else
      var h := ParseHeader(buf, 0);
      if Extent(h) > |buf| then Err(LengthMismatch)
      else if h.version != 2 then Err(InvalidVersion)
      else
        match Dispatch(h, buf[..Extent(h)])
        case Err(e) => Err(e)
        case Ok(p) =>
          match Walk(buf[Extent(h)..])
          case Err(e) => Err(e)
          case Ok(ps) => Ok([p] + ps)
  }

  /**
   * The whole decode: a buffer of fewer than 4 octets is refused before the
   * walk starts, so a buffer that decodes has a header and at least one packet.
   */
  function DecodeCompound(buf: seq<byte>): (r: Result<seq<RtcpPacket>, CodecError>)
    ensures r.Ok? ==> 4 <= |buf| && 0 < |r.value|
  {
    if |buf| < 4 then Err(BufferTooShort) else Walk(buf)
  }

  /** The packets decoded so far, in front of the outcome of the rest of the walk. */
  function Prepend(packets: seq<RtcpPacket>, rest: Result<seq<RtcpPacket>, CodecError>): Result<seq<RtcpPacket>, CodecError>
  {
    match rest
    case Err(e) => Err(e)
    case Ok(ps) => Ok(packets + ps)
  }

  lemma PrependNothing(rest: Result<seq<RtcpPacket>, CodecError>)
    ensures Prepend([], rest) == rest
  {
    if rest.Ok? {
      assert [] + rest.value == rest.value;
    }
  }

  /**
   * The `match pt` of the walker's loop body (src/lib.rs:210-220), handing the
   * packet's octets to the SR or RR parser.
   */
  method ParsePacket(h: Header, packet: seq<byte>) returns (r: Result<RtcpPacket, CodecError>)
    requires |packet| == Extent(h)
    ensures r == Dispatch(h, packet)
  {
    if h.pt == 200 {
      if !(h.length < 6 || 28 + 24 * h.count <= |packet|) {
        return Err(BlocksOutOfBounds(200));
      }
      var sr := ParseSr(h.padding, h.count, h.length, packet);
      if sr.None? {
        return Err(Malformed(200));
      }
      return Ok(sr.value);
    } else if h.pt == 201 {
      if !(h.length < 1 || 8 + 24 * h.count <= |packet|) {
        return Err(BlocksOutOfBounds(201));
      }
      var rr := ParseRr(h.padding, h.count, h.length, packet);
      if rr.None? {
        return Err(Malformed(201));
      }
      return Ok(rr.value);
    } else if 202 <= h.pt <= 204 {
      return Ok(Undecoded(h.pt, h.count, packet[4..]));
    } else {
      return Err(UnknownPacketType(h.pt));
    }
  }

  /**
   * `parse_rtcp_packet` (src/lib.rs:176-228) over the first `buflen` octets of
   * `buf`. Each iteration reads a header, checks it, hands the parser exactly the
   * octets offset .. offset + 4 * (len + 1) and moves past them; the walk
   * succeeds only when the offset lands exactly on `buflen`.
   *
   * Deviations from the source, each its evident intent: the bounds check uses
   * the full extent 4 * (len + 1) that the slice takes (the source checks
   * 4 * len, see GuardPassesAsWritten); the decoded packets are collected and
   * returned (the source marks both as FIXME and always returns None); a failed
   * SR or RR parse fails the walk instead of being dropped.
   */
  method ParseRtcpPacket(buf: seq<byte>, buflen: nat) returns (r: Result<seq<RtcpPacket>, CodecError>)
    requires buflen <= |buf|
    ensures r == DecodeCompound(buf[..buflen])
  {
    if buflen < 4 {
      return Err(BufferTooShort);
    }
    var offset := 0;
    var packets: seq<RtcpPacket> := [];
    assert buf[offset..buflen] == buf[..buflen];
    PrependNothing(Walk(buf[..buflen]));
    while offset != buflen
      invariant offset <= buflen
      invariant Walk(buf[..buflen]) == Prepend(packets, Walk(buf[offset..buflen]))
      decreases buflen - offset
    {
      var step := ReadPacketAt(buf, offset, buflen);
      if step.Err? {
        return Err(step.error);
      }
      var (p, next) := step.value;
      PrependTwice(packets, [p], Walk(buf[next..buflen]));
      packets := packets + [p];
      offset := next;
    }
    assert Walk(buf[offset..buflen]) == Ok([]);
    assert packets + [] == packets;
    return Ok(packets);
  }

  /**
   * One iteration of the loop of `parse_rtcp_packet` (src/lib.rs:190-225) at
   * `offset`: the checks on the header, the slice of the packet and its
   * dispatch. On success it gives the decoded packet and the offset of the next
   * header, and the walk from `offset` is that packet in front of the walk
   * from the next offset; on failure the walk from `offset` fails the same way.
   */
  method ReadPacketAt(buf: seq<byte>, offset: nat, buflen: nat) returns (r: Result<(RtcpPacket, nat), CodecError>)
    requires offset < buflen <= |buf|
    ensures r.Err? ==> Walk(buf[offset..buflen]) == Err(r.error)
    ensures r.Ok? ==> offset + 4 <= buflen && r.value.1 == offset + Extent(ParseHeader(buf, offset))
    ensures r.Ok? ==> offset < r.value.1 <= buflen
                      && Walk(buf[offset..buflen]) == Prepend([r.value.0], Walk(buf[r.value.1..buflen]))
  {
    ghost var rest := buf[offset..buflen];
    if offset + 3 >= buflen {
      return Err(BufferTooShort);
    }
    var h := ParseHeader(buf, offset);
    assert h == ParseHeader(rest, 0);
    if offset + 4 * (h.length + 1) > buflen {
      return Err(LengthMismatch);
    }
    if h.version != 2 {
      return Err(InvalidVersion);
    }
    var packet := buf[offset..offset + 4 * (h.length + 1)];
    SliceOfSlice(buf, offset, buflen, Extent(h));
    var parsed := ParsePacket(h, packet);
    if parsed.Err? {
      return Err(parsed.error);
    }
    var next := offset + 4 + 4 * h.length;
    assert next == offset + Extent(h);
    assert rest[Extent(h)..] == buf[next..buflen];
    WalkOk(rest, parsed.value);
    return Ok((parsed.value, next));
  }

  /** The walk past a first packet that decodes. */
  lemma WalkOk(rest: seq<byte>, p: RtcpPacket)
    requires |rest| >= 4 && Extent(ParseHeader(rest, 0)) <= |rest| && ParseHeader(rest, 0).version == 2
    requires Dispatch(ParseHeader(rest, 0), rest[..Extent(ParseHeader(rest, 0))]) == Ok(p)
    ensures Walk(rest) == Prepend([p], Walk(rest[Extent(ParseHeader(rest, 0))..]))
  {
  }

  /** A slice of a slice. */
  lemma SliceOfSlice(s: seq<byte>, i: nat, j: nat, e: nat)
    requires i + e <= j <= |s|
    ensures s[i..j][..e] == s[i..i + e]
    ensures s[i..j][e..] == s[i + e..j]
  {
  }

  lemma PrependTwice(first: seq<RtcpPacket>, second: seq<RtcpPacket>, rest: Result<seq<RtcpPacket>, CodecError>)
    ensures Prepend(first, Prepend(second, rest)) == Prepend(first + second, rest)
  {
    if rest.Ok? {
      assert first + (second + rest.value) == (first + second) + rest.value;
    }
  }

  /** One packet decoded on its own: the dispatch on the header at its start. */
  function DecodeOne(w: seq<byte>): Result<RtcpPacket, CodecError>
    requires |w| >= 4 && Extent(ParseHeader(w, 0)) == |w|
  {
    Dispatch(ParseHeader(w, 0), w)
  }

  /**
   * A well-framed packet: a header of version 2 whose length field accounts for
   * exactly the packet's octets, and contents its parser accepts.
   */
  predicate WellFramed(w: seq<byte>)
  {
    |w| >= 4 && Extent(ParseHeader(w, 0)) == |w| && ParseHeader(w, 0).version == 2 && DecodeOne(w).Ok?
  }

  /** Packets laid end to end. */
  function Concat(ws: seq<seq<byte>>): (buf: seq<byte>)
  {
    if |ws| == 0 then [] else ws[0] + Concat(ws[1..])
  }

  /** A buffer that starts with a well-framed packet: the walk decodes it, then walks the rest. */
  lemma WalkFirst(w: seq<byte>, rest: seq<byte>)
    requires WellFramed(w)
    ensures Walk(w + rest) == Prepend([DecodeOne(w).value], Walk(rest))
  {
    var buf := w + rest;
    assert ParseHeader(buf, 0) == ParseHeader(w, 0);
    assert buf[..|w|] == w;
    assert buf[|w|..] == rest;
  }

  /** A single well-framed packet decodes on its own to exactly its decoding. */
  lemma DecodeSingle(w: seq<byte>)
    requires WellFramed(w)
    ensures DecodeCompound(w) == Ok([DecodeOne(w).value])
  {
    WalkFirst(w, []);
    assert w + [] == w;
    assert Walk([]) == Ok([]);
    assert [DecodeOne(w).value] + [] == [DecodeOne(w).value];
  }

  /**
   * A sender report without report blocks (28 octets, length field 6) decodes
   * on its own to that SR, although the length check of src/lib.rs:108 as
   * written refuses it.
   */
  lemma EmptySrDecodes(w: seq<byte>)
    requires |w| == 28
    requires ParseHeader(w, 0).version == 2 && ParseHeader(w, 0).pt == 200
    requires ParseHeader(w, 0).count == 0 && ParseHeader(w, 0).length == 6
    ensures SrTooShortAsWritten(ParseHeader(w, 0).length)
    ensures DecodeCompound(w)
            == Ok([SR(Ssrc(ParseBeU32(w, 4)), [],
                      SenderInfo(ParseBeU64(w, 8), ParseBeU32(w, 16), ParseBeU32(w, 20), ParseBeU32(w, 24)))])
  {
    var h := ParseHeader(w, 0);
    assert Dispatch(h, w) == Ok(DecodeSr(0, 6, w).value);
    assert WellFramed(w);
    DecodeSingle(w);
  }

  /** Well-framed packets laid end to end walk to their decodings, in order. */
  lemma {:induction false} WalkConcat(ws: seq<seq<byte>>)
    requires forall i :: 0 <= i < |ws| ==> WellFramed(ws[i])
    ensures Walk(Concat(ws)).Ok?
    ensures |Walk(Concat(ws)).value| == |ws|
    ensures forall i :: 0 <= i < |ws| ==> WellFramed(ws[i]) && DecodeOne(ws[i]) == Ok(Walk(Concat(ws)).value[i])
  {
    if |ws| > 0 {
      WalkConcat(ws[1..]);
      WalkFirst(ws[0], Concat(ws[1..]));
      var ps := Walk(Concat(ws)).value;
      forall i | 0 <= i < |ws|
        ensures DecodeOne(ws[i]) == Ok(ps[i])
      {
        if i > 0 {
          assert ws[i] == ws[1..][i - 1];
        }
      }
    }
  }

  /**
   * Decoding the concatenation of one or more well-framed packets succeeds and
   * yields one packet per piece, each the piece's own decoding.
   */
  lemma DecodeCompoundOfConcat(ws: seq<seq<byte>>)
    requires |ws| >= 1
    requires forall i :: 0 <= i < |ws| ==> WellFramed(ws[i])
    ensures DecodeCompound(Concat(ws)).Ok?
    ensures |DecodeCompound(Concat(ws)).value| == |ws|
    ensures forall i :: 0 <= i < |ws| ==> WellFramed(ws[i]) && DecodeOne(ws[i]) == Ok(DecodeCompound(Concat(ws)).value[i])
  {
    WalkConcat(ws);
    assert WellFramed(ws[0]);
    assert |Concat(ws)| >= 4;
  }

  /** One step of a successful walk: a well-framed first packet, then a successful walk of the rest. */
  lemma WalkStep(buf: seq<byte>)
    requires |buf| > 0 && Walk(buf).Ok?
    ensures |buf| >= 4 && Extent(ParseHeader(buf, 0)) <= |buf|
    ensures var e := Extent(ParseHeader(buf, 0));
            WellFramed(buf[..e]) && Walk(buf[e..]).Ok?
            && Walk(buf).value == [DecodeOne(buf[..e]).value] + Walk(buf[e..]).value
  {
    var h := ParseHeader(buf, 0);
    var w := buf[..Extent(h)];
    assert ParseHeader(w, 0) == h;
  }

  /** A successful walk cuts the buffer into well-framed packets, one per decoded packet. */
  lemma {:induction false} WalkSplits(buf: seq<byte>) returns (ws: seq<seq<byte>>)
    requires Walk(buf).Ok?
    ensures Concat(ws) == buf
    ensures |ws| == |Walk(buf).value|
    ensures forall i :: 0 <= i < |ws| ==> WellFramed(ws[i]) && DecodeOne(ws[i]) == Ok(Walk(buf).value[i])
    decreases |buf|
  {
    if |buf| == 0 {
      ws := [];
    } else {
      WalkStep(buf);
      var e := Extent(ParseHeader(buf, 0));
      var tail := WalkSplits(buf[e..]);
      ws := [buf[..e]] + tail;
      assert ws[1..] == tail;
      assert buf == buf[..e] + buf[e..];
    }
  }

  /**
   * A buffer that decodes is a non-empty run of well-framed packets with
   * nothing before, between or after them, and the result lists their decodings.
   */
  lemma DecodeCompoundSplits(buf: seq<byte>) returns (ws: seq<seq<byte>>)
    requires DecodeCompound(buf).Ok?
    ensures |ws| >= 1 && Concat(ws) == buf
    ensures |ws| == |DecodeCompound(buf).value|
    ensures forall i :: 0 <= i < |ws| ==> WellFramed(ws[i]) && DecodeOne(ws[i]) == Ok(DecodeCompound(buf).value[i])
  {
    ws := WalkSplits(buf);
  }

  /**
   * Every decoded packet consumed at least one 32-bit word and the words cover
   * the buffer: a buffer that decodes has a length divisible by 4 and at most
   * one packet per word.
   */
  lemma {:induction false} WalkSizes(buf: seq<byte>)
    requires Walk(buf).Ok?
    ensures |buf| % 4 == 0
    ensures 4 * |Walk(buf).value| <= |buf|
  {
    var words := WalkWords(buf);
    WholeWords(words);
  }

  lemma WholeWords(words: nat)
    ensures (4 * words) % 4 == 0
  {
  }

  /** The number of 32-bit words a successful walk covers, at least one per packet. */
  lemma {:induction false} WalkWords(buf: seq<byte>) returns (words: nat)
    requires Walk(buf).Ok?
    ensures |buf| == 4 * words
    ensures |Walk(buf).value| <= words
    decreases |buf|
  {
    if |buf| == 0 {
      words := 0;
    } else {
      WalkStep(buf);
      var h := ParseHeader(buf, 0);
      var tail := buf[Extent(h)..];
      var tailWords := WalkWords(tail);
      assert |Walk(buf).value| == 1 + |Walk(tail).value|;
      words := h.length as int + 1 + tailWords;
    }
  }

  /**
   * The rejections of the source, read off the raw octets of the first header:
   * a buffer under 4 octets, a declared extent past the end, a version other
   * than 2 and a packet type outside 200..204.
   */
  lemma DecodeRejects(buf: seq<byte>)
    ensures |buf| < 4 ==> DecodeCompound(buf) == Err(BufferTooShort)
    ensures |buf| >= 4 && 4 * (buf[2] as int * 0x100 + buf[3] as int + 1) > |buf|
            ==> DecodeCompound(buf) == Err(LengthMismatch)
    ensures |buf| >= 4 && 4 * (buf[2] as int * 0x100 + buf[3] as int + 1) <= |buf| && buf[0] / 64 != 2
            ==> DecodeCompound(buf) == Err(InvalidVersion)
    ensures |buf| >= 4 && 4 * (buf[2] as int * 0x100 + buf[3] as int + 1) <= |buf| && buf[0] / 64 == 2
            && !(200 <= buf[1] <= 204)
            ==> DecodeCompound(buf) == Err(UnknownPacketType(buf[1]))
  {
    if |buf| >= 4 {
      var h := ParseHeader(buf, 0);
      assert h.version == buf[0] / 64;
    }
  }

  /**
   * The bounds guard of src/lib.rs:198 as written: it lets a packet through
   * when offset + 4 * len does not pass the end, one word short of the
   * 4 * (len + 1) octets the slice at src/lib.rs:208 then takes.
   */
  function GuardPassesAsWritten(offset: nat, len: nat, buflen: nat): (r: bool)
    ensures offset + 4 * (len + 1) <= buflen ==> r
  {
    !(offset + 4 * len > buflen)
  }

  /**
   * The guard as written admits exactly the extents that overrun the buffer by
   * one to four octets. For the 4-octet buffer [0x80, 200, 0, 1] (version 2,
   * SR, length 1) it passes, and the source's slice of 8 octets panics; the
   * decode of the model refuses the buffer with LengthMismatch.
   */
  lemma GuardAsWrittenOverruns(offset: nat, len: nat, buflen: nat)
    ensures GuardPassesAsWritten(offset, len, buflen) && offset + 4 * (len + 1) > buflen
            <==> offset + 4 * len <= buflen < offset + 4 * len + 4
    ensures var buf: seq<byte> := [0x80, 200, 0, 1];
            var h := ParseHeader(buf, 0);
            h.version == 2 && h.pt == 200 && h.length == 1
            && GuardPassesAsWritten(0, h.length, |buf|) && Extent(h) > |buf|
            && DecodeCompound(buf) == Err(LengthMismatch)
  {
    var buf: seq<byte> := [0x80, 200, 0, 1];
    DecodeRejects(buf);
  }
}

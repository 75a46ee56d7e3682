/**
 * The RTP packet codec: Rtp_Init, Rtp_Serialize and Rtp_DeSerialize.
 *
 * Serialize fills a caller-owned byte array in place; Deserialize only reads
 * its input and describes the packet it finds there by offset/length views
 * into that input, so nothing is copied.
 */
module RtpCodec {
  import opened RtpTypes
  import opened WordCodec

  /** The fixed header: no CSRC, no extension (RTP_HEADER_MIN_LENGTH). */
  const HeaderMinLength: nat := 12

  /** The only version the codec writes and accepts. */
  const RtpVersion: uint8 := 2

  /*
   * Context
   */

  /**
   * The word read/write pair a context carries. Whatever the host byte
   * order, the pair reads and writes network byte order, so the one value
   * stands for every choice Rtp_Init can make.
   */
  datatype ReadWriteFunctions = NetworkByteOrder

  class Context {
    var readWriteFunctions: Option<ReadWriteFunctions>

    /** A zero-initialised context (`RtpContext_t ctx = { 0 }`): no functions yet. */
    constructor ()
      ensures readWriteFunctions == None
    {
      readWriteFunctions := None;
    }

    /** Rtp_Init has filled in the read/write pair. */
    predicate Ready()
      reads this
    {
      readWriteFunctions.Some?
    }
  }

  /** Rtp_Init: a missing context is a bad parameter; otherwise install the pair. */
  method Init(ctx: Context?) returns (r: Status)
    modifies ctx
    ensures ctx == null ==> r == BadParam
    ensures ctx != null ==> r == Ok && ctx.Ready() && ctx.readWriteFunctions == Some(NetworkByteOrder)
  {
    if ctx == null {
      r := BadParam;
    } else {
      ctx.readWriteFunctions := Some(NetworkByteOrder);
      r := Ok;
    }
  }

  /*
   * Octets 0 and 1 of the fixed header
   */

  /** The version field: the top two bits of octet 0. */
  function Version(b0: uint8): uint8 { b0 / 0x40 }

  /** The P, X and CC fields of octet 0. */
  predicate PaddingBit(b0: uint8) { b0 / 0x20 % 2 == 1 }
  predicate ExtensionBit(b0: uint8) { b0 / 0x10 % 2 == 1 }
  function CsrcCountBits(b0: uint8): uint8 { b0 % 0x10 }

  /** The M and PT fields of octet 1. */
  predicate MarkerBit(b1: uint8) { b1 / 0x80 == 1 }
  function PayloadTypeBits(b1: uint8): uint8 { b1 % 0x80 }

  /** Octet 0: version 2, then P, X and the 4-bit CSRC count. */
  function FirstOctet<W>(h: Header<W>): uint8
    requires h.csrcCount <= 15
  {
    0x80 + (if h.padding then 0x20 else 0) + (if h.extension then 0x10 else 0) + h.csrcCount
  }

  /** Octet 1: M, then the 7-bit payload type. */
  function SecondOctet<W>(h: Header<W>): uint8
    requires h.payloadType < 128
  {
    (if h.marker then 0x80 else 0) + h.payloadType
  }

  /** Each field of octets 0 and 1 reads back as it was packed. */
  lemma OctetFields<W>(h: Header<W>)
    requires h.csrcCount <= 15 && h.payloadType < 128
    ensures Version(FirstOctet(h)) == RtpVersion
    ensures PaddingBit(FirstOctet(h)) == h.padding && ExtensionBit(FirstOctet(h)) == h.extension
    ensures CsrcCountBits(FirstOctet(h)) == h.csrcCount
    ensures MarkerBit(SecondOctet(h)) == h.marker && PayloadTypeBits(SecondOctet(h)) == h.payloadType
  {
  }

  /** The twelve octets of the fixed header, multi-octet fields in network order. */
  function FixedHeaderBytes<W>(h: Header<W>): (r: seq<uint8>)
    requires h.csrcCount <= 15 && h.payloadType < 128
    ensures |r| == HeaderMinLength
  {
    [FirstOctet(h), SecondOctet(h)] + Uint16Bytes(h.sequenceNumber)
      + Uint32Bytes(h.timestamp) + Uint32Bytes(h.ssrc)
  }

  /** Octets taken by the fixed header, the CSRC list and the extension, as the header declares them. */
  function HeaderLength<W>(h: Header<W>): nat
  {
    HeaderMinLength + 4 * h.csrcCount
      + (if h.extension then 4 + 4 * h.extensionHeader.length else 0)
  }

  /** Where the CSRC list a header declares ends: right after it, the extension or the payload starts. */
  function CsrcListEnd<W>(h: Header<W>): nat
  {
    HeaderMinLength + 4 * h.csrcCount
  }

  /*
   * Serialize
   */

  /**
   * What the caller of Rtp_Serialize must supply: a CSRC count that fits its
   * 4 bits and a CSRC array holding that many words, a payload type that fits
   * its 7 bits, and, when the extension flag is set, an extension array
   * holding as many words as its length field says.
   */
  predicate WellFormed(p: OwnedPacket)
  {
    var h := p.header;
    && h.csrcCount <= 15
    && |h.csrc| == h.csrcCount
    && h.payloadType < 128
    && (h.extension ==> |h.extensionHeader.payload| == h.extensionHeader.length)
  }

  /** The length a successful Serialize writes and a sizing query reports. */
  function RequiredLength(p: OwnedPacket): nat
  {
    HeaderLength(p.header) + |p.payload|
  }

  /**
   * With the padding flag set, a non-empty payload must end in a pad count
   * between 1 and the payload length (the pad count counts itself).
   */
  predicate PaddingConsistent(p: OwnedPacket)
  {
    !p.header.padding || |p.payload| == 0
      || 1 <= p.payload[|p.payload| - 1] <= |p.payload|
  }

  /** The extension section: profile, length in words, then the words. */
  function ExtensionSectionBytes(e: Extension<seq<uint32>>): (r: seq<uint8>)
    ensures |r| == 4 + 4 * |e.payload|
  {
    Uint16Bytes(e.profile) + Uint16Bytes(e.length) + WordsBytes(e.payload)
  }

  /** The extension section when the extension flag is set, nothing otherwise. */
  function ExtensionBytes(h: Header<seq<uint32>>): seq<uint8>
  {
    if h.extension then ExtensionSectionBytes(h.extensionHeader) else []
  }

  /** The octets that follow the CSRC list: the optional extension, then the payload. */
  function TailBytes(p: OwnedPacket): seq<uint8>
  {
    ExtensionBytes(p.header) + p.payload
  }

  /** The octets that follow the fixed header: the CSRC list, then the tail. */
  function BodyBytes(p: OwnedPacket): seq<uint8>
  {
    WordsBytes(p.header.csrc) + TailBytes(p)
  }

  /** The wire image of a packet: what Serialize writes into the buffer. */
  function Encode(p: OwnedPacket): (r: seq<uint8>)
    requires WellFormed(p)
    ensures |r| == RequiredLength(p)
    ensures r[..HeaderMinLength] == FixedHeaderBytes(p.header)
    ensures r[HeaderLength(p.header)..] == p.payload
  {
    var r := FixedHeaderBytes(p.header) + BodyBytes(p);
    assert r[..HeaderMinLength] == FixedHeaderBytes(p.header);
    assert r[HeaderLength(p.header)..] == p.payload;
    r
  }

  /** Writes the fixed header, its fields packed by FixedHeaderBytes, at the start of the buffer. */
  method WriteFixedHeader<W>(buffer: array<uint8>, h: Header<W>)
    requires h.csrcCount <= 15 && h.payloadType < 128
    requires HeaderMinLength <= buffer.Length
    modifies buffer
    ensures buffer[..] == old(buffer[..0]) + FixedHeaderBytes(h) + old(buffer[HeaderMinLength..])
  {
    WriteBytes(buffer, 0, FixedHeaderBytes(h));
  }

  /** Writes the four octets that open the extension: profile, then length in words. */
  method WriteExtensionHeader(buffer: array<uint8>, offset: nat, e: Extension<seq<uint32>>)
    requires offset + 4 <= buffer.Length
    modifies buffer
    ensures buffer[..] == old(buffer[..offset]) + (Uint16Bytes(e.profile) + Uint16Bytes(e.length))
                          + old(buffer[offset + 4..])
  {
    ghost var b0 := buffer[..];
    WriteUint16(buffer, offset, e.profile);
    ghost var b1 := buffer[..];
    WriteUint16(buffer, offset + 2, e.length);
    Compose(b0, b1, buffer[..], offset, Uint16Bytes(e.profile), Uint16Bytes(e.length));
  }

  /** Writes the extension section (profile, length, words) at `offset`. */
  method WriteExtension(buffer: array<uint8>, offset: nat, e: Extension<seq<uint32>>)
    requires offset + 4 + 4 * |e.payload| <= buffer.Length
    modifies buffer
    ensures buffer[..] == old(buffer[..offset]) + ExtensionSectionBytes(e)
                          + old(buffer[offset + 4 + 4 * |e.payload|..])
  {
    ghost var b0 := buffer[..];
    WriteExtensionHeader(buffer, offset, e);
    ghost var b1 := buffer[..];
    WriteWords(buffer, offset + 4, e.payload);
    Compose(b0, b1, buffer[..], offset, Uint16Bytes(e.profile) + Uint16Bytes(e.length), WordsBytes(e.payload));
  }

  /** Writes the extension section at `offset` when the extension flag is set. */
  method WriteOptionalExtension(buffer: array<uint8>, offset: nat, h: Header<seq<uint32>>)
    requires offset + |ExtensionBytes(h)| <= buffer.Length
    modifies buffer
    ensures buffer[..] == old(buffer[..offset]) + ExtensionBytes(h) + old(buffer[offset + |ExtensionBytes(h)|..])
  {
    if h.extension {
      WriteExtension(buffer, offset, h.extensionHeader);
    } else {
      assert buffer[..] == buffer[..offset] + [] + buffer[offset..];
    }
  }

  /** Writes the optional extension and then the payload, verbatim, at `offset`. */
  method WriteTail(buffer: array<uint8>, offset: nat, p: OwnedPacket)
    requires offset + |TailBytes(p)| <= buffer.Length
    modifies buffer
    ensures buffer[..] == old(buffer[..offset]) + TailBytes(p) + old(buffer[offset + |TailBytes(p)|..])
  {
    ghost var b0 := buffer[..];
    WriteOptionalExtension(buffer, offset, p.header);
    ghost var b1 := buffer[..];
    WriteBytes(buffer, offset + |ExtensionBytes(p.header)|, p.payload);
    Compose(b0, b1, buffer[..], offset, ExtensionBytes(p.header), p.payload);
  }

  /** Writes the CSRC list and then the tail at `offset`. */
  method WriteBody(buffer: array<uint8>, offset: nat, p: OwnedPacket)
    requires offset + |BodyBytes(p)| <= buffer.Length
    modifies buffer
    ensures buffer[..] == old(buffer[..offset]) + BodyBytes(p) + old(buffer[offset + |BodyBytes(p)|..])
  {
    ghost var b0 := buffer[..];
    WriteWords(buffer, offset, p.header.csrc);
    ghost var b1 := buffer[..];
    WriteTail(buffer, offset + 4 * |p.header.csrc|, p);
    Compose(b0, b1, buffer[..], offset, WordsBytes(p.header.csrc), TailBytes(p));
  }

  /** Writes the whole wire image of `p` at the start of the buffer. */
  method WritePacket(buffer: array<uint8>, p: OwnedPacket)
    requires WellFormed(p)
    requires RequiredLength(p) <= buffer.Length
    modifies buffer
    ensures buffer[..] == Encode(p) + old(buffer[RequiredLength(p)..])
  {
    ghost var b0 := buffer[..];
    BodyLength(p);
    WriteFixedHeader(buffer, p.header);
    ghost var b1 := buffer[..];
    WriteBody(buffer, HeaderMinLength, p);
    Compose(b0, b1, buffer[..], 0, FixedHeaderBytes(p.header), BodyBytes(p));
    EmptyPrefix(b0, FixedHeaderBytes(p.header) + BodyBytes(p), b0[RequiredLength(p)..]);
  }

  /** The octets after the fixed header make up the rest of the required length. */
  lemma BodyLength(p: OwnedPacket)
    requires WellFormed(p)
    ensures HeaderMinLength + |BodyBytes(p)| == RequiredLength(p)
  {
  }

  /** Nothing written before offset 0. */
  lemma EmptyPrefix(b: seq<uint8>, x: seq<uint8>, rest: seq<uint8>)
    ensures b[..0] + x + rest == x + rest
  {
    assert b[..0] == [];
  }

  /**
   * Rtp_Serialize. `buffer` null is the sizing query; `bufferLength` is the
   * in/out length (None for a NULL pointer) and `newLength` its value on
   * return. On success the buffer starts with Encode(p) and the length is
   * the number of octets written; every error leaves buffer and length as
   * they were.
   */
  method Serialize(ctx: Context?, packet: Option<OwnedPacket>, buffer: array?<uint8>, bufferLength: Option<nat>)
    returns (r: Status, newLength: Option<nat>)
    requires packet.Some? ==> WellFormed(packet.value)
    requires buffer != null && bufferLength.Some? ==> bufferLength.value <= buffer.Length
    requires ctx != null && packet.Some? && buffer != null && bufferLength.Some? && bufferLength.value > 0 ==> ctx.Ready()
    modifies buffer
    ensures ctx == null || packet.None? || bufferLength.None? ==> r == BadParam
    ensures r != Ok ==> newLength == bufferLength
    ensures buffer != null && r != Ok ==> buffer[..] == old(buffer[..])
    ensures ctx != null && packet.Some? && bufferLength.Some? ==>
      var p, capacity := packet.value, bufferLength.value;
      if buffer == null then
        r == Ok && newLength == Some(RequiredLength(p))
      else if capacity < RequiredLength(p) then
        (capacity > 0 ==> r == OutOfMemory) && (capacity == 0 ==> r == BadParam || r == OutOfMemory)
      else if !PaddingConsistent(p) then
        r == MalformedPacket
      else
        && r == Ok
        && newLength == Some(RequiredLength(p))
        && buffer[..] == Encode(p) + old(buffer[RequiredLength(p)..])
  {
    newLength := bufferLength;
    if ctx == null || packet.None? || bufferLength.None? || (buffer != null && bufferLength.value == 0) {
      r := BadParam;
      return;
    }
    var p := packet.value;
    var h := p.header;
    var required := RequiredLength(p);
    if buffer == null {
      r := Ok;
      newLength := Some(required);
      return;
    }
    if bufferLength.value < required {
      r := OutOfMemory;
      return;
    }
    if h.padding && |p.payload| > 0 {
      var padCount := p.payload[|p.payload| - 1];
      if padCount == 0 || padCount > |p.payload| {
        r := MalformedPacket;
        return;
      }
    }

    WritePacket(buffer, p);
    r := Ok;
    newLength := Some(required);
  }

  /*
   * Deserialize
   */

  /** The number of payload octets a view describes (0 for a NULL payload). */
  function PayloadLength(pp: ParsedPacket): nat
  {
    match pp.payload
    case None => 0
    case Some(v) => v.length
  }

  /** Every view of a parsed packet lies inside an input of `n` octets. */
  predicate ViewsWithin(n: nat, pp: ParsedPacket)
  {
    var h := pp.header;
    && (h.csrc.Some? ==> h.csrc.value.offset + 4 * h.csrc.value.length <= n)
    && (h.extensionHeader.payload.Some? ==>
          h.extensionHeader.payload.value.offset + 4 * h.extensionHeader.payload.value.length <= n)
    && (pp.payload.Some? ==> pp.payload.value.offset + pp.payload.value.length <= n)
  }

  /**
   * The input is a complete RTP packet: version 2, the CSRC list, the
   * extension header and its words all present, and, when the padding flag
   * is set and octets follow the header, a final pad count between 1 and
   * the number of octets that follow the header.
   */
  ghost predicate Framed(s: seq<uint8>)
  {
    && |s| >= HeaderMinLength
    && Version(s[0]) == RtpVersion
    && var csrcEnd := HeaderMinLength + 4 * CsrcCountBits(s[0]);
    && csrcEnd <= |s|
    && (ExtensionBit(s[0]) ==> csrcEnd + 4 <= |s|)
    && var payloadStart :=
         if ExtensionBit(s[0]) then csrcEnd + 4 + 4 * ReadUint16(s, csrcEnd + 2) else csrcEnd;
    && payloadStart <= |s|
    && (PaddingBit(s[0]) && payloadStart < |s| ==> 1 <= s[|s| - 1] <= |s| - payloadStart)
  }

  /** The four octets of an extension header re-encode from the two fields read from them. */
  lemma Uint16PairOfRead(s: seq<uint8>, at: nat)
    requires at + 4 <= |s|
    ensures Uint16Bytes(ReadUint16(s, at)) + Uint16Bytes(ReadUint16(s, at + 2)) == s[at..at + 4]
  {
    Uint16BytesOfRead(s, at);
    Uint16BytesOfRead(s, at + 2);
    assert s[at..at + 4] == s[at..at + 2] + s[at + 2..at + 4];
  }

  /** The extension section at `at` when `present`, and where the payload starts after it. */
  function ParseExtension(s: seq<uint8>, at: nat, present: bool): (r: Result<(Extension<Option<View>>, nat)>)
    requires at <= |s|
    ensures r.Failure? ==> r.status == MalformedPacket
    ensures r.Success? <==> !present || (at + 4 <= |s| && at + 4 + 4 * ReadUint16(s, at + 2) <= |s|)
    ensures r.Success? && !present ==> r.value == (Extension(0, 0, None), at)
    ensures r.Success? && present ==>
      var e := r.value.0;
      && e.profile == ReadUint16(s, at) && e.length == ReadUint16(s, at + 2)
      && e.payload == Some(View(at + 4, e.length))
      && r.value.1 == at + 4 + 4 * e.length
  {
    if !present then
      Success((Extension(0, 0, None), at))
    else if |s| - at < 4 then
      Failure(MalformedPacket)
    else
      var length := ReadUint16(s, at + 2);
      if |s| - (at + 4) < 4 * length then
        Failure(MalformedPacket)
      else
        Success((Extension(ReadUint16(s, at), length, Some(View(at + 4, length))),
                 at + 4 + 4 * length))
  }

  /**
   * The payload view for the octets from `at` on. With the padding flag set,
   * the last octet counts the padding octets (itself included) to strip; a
   * count of zero or one larger than what follows the header is malformed.
   */
  function ParsePayload(s: seq<uint8>, at: nat, padding: bool): (r: Result<Option<View>>)
    requires at <= |s|
    ensures r.Failure? ==> r.status == MalformedPacket
    ensures r.Success? <==> !padding || at == |s| || 1 <= s[|s| - 1] <= |s| - at
    ensures r.Success? ==>
      && (r.value.None? <==> at == |s|)
      && (r.value.Some? ==> r.value.value.offset == at)
      && |s| == at + (if r.value.Some? then r.value.value.length else 0)
                + (if padding && at < |s| then s[|s| - 1] else 0)
  {
    var remaining := |s| - at;
    if remaining == 0 then
      Success(None)
    else if !padding then
      Success(Some(View(at, remaining)))
    else
      var padCount := s[|s| - 1];
      if padCount == 0 || padCount > remaining then
        Failure(MalformedPacket)
      else
        Success(Some(View(at, remaining - padCount)))
  }

  /**
   * Decoding of an input of at least HeaderMinLength octets: a version other
   * than 2 is rejected, every other failure is a malformed packet, and every
   * view of a decoded packet lies inside the input.
   */
  function Parse(s: seq<uint8>): (r: Result<ParsedPacket>)
    requires |s| >= HeaderMinLength
    ensures r.Failure? ==> r.status == WrongVersion || r.status == MalformedPacket
    ensures r == Failure(WrongVersion) ==> Version(s[0]) != RtpVersion
    ensures Version(s[0]) != RtpVersion ==> r.Failure?
    ensures r.Success? ==> ViewsWithin(|s|, r.value)
  {
    if Version(s[0]) != RtpVersion then
      Failure(WrongVersion)
    else
      var csrcCount := CsrcCountBits(s[0]);
      var csrcEnd := HeaderMinLength + 4 * csrcCount;
      if |s| < csrcEnd then
        Failure(MalformedPacket)
      else
        match ParseExtension(s, csrcEnd, ExtensionBit(s[0]))
        case Failure(e) => Failure(e)
        case Success((extension, payloadStart)) =>
          match ParsePayload(s, payloadStart, PaddingBit(s[0]))
          case Failure(e) => Failure(e)
          case Success(payload) =>
            var header := Header(
              PaddingBit(s[0]), ExtensionBit(s[0]), MarkerBit(s[1]),
              csrcCount, PayloadTypeBits(s[1]),
              ReadUint16(s, 2), ReadUint32(s, 4), ReadUint32(s, 8),
              if csrcCount > 0 then Some(View(HeaderMinLength, csrcCount)) else None,
              extension);
            Success(Packet(header, payload))
  }

  /** Decoding succeeds exactly on complete packets. */
  lemma ParseSucceedsIffFramed(s: seq<uint8>)
    requires |s| >= HeaderMinLength
    ensures Parse(s).Success? <==> Framed(s)
    ensures Parse(s) == Failure(WrongVersion) <==> Version(s[0]) != RtpVersion
    ensures Parse(s) == Failure(MalformedPacket) <==> Version(s[0]) == RtpVersion && !Framed(s)
  {
  }

  /** Octets 0 and 1 are rebuilt exactly from the fields unpacked from them. */
  lemma OctetsOfFields<W>(h: Header<W>, b0: uint8, b1: uint8)
    requires Version(b0) == RtpVersion
    requires h.padding == PaddingBit(b0) && h.extension == ExtensionBit(b0)
    requires h.csrcCount == CsrcCountBits(b0)
    requires h.marker == MarkerBit(b1) && h.payloadType == PayloadTypeBits(b1)
    ensures FirstOctet(h) == b0 && SecondOctet(h) == b1
  {
  }

  /**
   * A decoded header fits the encoder's field widths and re-encodes to the
   * twelve octets it was decoded from.
   */
  lemma ParseFixedHeader(s: seq<uint8>)
    requires |s| >= HeaderMinLength && Parse(s).Success?
    ensures var h := Parse(s).value.header;
      && h.csrcCount <= 15 && h.payloadType < 128
      && FixedHeaderBytes(h) == s[..HeaderMinLength]
  {
    var h := Parse(s).value.header;
    OctetsOfFields(h, s[0], s[1]);
    Uint16BytesOfRead(s, 2);
    Uint32BytesOfRead(s, 4);
    Uint32BytesOfRead(s, 8);
    assert s[..HeaderMinLength] == [s[0], s[1]] + s[2..4] + s[4..8] + s[8..12];
  }

  /**
   * A decoded CSRC list is a view of the words right after the fixed header,
   * and NULL when the count is zero.
   */
  lemma ParseCsrc(s: seq<uint8>)
    requires |s| >= HeaderMinLength && Parse(s).Success?
    ensures var h := Parse(s).value.header;
      && CsrcListEnd(h) <= |s|
      && h.csrc == (if h.csrcCount > 0 then Some(View(HeaderMinLength, h.csrcCount)) else None)
  {
  }

  /**
   * A decoded extension has its profile and length fields re-encode to the
   * four octets after the CSRC list and views the words right after them;
   * without the extension flag it is all zero and NULL.
   */
  lemma ParseExtensionHeader(s: seq<uint8>)
    requires |s| >= HeaderMinLength && Parse(s).Success?
    ensures var h := Parse(s).value.header; var e := h.extensionHeader;
      && (h.extension ==>
            && CsrcListEnd(h) + 4 <= |s|
            && Uint16Bytes(e.profile) + Uint16Bytes(e.length) == s[CsrcListEnd(h)..CsrcListEnd(h) + 4]
            && e.payload == Some(View(CsrcListEnd(h) + 4, e.length)))
      && (!h.extension ==> e == Extension(0, 0, None))
  {
    var h := Parse(s).value.header;
    var x := ParseExtension(s, CsrcListEnd(h), h.extension);
    assert h.extensionHeader == x.value.0;
    if h.extension {
      Uint16PairOfRead(s, CsrcListEnd(h));
    }
  }

  /**
   * A decoded payload starts right after the header sections and is NULL
   * exactly when nothing follows them; the input's length is header plus
   * payload plus the padding the last octet counts.
   */
  lemma ParsePayloadSection(s: seq<uint8>)
    requires |s| >= HeaderMinLength && Parse(s).Success?
    ensures var pp := Parse(s).value; var h := pp.header;
      && HeaderLength(h) <= |s|
      && (pp.payload.None? <==> HeaderLength(h) == |s|)
      && (pp.payload.Some? ==> pp.payload.value.offset == HeaderLength(h))
      && |s| == HeaderLength(h) + PayloadLength(pp)
                + (if h.padding && HeaderLength(h) < |s| then s[|s| - 1] else 0)
  {
    var h := Parse(s).value.header;
    var x := ParseExtension(s, CsrcListEnd(h), h.extension);
    assert x.value.1 == HeaderLength(h);
    assert Parse(s).value.payload == ParsePayload(s, x.value.1, PaddingBit(s[0])).value;
  }

  /**
   * Rtp_DeSerialize over the first `length` octets of `input`. A missing
   * context, input or output packet, or an input shorter than the fixed
   * header, is a bad parameter; anything else is decoded by Parse.
   */
  function Deserialize(ctx: Context?, input: Option<seq<uint8>>, length: nat, hasPacketOut: bool)
    : (r: Result<ParsedPacket>)
    reads ctx
    requires input.Some? ==> length <= |input.value|
    requires ctx != null && input.Some? && hasPacketOut && length >= HeaderMinLength ==> ctx.Ready()
    ensures r == Failure(BadParam)
            <==> ctx == null || input.None? || !hasPacketOut || length < HeaderMinLength
    ensures r != Failure(BadParam) ==> r == Parse(input.value[..length])
  {
    if ctx == null || input.None? || !hasPacketOut || length < HeaderMinLength then
      Failure(BadParam)
    else
      Parse(input.value[..length])
  }

  /** The words a view denotes: none for a NULL view. */
  function WordsIn(s: seq<uint8>, v: Option<View>): seq<uint32>
    requires v.Some? ==> v.value.offset + 4 * v.value.length <= |s|
  {
    match v
    case None => []
    case Some(w) => ReadWords(s, w.offset, w.length)
  }

  /** The octets a view denotes: none for a NULL view. */
  function BytesIn(s: seq<uint8>, v: Option<View>): seq<uint8>
    requires v.Some? ==> v.value.offset + v.value.length <= |s|
  {
    match v
    case None => []
    case Some(w) => s[w.offset..w.offset + w.length]
  }

  /** What a caller reads through the views of a parsed packet over input `s`. */
  function Materialize(s: seq<uint8>, pp: ParsedPacket): OwnedPacket
    requires ViewsWithin(|s|, pp)
  {
    var h := pp.header;
    var e := h.extensionHeader;
    Packet(
      Header(h.padding, h.extension, h.marker, h.csrcCount, h.payloadType,
             h.sequenceNumber, h.timestamp, h.ssrc,
             WordsIn(s, h.csrc), Extension(e.profile, e.length, WordsIn(s, e.payload))),
      BytesIn(s, pp.payload))
  }
}

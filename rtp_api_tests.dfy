/**
 * The unit-test scenarios of the RTP API, each as a method that sets up a
 * context, calls the API on the test's packet or octets, and promises in its
 * postcondition what the test checks.
 */
module RtpApiTests {
  import opened RtpTypes
  import opened WordCodec
  import opened RtpCodec

  /** Size of the output buffers the serialize tests hand in. */
  const MaxFrameLength: nat := 10 * 1024

  /** The ASCII octets of "hello world!". */
  const HelloWorld: seq<uint8> :=
    [0x68, 0x65, 0x6C, 0x6C, 0x6F, 0x20, 0x77, 0x6F, 0x72, 0x6C, 0x64, 0x21]

  /** The fixed header most tests use: payload type 96, sequence number 1234. */
  const HelloFixedHeader: seq<uint8> :=
    [0x80, 0x60, 0x04, 0xD2, 0x12, 0x34, 0x56, 0x78, 0x87, 0x65, 0x43, 0x21]

  /** The two words the CSRC and extension tests carry. */
  const TwoWords: seq<uint32> := [0x11223344, 0x55667788]
  const TwoWordsOctets: seq<uint8> := [0x11, 0x22, 0x33, 0x44, 0x55, 0x66, 0x77, 0x88]

  /** The octets of the deserialize tests with two CSRC identifiers and with an extension. */
  const CsrcPacket: seq<uint8> := [0x82] + HelloFixedHeader[1..] + TwoWordsOctets + HelloWorld[..11]
  const ExtensionPacket: seq<uint8> :=
    [0x90] + HelloFixedHeader[1..] + [0x00, 0x00, 0x00, 0x02] + TwoWordsOctets + HelloWorld[..11]

  /** "hello world" followed by a single padding octet that counts itself, with the P flag set. */
  const PaddedHelloPacket: seq<uint8> := [0xA0] + HelloFixedHeader[1..] + HelloWorld[..11] + [0x01]

  /** The "hello world!" packet with octet 1 set to 0x80. */
  const MarkerPacket: seq<uint8> := [0x80, 0x80] + HelloFixedHeader[2..] + HelloWorld

  /** The header of the "hello world!" tests, with the given flags, CSRC list and extension. */
  function HelloHeader(extension: bool, marker: bool, csrc: seq<uint32>, ext: Extension<seq<uint32>>)
    : (h: Header<seq<uint32>>)
    requires |csrc| <= 15
    ensures h.csrcCount == |csrc| && h.payloadType == 96 && h.sequenceNumber == 1234
  {
    Header(false, extension, marker, |csrc|, 96, 1234, 0x12345678, 0x87654321, csrc, ext)
  }

  /** The header of the padding tests: payload type 0x66, sequence number 0. */
  function PaddingHeader(padding: bool): (h: Header<seq<uint32>>)
    ensures h.padding == padding && h.csrcCount == 0 && !h.extension
  {
    Header(padding, false, false, 0, 0x66, 0, 0x12345678, 0x9ABCDEFF, [], Extension(0, 0, []))
  }

  /** The fixed header of the padding tests, with or without the padding flag. */
  function PaddingFixedHeader(padding: bool): (r: seq<uint8>)
    ensures |r| == HeaderMinLength
  {
    [if padding then 0xA0 else 0x80, 0x66, 0x00, 0x00, 0x12, 0x34, 0x56, 0x78, 0x9A, 0xBC, 0xDE, 0xFF]
  }

  /** The fixed header of a "hello world!" test packet, octet 0 and 1 depending on its flags and CSRC count. */
  lemma HelloFixedHeaderBytes(extension: bool, marker: bool, csrc: seq<uint32>, ext: Extension<seq<uint32>>)
    requires |csrc| <= 15
    ensures FixedHeaderBytes(HelloHeader(extension, marker, csrc, ext))
      == [0x80 + (if extension then 0x10 else 0) + |csrc|, if marker then 0xE0 else 0x60] + HelloFixedHeader[2..]
  {
    var h := HelloHeader(extension, marker, csrc, ext);
    assert Uint16Bytes(1234) == [0x04, 0xD2];
    assert Uint32Bytes(0x12345678) == [0x12, 0x34, 0x56, 0x78];
    assert Uint32Bytes(0x87654321) == [0x87, 0x65, 0x43, 0x21];
  }

  /** The two test words, written in network order. */
  lemma TwoWordsBytes()
    ensures WordsBytes(TwoWords) == TwoWordsOctets
  {
    assert TwoWords[..1] == [0x11223344];
    assert WordsBytes([0x11223344]) == WordsBytes([]) + Uint32Bytes(0x11223344);
    assert Uint32Bytes(0x11223344) == [0x11, 0x22, 0x33, 0x44];
    assert Uint32Bytes(0x55667788) == [0x55, 0x66, 0x77, 0x88];
  }

  /** The wire image of the extension test packet. */
  lemma ExtensionPacketBytes()
    ensures var p := Packet(HelloHeader(true, false, [], Extension(0, 2, TwoWords)), HelloWorld);
      WellFormed(p)
      && Encode(p) == [0x90] + HelloFixedHeader[1..] + [0x00, 0x00, 0x00, 0x02] + TwoWordsOctets + HelloWorld
  {
    var e := Extension(0, 2, TwoWords);
    var h := HelloHeader(true, false, [], e);
    var a, b := [0x90] + HelloFixedHeader[1..], [0x00, 0x00, 0x00, 0x02] + TwoWordsOctets;
    HelloFixedHeaderBytes(true, false, [], e);
    assert FixedHeaderBytes(h) == a;
    TwoWordsBytes();
    assert Uint16Bytes(0) + Uint16Bytes(2) == [0x00, 0x00, 0x00, 0x02];
    assert ExtensionBytes(h) == b;
    assert BodyBytes(Packet(h, HelloWorld)) == b + HelloWorld;
    assert a + (b + HelloWorld) == a + b + HelloWorld;
  }

  /** Serializes `p` into a fresh buffer of `capacity` octets through an initialised context. */
  method SerializeFresh(p: OwnedPacket, capacity: nat) returns (r: Status, newLength: Option<nat>, written: seq<uint8>)
    requires WellFormed(p)
    ensures capacity == 0 ==> (r == BadParam || r == OutOfMemory) && newLength == Some(0)
    ensures 0 < capacity < RequiredLength(p) ==> r == OutOfMemory && newLength == Some(capacity)
    ensures RequiredLength(p) <= capacity && !PaddingConsistent(p) ==>
      r == MalformedPacket && newLength == Some(capacity)
    ensures RequiredLength(p) <= capacity && PaddingConsistent(p) ==>
      r == Ok && newLength == Some(RequiredLength(p)) && written == Encode(p)
  {
    var ctx := new Context();
    var initialized := Init(ctx);
    var buffer := new uint8[capacity];
    r, newLength := Serialize(ctx, Some(p), buffer, Some(capacity));
    written := [];
    if r == Ok {
      written := buffer[..RequiredLength(p)];
    }
  }

  /** Rtp_Init on a context succeeds and installs the read/write pair. */
  method InitPass() returns (r: Status, ready: bool)
    ensures r == Ok && ready
  {
    var ctx := new Context();
    r := Init(ctx);
    ready := ctx.Ready();
  }

  /** Rtp_Init without a context is a bad parameter. */
  method InitBadParams() returns (r: Status)
    ensures r == BadParam
  {
    r := Init(null);
  }

  /** A plain packet is written as the fixed header followed by the payload. */
  method SerializePass() returns (r: Status, written: seq<uint8>)
    ensures r == Ok && written == HelloFixedHeader + HelloWorld
  {
    var p := Packet(HelloHeader(false, false, [], Extension(0, 0, [])), HelloWorld);
    HelloFixedHeaderBytes(false, false, [], Extension(0, 0, []));
    var newLength;
    r, newLength, written := SerializeFresh(p, MaxFrameLength);
  }

  /** Two CSRC identifiers follow the fixed header; octet 0 carries the count. */
  method SerializeWithCsrc() returns (r: Status, written: seq<uint8>)
    ensures r == Ok
    ensures written == [0x82] + HelloFixedHeader[1..] + TwoWordsOctets + HelloWorld
  {
    var p := Packet(HelloHeader(false, false, TwoWords, Extension(0, 0, [])), HelloWorld);
    HelloFixedHeaderBytes(false, false, TwoWords, Extension(0, 0, []));
    TwoWordsBytes();
    var newLength;
    r, newLength, written := SerializeFresh(p, MaxFrameLength);
  }

  /** The extension header and its words follow the fixed header; octet 0 carries X. */
  method SerializeWithExtension() returns (r: Status, written: seq<uint8>)
    ensures r == Ok
    ensures written == [0x90] + HelloFixedHeader[1..] + [0x00, 0x00, 0x00, 0x02] + TwoWordsOctets + HelloWorld
  {
    var p := Packet(HelloHeader(true, false, [], Extension(0, 2, TwoWords)), HelloWorld);
    ExtensionPacketBytes();
    var newLength;
    r, newLength, written := SerializeFresh(p, MaxFrameLength);
  }

  /** The marker flag sets the top bit of octet 1. */
  method SerializeWithMarker() returns (r: Status, written: seq<uint8>)
    ensures r == Ok && written == [0x80, 0xE0] + HelloFixedHeader[2..] + HelloWorld
  {
    var p := Packet(HelloHeader(false, true, [], Extension(0, 0, [])), HelloWorld);
    HelloFixedHeaderBytes(false, true, [], Extension(0, 0, []));
    var newLength;
    r, newLength, written := SerializeFresh(p, MaxFrameLength);
  }

  /**
   * The eight payload octets of the padding tests: data, then `padCount`
   * padding octets, zero except the last, which holds the count.
   */
  function PaddedPayload(padCount: uint8): (r: seq<uint8>)
    requires 1 <= padCount <= 3
    ensures |r| == 8 && r[7] == padCount
    ensures forall i | 8 - padCount <= i < 7 :: r[i] == 0
  {
    [0x12, 0x34, 0x56, 0x78] + [0x9A, 0xBC, 0xDE][..4 - padCount] + seq(padCount - 1, _ => 0) + [padCount]
  }

  /**
   * Pad counts of 1, 2 and 3 at the end of an eight-octet payload are
   * accepted and written as given, into a buffer of 20 + `padCount` octets.
   */
  method SerializePadding(padCount: uint8) returns (r: Status, written: seq<uint8>)
    requires 1 <= padCount <= 3
    ensures r == Ok && written == PaddingFixedHeader(true) + PaddedPayload(padCount)
  {
    var newLength;
    r, newLength, written := SerializeFresh(Packet(PaddingHeader(true), PaddedPayload(padCount)), 20 + padCount);
  }

  /** A pad count of 5 at the end of a four-octet payload is malformed. */
  method SerializeInvalidPadding() returns (r: Status)
    ensures r == MalformedPacket
  {
    var newLength, written;
    r, newLength, written := SerializeFresh(Packet(PaddingHeader(true), [0x12, 0x00, 0x00, 0x05]), MaxFrameLength);
  }

  /**
   * Without a payload only the twelve header octets are written. A payload
   * is a sequence here, so a zero length with a NULL payload pointer and
   * with a non-NULL one are the same empty payload, and this one method
   * stands for both cases.
   */
  method SerializeZeroPayload() returns (r: Status, newLength: Option<nat>, written: seq<uint8>)
    ensures r == Ok && newLength == Some(12) && written == HelloFixedHeader
  {
    var p := Packet(HelloHeader(false, false, [], Extension(0, 0, [])), []);
    HelloFixedHeaderBytes(false, false, [], Extension(0, 0, []));
    r, newLength, written := SerializeFresh(p, MaxFrameLength);
  }

  /**
   * A missing context, packet or length pointer is a bad parameter, even
   * before the context is initialised.
   */
  method SerializeBadParams() returns (r1: Status, r2: Status, r3: Status)
    ensures r1 == BadParam && r2 == BadParam && r3 == BadParam
  {
    var ctx := new Context();
    var p := Packet(Header(false, false, false, 0, 0, 0, 0, 0, [], Extension(0, 0, [])), []);
    var buffer := new uint8[1];
    var newLength;
    r1, newLength := Serialize(null, Some(p), buffer, Some(1));
    r2, newLength := Serialize(ctx, None, buffer, Some(1));
    r3, newLength := Serialize(ctx, Some(p), buffer, None);
  }

  /** Without a buffer, Serialize reports the length it needs (24) whatever length came in. */
  method SerializeSizingQuery() returns (r: Status, newLength: Option<nat>)
    ensures r == Ok && newLength == Some(24)
  {
    var ctx := new Context();
    var initialized := Init(ctx);
    var p := Packet(HelloHeader(false, false, [], Extension(0, 0, [])), HelloWorld);
    r, newLength := Serialize(ctx, Some(p), null, Some(5));
  }

  /** A ten-octet buffer cannot take a 24-octet packet; the length is left at 10. */
  method SerializeOutOfMemory() returns (r: Status, newLength: Option<nat>)
    ensures r == OutOfMemory && newLength == Some(10)
  {
    var p := Packet(HelloHeader(false, false, [], Extension(0, 0, [])), HelloWorld[..11] + [0]);
    var written;
    r, newLength, written := SerializeFresh(p, 10);
  }

  /** Decodes `s` through an initialised context, as the deserialize tests do. */
  method DeserializeFresh(s: seq<uint8>) returns (r: Result<ParsedPacket>)
    ensures |s| < HeaderMinLength ==> r == Failure(BadParam)
    ensures |s| >= HeaderMinLength ==> r == Parse(s)
    ensures r.Success? ==> ViewsWithin(|s|, r.value)
  {
    var ctx := new Context();
    var initialized := Init(ctx);
    r := Deserialize(ctx, Some(s), |s|, true);
    assert s[..|s|] == s;
  }

  /** Without the padding flag all eight octets after the header are payload. */
  method DeserializeNoPadding() returns (r: Result<ParsedPacket>)
    ensures r.Success? && !r.value.header.padding && r.value.payload == Some(View(12, 8))
  {
    r := DeserializeFresh(PaddingFixedHeader(false) + [0x12, 0x34, 0x56, 0x78, 0x9A, 0xBC, 0xDE, 0xFF]);
  }

  /** With the padding flag, a last octet of 1, 2 or 3 strips that many octets. */
  method DeserializePadding(padCount: uint8) returns (r: Result<ParsedPacket>)
    requires 1 <= padCount <= 3
    ensures r.Success? && r.value.header.padding && r.value.payload == Some(View(12, 8 - padCount))
  {
    r := DeserializeFresh(PaddingFixedHeader(true) + PaddedPayload(padCount));
  }

  /** A pad count of 0x10 exceeds the eight octets after the header. */
  method DeserializeInvalidPadding() returns (r: Result<ParsedPacket>)
    ensures r == Failure(MalformedPacket)
  {
    r := DeserializeFresh(PaddingFixedHeader(true) + [0x12, 0x34, 0x56, 0x78, 0x9A, 0xBC, 0xDE, 0x10]);
  }

  /**
   * A missing context, input or output packet, or fewer than twelve octets,
   * is a bad parameter, even before the context is initialised.
   */
  method DeserializeBadParams() returns (r1: Result<ParsedPacket>, r2: Result<ParsedPacket>,
                                         r3: Result<ParsedPacket>, r4: Result<ParsedPacket>)
    ensures r1 == r2 == r3 == r4 == Failure(BadParam)
  {
    var ctx := new Context();
    var s := HelloFixedHeader + HelloWorld[..11];
    r1 := Deserialize(null, Some(s), |s|, true);
    r2 := Deserialize(ctx, None, |s|, true);
    r3 := Deserialize(ctx, Some(s), HeaderMinLength - 1, true);
    r4 := Deserialize(ctx, Some(s), |s|, false);
  }

  /** Every field of a plain packet is decoded; there is no CSRC list. */
  method DeserializePlain() returns (r: Result<ParsedPacket>)
    ensures r.Success? && ViewsWithin(|HelloFixedHeader + HelloWorld|, r.value)
    ensures var h := r.value.header;
      && !h.padding && !h.extension && !h.marker && h.csrcCount == 0 && h.csrc == None
      && h.payloadType == 96 && h.sequenceNumber == 1234
      && h.timestamp == 0x12345678 && h.ssrc == 0x87654321
      && BytesIn(HelloFixedHeader + HelloWorld, r.value.payload) == HelloWorld
  {
    r := DeserializeFresh(HelloFixedHeader + HelloWorld);
  }

  /** The two CSRC identifiers are read in network order. */
  method DeserializeWithCsrc() returns (r: Result<ParsedPacket>)
    ensures r.Success? && ViewsWithin(|CsrcPacket|, r.value)
    ensures var h := r.value.header;
      && !h.padding && !h.extension && !h.marker && h.csrcCount == 2
      && WordsIn(CsrcPacket, h.csrc) == TwoWords
  {
    r := DeserializeFresh(CsrcPacket);
    assert CsrcPacket[HeaderMinLength..HeaderMinLength + 8] == TwoWordsOctets;
    TwoWordsBytes();
    ReadWordsOfBytes(CsrcPacket, HeaderMinLength, TwoWords);
  }

  /** The extension profile, length and words are read in network order. */
  method DeserializeWithExtension() returns (r: Result<ParsedPacket>)
    ensures r.Success? && ViewsWithin(|ExtensionPacket|, r.value)
    ensures var h := r.value.header; var e := h.extensionHeader;
      && !h.padding && h.extension && !h.marker && h.csrcCount == 0
      && e.profile == 0 && e.length == 2
      && WordsIn(ExtensionPacket, e.payload) == TwoWords
  {
    r := DeserializeFresh(ExtensionPacket);
    assert ExtensionPacket[HeaderMinLength + 4..HeaderMinLength + 12] == TwoWordsOctets;
    TwoWordsBytes();
    ReadWordsOfBytes(ExtensionPacket, HeaderMinLength + 4, TwoWords);
  }

  /** A final pad count of 1 leaves the eleven octets of "hello world". */
  method DeserializeWithPadding() returns (r: Result<ParsedPacket>)
    ensures r.Success? && ViewsWithin(|PaddedHelloPacket|, r.value)
    ensures r.value.header.padding && !r.value.header.extension && !r.value.header.marker
    ensures r.value.header.csrcCount == 0 && r.value.payload == Some(View(12, 11))
    ensures BytesIn(PaddedHelloPacket, r.value.payload) == HelloWorld[..11]
  {
    r := DeserializeFresh(PaddedHelloPacket);
  }

  /** Version 0 is rejected. */
  method DeserializeWrongVersion() returns (r: Result<ParsedPacket>)
    ensures r == Failure(WrongVersion)
  {
    r := DeserializeFresh([0x00] + HelloFixedHeader[1..] + HelloWorld[..8] + [0x72, 0x64]);
  }

  /** The extension flag with no octets after the fixed header is malformed. */
  method DeserializeNoExtensionHeader() returns (r: Result<ParsedPacket>)
    ensures r == Failure(MalformedPacket)
  {
    r := DeserializeFresh([0x90] + HelloFixedHeader[1..]);
  }

  /** A CSRC count of 2 with one identifier present is malformed. */
  method DeserializeInsufficientCsrc() returns (r: Result<ParsedPacket>)
    ensures r == Failure(MalformedPacket)
  {
    r := DeserializeFresh([0x82] + HelloFixedHeader[1..] + TwoWordsOctets[..4]);
  }

  /** An extension length of 2 with one word present is malformed. */
  method DeserializeInsufficientExtension() returns (r: Result<ParsedPacket>)
    ensures r == Failure(MalformedPacket)
  {
    r := DeserializeFresh([0x90] + HelloFixedHeader[1..] + [0x00, 0x00, 0x00, 0x02] + TwoWordsOctets[..4]);
  }

  /** Twelve octets decode to a packet with a NULL payload of length 0. */
  method DeserializeNoPayload() returns (r: Result<ParsedPacket>)
    ensures r.Success? && r.value.payload == None && PayloadLength(r.value) == 0
  {
    r := DeserializeFresh(HelloFixedHeader);
  }

  /**
   * Octet 1 of 0x80 is the marker bit with payload type 0 (the test's title
   * speaks of the marker bit not being set); all twelve octets after the
   * header are payload.
   */
  method DeserializeMarkerOctet() returns (r: Result<ParsedPacket>)
    ensures r.Success? && ViewsWithin(|MarkerPacket|, r.value)
    ensures r.value.header.marker && r.value.header.payloadType == 0
    ensures r.value.payload == Some(View(12, 12))
    ensures BytesIn(MarkerPacket, r.value.payload) == HelloWorld
  {
    r := DeserializeFresh(MarkerPacket);
  }
}

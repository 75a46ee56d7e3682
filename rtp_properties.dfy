/**
 * What the codec promises across calls: where each section of an encoded
 * packet lies, when an encoded packet decodes, that decoding an encoding
 * gives back what the receiver should see, and that re-encoding a decoded
 * unpadded packet gives back its input.
 *
 * Most lemmas are stated for any octet string `s` laid out as a packet `p`
 * (the predicate Laid); EncodeLayout shows that Encode(p) is one.
 */
module RtpProperties {
  import opened RtpTypes
  import opened WordCodec
  import opened RtpCodec

  /*
   * Layout of an encoded packet
   */

  /**
   * `s` holds packet `p`: the fixed header, the CSRC words, the optional
   * extension section and the payload, in that order and nothing else.
   */
  ghost predicate Laid(s: seq<uint8>, p: OwnedPacket)
  {
    var h := p.header;
    && WellFormed(p)
    && |s| == RequiredLength(p)
    && s[..HeaderMinLength] == FixedHeaderBytes(h)
    && s[HeaderMinLength..CsrcListEnd(h)] == WordsBytes(h.csrc)
    && s[CsrcListEnd(h)..HeaderLength(h)] == ExtensionBytes(h)
    && s[HeaderLength(h)..] == p.payload
  }

  /** An encoded packet is laid out section after section. */
  lemma EncodeLayout(p: OwnedPacket)
    requires WellFormed(p)
    ensures Laid(Encode(p), p)
  {
    var h := p.header;
    Parts(FixedHeaderBytes(h), WordsBytes(h.csrc), ExtensionBytes(h), p.payload);
  }

  /** The extension section: profile in octets 0-1, length in words in octets 2-3, then the words. */
  lemma ExtensionLayout(e: Extension<seq<uint32>>)
    ensures var x := ExtensionSectionBytes(e);
      && x[..2] == Uint16Bytes(e.profile)
      && x[2..4] == Uint16Bytes(e.length)
      && x[..4] == Uint16Bytes(e.profile) + Uint16Bytes(e.length)
      && x[4..] == WordsBytes(e.payload)
  {
    var a, b, c := Uint16Bytes(e.profile), Uint16Bytes(e.length), WordsBytes(e.payload);
    var x := ExtensionSectionBytes(e);
    assert a + b + c == a + (b + (c + []));
    Parts(a, b, c, []);
    assert x[..4] == x[..2] + x[2..4];
  }

  /** Where the extension of a laid-out packet lies: right after the CSRC words. */
  lemma LaidExtension(s: seq<uint8>, p: OwnedPacket)
    requires Laid(s, p) && p.header.extension
    ensures var h, e := p.header, p.header.extensionHeader;
      && HeaderLength(h) == CsrcListEnd(h) + 4 + 4 * |e.payload| <= |s|
      && s[CsrcListEnd(h)..CsrcListEnd(h) + 4] == Uint16Bytes(e.profile) + Uint16Bytes(e.length)
      && s[CsrcListEnd(h) + 2..CsrcListEnd(h) + 4] == Uint16Bytes(e.length)
      && s[CsrcListEnd(h) + 4..CsrcListEnd(h) + 4 + 4 * |e.payload|] == WordsBytes(e.payload)
  {
    var h, e := p.header, p.header.extensionHeader;
    var x := ExtensionSectionBytes(e);
    ExtensionLayout(e);
    SliceOfEqual(s, CsrcListEnd(h), HeaderLength(h), x, 0, 4);
    SliceOfEqual(s, CsrcListEnd(h), HeaderLength(h), x, 2, 4);
    SliceOfEqual(s, CsrcListEnd(h), HeaderLength(h), x, 4, |x|);
  }

  /** Where the extension of an encoded packet lies: right after the CSRC words. */
  lemma EncodedExtension(p: OwnedPacket)
    requires WellFormed(p) && p.header.extension
    ensures var s, h, e := Encode(p), p.header, p.header.extensionHeader;
      && CsrcListEnd(h) + 4 <= HeaderLength(h) <= |s|
      && s[CsrcListEnd(h)..CsrcListEnd(h) + 2] == Uint16Bytes(e.profile)
      && s[CsrcListEnd(h) + 2..CsrcListEnd(h) + 4] == Uint16Bytes(e.length)
      && s[CsrcListEnd(h) + 4..HeaderLength(h)] == WordsBytes(e.payload)
  {
    var s, h := Encode(p), p.header;
    EncodeLayout(p);
    LaidExtension(s, p);
    SliceOfEqual(s, CsrcListEnd(h), CsrcListEnd(h) + 4, Uint16Bytes(h.extensionHeader.profile)
                 + Uint16Bytes(h.extensionHeader.length), 0, 2);
  }

  /*
   * Framing
   */

  /** The first and last octets of a laid-out packet. */
  lemma LaidEnds(s: seq<uint8>, p: OwnedPacket)
    requires Laid(s, p)
    ensures s[0] == FirstOctet(p.header)
    ensures |p.payload| > 0 ==> s[|s| - 1] == p.payload[|p.payload| - 1]
  {
    assert s[0] == s[..HeaderMinLength][0];
    if |p.payload| > 0 {
      assert s[|s| - 1] == s[HeaderLength(p.header)..][|p.payload| - 1];
    }
  }

  /** A laid-out packet is complete exactly when its padding is consistent. */
  lemma LaidFramed(s: seq<uint8>, p: OwnedPacket)
    requires Laid(s, p)
    ensures Framed(s) <==> PaddingConsistent(p)
  {
    var h := p.header;
    LaidEnds(s, p);
    OctetFields(h);
    if h.extension {
      LaidExtension(s, p);
      ReadUint16At(s, CsrcListEnd(h) + 2, h.extensionHeader.length);
    }
  }

  /**
   * An encoded packet is a complete RTP packet exactly when its padding is
   * consistent: Serialize's padding check rejects precisely the packets that
   * Deserialize would reject.
   */
  lemma EncodeFramed(p: OwnedPacket)
    requires WellFormed(p)
    ensures Framed(Encode(p)) <==> PaddingConsistent(p)
  {
    EncodeLayout(p);
    LaidFramed(Encode(p), p);
  }

  /*
   * Decoding an encoding
   */

  /** The fields of two headers that the fixed header's twelve octets carry are equal. */
  ghost predicate SameFixedFields<V, W>(h1: Header<V>, h2: Header<W>)
  {
    && h1.padding == h2.padding && h1.extension == h2.extension && h1.marker == h2.marker
    && h1.csrcCount == h2.csrcCount && h1.payloadType == h2.payloadType
    && h1.sequenceNumber == h2.sequenceNumber && h1.timestamp == h2.timestamp && h1.ssrc == h2.ssrc
  }

  /** The twelve octets of a fixed header determine every field they carry. */
  lemma FixedHeaderInjective<V, W>(h1: Header<V>, h2: Header<W>)
    requires h1.csrcCount <= 15 && h1.payloadType < 128
    requires h2.csrcCount <= 15 && h2.payloadType < 128
    requires FixedHeaderBytes(h1) == FixedHeaderBytes(h2)
    ensures SameFixedFields(h1, h2)
  {
    var x1, x2 := FixedHeaderBytes(h1), FixedHeaderBytes(h2);
    OctetFields(h1);
    OctetFields(h2);
    assert x1[0] == FirstOctet(h1) && x2[0] == FirstOctet(h2);
    assert x1[1] == SecondOctet(h1) && x2[1] == SecondOctet(h2);
    assert x1[2..4] == Uint16Bytes(h1.sequenceNumber) && x2[2..4] == Uint16Bytes(h2.sequenceNumber);
    assert x1[4..8] == Uint32Bytes(h1.timestamp) && x2[4..8] == Uint32Bytes(h2.timestamp);
    assert x1[8..12] == Uint32Bytes(h1.ssrc) && x2[8..12] == Uint32Bytes(h2.ssrc);
    Uint16BytesInjective(h1.sequenceNumber, h2.sequenceNumber);
    Uint32BytesInjective(h1.timestamp, h2.timestamp);
    Uint32BytesInjective(h1.ssrc, h2.ssrc);
  }

  /** Two 16-bit fields written one after the other determine both fields. */
  lemma Uint16PairInjective(a: uint16, b: uint16, c: uint16, d: uint16)
    requires Uint16Bytes(a) + Uint16Bytes(b) == Uint16Bytes(c) + Uint16Bytes(d)
    ensures a == c && b == d
  {
    var x, y := Uint16Bytes(a) + Uint16Bytes(b), Uint16Bytes(c) + Uint16Bytes(d);
    assert x[..2] == Uint16Bytes(a) && y[..2] == Uint16Bytes(c);
    assert x[2..] == Uint16Bytes(b) && y[2..] == Uint16Bytes(d);
    Uint16BytesInjective(a, c);
    Uint16BytesInjective(b, d);
  }

  /**
   * What a receiver should see of a sent packet: without the extension flag
   * no extension (all zero, no words); with the padding flag set the payload
   * without its trailing padding.
   */
  function Received(p: OwnedPacket): (q: OwnedPacket)
    requires PaddingConsistent(p)
    ensures q.header == p.header.(extensionHeader := q.header.extensionHeader)
    ensures |q.payload| <= |p.payload|
  {
    Packet(p.header.(extensionHeader := ReceivedExtension(p.header)), Unpadded(p))
  }

  /**
   * The payload a receiver should see: with the padding flag set, the
   * payload without as many trailing octets as its last octet counts.
   */
  function Unpadded(p: OwnedPacket): (r: seq<uint8>)
    requires PaddingConsistent(p)
    ensures |r| <= |p.payload| && r == p.payload[..|r|]
    ensures p.header.padding && |p.payload| > 0 ==> |r| == |p.payload| - p.payload[|p.payload| - 1]
    ensures !p.header.padding ==> r == p.payload
  {
    if p.header.padding && |p.payload| > 0 then p.payload[..|p.payload| - p.payload[|p.payload| - 1]]
    else p.payload
  }

  /** The extension a receiver should see: none, all zero, when the flag is clear. */
  function ReceivedExtension(h: Header<seq<uint32>>): (e: Extension<seq<uint32>>)
    ensures !h.extension ==> e.payload == []
  {
    if h.extension then h.extensionHeader else Extension(0, 0, [])
  }

  /** A laid-out packet decodes, and its fixed header carries the fields that were laid out. */
  lemma DecodeLaidFixed(s: seq<uint8>, p: OwnedPacket)
    requires Laid(s, p) && PaddingConsistent(p)
    ensures |s| >= HeaderMinLength && Parse(s).Success?
    ensures SameFixedFields(Parse(s).value.header, p.header)
  {
    LaidFramed(s, p);
    ParseSucceedsIffFramed(s);
    ParseFixedHeader(s);
    FixedHeaderInjective(Parse(s).value.header, p.header);
  }

  /** The CSRC list read through the decoded view is the list that was laid out. */
  lemma DecodeLaidCsrc(s: seq<uint8>, p: OwnedPacket)
    requires Laid(s, p) && PaddingConsistent(p)
    ensures |s| >= HeaderMinLength && Parse(s).Success?
    ensures WordsIn(s, Parse(s).value.header.csrc) == p.header.csrc
  {
    DecodeLaidFixed(s, p);
    ParseCsrc(s);
    if p.header.csrcCount > 0 {
      ReadWordsOfBytes(s, HeaderMinLength, p.header.csrc);
    }
  }

  /**
   * A decoded laid-out packet carries the extension header that was laid
   * out, so its header sections take as many octets as the laid-out ones.
   */
  lemma DecodeLaidHeaderLength(s: seq<uint8>, p: OwnedPacket)
    requires Laid(s, p) && PaddingConsistent(p)
    ensures |s| >= HeaderMinLength && Parse(s).Success?
    ensures var h, e := p.header, Parse(s).value.header.extensionHeader;
      && (h.extension ==> e.profile == h.extensionHeader.profile && e.length == h.extensionHeader.length)
      && HeaderLength(Parse(s).value.header) == HeaderLength(h)
  {
    DecodeLaidFixed(s, p);
    ParseExtensionHeader(s);
    var h, e := p.header, Parse(s).value.header.extensionHeader;
    if h.extension {
      LaidExtension(s, p);
      Uint16PairInjective(e.profile, e.length, h.extensionHeader.profile, h.extensionHeader.length);
    }
  }

  /** With the extension flag set, the extension read through the decoded view is the laid-out one. */
  lemma DecodeLaidExtensionPresent(s: seq<uint8>, p: OwnedPacket)
    requires Laid(s, p) && PaddingConsistent(p) && p.header.extension
    ensures |s| >= HeaderMinLength && Parse(s).Success?
    ensures var e := Parse(s).value.header.extensionHeader;
      Extension(e.profile, e.length, WordsIn(s, e.payload)) == p.header.extensionHeader
  {
    DecodeLaidHeaderLength(s, p);
    ParseExtensionHeader(s);
    LaidExtension(s, p);
    ReadWordsOfBytes(s, CsrcListEnd(p.header) + 4, p.header.extensionHeader.payload);
  }

  /** The extension read through the decoded views is the one a receiver should see. */
  lemma DecodeLaidExtension(s: seq<uint8>, p: OwnedPacket)
    requires Laid(s, p) && PaddingConsistent(p)
    ensures |s| >= HeaderMinLength && Parse(s).Success?
    ensures var e := Parse(s).value.header.extensionHeader;
      Extension(e.profile, e.length, WordsIn(s, e.payload)) == ReceivedExtension(p.header)
  {
    DecodeLaidFixed(s, p);
    if p.header.extension {
      DecodeLaidExtensionPresent(s, p);
    } else {
      ParseExtensionHeader(s);
    }
  }

  /** The payload read through the decoded view is the laid-out payload without its padding. */
  lemma DecodeLaidPayload(s: seq<uint8>, p: OwnedPacket)
    requires Laid(s, p) && PaddingConsistent(p)
    ensures |s| >= HeaderMinLength && Parse(s).Success?
    ensures BytesIn(s, Parse(s).value.payload) == Unpadded(p)
  {
    DecodeLaidFixed(s, p);
    DecodeLaidHeaderLength(s, p);
    ParsePayloadSection(s);
    LaidEnds(s, p);
    PayloadView(s, HeaderLength(p.header), p, Parse(s).value.payload);
  }

  /**
   * A payload view that starts where the payload `p.payload` was laid out
   * and stops short of the padding denotes the payload a receiver should see.
   */
  lemma PayloadView(s: seq<uint8>, at: nat, p: OwnedPacket, v: Option<View>)
    requires at <= |s| && s[at..] == p.payload && PaddingConsistent(p)
    requires v.None? <==> at == |s|
    requires v.Some? ==> v.value.offset == at
    requires |s| == at + (if v.Some? then v.value.length else 0)
                + (if p.header.padding && at < |s| then s[|s| - 1] else 0)
    requires |p.payload| > 0 ==> s[|s| - 1] == p.payload[|p.payload| - 1]
    ensures v.Some? ==> v.value.offset + v.value.length <= |s|
    ensures BytesIn(s, v) == Unpadded(p)
  {
    if v.Some? {
      SliceOfEqual(s, at, |s|, p.payload, 0, v.value.length);
    }
  }

  /**
   * Round trip: an encoded packet decodes, and what its views show is what
   * was sent, as a receiver should see it.
   */
  lemma DecodeEncode(p: OwnedPacket)
    requires WellFormed(p) && PaddingConsistent(p)
    ensures Parse(Encode(p)).Success?
    ensures Materialize(Encode(p), Parse(Encode(p)).value) == Received(p)
  {
    var s := Encode(p);
    EncodeLayout(p);
    DecodeLaidFixed(s, p);
    DecodeLaidCsrc(s, p);
    DecodeLaidExtension(s, p);
    DecodeLaidPayload(s, p);
  }

  /**
   * For a packet without padding whose unused extension is left zeroed,
   * decoding the encoding gives back exactly the packet.
   */
  lemma DecodeEncodeUnpadded(p: OwnedPacket)
    requires WellFormed(p) && !p.header.padding
    requires !p.header.extension ==> p.header.extensionHeader == Extension(0, 0, [])
    ensures Parse(Encode(p)).Success?
    ensures Materialize(Encode(p), Parse(Encode(p)).value) == p
  {
    DecodeEncode(p);
  }

  /*
   * Encoding a decoding
   */

  /** The packet a caller reads through the views of a decoded input. */
  function Decoded(s: seq<uint8>): (q: OwnedPacket)
    requires |s| >= HeaderMinLength && Parse(s).Success?
    ensures q.header.padding == PaddingBit(s[0]) && q.header.extension == ExtensionBit(s[0])
  {
    Materialize(s, Parse(s).value)
  }

  /**
   * A decoded packet meets Serialize's precondition (WellFormed), and
   * without the padding flag also passes its padding check; its sections
   * take as many octets as the decoded views, and its fixed header
   * re-encodes to the twelve octets it came from. A padded decoded packet
   * carries its payload without the padding, so its last octet need not be
   * a valid pad count and Serialize may reject it.
   */
  lemma DecodedWellFormed(s: seq<uint8>)
    requires |s| >= HeaderMinLength && Parse(s).Success?
    ensures var q := Decoded(s);
      && WellFormed(q)
      && (!PaddingBit(s[0]) ==> PaddingConsistent(q))
      && CsrcListEnd(q.header) == CsrcListEnd(Parse(s).value.header)
      && HeaderLength(q.header) == HeaderLength(Parse(s).value.header)
      && FixedHeaderBytes(q.header) == s[..HeaderMinLength]
  {
    var pp, q := Parse(s).value, Decoded(s);
    ParseFixedHeader(s);
    ParseCsrc(s);
    ParseExtensionHeader(s);
    assert FixedHeaderBytes(q.header) == FixedHeaderBytes(pp.header);
  }

  /** The CSRC words of a decoded packet re-encode to the octets they were read from. */
  lemma ReEncodeCsrc(s: seq<uint8>)
    requires |s| >= HeaderMinLength && Parse(s).Success?
    ensures var h := Decoded(s).header;
      CsrcListEnd(h) <= |s| && s[HeaderMinLength..CsrcListEnd(h)] == WordsBytes(h.csrc)
  {
    var h := Parse(s).value.header;
    DecodedWellFormed(s);
    ParseCsrc(s);
    WordsBytesOfRead(s, HeaderMinLength, h.csrcCount);
  }

  /** An extension section decoded at `at` re-encodes to the octets it was read from. */
  lemma ExtensionSectionOfRead(s: seq<uint8>, at: nat, e: Extension<Option<View>>)
    requires at + 4 <= |s| && Uint16Bytes(e.profile) + Uint16Bytes(e.length) == s[at..at + 4]
    requires e.payload == Some(View(at + 4, e.length)) && at + 4 + 4 * e.length <= |s|
    ensures ExtensionSectionBytes(Extension(e.profile, e.length, WordsIn(s, e.payload)))
              == s[at..at + 4 + 4 * e.length]
  {
    var n: nat := e.length;
    WordsBytesOfRead(s, at + 4, n);
    assert s[at..at + 4 + 4 * n] == s[at..at + 4] + s[at + 4..at + 4 + 4 * n];
  }

  /** The extension of a decoded packet re-encodes to the octets it was read from. */
  lemma ReEncodeExtension(s: seq<uint8>)
    requires |s| >= HeaderMinLength && Parse(s).Success?
    ensures var h := Decoded(s).header;
      CsrcListEnd(h) <= HeaderLength(h) <= |s|
      && s[CsrcListEnd(h)..HeaderLength(h)] == ExtensionBytes(h)
  {
    var h := Parse(s).value.header;
    DecodedWellFormed(s);
    ParsePayloadSection(s);
    ParseExtensionHeader(s);
    var at := CsrcListEnd(h);
    var q, e := Decoded(s).header, h.extensionHeader;
    assert q.extensionHeader == Extension(e.profile, e.length, WordsIn(s, e.payload));
    if h.extension {
      ExtensionSectionOfRead(s, at, e);
      assert ExtensionBytes(q) == ExtensionSectionBytes(q.extensionHeader);
    } else {
      assert ExtensionBytes(q) == [];
    }
  }

  /** Without padding, the payload of a decoded packet is every octet after its header sections. */
  lemma ReEncodePayload(s: seq<uint8>)
    requires |s| >= HeaderMinLength && Parse(s).Success? && !PaddingBit(s[0])
    ensures HeaderLength(Decoded(s).header) <= |s|
    ensures s[HeaderLength(Decoded(s).header)..] == Decoded(s).payload
  {
    DecodedWellFormed(s);
    ParsePayloadSection(s);
  }

  /**
   * Round trip the other way: an input that decodes without padding is
   * exactly the encoding of the packet read through its views.
   */
  lemma EncodeDecode(s: seq<uint8>)
    requires |s| >= HeaderMinLength && Parse(s).Success? && !PaddingBit(s[0])
    ensures WellFormed(Decoded(s)) && Encode(Decoded(s)) == s
  {
    var q := Decoded(s);
    var h := q.header;
    DecodedWellFormed(s);
    ReEncodeCsrc(s);
    ReEncodeExtension(s);
    ReEncodePayload(s);
    Assemble(s, HeaderMinLength, CsrcListEnd(h), HeaderLength(h));
  }
}

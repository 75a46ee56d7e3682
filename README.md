# RTP packet codec

A model of the RTP packet codec of amazon-kinesis-video-streams-rtp: the three
calls `Rtp_Init`, `Rtp_Serialize` and `Rtp_DeSerialize`, together with the
round-trip properties that relate the encoder and the decoder.

- `Rtp_Init` fills in a context's pair of 32-bit read/write functions
  (`RtpCodec.Context`, `RtpCodec.Init`).
- `Rtp_Serialize` writes a packet into a caller-owned byte buffer in place
  (`RtpCodec.Serialize`, an imperative method on an `array<uint8>`). With a
  NULL buffer it answers a sizing query. Every error leaves the buffer and the
  length untouched.
- `Rtp_DeSerialize` reads an input buffer without copying it. It returns a
  packet whose CSRC list, extension words and payload are offset/length views
  into the input (`RtpCodec.Parse`, `RtpCodec.Deserialize`). A version other
  than 2 is `WrongVersion`. A truncated CSRC list, a truncated extension, or a
  padding count of zero or past the header is `MalformedPacket`.

How the model represents the C code:

- Octets and fields are integers in the ranges of `uint8_t`, `uint16_t` and
  `uint32_t`.
- The C shifts and masks on those unsigned values become division and remainder
  by powers of two.
- Multi-octet fields are in network byte order.
- `RtpCodec.Encode` is the wire image a packet serializes to.
  `RtpCodec.Framed` says when an octet string is a complete packet.
- `RtpProperties` proves both round trips:
  - decoding an encoding gives the packet as a receiver should see it (padding
    stripped, an unused extension zeroed);
  - re-encoding a decoded unpadded packet gives back its input.
- `RtpApiTests` restates each unit test of the repository as a method whose
  contract is the test's expected outcome. A payload is a sequence of octets,
  so an empty payload behind a NULL pointer and one behind a non-NULL pointer
  are the same value. `RtpApiTests.SerializeZeroPayload` therefore stands for
  both the zero-length test (lines 457-500) and the NULL-payload test
  (lines 921-964).

Files: `rtp_types.dfy` (values: status, views, header, packet),
`word_codec.dfy` (16/32-bit fields and word lists in network order),
`rtp_codec.dfy` (context, serialize, deserialize), `rtp_properties.dfy`
(layout, framing, both round trips), `rtp_api_tests.dfy` (the unit tests).

## Model

| member | source | states |
|---|---|---|
| RtpCodec.Context.constructor | test/unit-test/rtp_api/rtp_api_utest.c:36-37 | a zero-initialised context has no read/write functions yet |
| RtpCodec.Init | test/unit-test/rtp_api/rtp_api_utest.c:33-46 | a NULL context is BAD_PARAM; otherwise OK and the context holds the read/write pair |
| RtpCodec.OctetFields | test/unit-test/rtp_api/rtp_api_utest.c:220-263 | version 2, P, X, CC, M and PT each read back from octets 0 and 1 as they were packed |
| RtpCodec.Encode | test/unit-test/rtp_api/rtp_api_utest.c:53-96 | the wire image has the required length, starts with the 12-octet fixed header and ends with the payload |
| RtpCodec.WritePacket | test/unit-test/rtp_api/rtp_api_utest.c:103-153 | the buffer starts with the wire image and its octets past the required length are unchanged |
| RtpCodec.Serialize | test/unit-test/rtp_api/rtp_api_utest.c:738-914 | missing parameters are BAD_PARAM; a NULL buffer reports the required length; a short buffer is OUT_OF_MEMORY; an inconsistent pad count is MALFORMED_PACKET; otherwise the buffer holds the wire image and the length is the number of octets written; no error changes buffer or length |
| RtpCodec.ParseExtension | test/unit-test/rtp_api/rtp_api_utest.c:1241-1344 | succeeds iff the extension is absent or its header and declared words fit; profile and length are read in network order and the words are viewed right after them |
| RtpCodec.ParsePayload | test/unit-test/rtp_api/rtp_api_utest.c:507-716 | succeeds iff there is no padding flag, no octet after the header, or a last octet in 1 to the octets after the header; the view is NULL iff nothing follows the header, and the input length is header + payload + padding |
| RtpCodec.Parse | test/unit-test/rtp_api/rtp_api_utest.c:971-1429 | failures are WRONG_VERSION or MALFORMED_PACKET; a version other than 2 fails; every view of a decoded packet lies inside the input |
| RtpCodec.ParseSucceedsIffFramed | test/unit-test/rtp_api/rtp_api_utest.c:1203-1344 | decoding succeeds exactly on complete packets; WRONG_VERSION exactly when the version is not 2, MALFORMED_PACKET exactly when the version is 2 and the packet is incomplete |
| RtpCodec.ParseFixedHeader | test/unit-test/rtp_api/rtp_api_utest.c:971-1030 | a decoded fixed header fits the field widths and re-encodes to the 12 octets it was read from |
| RtpCodec.ParseCsrc | test/unit-test/rtp_api/rtp_api_utest.c:1037-1084 | the CSRC view starts at octet 12 with the decoded count, and is NULL when the count is 0 |
| RtpCodec.ParseExtensionHeader | test/unit-test/rtp_api/rtp_api_utest.c:1091-1145 | a decoded extension's profile and length re-encode to the 4 octets after the CSRC list and its words are viewed after them; without the X flag it is all zero |
| RtpCodec.ParsePayloadSection | test/unit-test/rtp_api/rtp_api_utest.c:1152-1196 | the payload view starts after the header sections, is NULL iff nothing follows them, and the input is header + payload + counted padding |
| RtpCodec.Deserialize | test/unit-test/rtp_api/rtp_api_utest.c:776-841 | BAD_PARAM iff the context, input or packet is missing or the input is shorter than 12 octets; otherwise the result of decoding the input |
| WordCodec.ReadUint32OfBytes | test/unit-test/rtp_api/rtp_api_utest.c:1037-1084 | a 32-bit field written in network order reads back as itself |
| WordCodec.Uint32BytesOfRead | test/unit-test/rtp_api/rtp_api_utest.c:1037-1084 | four octets read as a 32-bit field and written back give the same octets |
| WordCodec.WordsBytesInjective | test/unit-test/rtp_api/rtp_api_utest.c:103-153 | different CSRC/extension word lists are written as different octets |
| WordCodec.ReadWordsOfBytes | test/unit-test/rtp_api/rtp_api_utest.c:1037-1084 | words read back from the octets of a written word list are that list |
| WordCodec.WordsBytesOfRead | test/unit-test/rtp_api/rtp_api_utest.c:1091-1145 | a word list read from octets and written back gives those octets |
| WordCodec.WriteUint32 | test/unit-test/rtp_api/rtp_api_utest.c:43-45 | writeUint32Fn stores a word in network order and changes no other octet |
| WordCodec.WriteWords | test/unit-test/rtp_api/rtp_api_utest.c:103-153 | the CSRC or extension words are stored back to back in network order and nothing else changes |
| RtpProperties.EncodeLayout | test/unit-test/rtp_api/rtp_api_utest.c:160-213 | an encoded packet is the fixed header, CSRC words, optional extension section and payload, in that order |
| RtpProperties.EncodedExtension | test/unit-test/rtp_api/rtp_api_utest.c:160-213 | the extension profile, length and words of an encoded packet lie right after the CSRC words |
| RtpProperties.EncodeFramed | test/unit-test/rtp_api/rtp_api_utest.c:270-450 | an encoded packet is complete iff its padding is consistent, so serialize's padding check rejects exactly what deserialize would reject |
| RtpProperties.FixedHeaderInjective | test/unit-test/rtp_api/rtp_api_utest.c:53-96 | the 12 fixed-header octets determine every field they carry |
| RtpProperties.Unpadded | test/unit-test/rtp_api/rtp_api_utest.c:552-680 | the received payload is a prefix of the sent one, shorter by the last octet's count when padded and equal when not |
| RtpProperties.DecodeLaidCsrc | test/unit-test/rtp_api/rtp_api_utest.c:1037-1084 | the CSRC words read through the decoded view are the ones laid out |
| RtpProperties.DecodeLaidExtension | test/unit-test/rtp_api/rtp_api_utest.c:1091-1145 | the extension read through the decoded views is the one laid out, or all zero without the X flag |
| RtpProperties.DecodeLaidPayload | test/unit-test/rtp_api/rtp_api_utest.c:1152-1196 | the payload read through the decoded view is the laid-out payload without its padding |
| RtpProperties.DecodeEncode | test/unit-test/rtp_api/rtp_api_utest.c:53-213 | every well-formed packet with consistent padding encodes to an input that decodes to the packet as a receiver should see it |
| RtpProperties.DecodeEncodeUnpadded | test/unit-test/rtp_api/rtp_api_utest.c:53-96 | without padding and with an unused extension zeroed, decoding the encoding gives back exactly the packet |
| RtpProperties.DecodedWellFormed | test/unit-test/rtp_api/rtp_api_utest.c:971-1030 | a decoded packet meets serialize's precondition (well-formed fields and lists), and without the P flag also passes its padding check; it has the same header length, and its fixed header re-encodes to its first 12 octets |
| RtpProperties.ReEncodeExtension | test/unit-test/rtp_api/rtp_api_utest.c:1091-1145 | the extension of a decoded packet re-encodes to the octets it was read from |
| RtpProperties.EncodeDecode | test/unit-test/rtp_api/rtp_api_utest.c:971-1145 | an input that decodes without padding is exactly the encoding of the packet read through its views |
| RtpApiTests.SerializeFresh | test/unit-test/rtp_api/rtp_api_utest.c:53-96 | serializing into a fresh buffer: OUT_OF_MEMORY below the required length, MALFORMED_PACKET on inconsistent padding, otherwise OK with the wire image |
| RtpApiTests.InitPass | test/unit-test/rtp_api/rtp_api_utest.c:33-46 | OK, and the context is ready |
| RtpApiTests.InitBadParams | test/unit-test/rtp_api/rtp_api_utest.c:723-731 | a NULL context is BAD_PARAM |
| RtpApiTests.SerializePass | test/unit-test/rtp_api/rtp_api_utest.c:53-96 | the expected 24 octets: fixed header, then "hello world!" |
| RtpApiTests.SerializeWithCsrc | test/unit-test/rtp_api/rtp_api_utest.c:103-153 | octet 0 is 0x82 and the two CSRC words follow in network order |
| RtpApiTests.SerializeWithExtension | test/unit-test/rtp_api/rtp_api_utest.c:160-213 | octet 0 is 0x90, then profile 0, length 2 and the two extension words |
| RtpApiTests.SerializeWithMarker | test/unit-test/rtp_api/rtp_api_utest.c:220-263 | octet 1 is 0xE0 |
| RtpApiTests.SerializePadding | test/unit-test/rtp_api/rtp_api_utest.c:270-407 | pad counts 1, 2 and 3 are accepted into buffers of 21, 22 and 23 octets and the payload is written as given |
| RtpApiTests.SerializeInvalidPadding | test/unit-test/rtp_api/rtp_api_utest.c:414-450 | a pad count of 5 in a 4-octet payload is MALFORMED_PACKET |
| RtpApiTests.SerializeZeroPayload | test/unit-test/rtp_api/rtp_api_utest.c:457-500 | an empty payload writes only the 12 header octets and reports length 12 |
| RtpApiTests.SerializeBadParams | test/unit-test/rtp_api/rtp_api_utest.c:738-769 | a missing context, packet or length is BAD_PARAM |
| RtpApiTests.SerializeSizingQuery | test/unit-test/rtp_api/rtp_api_utest.c:849-877 | a NULL buffer is OK and reports length 24 whatever length came in |
| RtpApiTests.SerializeOutOfMemory | test/unit-test/rtp_api/rtp_api_utest.c:885-914 | a 10-octet buffer for a 24-octet packet is OUT_OF_MEMORY and the length stays 10 |
| RtpApiTests.DeserializeFresh | test/unit-test/rtp_api/rtp_api_utest.c:971-1030 | decoding through an initialised context: BAD_PARAM below 12 octets, otherwise the decoder's result with every view inside the input |
| RtpApiTests.DeserializeNoPadding | test/unit-test/rtp_api/rtp_api_utest.c:507-545 | without the P flag all 8 octets after the header are payload |
| RtpApiTests.DeserializePadding | test/unit-test/rtp_api/rtp_api_utest.c:552-680 | with the P flag, a last octet of 1, 2 or 3 leaves 8 minus that many payload octets |
| RtpApiTests.DeserializeInvalidPadding | test/unit-test/rtp_api/rtp_api_utest.c:687-716 | a pad count of 0x10 after 8 octets is MALFORMED_PACKET |
| RtpApiTests.DeserializeBadParams | test/unit-test/rtp_api/rtp_api_utest.c:776-841 | a missing context, input or packet, or 11 octets, is BAD_PARAM |
| RtpApiTests.DeserializePlain | test/unit-test/rtp_api/rtp_api_utest.c:971-1030 | every fixed-header field of the plain packet and its "hello world!" payload |
| RtpApiTests.DeserializeWithCsrc | test/unit-test/rtp_api/rtp_api_utest.c:1037-1084 | CSRC count 2 and the words 0x11223344, 0x55667788 |
| RtpApiTests.DeserializeWithExtension | test/unit-test/rtp_api/rtp_api_utest.c:1091-1145 | profile 0, length 2 and the two extension words |
| RtpApiTests.DeserializeWithPadding | test/unit-test/rtp_api/rtp_api_utest.c:1152-1196 | a final pad count of 1 leaves the 11 payload octets "hello world" |
| RtpApiTests.DeserializeWrongVersion | test/unit-test/rtp_api/rtp_api_utest.c:1203-1234 | version 0 is WRONG_VERSION |
| RtpApiTests.DeserializeNoExtensionHeader | test/unit-test/rtp_api/rtp_api_utest.c:1241-1269 | the X flag with nothing after the fixed header is MALFORMED_PACKET |
| RtpApiTests.DeserializeInsufficientCsrc | test/unit-test/rtp_api/rtp_api_utest.c:1276-1306 | CSRC count 2 with one word present is MALFORMED_PACKET |
| RtpApiTests.DeserializeInsufficientExtension | test/unit-test/rtp_api/rtp_api_utest.c:1313-1344 | extension length 2 with one word present is MALFORMED_PACKET |
| RtpApiTests.DeserializeNoPayload | test/unit-test/rtp_api/rtp_api_utest.c:1351-1383 | 12 octets decode with a NULL payload of length 0 |
| RtpApiTests.DeserializeMarkerOctet | test/unit-test/rtp_api/rtp_api_utest.c:1390-1429 | octet 1 of 0x80 decodes as marker set, payload type 0, and the 12 payload octets "hello world!" |

## Left out

- The implementation file `rtp_api.c` and the headers `rtp_api.h`, `rtp_data_types.h` and `rtp_endianness.h` are not part of this model. The behaviour comes from the repository's unit tests. Where the tests do not fix an outcome, the model makes an assumption of its own, and the lines below name each one.
- Host byte order: `Rtp_Init` picks read/write functions by the host's endianness. Every choice reads and writes network order, so one value (`NetworkByteOrder`) stands for all of them.
- `header.pCsrc` and `header.extension.pExtensionPayload` (with its word count `extensionPayloadLength`): the decoder points them into the input. The model exposes them as views whose words are read in network order (`RtpCodec.WordsIn`). How C makes host-order words visible through those pointers is not modelled.
- `size_t` overflow of the required length is not modelled: lengths are unbounded naturals. A 16-bit extension length and at most 15 CSRCs keep every real header small.
- Partial output on failure: the decoder's packet is modelled only on success. What a failing `Rtp_DeSerialize` leaves in the caller's packet is not captured.
- An initialised context is a precondition only on the paths that use its read/write pair: `RtpCodec.Serialize` needs it when it is given a non-NULL buffer with a non-zero length (the writing path), and `RtpCodec.Deserialize` needs it once the context, input and packet are present and the input has at least 12 octets. The BAD_PARAM paths and the sizing query (NULL buffer) accept an uninitialised context. The tests use an uninitialised one only on BAD_PARAM paths.
- RtpCodec.Serialize: with a non-NULL buffer of capacity 0, the contract only says "BAD_PARAM or OUT_OF_MEMORY, nothing written", because the tests do not show which one the code returns. The order of the checks is the model's own assumption: parameters first, then the sizing query, then the capacity, then the padding.
- RtpCodec.Parse: the contract does not say which of WRONG_VERSION and MALFORMED_PACKET wins when both apply. `RtpCodec.ParseSucceedsIffFramed` pins the version check first, which is the model's own assumption: the version is checked before the packet's structure.
- Serialize over the extension flag: with the X flag clear the extension fields are ignored. `RtpProperties.DecodeEncode` states that the receiver then sees an all-zero extension (`RtpProperties.ReceivedExtension`).
- Round trip with padding: `RtpProperties.EncodeDecode` covers inputs without the P flag only. A padded input's padding octets other than the count are not carried by the decoded packet, so they cannot be re-encoded. For the same reason a decoded padded packet need not pass Serialize's padding check: its payload ends with data, not with the pad count.
- Test names: the test at lines 1390-1429 is titled as if the marker bit were not set. Its octet 1 is 0x80, which is the marker bit set with payload type 0, and `RtpApiTests.DeserializeMarkerOctet` states that.
- RtpCodec.WellFormed: the C fields `csrcCount` and `payloadType` are `uint8_t`, but the model requires a CSRC count of at most 15 and a payload type below 128, the widths of their bit fields. What `Rtp_Serialize` does with values out of those ranges (masking, overflowing into neighbouring bits, or rejecting them) is not modelled. Every call in the tests stays in range.

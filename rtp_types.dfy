/**
 * The values the RTP codec exchanges with its callers: result codes, the
 * packet description, and the borrowed views a decoded packet is made of.
 */
module RtpTypes {

  datatype Option<T> = None | Some(value: T)

  /** The unsigned integer types of the C code, as ranges of integers. */
  type uint8 = x: int | 0 <= x < 0x100
  type uint16 = x: int | 0 <= x < 0x1_0000
  type uint32 = x: int | 0 <= x < 0x1_0000_0000

  /** The result codes of the API (RtpResult_t). */
  datatype Status = Ok | BadParam | OutOfMemory | WrongVersion | MalformedPacket

  /** A call that either yields a value or fails with a status other than Ok. */
  datatype Result<T> = Success(value: T) | Failure(status: Status)

  /**
   * A borrowed view into the caller's input buffer: `length` units (bytes or
   * 32-bit words, depending on the field) starting at byte `offset`.
   */
  datatype View = View(offset: nat, length: nat)

  /**
   * The header extension of section 5.3.1 of RFC 3550: a profile-defined
   * 16-bit value, the extension length counted in 32-bit words, and the words.
   */
  datatype Extension<Words> = Extension(profile: uint16, length: uint16, payload: Words)

  /**
   * The RTP fixed header of section 5.1 of RFC 3550. The version is not
   * stored: encoding always writes 2 and decoding demands it. The three flags
   * are the padding (P), extension (X) and marker (M) bits. `csrc` and
   * `extensionHeader.payload` are word lists; what represents a word list
   * depends on the direction (owned words on encode, views on decode).
   */
  datatype Header<Words> = Header(
    padding: bool,
    extension: bool,
    marker: bool,
    csrcCount: uint8,
    payloadType: uint8,
    sequenceNumber: uint16,
    timestamp: uint32,
    ssrc: uint32,
    csrc: Words,
    extensionHeader: Extension<Words>)

  /** A header plus its payload; the payload length is the length of `payload`. */
  datatype Packet<Bytes, Words> = Packet(header: Header<Words>, payload: Bytes)

  /** What a caller hands to Serialize: every list is held by value. */
  type OwnedPacket = Packet<seq<uint8>, seq<uint32>>

  /**
   * What Deserialize fills in: the CSRC list, the extension words and the
   * payload are views into the input; None where the C code leaves a NULL.
   */
  type ParsedPacket = Packet<Option<View>, Option<View>>
}

/**
 The libraries the program calls, as functions the model takes as parameters. Nothing is assumed
 about them beyond the laws a theorem names.
 */
module Library {
  import opened Wrappers
  import opened Bytes
  import opened Documents

  datatype Header = Header(name: string, value: bytes)

  /** What httparse yields for a response head; the status code may be missing. */
  datatype ResponseHead = ResponseHead(code: Option<u16>, headers: seq<Header>)

  datatype Library = Library(
    sha256: bytes -> bytes,
    sha384: bytes -> bytes,
    b64Encode: bytes -> string,
    b64Decode: string -> Option<bytes>,
    parseJson: bytes -> Option<Json>,
    /** `Display` of a JSON number. */
    numberText: Number -> string,
    parseF64: string -> Option<F64>,
    payloadToJson: ProofPayload -> bytes,
    payloadFromJson: bytes -> Option<ProofPayload>,
    mockToJson: MockDocument -> bytes,
    mockFromJson: bytes -> Option<MockDocument>,
    /** Seconds since the Unix epoch of an HTTP date. */
    parseHttpDate: string -> Option<i64>,
    parseHead: bytes -> Option<ResponseHead>,
    /** `String::from_utf8_lossy` on bytes that are not UTF-8. */
    utf8Lossy: bytes -> string,
    /** `urlencoding::decode` on text with a `%` that starts no escape. */
    decodeMalformedEscapes: string -> Option<string>,
    /** WebPKI validation of end entity, intermediates, server name and time. */
    webPki: (bytes, seq<bytes>, string, nat) -> bool)

  /** SHA-256 digests have 32 bytes. */
  ghost predicate DigestLength(lib: Library) {
    forall b: bytes :: |lib.sha256(b)| == 32
  }

  /** Base64 decoding inverts encoding (section 4 of RFC 4648). */
  ghost predicate Base64RoundTrip(lib: Library) {
    forall b: bytes :: lib.b64Decode(lib.b64Encode(b)) == Some(b)
  }

  /** Parsing a serialized payload gives it back. */
  ghost predicate PayloadRoundTrip(lib: Library) {
    forall p: ProofPayload :: lib.payloadFromJson(lib.payloadToJson(p)) == Some(p)
  }

  /** Parsing a serialized mock attestation gives it back. */
  ghost predicate MockRoundTrip(lib: Library) {
    forall d: MockDocument :: lib.mockFromJson(lib.mockToJson(d)) == Some(d)
  }

  ghost predicate Lawful(lib: Library) {
    DigestLength(lib) && Base64RoundTrip(lib) && PayloadRoundTrip(lib) && MockRoundTrip(lib)
  }
}

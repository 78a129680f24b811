/** Concrete cases that show why the theorems have the conditions they have. */
module Witnesses {
  import opened Wrappers
  import opened Bytes
  import opened Numbers
  import opened Text
  import opened Documents
  import opened Library
  import opened Http
  import opened Candle
  import opened TimeUtil
  import opened Prover
  import opened Verifier
  import opened Agreement
  import opened History
  import MockAttestation
  import Utf8

  const FIRST_CANDLE := SelectedCandle(0, "1", "1", "1", "1", "1")

  /** Reads every decimal as one. */
  const ALL_ONE: string -> Option<F64> := (_: string) => Some(Finite(1.0))

  // ----- the prover takes a candle it did not ask for -----

  /** The library with readers that find, in any response, a JSON body holding the first candle. */
  function AnsweringFirstCandle(lib: Library): Library {
    lib.(parseHead := (_: bytes) => Some(ResponseHead(Some(200), ANSWER_HEADERS)),
         parseJson := (_: bytes) => Some(Obj(map["candles" := Arr([RowOf(FIRST_CANDLE)])])),
         parseF64 := ALL_ONE)
  }

  const ANSWER_HEADERS := [Header("Content-Type", Utf8.Encode("application/json")), Header("Date", [])]

  const ANSWER_MAP: map<string, string> := map["content-type" := "application/json", "date" := ""]

  const SECOND_BUCKET := ProofRequest(300, 300)

  const ANSWER := Some(TlsSession(Some([[]]), BLANK_LINE))

  lemma TwoHeaders(lib: Library, first: Header, second: Header)
    ensures Normalized(lib, [first, second]) ==
            map[][ToLower(first.name) := HeaderText(lib, first.value)][ToLower(second.name) := HeaderText(lib, second.value)]
  {
    hide ToLower, HeaderText;
    var headers := [first, second];
    assert headers[..1] == [first] && [first][..0] == [];
    assert Normalized(lib, [first]) == map[][ToLower(first.name) := HeaderText(lib, first.value)];
  }

  lemma TextOfHeader(lib: Library, text: string)
    requires text != "" && !IsWhitespace(text[0]) && !IsWhitespace(text[|text| - 1])
    ensures HeaderText(lib, Utf8.Encode(text)) == text
  {
    hide Utf8.Encode, Utf8.Decode, Trim, IsWhitespace;
    Utf8.DecodeIffEncoded(Utf8.Encode(text), text);
    assert "" + text + "" == text;
    TrimPadded("", text, "");
  }

  lemma AnswerHeaders(lib: Library)
    ensures Normalized(lib, ANSWER_HEADERS) == ANSWER_MAP
  {
    assert ToLower("Content-Type") == "content-type" && ToLower("Date") == "date";
    assert HeaderText(lib, []) == "";
    assert !IsWhitespace('a') && !IsWhitespace('n');
    hide Normalized, HeaderText, ToLower, Utf8.Encode, IsWhitespace;
    TwoHeaders(lib, ANSWER_HEADERS[0], ANSWER_HEADERS[1]);
    TextOfHeader(lib, "application/json");
  }

  lemma AnswerParses(lib: Library, tls: TlsInfo)
    ensures var lib' := AnsweringFirstCandle(lib);
            ParseHttpResponse(lib', BLANK_LINE, tls) ==
            Ok(FetchResult(200, ANSWER_MAP, [], lib'.parseJson([]).value, tls))
  {
    var lib' := AnsweringFirstCandle(lib);
    AnswerHeaders(lib');
    hide Normalized, Utf8.Encode, RowOf;
    FindsFirst(BLANK_LINE, BLANK_LINE, 0);
    assert BLANK_LINE[4..] == [];
    assert ToLower("content-length") == "content-length" && ToLower("transfer-encoding") == "transfer-encoding";
  }

  lemma FirstRowParses(lib: Library)
    requires lib.parseF64 == ALL_ONE
    ensures ParseCandleObject(lib, RowOf(FIRST_CANDLE)) == Ok(FIRST_CANDLE)
  {
    hide ParseCandleObject, RowOf;
    assert !IsWhitespace("1"[0]);
    RowRoundTrip(lib, FIRST_CANDLE);
  }

  lemma AnswerSelects(lib: Library)
    ensures var lib' := AnsweringFirstCandle(lib);
            SelectCandle(lib', lib'.parseJson([]).value) == Ok(FIRST_CANDLE)
  {
    var lib' := AnsweringFirstCandle(lib);
    FirstRowParses(lib');
    hide ParseCandleObject, RowOf;
    assert CandleArray(lib'.parseJson([]).value) == Ok([RowOf(FIRST_CANDLE)]);
  }

  lemma AnswerIsFetched(lib: Library) returns (fetch: FetchResult)
    ensures Fetch(AnsweringFirstCandle(lib), ANSWER) == Ok(fetch)
    ensures fetch.status == 200 && fetch.headers == ANSWER_MAP
    ensures SelectCandle(AnsweringFirstCandle(lib), fetch.bodyJson) == Ok(FIRST_CANDLE)
  {
    hide ParseHttpResponse, SelectCandle, EncodeChain, AnsweringFirstCandle;
    var lib' := AnsweringFirstCandle(lib);
    var tls := TlsInfo(HOST, EncodeChain(lib', [[]]));
    AnswerParses(lib, tls);
    AnswerSelects(lib);
    assert TlsInfoOf(lib', ANSWER.value) == Ok(tls);
    fetch := ParseHttpResponse(lib', BLANK_LINE, tls).value;
  }

  lemma AnswerMapValues()
    ensures HeaderValue(ANSWER_MAP, "content-type") == Some("application/json") && HeaderValue(ANSWER_MAP, "date") == Some("")
    ensures IsJsonContentType("application/json")
  {
    assert ToLower("content-type") == "content-type" && ToLower("date") == "date";
    assert ToLower("application/json") == "application/json";
  }

  /** The payload built from that answer holds a candle that was not asked for. */
  lemma AnswerIsBuilt(lib: Library)
    ensures var r := BuildPayload(AnsweringFirstCandle(lib), SECOND_BUCKET, ANSWER);
            r.Ok? && r.value.selectedCandle == FIRST_CANDLE
  {
    hide AnsweringFirstCandle, Fetch, SelectCandle, IsJsonContentType, HeaderValue, HexEncode, PrintInt;
    var fetch := AnswerIsFetched(lib);
    AnswerMapValues();
  }

  lemma AnsweringIsLawful(lib: Library)
    requires Lawful(lib)
    ensures Lawful(AnsweringFirstCandle(lib))
  {
    var lib' := AnsweringFirstCandle(lib);
    assert lib'.sha256 == lib.sha256 && lib'.b64Encode == lib.b64Encode && lib'.b64Decode == lib.b64Decode;
    assert lib'.payloadToJson == lib.payloadToJson && lib'.payloadFromJson == lib.payloadFromJson;
    assert lib'.mockToJson == lib.mockToJson && lib'.mockFromJson == lib.mockFromJson;
    hide AnsweringFirstCandle;
  }

  /**
   Asked for the second bucket and answered with the first candle, the prover makes a bundle, and
   its own verifier refuses it: in any lawful library, with the mock pair, under any configuration.
   */
  lemma ProverTakesOtherCandle(
    lib: Library, timestamp: i64, pcrs: map<u16, bytes>, nonce: Nonce, config: VerificationConfig, now: Clock)
    requires Lawful(lib)
    ensures var lib' := AnsweringFirstCandle(lib);
            var made := Prove(lib', MockAttester(lib', timestamp, pcrs), SECOND_BUCKET, ANSWER, nonce);
            && Lawful(lib')
            && made.Ok?
            && VerifyBundle(lib', MockVerifier(lib'), made.value, config, now) == Err(CandleNotAtStart)
  {
    hide BuildPayload, VerifyBundle, MockAttestation.Attest, AnsweringFirstCandle, Lawful;
    var lib' := AnsweringFirstCandle(lib);
    AnsweringIsLawful(lib);
    AnswerIsBuilt(lib);
    OtherCandleIsRefused(lib', MockAttester(lib', timestamp, pcrs), MockVerifier(lib'), SECOND_BUCKET, ANSWER,
                         nonce, config, now);
  }

  // ----- once accepted is not accepted for good without a law on TLS trust -----

  function Zeros(n: nat): bytes { seq(n, _ => 0) }

  /** A mock attestation made at the largest time there is. */
  const LAST_ATTESTATION := MockDocument(MOCK_ATTESTATION_SCHEMA, I64_MAX, map[], "", HexEncode(Zeros(16)))

  function FirstPayload(): ProofPayload {
    ProofPayload(
      PAYLOAD_SCHEMA, PROOF_POLICY, SOURCE, HOST, PRODUCT_ID, GRANULARITY_LABEL, GRANULARITY_SECONDS, 0, 0,
      REQUEST_PATH, CoinbaseCandleQuery(0, 0).value, 200, "", "application/json",
      HexEncode(Zeros(32)), "", FIRST_CANDLE, TlsInfo(HOST, [""]))
  }

  /** A library that trusts every TLS chain at any time, and reads every date as the largest one. */
  function BoundlessLibrary(): Library {
    Library(
      sha256 := (_: bytes) => Zeros(32),
      sha384 := (_: bytes) => [],
      b64Encode := HexEncode,
      b64Decode := HexDecode,
      parseJson := (_: bytes) => Some(Obj(map["candles" := Arr([RowOf(FIRST_CANDLE)])])),
      numberText := (_: Number) => "",
      parseF64 := ALL_ONE,
      payloadToJson := (_: ProofPayload) => [],
      payloadFromJson := (_: bytes) => Some(FirstPayload()),
      mockToJson := (_: MockDocument) => [],
      mockFromJson := (_: bytes) => Some(LAST_ATTESTATION),
      parseHttpDate := (_: string) => Some(I64_MAX),
      parseHead := (_: bytes) => None,
      utf8Lossy := (_: bytes) => "",
      decodeMalformedEscapes := (_: string) => None,
      webPki := (_: bytes, _: seq<bytes>, _: string, _: nat) => true)
  }

  const NO_SKEW := VerificationConfig(map[], [], 0, 0)

  lemma BoundlessAttestation()
    ensures HexDecode("") == Some([])
    ensures MockVerifier(BoundlessLibrary())([], -1) == Ok(VerifiedAttestation(I64_MAX, map[], [], Zeros(16)))
  {
    hide HexEncode, HexDecode, MockAttestation.Rekeyed;
    assert HexEncode([]) == "";
    HexRoundTrip([]);
    HexRoundTrip(Zeros(16));
    MockAttestation.RekeyedNone(map[]);
    assert LAST_ATTESTATION.pcrs.Keys == {};
    assert MockAttestation.Verified(BoundlessLibrary(), [], -1) == Ok(VerifiedAttestation(I64_MAX, map[], [], Zeros(16)));
  }

  lemma BoundlessBody()
    ensures StoresBody(BoundlessLibrary(), FirstPayload(), [], BoundlessLibrary().parseJson([]).value)
  {
    hide HexEncode, HexDecode;
    assert HexEncode([]) == "";
    HexRoundTrip([]);
    HexEncodedIff(HexEncode(Zeros(32)), Zeros(32));
  }

  lemma BoundlessCandle()
    ensures CandleIsInBody(BoundlessLibrary(), BoundlessLibrary().parseJson([]).value, FIRST_CANDLE)
  {
    var lib := BoundlessLibrary();
    var rows := CandleArray(lib.parseJson([]).value).value;
    hide ParseCandleObject, RowOf;
    assert rows == [RowOf(FIRST_CANDLE)];
    FirstRowParses(lib);
    assert StopsAt(lib, rows, FIRST_CANDLE, 0);
  }

  lemma FirstPayloadIsProper()
    ensures HasFixedFields(FirstPayload()) && AsksForItsCandle(FirstPayload())
  {
    var lower := ToLower("application/json");
    assert lower == "application/json";
  }

  lemma BoundlessVouches()
    ensures Vouches(BoundlessLibrary(), [], FirstPayload(), VerifiedAttestation(I64_MAX, map[], [], Zeros(16)), NO_SKEW, -1)
  {
    var lib := BoundlessLibrary();
    hide HexEncode, HexDecode;
    assert HexEncode([]) == "";
    HexRoundTrip([]);
    assert IsDecodedChain(lib, [""], [[]]);
    assert FutureSkew(I64_MAX, -1) == I64_MIN;
  }

  /**
   Without the law, once accepted is not accepted for good: with that library and the mock verifier
   this bundle is accepted one second before the Unix epoch, where the difference wraps, and refused
   at the epoch.
   */
  lemma WrappedProofIsLost()
    ensures var lib, bundle := BoundlessLibrary(), ProofBundle(BUNDLE_SCHEMA, "", "");
            && VerifyBundle(lib, MockVerifier(lib), bundle, NO_SKEW, -1)
               == Ok(VerifiedProof(FirstPayload(), VerifiedAttestation(I64_MAX, map[], [], Zeros(16))))
            && VerifyBundle(lib, MockVerifier(lib), bundle, NO_SKEW, 0) == Err(TooFarInFuture)
  {
    var lib, bundle := BoundlessLibrary(), ProofBundle(BUNDLE_SCHEMA, "", "");
    var proof := VerifiedProof(FirstPayload(), VerifiedAttestation(I64_MAX, map[], [], Zeros(16)));
    BoundlessAttestation();
    BoundlessBody();
    BoundlessCandle();
    FirstPayloadIsProper();
    BoundlessVouches();
    hide VerifyBundle, IgnoresClock, StoresBody, HasFixedFields, AsksForItsCandle, CandleIsInBody, Vouches, FirstPayload,
         HexDecode, HexEncode;
    ProofIsAccepted(lib, MockVerifier(lib), bundle, NO_SKEW, -1, proof, [], [], [], lib.parseJson([]).value);
    MockIgnoresClock(lib);
    KeptUnlessInFuture(lib, MockVerifier(lib), bundle, NO_SKEW, -1, 0);
  }
}

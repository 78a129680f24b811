/** Proof production of src/prover.rs; the TLS session's outcome is a parameter. */
module Prover {
  import opened Wrappers
  import opened Bytes
  import opened Numbers
  import opened Text
  import opened Documents
  import opened Library
  import opened Http
  import opened Candle

  /** `validate_request`. */
  function ValidateRequest(request: ProofRequest): Result<(), RequestError> {
    if request.start < 0 then Err(NegativeStart)
    else if request.end < 0 then Err(NegativeEnd)
    else if request.start > request.end then Err(StartAfterEnd)
    else if request.start != request.end then Err(StartNotEnd)
    else if request.start % GRANULARITY_SECONDS != 0 then Err(Unaligned)
    else Ok(())
  }

  /** The query builder refuses exactly what the validator refuses, with the same error. */
  lemma QueryAcceptsWhatValidates(request: ProofRequest)
    ensures var query := CoinbaseCandleQuery(request.start, request.end);
            && (query.Ok? <==> ValidateRequest(request).Ok?)
            && (query.Err? ==> ValidateRequest(request) == Err(query.error))
            && (query.Ok? <==> 0 <= request.start == request.end && request.start % 300 == 0)
  {
  }

  /** What a finished TLS session leaves behind. */
  datatype TlsSession = TlsSession(peerCertificates: Option<seq<bytes>>, response: bytes)

  type Nonce = b: bytes | |b| == 32 witness seq(32, _ => 0)

  type Attester = (bytes, bytes) -> Option<bytes>

  datatype ProveError =
    | BadRequest(request: RequestError)
    | ConnectionFailed
    | NoPeerCertificates
    | EmptyPeerChain
    | BadResponse(http: HttpError)
    | BadStatus
    | NoContentType
    | BadContentType
    | NoDate
    | BadCandle(candle: CandleError)
    | AttestationFailed

  function EncodeChain(lib: Library, certs: seq<bytes>): (r: seq<string>)
    ensures |r| == |certs|
    ensures forall i | 0 <= i < |certs| :: r[i] == lib.b64Encode(certs[i])
  {
    seq(|certs|, i requires 0 <= i < |certs| => lib.b64Encode(certs[i]))
  }

  /** `tls_info`. */
  function TlsInfoOf(lib: Library, session: TlsSession): Result<TlsInfo, ProveError> {
    var certs :- session.peerCertificates.ToResult(NoPeerCertificates);
    if certs == [] then Err(EmptyPeerChain) else Ok(TlsInfo(HOST, EncodeChain(lib, certs)))
  }

  /** `fetch_coinbase_over_tls`. */
  function Fetch(lib: Library, session: Option<TlsSession>): Result<FetchResult, ProveError> {
    var s :- session.ToResult(ConnectionFailed);
    var tls :- TlsInfoOf(lib, s);
    match ParseHttpResponse(lib, s.response, tls)
    case Ok(fetch) => Ok(fetch)
    case Err(e) => Err(BadResponse(e))
  }

  predicate IsJsonContentType(contentType: string) { "application/json" <= ToLower(contentType) }

  /** The type comes first, in any case; what follows it, such as a charset, does not matter. */
  lemma JsonContentTypeIff(contentType: string)
    ensures IsJsonContentType(contentType)
            <==> exists name, rest :: contentType == name + rest && ToLower(name) == "application/json"
  {
    if IsJsonContentType(contentType) {
      var name, rest := contentType[..16], contentType[16..];
      assert ToLower(name) == ToLower(contentType)[..16];
      assert contentType == name + rest;
    }
    forall name, rest | contentType == name + rest && ToLower(name) == "application/json"
      ensures IsJsonContentType(contentType)
    {
      assert ToLower(contentType)[..|name|] == ToLower(name);
    }
  }

  function Sha256Hex(lib: Library, b: bytes): string { HexEncode(lib.sha256(b)) }

  /** The payload `prove` builds, before it is attested. */
  function BuildPayload(lib: Library, request: ProofRequest, session: Option<TlsSession>)
    : Result<ProofPayload, ProveError>
  {
    match ValidateRequest(request)
    case Err(e) => Err(BadRequest(e))
    case Ok(_) =>
      match CoinbaseCandleQuery(request.start, request.end)
      case Err(e) => Err(BadRequest(e))
      case Ok(query) =>
        var fetch :- Fetch(lib, session);
        if fetch.status != 200 then Err(BadStatus)
        else
          var contentType :- HeaderValue(fetch.headers, "content-type").ToResult(NoContentType);
          if !IsJsonContentType(contentType) then Err(BadContentType)
          else
            var httpDate :- HeaderValue(fetch.headers, "date").ToResult(NoDate);
            match SelectCandle(lib, fetch.bodyJson)
            case Err(e) => Err(BadCandle(e))
            case Ok(selected) =>
              Ok(ProofPayload(
                   PAYLOAD_SCHEMA, PROOF_POLICY, SOURCE, HOST, PRODUCT_ID,
                   GRANULARITY_LABEL, GRANULARITY_SECONDS, request.start, request.end,
                   REQUEST_PATH, query, fetch.status, httpDate, contentType,
                   Sha256Hex(lib, fetch.bodyBytes), lib.b64Encode(fetch.bodyBytes), selected, fetch.tls))
  }

  /** `Prover::prove`. */
  function Prove(lib: Library, attest: Attester, request: ProofRequest, session: Option<TlsSession>, nonce: Nonce)
    : Result<ProofBundle, ProveError>
  {
    var payload :- BuildPayload(lib, request, session);
    var payloadBytes := lib.payloadToJson(payload);
    var document :- attest(lib.sha384(payloadBytes), nonce).ToResult(AttestationFailed);
    Ok(ProofBundle(BUNDLE_SCHEMA, lib.b64Encode(payloadBytes), lib.b64Encode(document)))
  }

  // ----- what the prover makes -----

  /**
   The session presented these certificates and answered with this fetch, a JSON response of status
   200 with a date, whose first candle is `c`.
   */
  ghost predicate IsAnswered(
    lib: Library, session: Option<TlsSession>, certs: seq<bytes>, fetch: FetchResult, c: SelectedCandle)
  {
    && session.Some? && session.value.peerCertificates == Some(certs) && certs != []
    && fetch.tls == TlsInfo(HOST, EncodeChain(lib, certs))
    && ParseHttpResponse(lib, session.value.response, fetch.tls) == Ok(fetch)
    && fetch.status == 200
    && "content-type" in fetch.headers && IsJsonContentType(fetch.headers["content-type"])
    && "date" in fetch.headers
    && SelectCandle(lib, fetch.bodyJson) == Ok(c)
  }

  /** The payload that records the request and what was fetched. */
  function PayloadFor(lib: Library, start: i64, query: string, fetch: FetchResult, c: SelectedCandle): ProofPayload
    requires "content-type" in fetch.headers && "date" in fetch.headers
  {
    ProofPayload(
      schema := "coinbase-candle-proof-payload/v1", proofPolicy := "coinbase-v3-observed-response/v1",
      source := "coinbase_public_market", host := "api.coinbase.com", productId := "BTC-USD",
      granularity := "FIVE_MINUTE", granularitySeconds := 300, requestStart := start, requestEnd := start,
      requestPath := "/api/v3/brokerage/market/products/BTC-USD/candles", requestQuery := query,
      httpStatus := 200, httpDate := fetch.headers["date"], contentType := fetch.headers["content-type"],
      bodySha256 := HexEncode(lib.sha256(fetch.bodyBytes)), bodyB64 := lib.b64Encode(fetch.bodyBytes),
      selectedCandle := c, tls := fetch.tls)
  }

  ghost predicate IsPayloadOf(
    lib: Library, request: ProofRequest, session: Option<TlsSession>, p: ProofPayload, certs: seq<bytes>, fetch: FetchResult)
  {
    && 0 <= request.start == request.end && request.start % 300 == 0
    && IsAnswered(lib, session, certs, fetch, p.selectedCandle)
    && CoinbaseCandleQuery(request.start, request.start).Ok?
    && p == PayloadFor(lib, request.start, CoinbaseCandleQuery(request.start, request.start).value, fetch, p.selectedCandle)
  }

  lemma BuiltIsPayload(lib: Library, request: ProofRequest, session: Option<TlsSession>)
    returns (certs: seq<bytes>, fetch: FetchResult)
    requires BuildPayload(lib, request, session).Ok?
    ensures IsPayloadOf(lib, request, session, BuildPayload(lib, request, session).value, certs, fetch)
  {
    HeaderNamesAreLower();
    QueryAcceptsWhatValidates(request);
    ParsedTls(lib, session.value.response, TlsInfoOf(lib, session.value).value);
    hide ParseHttpResponse, SelectCandle, IsJsonContentType, HexEncode, ToLower, CoinbaseCandleQuery;
    certs := session.value.peerCertificates.value;
    fetch := Fetch(lib, session).value;
  }

  lemma ParsedTls(lib: Library, response: bytes, tls: TlsInfo)
    ensures ParseHttpResponse(lib, response, tls).Ok? ==> ParseHttpResponse(lib, response, tls).value.tls == tls
  {
    hide Normalized, BodyBytes, CheckContentLength;
  }

  lemma PayloadIsBuilt(
    lib: Library, request: ProofRequest, session: Option<TlsSession>, p: ProofPayload, certs: seq<bytes>, fetch: FetchResult)
    requires IsPayloadOf(lib, request, session, p, certs, fetch)
    ensures BuildPayload(lib, request, session) == Ok(p)
  {
    HeaderNamesAreLower();
    QueryAcceptsWhatValidates(request);
    hide ParseHttpResponse, SelectCandle, IsJsonContentType, HexEncode, ToLower, CoinbaseCandleQuery;
    assert TlsInfoOf(lib, session.value) == Ok(fetch.tls);
    assert Fetch(lib, session) == Ok(fetch);
  }

  /**
   A payload is built exactly for an aligned request whose session is so answered, and it records
   the request, its query, and what was fetched.
   */
  lemma BuildsIff(lib: Library, request: ProofRequest, session: Option<TlsSession>, p: ProofPayload)
    ensures BuildPayload(lib, request, session) == Ok(p)
            <==> exists certs, fetch :: IsPayloadOf(lib, request, session, p, certs, fetch)
  {
    hide BuildPayload, IsPayloadOf;
    if BuildPayload(lib, request, session) == Ok(p) {
      var certs, fetch := BuiltIsPayload(lib, request, session);
    }
    forall certs, fetch | IsPayloadOf(lib, request, session, p, certs, fetch)
      ensures BuildPayload(lib, request, session) == Ok(p)
    {
      PayloadIsBuilt(lib, request, session, p, certs, fetch);
    }
  }

  /** The prover fails only where no payload is built or the attester fails. */
  lemma ProvesIff(
    lib: Library, attest: Attester, request: ProofRequest, session: Option<TlsSession>, nonce: Nonce, bundle: ProofBundle)
    ensures Prove(lib, attest, request, session, nonce) == Ok(bundle)
            <==> exists p, document ::
                   && BuildPayload(lib, request, session) == Ok(p)
                   && attest(lib.sha384(lib.payloadToJson(p)), nonce) == Some(document)
                   && bundle.schema == "coinbase-candle-proof-bundle/v1"
                   && bundle.payloadJsonB64 == lib.b64Encode(lib.payloadToJson(p))
                   && bundle.attestationDocB64 == lib.b64Encode(document)
  {
    hide BuildPayload;
    var r := BuildPayload(lib, request, session);
    if r.Ok? && attest(lib.sha384(lib.payloadToJson(r.value)), nonce).Some? {
      var document := attest(lib.sha384(lib.payloadToJson(r.value)), nonce).value;
      assert r == Ok(r.value);
    }
  }
}

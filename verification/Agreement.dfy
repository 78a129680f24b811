/**
 The prover and the verifier as two halves of one protocol: exactly when a proof is accepted,
 what acceptance means, and what it binds together.
 */
module Agreement {
  import opened Wrappers
  import opened Bytes
  import opened Numbers
  import opened Text
  import opened Documents
  import opened Library
  import opened Http
  import opened Candle
  import opened TimeUtil
  import opened Prover
  import opened Verifier
  import MockAttestation
  import NitroAttestation
  import PublicRequest

  // ----- the checks of the verifier, each as a condition -----

  /** A required PCR is configured, attested, not all zero, and as expected. */
  predicate PcrMatches(pcrs: map<u16, bytes>, config: VerificationConfig, i: u16) {
    && i in config.expectedPcrs
    && i in pcrs
    && !NitroAttestation.AllZero(pcrs[i])
    && pcrs[i] == config.expectedPcrs[i]
  }

  lemma PcrLoopHead(a: VerifiedAttestation, config: VerificationConfig, required: seq<u16>)
    requires required != []
    ensures VerifyPcrs(a, config, required).Ok?
            <==> PcrMatches(a.pcrs, config, required[0]) && VerifyPcrs(a, config, required[1..]).Ok?
  {
  }

  lemma {:induction false} PcrLoopIff(a: VerifiedAttestation, config: VerificationConfig, required: seq<u16>)
    ensures VerifyPcrs(a, config, required).Ok?
            <==> forall i | i in required :: PcrMatches(a.pcrs, config, i)
  {
    if required != [] {
      hide PcrMatches;
      PcrLoopIff(a, config, required[1..]);
      assert required == [required[0]] + required[1..];
      assert forall i :: i in required <==> i == required[0] || i in required[1..];
      PcrLoopHead(a, config, required);
    }
  }

  /** The HTTP date is readable, not before the Unix epoch, and within the allowed distance of the attestation time. */
  predicate DateIsClose(lib: Library, httpDate: string, timestamp: i64, config: VerificationConfig) {
    match lib.parseHttpDate(httpDate)
    case None => false
    case Some(date) =>
      && date >= 0
      && var difference := timestamp as int - date as int;
         -(config.maxSkewSeconds as int) <= difference <= config.maxSkewSeconds
  }

  /** From a non-negative attestation time no sum wraps, so the check is about plain integers. */
  lemma TimePolicyIff(lib: Library, p: ProofPayload, a: VerifiedAttestation, config: VerificationConfig)
    requires a.timestampUnix >= 0
    ensures VerifyTimePolicy(lib, p, a, config).Ok? <==> DateIsClose(lib, p.httpDate, a.timestampUnix, config)
  {
    var parsed := ParseHttpDateEpoch(lib, p.httpDate);
    if parsed.Ok? {
      var difference := a.timestampUnix as int - parsed.value as int;
      assert IsI64(difference);
      assert WrapI64(difference) == difference;
    }
  }

  /** The checks after the payload policy, in order. */
  predicate AttestationAccepted(
    lib: Library, payloadBytes: bytes, p: ProofPayload, a: VerifiedAttestation,
    config: VerificationConfig, now: Clock)
  {
    && VerifyAttestationTimeBounds(a, config, now).Ok?
    && VerifyAttestationBinding(lib, payloadBytes, a, config).Ok?
    && VerifyTlsCertificateChain(lib, p.tls, a.timestampUnix, HOST).Ok?
    && VerifyTimePolicy(lib, p, a, config).Ok?
  }

  /** The payload bytes, payload, body and document of a bundle pass everything but attestation. */
  predicate IsReadable(lib: Library, bundle: ProofBundle, payloadBytes: bytes, p: ProofPayload, body: Json, document: bytes) {
    && bundle.schema == BUNDLE_SCHEMA
    && lib.b64Decode(bundle.payloadJsonB64) == Some(payloadBytes)
    && lib.payloadFromJson(payloadBytes) == Some(p)
    && VerifyBodyIntegrity(lib, p) == Ok(body)
    && VerifyPayloadPolicy(lib, p, body).Ok?
    && lib.b64Decode(bundle.attestationDocB64) == Some(document)
  }

  lemma AcceptedParts(lib: Library, verify: AttestationVerifier, bundle: ProofBundle, config: VerificationConfig, now: Clock)
    returns (payloadBytes: bytes, body: Json, document: bytes)
    requires VerifyBundle(lib, verify, bundle, config, now).Ok?
    ensures var proof := VerifyBundle(lib, verify, bundle, config, now).value;
            && IsReadable(lib, bundle, payloadBytes, proof.payload, body, document)
            && verify(document, now) == Ok(proof.attestation)
            && AttestationAccepted(lib, payloadBytes, proof.payload, proof.attestation, config, now)
  {
    hide VerifyBodyIntegrity, VerifyPayloadPolicy, VerifyAttestationTimeBounds, VerifyAttestationBinding,
         VerifyTlsCertificateChain, VerifyTimePolicy;
    payloadBytes := lib.b64Decode(bundle.payloadJsonB64).value;
    body := VerifyBodyIntegrity(lib, VerifyBundle(lib, verify, bundle, config, now).value.payload).value;
    document := lib.b64Decode(bundle.attestationDocB64).value;
  }

  lemma AcceptedIffParts(
    lib: Library, verify: AttestationVerifier, bundle: ProofBundle, config: VerificationConfig, now: Clock,
    payloadBytes: bytes, p: ProofPayload, body: Json, document: bytes)
    requires bundle.schema == BUNDLE_SCHEMA
    requires lib.b64Decode(bundle.payloadJsonB64) == Some(payloadBytes)
    requires lib.payloadFromJson(payloadBytes) == Some(p)
    requires VerifyBodyIntegrity(lib, p) == Ok(body)
    requires lib.b64Decode(bundle.attestationDocB64) == Some(document)
    requires verify(document, now).Ok?
    ensures var r, a := VerifyBundle(lib, verify, bundle, config, now), verify(document, now).value;
            && (r.Ok? <==> VerifyPayloadPolicy(lib, p, body).Ok? && AttestationAccepted(lib, payloadBytes, p, a, config, now))
            && (r.Ok? ==> r.value == VerifiedProof(p, a))
  {
    hide VerifyBodyIntegrity, VerifyPayloadPolicy, VerifyAttestationTimeBounds, VerifyAttestationBinding,
         VerifyTlsCertificateChain, VerifyTimePolicy;
  }

  // ----- what acceptance means -----

  /** The fields every proof shares. */
  predicate HasFixedFields(p: ProofPayload) {
    && p.schema == "coinbase-candle-proof-payload/v1" && p.proofPolicy == "coinbase-v3-observed-response/v1"
    && p.source == "coinbase_public_market" && p.host == "api.coinbase.com" && p.productId == "BTC-USD"
    && p.granularity == "FIVE_MINUTE" && p.granularitySeconds == 300
    && p.requestPath == "/api/v3/brokerage/market/products/BTC-USD/candles"
    && p.httpStatus == 200 && IsJsonContentType(p.contentType)
    && p.tls.sni == "api.coinbase.com"
  }

  /** The query is the print of the one aligned start the candle has. */
  predicate AsksForItsCandle(p: ProofPayload) {
    && 0 <= p.requestStart == p.requestEnd == p.selectedCandle.time
    && p.requestStart % 300 == 0
    && CoinbaseCandleQuery(p.requestStart, p.requestStart) == Ok(p.requestQuery)
  }

  /** Some row of the body is the candle, after rows that are all well-formed. */
  ghost predicate CandleIsInBody(lib: Library, body: Json, c: SelectedCandle) {
    && CandleArray(body).Ok?
    && exists i :: 0 <= i < |CandleArray(body).value| && StopsAt(lib, CandleArray(body).value, c, i)
                   && ParseCandleObject(lib, CandleArray(body).value[i]) == Ok(c)
  }

  lemma PayloadPolicyIff(lib: Library, p: ProofPayload, body: Json)
    ensures VerifyPayloadPolicy(lib, p, body).Ok?
            <==> HasFixedFields(p) && AsksForItsCandle(p) && CandleIsInBody(lib, body, p.selectedCandle)
  {
    hide PrintInt, ScanRows, ParseCandleObject, IsJsonContentType, StopsAt, CandleArray;
    if CandleArray(body).Ok? {
      ScanIff(lib, CandleArray(body).value, p.selectedCandle);
    }
  }

  /** The body stored in a payload: it decodes, the stated digest is its own in lower case, and it is JSON. */
  predicate StoresBody(lib: Library, p: ProofPayload, body: bytes, json: Json) {
    && lib.b64Decode(p.bodyB64) == Some(body)
    && |p.bodySha256| == 64 && NoUpperCase(p.bodySha256)
    && HexDecode(p.bodySha256) == Some(lib.sha256(body))
    && lib.parseJson(body) == Some(json)
  }

  lemma BodyIntegrityIff(lib: Library, p: ProofPayload, json: Json)
    ensures VerifyBodyIntegrity(lib, p) == Ok(json) <==> exists body :: StoresBody(lib, p, body, json)
  {
    hide HexEncode, HexDecode, NoUpperCase;
    if lib.b64Decode(p.bodyB64).Some? {
      var body := lib.b64Decode(p.bodyB64).value;
      HexEncodedIff(p.bodySha256, lib.sha256(body));
      assert VerifyBodyIntegrity(lib, p) == Ok(json) <==> StoresBody(lib, p, body, json);
    }
  }

  /** The stored TLS chain is trusted for the host at the given time. */
  ghost predicate TlsIsTrusted(lib: Library, tls: TlsInfo, timestamp: i64) {
    timestamp >= 0 && exists certs :: IsDecodedChain(lib, tls.certChainDerB64, certs)
                                      && certs != [] && lib.webPki(certs[0], certs[1..], HOST, timestamp)
  }

  predicate IsDecodedChain(lib: Library, chain: seq<string>, certs: seq<bytes>) {
    |certs| == |chain| && forall i | 0 <= i < |chain| :: lib.b64Decode(chain[i]) == Some(certs[i])
  }

  lemma {:induction false} DecodeChainIff(lib: Library, chain: seq<string>, certs: seq<bytes>)
    ensures DecodeChain(lib, chain) == Ok(certs) <==> IsDecodedChain(lib, chain, certs)
  {
    if chain != [] && |certs| == |chain| {
      var n := |chain| - 1;
      DecodeChainIff(lib, chain[..n], certs[..n]);
      assert certs == certs[..n] + [certs[n]];
      assert forall i | 0 <= i < n :: certs[..n][i] == certs[i] && chain[..n][i] == chain[i];
    }
  }

  lemma TlsCheckIff(lib: Library, tls: TlsInfo, timestamp: i64)
    ensures VerifyTlsCertificateChain(lib, tls, timestamp, HOST).Ok? <==> TlsIsTrusted(lib, tls, timestamp)
  {
    hide DecodeChain, IsDecodedChain;
    forall certs
      ensures DecodeChain(lib, tls.certChainDerB64) == Ok(certs) <==> IsDecodedChain(lib, tls.certChainDerB64, certs)
    {
      DecodeChainIff(lib, tls.certChainDerB64, certs);
    }
    assert IsDecodedChain(lib, tls.certChainDerB64, []) ==> tls.certChainDerB64 == [] by {
      EmptyChain(lib, tls.certChainDerB64);
    }
  }

  lemma EmptyChain(lib: Library, chain: seq<string>)
    ensures IsDecodedChain(lib, chain, []) ==> chain == []
  {
  }

  /** An attestation vouches for payload bytes under a configuration, at a verifier's clock. */
  ghost predicate Vouches(
    lib: Library, payloadBytes: bytes, p: ProofPayload, a: VerifiedAttestation, config: VerificationConfig, now: Clock)
  {
    && a.userData == lib.sha384(payloadBytes) && |a.nonce| >= 16
    && (forall i | i in config.requiredPcrs :: PcrMatches(a.pcrs, config, i))
    && FutureSkew(a.timestampUnix, now) <= config.maxFutureSkewSeconds
    && TlsIsTrusted(lib, p.tls, a.timestampUnix)
    && DateIsClose(lib, p.httpDate, a.timestampUnix, config)
  }

  lemma AttestationAcceptedIff(
    lib: Library, payloadBytes: bytes, p: ProofPayload, a: VerifiedAttestation, config: VerificationConfig, now: Clock)
    ensures AttestationAccepted(lib, payloadBytes, p, a, config, now) <==> Vouches(lib, payloadBytes, p, a, config, now)
  {
    hide VerifyTlsCertificateChain, VerifyTimePolicy, VerifyPcrs, PcrMatches, DateIsClose, FutureSkew;
    PcrLoopIff(a, config, config.requiredPcrs);
    TlsCheckIff(lib, p.tls, a.timestampUnix);
    if a.timestampUnix >= 0 {
      TimePolicyIff(lib, p, a, config);
    }
  }

  /** Everything an accepted bundle is: the bytes it carries, and what they say. */
  ghost predicate IsProof(
    lib: Library, verify: AttestationVerifier, bundle: ProofBundle, config: VerificationConfig, now: Clock,
    proof: VerifiedProof, payloadBytes: bytes, document: bytes, body: bytes, json: Json)
  {
    && bundle.schema == BUNDLE_SCHEMA
    && lib.b64Decode(bundle.payloadJsonB64) == Some(payloadBytes)
    && lib.payloadFromJson(payloadBytes) == Some(proof.payload)
    && StoresBody(lib, proof.payload, body, json)
    && HasFixedFields(proof.payload)
    && AsksForItsCandle(proof.payload)
    && CandleIsInBody(lib, json, proof.payload.selectedCandle)
    && lib.b64Decode(bundle.attestationDocB64) == Some(document)
    && verify(document, now) == Ok(proof.attestation)
    && Vouches(lib, payloadBytes, proof.payload, proof.attestation, config, now)
  }

  /** A bundle is accepted, as a proof, exactly when it is that proof. */
  lemma AcceptedIffProof(
    lib: Library, verify: AttestationVerifier, bundle: ProofBundle, config: VerificationConfig, now: Clock, proof: VerifiedProof)
    ensures VerifyBundle(lib, verify, bundle, config, now) == Ok(proof)
            <==> exists payloadBytes, document, body, json ::
                   IsProof(lib, verify, bundle, config, now, proof, payloadBytes, document, body, json)
  {
    hide VerifyBundle, IsProof;
    if VerifyBundle(lib, verify, bundle, config, now) == Ok(proof) {
      var payloadBytes, document, body, json := AcceptedIsProof(lib, verify, bundle, config, now);
    }
    forall payloadBytes, document, body, json
      | IsProof(lib, verify, bundle, config, now, proof, payloadBytes, document, body, json)
      ensures VerifyBundle(lib, verify, bundle, config, now) == Ok(proof)
    {
      ProofIsAccepted(lib, verify, bundle, config, now, proof, payloadBytes, document, body, json);
    }
  }

  lemma AcceptedIsProof(lib: Library, verify: AttestationVerifier, bundle: ProofBundle, config: VerificationConfig, now: Clock)
    returns (payloadBytes: bytes, document: bytes, body: bytes, json: Json)
    requires VerifyBundle(lib, verify, bundle, config, now).Ok?
    ensures IsProof(lib, verify, bundle, config, now, VerifyBundle(lib, verify, bundle, config, now).value,
                    payloadBytes, document, body, json)
  {
    hide VerifyBundle, VerifyBodyIntegrity, VerifyPayloadPolicy, AttestationAccepted, Vouches, HasFixedFields,
         AsksForItsCandle, CandleIsInBody, StoresBody;
    var proof := VerifyBundle(lib, verify, bundle, config, now).value;
    payloadBytes, json, document := AcceptedParts(lib, verify, bundle, config, now);
    BodyIntegrityIff(lib, proof.payload, json);
    body :| StoresBody(lib, proof.payload, body, json);
    PayloadPolicyIff(lib, proof.payload, json);
    AttestationAcceptedIff(lib, payloadBytes, proof.payload, proof.attestation, config, now);
  }

  lemma ProofIsAccepted(
    lib: Library, verify: AttestationVerifier, bundle: ProofBundle, config: VerificationConfig, now: Clock,
    proof: VerifiedProof, payloadBytes: bytes, document: bytes, body: bytes, json: Json)
    requires IsProof(lib, verify, bundle, config, now, proof, payloadBytes, document, body, json)
    ensures VerifyBundle(lib, verify, bundle, config, now) == Ok(proof)
  {
    hide VerifyBundle, VerifyBodyIntegrity, VerifyPayloadPolicy, AttestationAccepted, Vouches, HasFixedFields,
         AsksForItsCandle, CandleIsInBody, StoresBody;
    BodyIntegrityIff(lib, proof.payload, json);
    PayloadPolicyIff(lib, proof.payload, json);
    AttestationAcceptedIff(lib, payloadBytes, proof.payload, proof.attestation, config, now);
    AcceptedIffParts(lib, verify, bundle, config, now, payloadBytes, proof.payload, json, document);
  }

  // ----- prover and verifier agree -----

  /** The conditions the prover does not check itself, about what the session delivered. */
  predicate Verifiable(
    lib: Library, request: ProofRequest, session: Option<TlsSession>, timestamp: i64, pcrs: map<u16, bytes>,
    config: VerificationConfig, now: Clock)
    requires BuildPayload(lib, request, session).Ok?
    requires session.Some? && session.value.peerCertificates.Some? && session.value.peerCertificates.value != []
    requires Observed(lib, session)
  {
    var fetch := Fetch(lib, session).value;
    var chain := session.value.peerCertificates.value;
    && SelectCandle(lib, fetch.bodyJson).value.time == request.start
    && FutureSkew(timestamp, now) <= config.maxFutureSkewSeconds
    && (forall i | i in config.requiredPcrs :: PcrMatches(pcrs, config, i))
    && timestamp >= 0 && lib.webPki(chain[0], chain[1..], HOST, timestamp)
    && DateIsClose(lib, HeaderValue(fetch.headers, "date").value, timestamp, config)
  }

  /** The session delivered a response with a candle, a content type and a date. */
  predicate Observed(lib: Library, session: Option<TlsSession>) {
    && Fetch(lib, session).Ok?
    && SelectCandle(lib, Fetch(lib, session).value.bodyJson).Ok?
    && HeaderValue(Fetch(lib, session).value.headers, "date").Some?
    && HeaderValue(Fetch(lib, session).value.headers, "content-type").Some?
  }

  /** A payload holds what was requested and what the session delivered. */
  predicate Carries(lib: Library, p: ProofPayload, request: ProofRequest, session: Option<TlsSession>)
    requires Observed(lib, session) && session.Some? && session.value.peerCertificates.Some?
  {
    var fetch := Fetch(lib, session).value;
    && HasFixedFields(p)
    && p.requestStart == request.start && p.requestEnd == request.end
    && CoinbaseCandleQuery(request.start, request.end) == Ok(p.requestQuery)
    && p.httpStatus == fetch.status == 200
    && HeaderValue(fetch.headers, "date") == Some(p.httpDate)
    && HeaderValue(fetch.headers, "content-type") == Some(p.contentType)
    && lib.b64Decode(p.bodyB64) == Some(fetch.bodyBytes)
    && HexDecode(p.bodySha256) == Some(lib.sha256(fetch.bodyBytes))
    && SelectCandle(lib, fetch.bodyJson) == Ok(p.selectedCandle)
    && IsDecodedChain(lib, p.tls.certChainDerB64, session.value.peerCertificates.value)
  }

  /** What the prover read from the session, once it has built a payload. */
  lemma BuiltFrom(lib: Library, request: ProofRequest, session: Option<TlsSession>)
    requires BuildPayload(lib, request, session).Ok?
    ensures ValidateRequest(request).Ok? && CoinbaseCandleQuery(request.start, request.end).Ok?
    ensures session.Some? && session.value.peerCertificates.Some? && session.value.peerCertificates.value != []
    ensures Observed(lib, session)
    ensures lib.parseJson(Fetch(lib, session).value.bodyBytes) == Some(Fetch(lib, session).value.bodyJson)
    ensures Fetch(lib, session).value.tls ==
            TlsInfo(HOST, EncodeChain(lib, session.value.peerCertificates.value))
  {
    hide SelectCandle, ParseHttpResponse, EncodeChain;
    ContentLengthHolds(lib, session.value.response, TlsInfoOf(lib, session.value).value);
    ParsedTls(lib, session.value.response, TlsInfoOf(lib, session.value).value);
  }

  /** The body the prover stored is intact, and is the JSON it selected from. */
  lemma BuiltBodyIsIntact(lib: Library, request: ProofRequest, session: Option<TlsSession>)
    requires DigestLength(lib) && Base64RoundTrip(lib)
    requires BuildPayload(lib, request, session).Ok?
    ensures VerifyBodyIntegrity(lib, BuildPayload(lib, request, session).value)
         == Ok(Fetch(lib, session).value.bodyJson)
  {
    hide SelectCandle, Fetch, HexEncode, HexDecode, ValidateRequest, CoinbaseCandleQuery;
    BuiltFrom(lib, request, session);
    var body := Fetch(lib, session).value.bodyBytes;
    HexRoundTrip(lib.sha256(body));
  }

  /** Of the payload policy, only the candle's time is not settled by how the payload was built. */
  lemma BuiltPolicyIff(lib: Library, request: ProofRequest, session: Option<TlsSession>)
    requires BuildPayload(lib, request, session).Ok?
    ensures var p := BuildPayload(lib, request, session).value;
            VerifyPayloadPolicy(lib, p, Fetch(lib, session).value.bodyJson).Ok?
            <==> p.selectedCandle.time == request.start
  {
    hide SelectCandle, Fetch, ContainsSelectedCandle, IsJsonContentType, Sha256Hex, PrintInt;
    BuiltFrom(lib, request, session);
    SelectedIsContained(lib, Fetch(lib, session).value.bodyJson);
  }

  lemma BuiltCarries(lib: Library, request: ProofRequest, session: Option<TlsSession>)
    requires Base64RoundTrip(lib) && BuildPayload(lib, request, session).Ok?
    ensures session.Some? && session.value.peerCertificates.Some? && Observed(lib, session)
    ensures Carries(lib, BuildPayload(lib, request, session).value, request, session)
  {
    hide SelectCandle, Fetch, ValidateRequest, CoinbaseCandleQuery, IsJsonContentType, HexEncode, HexDecode;
    BuiltFrom(lib, request, session);
    HexRoundTrip(lib.sha256(Fetch(lib, session).value.bodyBytes));
  }

  /** The verifier reads back every document of the attester: its time, its PCRs, and what it was given. */
  ghost predicate IsFaithful(attest: Attester, verify: AttestationVerifier, timestamp: i64, pcrs: map<u16, bytes>) {
    forall userData: bytes, nonce: bytes, now: Clock | attest(userData, nonce).Some? ::
      verify(attest(userData, nonce).value, now) == Ok(VerifiedAttestation(timestamp, pcrs, userData, nonce))
  }

  lemma BuiltVouchesIff(
    lib: Library, request: ProofRequest, session: Option<TlsSession>, payloadBytes: bytes,
    a: VerifiedAttestation, config: VerificationConfig, now: Clock)
    requires Base64RoundTrip(lib)
    requires BuildPayload(lib, request, session).Ok?
    requires session.Some? && session.value.peerCertificates.Some? && session.value.peerCertificates.value != []
    requires Observed(lib, session)
    requires a.userData == lib.sha384(payloadBytes) && |a.nonce| == 32
    ensures var p := BuildPayload(lib, request, session).value;
            (p.selectedCandle.time == request.start && Vouches(lib, payloadBytes, p, a, config, now))
            <==> Verifiable(lib, request, session, a.timestampUnix, a.pcrs, config, now)
  {
    hide BuildPayload, Fetch, DateIsClose, PcrMatches, FutureSkew, SelectCandle, IsDecodedChain;
    var p := BuildPayload(lib, request, session).value;
    var chain := session.value.peerCertificates.value;
    BuiltCarries(lib, request, session);
    forall certs | IsDecodedChain(lib, p.tls.certChainDerB64, certs)
      ensures certs == chain
    {
      DecodeChainIff(lib, p.tls.certChainDerB64, certs);
      DecodeChainIff(lib, p.tls.certChainDerB64, chain);
    }
  }

  /**
   Prover and verifier agree. With any attester whose documents the attestation verifier reads
   back faithfully, a bundle the prover makes is accepted exactly when the candle's time is the
   requested start, the attestation is not too far in the future, every required PCR matches, the
   TLS chain is trusted at the attestation time, and the HTTP date is close to it. The verifier
   then returns what the prover observed and the attestation as it was made.
   */
  lemma ProverVerifierAgree(
    lib: Library, attest: Attester, verify: AttestationVerifier, request: ProofRequest, session: Option<TlsSession>,
    nonce: Nonce, timestamp: i64, pcrs: map<u16, bytes>, config: VerificationConfig, now: Clock)
    requires Lawful(lib)
    requires IsFaithful(attest, verify, timestamp, pcrs)
    requires Prove(lib, attest, request, session, nonce).Ok?
    ensures BuildPayload(lib, request, session).Ok?
    ensures session.Some? && session.value.peerCertificates.Some? && session.value.peerCertificates.value != []
    ensures Observed(lib, session)
    ensures var verdict := VerifyBundle(lib, verify, Prove(lib, attest, request, session, nonce).value, config, now);
            && (verdict.Ok? <==> Verifiable(lib, request, session, timestamp, pcrs, config, now))
            && (verdict.Ok? ==>
                  var p := verdict.value.payload;
                  && Carries(lib, p, request, session)
                  && verdict.value.attestation == VerifiedAttestation(timestamp, pcrs, lib.sha384(lib.payloadToJson(p)), nonce))
  {
    hide BuildPayload, Fetch, VerifyBodyIntegrity, VerifyPayloadPolicy, AttestationAccepted, Verifiable,
         VerifyBundle, Carries, Vouches;
    var p := BuildPayload(lib, request, session).value;
    var payloadBytes := lib.payloadToJson(p);
    var a := VerifiedAttestation(timestamp, pcrs, lib.sha384(payloadBytes), nonce);
    var document := attest(a.userData, nonce).value;
    var bundle := Prove(lib, attest, request, session, nonce).value;
    assert verify(document, now) == Ok(a);
    BuiltFrom(lib, request, session);
    BuiltCarries(lib, request, session);
    BuiltBodyIsIntact(lib, request, session);
    BuiltPolicyIff(lib, request, session);
    AttestationAcceptedIff(lib, payloadBytes, p, a, config, now);
    BuiltVouchesIff(lib, request, session, payloadBytes, a, config, now);
    AcceptedIffParts(lib, verify, bundle, config, now, payloadBytes, p, Fetch(lib, session).value.bodyJson, document);
  }

  function MockAttester(lib: Library, timestamp: i64, pcrs: map<u16, bytes>): Attester {
    (userData, nonce) => Some(MockAttestation.Attest(lib, timestamp, pcrs, userData, nonce))
  }

  /** The mock attester and verifier are faithful, so prover and verifier agree with them. */
  lemma MockIsFaithful(lib: Library, timestamp: i64, pcrs: map<u16, bytes>)
    requires Base64RoundTrip(lib) && MockRoundTrip(lib)
    ensures IsFaithful(MockAttester(lib, timestamp, pcrs), MockVerifier(lib), timestamp, pcrs)
  {
    hide MockAttestation.Attest, MockAttestation.Verified;
    forall userData: bytes, nonce: bytes, now: Clock
      ensures MockVerifier(lib)(MockAttester(lib, timestamp, pcrs)(userData, nonce).value, now)
           == Ok(VerifiedAttestation(timestamp, pcrs, userData, nonce))
    {
      MockAttestation.MockRoundTripHolds(lib, VerifiedAttestation(timestamp, pcrs, userData, nonce), now);
    }
  }

  /** With the mock pair the prover fails only in building the payload, and the two agree. */
  lemma MockProofAcceptedIff(
    lib: Library, request: ProofRequest, session: Option<TlsSession>, nonce: Nonce, timestamp: i64,
    pcrs: map<u16, bytes>, config: VerificationConfig, now: Clock)
    requires Lawful(lib)
    requires BuildPayload(lib, request, session).Ok?
    ensures session.Some? && session.value.peerCertificates.Some? && session.value.peerCertificates.value != []
    ensures Observed(lib, session)
    ensures var made := Prove(lib, MockAttester(lib, timestamp, pcrs), request, session, nonce);
            && made.Ok?
            && var verdict := VerifyBundle(lib, MockVerifier(lib), made.value, config, now);
               && (verdict.Ok? <==> Verifiable(lib, request, session, timestamp, pcrs, config, now))
               && (verdict.Ok? ==>
                     var p := verdict.value.payload;
                     && Carries(lib, p, request, session)
                     && verdict.value.attestation
                        == VerifiedAttestation(timestamp, pcrs, lib.sha384(lib.payloadToJson(p)), nonce))
  {
    hide BuildPayload, VerifyBundle, Verifiable, Carries, Observed, IsFaithful, MockAttestation.Attest;
    MockIsFaithful(lib, timestamp, pcrs);
    ProverVerifierAgree(lib, MockAttester(lib, timestamp, pcrs), MockVerifier(lib), request, session, nonce,
                        timestamp, pcrs, config, now);
  }

  /**
   The prover does not check that it got the candle it asked for: it builds a proof from whatever
   candle comes first. The payload policy then refuses it for that reason alone.
   */
  lemma OtherCandleBreaksPolicy(lib: Library, request: ProofRequest, session: Option<TlsSession>)
    requires BuildPayload(lib, request, session).Ok?
    requires BuildPayload(lib, request, session).value.selectedCandle.time != request.start
    ensures Fetch(lib, session).Ok?
    ensures var p := BuildPayload(lib, request, session).value;
            VerifyPayloadPolicy(lib, p, Fetch(lib, session).value.bodyJson) ==
            Err(if p.selectedCandle.time % 300 != 0 then UnalignedCandle else CandleNotAtStart)
  {
    hide SelectCandle, Fetch, ContainsSelectedCandle, IsJsonContentType, Sha256Hex, PrintInt;
    BuiltFrom(lib, request, session);
  }

  /** Whatever attests and verifies, a bundle made from another candle is refused, with that error. */
  lemma OtherCandleIsRefused(
    lib: Library, attest: Attester, verify: AttestationVerifier, request: ProofRequest, session: Option<TlsSession>,
    nonce: Nonce, config: VerificationConfig, now: Clock)
    requires Lawful(lib)
    requires Prove(lib, attest, request, session, nonce).Ok?
    requires BuildPayload(lib, request, session).value.selectedCandle.time != request.start
    ensures VerifyBundle(lib, verify, Prove(lib, attest, request, session, nonce).value, config, now) ==
            Err(if BuildPayload(lib, request, session).value.selectedCandle.time % 300 != 0 then UnalignedCandle
                else CandleNotAtStart)
  {
    hide BuildPayload, Fetch, VerifyBodyIntegrity, VerifyPayloadPolicy;
    OtherCandleBreaksPolicy(lib, request, session);
    BuiltBodyIsIntact(lib, request, session);
  }

  /**
   The framing of the response does not reach the proof: two sessions whose responses differ only
   in how they frame one body lead to the same payload.
   */
  lemma FramingDoesNotReachPayload(
    lib: Library, request: ProofRequest, certs: Option<seq<bytes>>, head: bytes, raw: bytes, head': bytes, raw': bytes,
    body: bytes)
    requires |body| <= MAX_SLICE
    requires IsHead(head) && lib.parseHead(head).Some? && lib.parseHead(head).value.code.Some?
    requires IsHead(head') && lib.parseHead(head').Some? && lib.parseHead(head').value.code.Some?
    requires IsFraming(Normalized(lib, lib.parseHead(head).value.headers), body, raw)
    requires IsFraming(Normalized(lib, lib.parseHead(head').value.headers), body, raw')
    requires var (parsed, parsed') := (lib.parseHead(head).value, lib.parseHead(head').value);
             var (headers, headers') := (Normalized(lib, parsed.headers), Normalized(lib, parsed'.headers));
             && parsed.code == parsed'.code
             && HeaderValue(headers, "content-type") == HeaderValue(headers', "content-type")
             && HeaderValue(headers, "date") == HeaderValue(headers', "date")
    ensures BuildPayload(lib, request, Some(TlsSession(certs, head + raw)))
         == BuildPayload(lib, request, Some(TlsSession(certs, head' + raw')))
  {
    hide IsFraming, Normalized, ParseHttpResponse, SelectCandle, IsJsonContentType, CoinbaseCandleQuery, IsHead;
    var session := TlsSession(certs, head + raw);
    if TlsInfoOf(lib, session).Ok? {
      var tls := TlsInfoOf(lib, session).value;
      assert TlsInfoOf(lib, TlsSession(certs, head' + raw')) == Ok(tls);
      FramedResponse(lib, head, body, raw, tls);
      FramedResponse(lib, head', body, raw', tls);
    }
  }

  // ----- what is bound together -----

  /** A query is the print of one start only. */
  lemma QueryDeterminesStart(s: i64, t: i64)
    requires CoinbaseCandleQuery(s, s).Ok? && CoinbaseCandleQuery(s, s) == CoinbaseCandleQuery(t, t)
    ensures s == t
  {
    QueryUpToAmpersand(s);
    QueryUpToAmpersand(t);
    var first, second := "start=" + PrintInt(s), "start=" + PrintInt(t);
    assert first[6..] == PrintInt(s) && second[6..] == PrintInt(t);
    ParsePrintedInt(s);
    ParsePrintedInt(t);
  }

  lemma QueryUpToAmpersand(s: i64)
    requires CoinbaseCandleQuery(s, s).Ok?
    ensures SplitOnce(CoinbaseCandleQuery(s, s).value, '&').Some?
    ensures SplitOnce(CoinbaseCandleQuery(s, s).value, '&').value.0 == "start=" + PrintInt(s)
  {
    hide PrintInt;
    var query := CoinbaseCandleQuery(s, s).value;
    var before := "start=" + PrintInt(s);
    var after := "end=" + PrintInt(s) + "&granularity=" + GRANULARITY_LABEL + "&limit=1";
    assert '&' !in before by { PrintedHasNoAmpersand(s); }
    assert "&end=" == ['&'] + "end=";
    assert query == before + ['&'] + after;
    SplitOnceUnique(before, after, '&');
  }

  lemma PrintedHasNoAmpersand(s: i64)
    requires s >= 0
    ensures '&' !in PrintInt(s)
  {
    hide PrintNat;
    PrintedValue(s, 10);
  }

  /** The mock attestation verifier accepts exactly the documents that parse as mocks, as what they say. */
  lemma MockVerifierIff(lib: Library, document: bytes, now: Clock, a: VerifiedAttestation)
    ensures MockVerifier(lib)(document, now) == Ok(a)
            <==> && lib.mockFromJson(document).Some?
                 && MockAttestation.IsMockOf(lib, lib.mockFromJson(document).value, a)
  {
    hide MockAttestation.Verified, MockAttestation.IsMockOf;
    MockAttestation.AcceptedIffMock(lib, document, now, a);
  }

  /** The Nitro verifier accepts exactly the documents that attest, as what they attest. */
  lemma NitroVerifierIff(nitro: NitroAttestation.NitroLibrary, document: bytes, now: Clock, a: VerifiedAttestation)
    ensures NitroVerifier(nitro)(document, now) == Ok(a)
            <==> exists doc, certs :: NitroAttestation.Attests(nitro, document, doc, certs, a)
  {
    hide NitroAttestation.Verified, NitroAttestation.Attests;
    NitroAttestation.AcceptedIffAttests(nitro, document, now, a);
  }

  /** An attestation verifier that does not consult the clock it is given. */
  ghost predicate IgnoresClock(verify: AttestationVerifier) {
    forall document: bytes, now: Clock, now': Clock :: verify(document, now) == verify(document, now')
  }

  lemma MockIgnoresClock(lib: Library)
    ensures IgnoresClock(MockVerifier(lib))
  {
    forall document: bytes, now: Clock, now': Clock
      ensures MockVerifier(lib)(document, now) == MockVerifier(lib)(document, now')
    {
    }
  }

  lemma NitroIgnoresClock(nitro: NitroAttestation.NitroLibrary)
    ensures IgnoresClock(NitroVerifier(nitro))
  {
    forall document: bytes, now: Clock, now': Clock
      ensures NitroVerifier(nitro)(document, now) == NitroVerifier(nitro)(document, now')
    {
    }
  }

  /** Two different inputs with one SHA-384 digest. */
  predicate IsCollision(lib: Library, b: bytes, b': bytes) {
    b != b' && lib.sha384(b) == lib.sha384(b')
  }

  /**
   Accepted bundles whose attestations carry the same user data carry the same payload, in the same
   bytes, or else their payload bytes are a SHA-384 collision.
   */
  lemma AttestationBindsPayload(
    lib: Library, verify: AttestationVerifier, verify': AttestationVerifier, bundle: ProofBundle, bundle': ProofBundle,
    config: VerificationConfig, config': VerificationConfig, now: Clock, now': Clock)
    requires VerifyBundle(lib, verify, bundle, config, now).Ok?
    requires VerifyBundle(lib, verify', bundle', config', now').Ok?
    requires VerifyBundle(lib, verify, bundle, config, now).value.attestation.userData
          == VerifyBundle(lib, verify', bundle', config', now').value.attestation.userData
    ensures var b, b' := lib.b64Decode(bundle.payloadJsonB64), lib.b64Decode(bundle'.payloadJsonB64);
            && b.Some? && b'.Some?
            && (|| IsCollision(lib, b.value, b'.value)
                || (b == b' && VerifyBundle(lib, verify, bundle, config, now).value.payload
                            == VerifyBundle(lib, verify', bundle', config', now').value.payload))
  {
    hide VerifyBundle, VerifyPayloadPolicy, VerifyBodyIntegrity, VerifyPcrs, VerifyTlsCertificateChain, VerifyTimePolicy;
    var _, _, _ := AcceptedParts(lib, verify, bundle, config, now);
    var _, _, _ := AcceptedParts(lib, verify', bundle', config', now');
  }

  /**
   Under a verifier that ignores the clock, one attestation document vouches for one payload only,
   short of a SHA-384 collision.
   */
  lemma DocumentBindsPayload(
    lib: Library, verify: AttestationVerifier, bundle: ProofBundle, bundle': ProofBundle,
    config: VerificationConfig, config': VerificationConfig, now: Clock, now': Clock)
    requires IgnoresClock(verify)
    requires VerifyBundle(lib, verify, bundle, config, now).Ok?
    requires VerifyBundle(lib, verify, bundle', config', now').Ok?
    requires bundle.attestationDocB64 == bundle'.attestationDocB64
    ensures var b, b' := lib.b64Decode(bundle.payloadJsonB64), lib.b64Decode(bundle'.payloadJsonB64);
            && b.Some? && b'.Some?
            && (|| IsCollision(lib, b.value, b'.value)
                || VerifyBundle(lib, verify, bundle, config, now) == VerifyBundle(lib, verify, bundle', config', now'))
  {
    hide VerifyBundle, VerifyPayloadPolicy, VerifyBodyIntegrity, AttestationAccepted, IsCollision;
    var _, _, document := AcceptedParts(lib, verify, bundle, config, now);
    var _, _, document' := AcceptedParts(lib, verify, bundle', config', now');
    assert verify(document, now) == verify(document', now');
    AttestationBindsPayload(lib, verify, verify, bundle, bundle', config, config', now, now');
  }

  /** The query an accepted proof carries, sent as a public request, asks for the same candle. */
  lemma ProvenQueryAsksForProof(
    lib: Library, verify: AttestationVerifier, bundle: ProofBundle, config: VerificationConfig, now: Clock)
    requires VerifyBundle(lib, verify, bundle, config, now).Ok?
    ensures var p := VerifyBundle(lib, verify, bundle, config, now).value.payload;
            PublicRequest.ParsePublicProofRequest(lib, "GET", PublicRequest.PROOF_PATH + "?" + p.requestQuery)
            == Ok(ProofRequest(p.selectedCandle.time, p.selectedCandle.time))
  {
    hide VerifyBundle, PublicRequest.ParsePublicProofRequest, CoinbaseCandleQuery, StoresBody, HasFixedFields,
         CandleIsInBody, Vouches;
    var p := VerifyBundle(lib, verify, bundle, config, now).value.payload;
    var _, _, _, _ := AcceptedIsProof(lib, verify, bundle, config, now);
    PublicRequest.PrintedQueryRecognised(lib, ProofRequest(p.requestStart, p.requestStart));
  }

  // ----- acceptance with real Nitro attestations -----

  lemma {:induction false} NoneAllZero(a: VerifiedAttestation, config: VerificationConfig, required: seq<u16>, i: u16)
    requires forall j | j in a.pcrs :: !NitroAttestation.AllZero(a.pcrs[j])
    ensures VerifyPcrs(a, config, required) != Err(PcrAllZero(i))
  {
    hide NitroAttestation.AllZero;
    if required != [] {
      NoneAllZero(a, config, required[1..], i);
    }
  }

  /**
   A Nitro attestation never carries an all-zero PCR: a document's debug-mode PCR, once configured,
   is reported as missing, and requiring it is refused, never as all zero.
   */
  lemma DebugPcrsAreMissing(
    nitro: NitroAttestation.NitroLibrary, document: bytes, now: Clock, config: VerificationConfig, required: seq<u16>, i: u16)
    returns (doc: NitroAttestation.AttestationDoc, certs: seq<NitroAttestation.NitroCert>)
    requires NitroAttestation.Verified(nitro, document, now).Ok?
    ensures var a := NitroAttestation.Verified(nitro, document, now).value;
            && NitroAttestation.Attests(nitro, document, doc, certs, a)
            && VerifyPcrs(a, config, required) != Err(PcrAllZero(i))
            && (i in doc.pcrs && NitroAttestation.AllZero(doc.pcrs[i]) ==>
                  && (i in config.expectedPcrs ==> VerifyPcrs(a, config, [i]) == Err(PcrMissing(i)))
                  && (i in required ==> VerifyPcrs(a, config, required).Err?))
  {
    doc, certs := NitroAttestation.AcceptedIsAttested(nitro, document, now);
    hide NitroAttestation.Verified, NitroAttestation.AllZero, NitroAttestation.IsRead, NitroAttestation.IsTrustedChain;
    var a := NitroAttestation.Verified(nitro, document, now).value;
    NoneAllZero(a, config, required, i);
    PcrLoopIff(a, config, required);
  }

  /**
   A bundle accepted with the real verifier carries a document that attests the digest of its
   payload: signed through a chain from the pinned root that was valid when the document was made,
   with every required PCR measured as expected.
   */
  lemma NitroAcceptanceIsSound(
    lib: Library, nitro: NitroAttestation.NitroLibrary, bundle: ProofBundle, config: VerificationConfig, now: Clock)
    returns (document: bytes, doc: NitroAttestation.AttestationDoc, certs: seq<NitroAttestation.NitroCert>, payloadBytes: bytes)
    requires VerifyBundle(lib, NitroVerifier(nitro), bundle, config, now).Ok?
    ensures var proof := VerifyBundle(lib, NitroVerifier(nitro), bundle, config, now).value;
            && lib.b64Decode(bundle.attestationDocB64) == Some(document)
            && lib.b64Decode(bundle.payloadJsonB64) == Some(payloadBytes)
            && lib.payloadFromJson(payloadBytes) == Some(proof.payload)
            && NitroAttestation.Attests(nitro, document, doc, certs, proof.attestation)
            && doc.userData == Some(lib.sha384(payloadBytes))
            && (forall i: u16 | i in config.requiredPcrs ::
                  i in doc.pcrs && i in config.expectedPcrs && doc.pcrs[i] == config.expectedPcrs[i])
  {
    var body, json;
    payloadBytes, document, body, json := AcceptedIsProof(lib, NitroVerifier(nitro), bundle, config, now);
    hide VerifyBundle, NitroAttestation.Verified, NitroAttestation.IsTrustedChain, NitroAttestation.AllZero,
         NitroAttestation.IsRead, StoresBody, HasFixedFields, AsksForItsCandle, CandleIsInBody, TlsIsTrusted, DateIsClose;
    doc, certs := NitroAttestation.AcceptedIsAttested(nitro, document, now);
    var a := VerifyBundle(lib, NitroVerifier(nitro), bundle, config, now).value.attestation;
    forall i: u16 | i in config.requiredPcrs
      ensures PcrMatches(a.pcrs, config, i)
    {
    }
  }
}

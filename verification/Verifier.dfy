/** Offline bundle verification of src/verify.rs. */
module Verifier {
  import opened Wrappers
  import opened Bytes
  import opened Numbers
  import opened Documents
  import opened Library
  import opened Http
  import opened Candle
  import opened TimeUtil
  import Prover
  import MockAttestation
  import NitroAttestation

  datatype VerificationConfig = VerificationConfig(
    expectedPcrs: map<u16, bytes>, requiredPcrs: seq<u16>, maxSkewSeconds: i64, maxFutureSkewSeconds: i64)

  datatype VerifiedProof = VerifiedProof(payload: ProofPayload, attestation: VerifiedAttestation)

  datatype AttestationError = Mock(mock: MockAttestation.MockError) | Nitro(nitro: NitroAttestation.NitroError)

  type AttestationVerifier = (bytes, Clock) -> Result<VerifiedAttestation, AttestationError>

  ghost function MockVerifier(lib: Library): AttestationVerifier {
    (document: bytes, now: Clock) =>
      match MockAttestation.Verified(lib, document, now)
      case Ok(a) => Ok(a)
      case Err(e) => Err(Mock(e))
  }

  function NitroVerifier(lib: NitroAttestation.NitroLibrary): AttestationVerifier {
    (document: bytes, now: Clock) =>
      match NitroAttestation.Verified(lib, document, now)
      case Ok(a) => Ok(a)
      case Err(e) => Err(Nitro(e))
  }

  datatype VerifyError =
    | BadBundleSchema
    | BadPayloadBase64
    | BadPayloadJson
    | DigestNotHex
    | WrongDigestLength
    | BadBodyBase64
    | BodyDigestMismatch
    | BodyNotJson
    | BadPayloadSchema
    | BadProofPolicy
    | BadSource
    | BadHost
    | BadProductId
    | BadGranularity
    | BadGranularitySeconds
    | BadRequestPath
    | BadHttpStatus
    | BadContentType
    | NegativeRange
    | StartAfterEnd
    | StartNotEnd
    | UnalignedStart
    | BadQuery(query: RequestError)
    | QueryMismatch
    | UnalignedCandle
    | CandleNotAtStart
    | BadCandleRow(candle: CandleError)
    | CandleNotInBody
    | BadSni
    | BadDocumentBase64
    | BadAttestation(attestation: AttestationError)
    | TooFarInFuture
    | UserDataMismatch
    | NonceTooShort
    | PcrNotConfigured(index: u16)
    | PcrMissing(index: u16)
    | PcrAllZero(index: u16)
    | PcrMismatch(index: u16)
    | EmptyTlsChain
    | BadCertificateBase64(position: nat)
    | NegativeTimestamp
    | UntrustedTlsChain
    | BadHttpDate(date: DateError)
    | SkewTooLarge

  function VerifyBodyIntegrity(lib: Library, p: ProofPayload): Result<Json, VerifyError> {
    var digest :- HexDecode(p.bodySha256).ToResult(DigestNotHex);
    if |digest| != 32 then Err(WrongDigestLength)
    else
      var body :- lib.b64Decode(p.bodyB64).ToResult(BadBodyBase64);
      if Prover.Sha256Hex(lib, body) != p.bodySha256 then Err(BodyDigestMismatch)
      else lib.parseJson(body).ToResult(VerifyError.BodyNotJson)
  }

  function VerifyPayloadPolicy(lib: Library, p: ProofPayload, body: Json): Result<(), VerifyError> {
    if p.schema != PAYLOAD_SCHEMA then Err(BadPayloadSchema)
    else if p.proofPolicy != PROOF_POLICY then Err(BadProofPolicy)
    else if p.source != SOURCE then Err(BadSource)
    else if p.host != HOST then Err(BadHost)
    else if p.productId != PRODUCT_ID then Err(BadProductId)
    else if p.granularity != GRANULARITY_LABEL then Err(BadGranularity)
    else if p.granularitySeconds != GRANULARITY_SECONDS then Err(BadGranularitySeconds)
    else if p.requestPath != REQUEST_PATH then Err(BadRequestPath)
    else if p.httpStatus != 200 then Err(BadHttpStatus)
    else if !Prover.IsJsonContentType(p.contentType) then Err(BadContentType)
    else if p.requestStart < 0 || p.requestEnd < 0 then Err(NegativeRange)
    else if p.requestStart > p.requestEnd then Err(VerifyError.StartAfterEnd)
    else if p.requestStart != p.requestEnd then Err(VerifyError.StartNotEnd)
    else if p.requestStart % GRANULARITY_SECONDS != 0 then Err(UnalignedStart)
    else
      match CoinbaseCandleQuery(p.requestStart, p.requestEnd)
      case Err(e) => Err(BadQuery(e))
      case Ok(query) =>
        if p.requestQuery != query then Err(QueryMismatch)
        else if p.selectedCandle.time % GRANULARITY_SECONDS != 0 then Err(UnalignedCandle)
        else if p.selectedCandle.time != p.requestStart then Err(CandleNotAtStart)
        else
          match ContainsSelectedCandle(lib, body, p.selectedCandle)
          case Err(e) => Err(BadCandleRow(e))
          case Ok(found) =>
            if !found then Err(CandleNotInBody)
            else if p.tls.sni != HOST then Err(BadSni)
            else Ok(())
  }

  /** `attestation.timestamp_unix - now`, wrapping as a release build does. */
  function FutureSkew(timestamp: i64, now: Clock): i64 { WrapI64(timestamp as int - now as int) }

  function VerifyAttestationTimeBounds(a: VerifiedAttestation, config: VerificationConfig, now: Clock)
    : Result<(), VerifyError>
  {
    if FutureSkew(a.timestampUnix, now) > config.maxFutureSkewSeconds then Err(TooFarInFuture) else Ok(())
  }

  /** The loop over the required PCRs. */
  function VerifyPcrs(a: VerifiedAttestation, config: VerificationConfig, required: seq<u16>): Result<(), VerifyError> {
    if required == [] then Ok(())
    else
      var i := required[0];
      if i !in config.expectedPcrs then Err(PcrNotConfigured(i))
      else if i !in a.pcrs then Err(PcrMissing(i))
      else if NitroAttestation.AllZero(a.pcrs[i]) then Err(PcrAllZero(i))
      else if a.pcrs[i] != config.expectedPcrs[i] then Err(PcrMismatch(i))
      else VerifyPcrs(a, config, required[1..])
  }

  function VerifyAttestationBinding(lib: Library, payloadBytes: bytes, a: VerifiedAttestation, config: VerificationConfig)
    : Result<(), VerifyError>
  {
    if a.userData != lib.sha384(payloadBytes) then Err(UserDataMismatch)
    else if |a.nonce| < 16 then Err(NonceTooShort)
    else VerifyPcrs(a, config, config.requiredPcrs)
  }

  function DecodeChain(lib: Library, chain: seq<string>): (r: Result<seq<bytes>, VerifyError>)
    ensures r.Ok? ==> |r.value| == |chain|
  {
    if chain == [] then Ok([])
    else
      var n := |chain| - 1;
      var init :- DecodeChain(lib, chain[..n]);
      var der :- lib.b64Decode(chain[n]).ToResult(BadCertificateBase64(n));
      Ok(init + [der])
  }

  function VerifyTlsCertificateChain(lib: Library, tls: TlsInfo, timestamp: i64, host: string): Result<(), VerifyError> {
    if tls.certChainDerB64 == [] then Err(EmptyTlsChain)
    else
      var certs :- DecodeChain(lib, tls.certChainDerB64);
      if timestamp < 0 then Err(NegativeTimestamp)
      else if !lib.webPki(certs[0], certs[1..], host, timestamp) then Err(UntrustedTlsChain)
      else Ok(())
  }

  /** `i64::abs`, which leaves the smallest value as it is in a release build. */
  function AbsI64(n: i64): i64 {
    if n == I64_MIN then n
    else if n < 0 then assert IsI64(n); -n
    else n
  }

  function VerifyTimePolicy(lib: Library, p: ProofPayload, a: VerifiedAttestation, config: VerificationConfig)
    : Result<(), VerifyError>
  {
    match ParseHttpDateEpoch(lib, p.httpDate)
    case Err(e) => Err(BadHttpDate(e))
    case Ok(date) =>
      if AbsI64(WrapI64(a.timestampUnix as int - date as int)) > config.maxSkewSeconds then Err(SkewTooLarge)
      else Ok(())
  }

  /** `verify_bundle`. */
  function VerifyBundle(
    lib: Library, verify: AttestationVerifier, bundle: ProofBundle, config: VerificationConfig, now: Clock)
    : Result<VerifiedProof, VerifyError>
  {
    if bundle.schema != BUNDLE_SCHEMA then Err(BadBundleSchema)
    else
      var payloadBytes :- lib.b64Decode(bundle.payloadJsonB64).ToResult(BadPayloadBase64);
      var payload :- lib.payloadFromJson(payloadBytes).ToResult(BadPayloadJson);
      var body :- VerifyBodyIntegrity(lib, payload);
      var _ :- VerifyPayloadPolicy(lib, payload, body);
      var document :- lib.b64Decode(bundle.attestationDocB64).ToResult(BadDocumentBase64);
      match verify(document, now)
      case Err(e) => Err(BadAttestation(e))
      case Ok(attestation) =>
        var _ :- VerifyAttestationTimeBounds(attestation, config, now);
        var _ :- VerifyAttestationBinding(lib, payloadBytes, attestation, config);
        var _ :- VerifyTlsCertificateChain(lib, payload.tls, attestation.timestampUnix, HOST);
        var _ :- VerifyTimePolicy(lib, payload, attestation, config);
        Ok(VerifiedProof(payload, attestation))
  }
}

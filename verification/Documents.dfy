/** The constants of src/lib.rs and the documents the prover and the verifier exchange. */
module Documents {
  import opened Bytes
  import opened Numbers

  const BUNDLE_SCHEMA := "coinbase-candle-proof-bundle/v1"
  const PAYLOAD_SCHEMA := "coinbase-candle-proof-payload/v1"
  const MOCK_ATTESTATION_SCHEMA := "coinbase-candle-mock-attestation/v1"
  const SOURCE := "coinbase_public_market"
  const HOST := "api.coinbase.com"
  const PRODUCT_ID := "BTC-USD"
  const REQUEST_PATH := "/api/v3/brokerage/market/products/BTC-USD/candles"
  const PROOF_POLICY := "coinbase-v3-observed-response/v1"
  const GRANULARITY_LABEL := "FIVE_MINUTE"
  const GRANULARITY_SECONDS: i64 := 300

  type i64 = n: int | IsI64(n)
  type u16 = n: int | 0 <= n <= U16_MAX

  datatype ProofRequest = ProofRequest(start: i64, end: i64)

  datatype SelectedCandle = SelectedCandle(
    time: i64, low: string, high: string, open: string, close: string, volume: string)

  datatype TlsInfo = TlsInfo(sni: string, certChainDerB64: seq<string>)

  datatype ProofPayload = ProofPayload(
    schema: string,
    proofPolicy: string,
    source: string,
    host: string,
    productId: string,
    granularity: string,
    granularitySeconds: i64,
    requestStart: i64,
    requestEnd: i64,
    requestPath: string,
    requestQuery: string,
    httpStatus: u16,
    httpDate: string,
    contentType: string,
    bodySha256: string,
    bodyB64: string,
    selectedCandle: SelectedCandle,
    tls: TlsInfo)

  datatype ProofBundle = ProofBundle(schema: string, payloadJsonB64: string, attestationDocB64: string)

  datatype VerifiedAttestation = VerifiedAttestation(
    timestampUnix: i64, pcrs: map<u16, bytes>, userData: bytes, nonce: bytes)

  /** The JSON form of the mock attestation; PCR indices and values are text. */
  datatype MockDocument = MockDocument(
    schema: string, timestampUnix: i64, pcrs: map<string, string>, userDataB64: string, nonceB64: string)

  /** `serde_json::Value`; numbers keep serde_json's three representations. */
  datatype Number = PosInt(n: nat) | NegInt(i: i64) | Float(text: string)

  datatype Json =
    | Null
    | Bool(b: bool)
    | Num(number: Number)
    | Str(s: string)
    | Arr(items: seq<Json>)
    | Obj(fields: map<string, Json>)

  /** A parsed `f64`. */
  datatype F64 = NaN | Infinite(negative: bool) | Finite(value: real)
}

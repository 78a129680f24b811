# Choracle verification

Choracle fetches one Coinbase BTC-USD candle inside a Nitro Enclave, binds the observed response to
an attestation document, and lets anyone verify the resulting bundle offline. This project models
that path in Dafny and proves what its parsers, its prover and its verifier promise each other.

* `Bytes`, `Text`, `Utf8`, `Numbers`: byte and text primitives, concrete down to UTF-8, decimal and
  hexadecimal digits. A Rust `str` is a sequence of Unicode scalar values; its `len()` is the length
  of its UTF-8 encoding.
* `Chunked`, `Http`: the chunked decoder, the header/body split, the header map, Content-Length, and
  the Coinbase query.
* `Candle`, `TimeUtil`: row parsing, the candle scan, bucket arithmetic, HTTP dates.
* `MockAttestation`, `NitroAttestation`: the mock attester and verifier, and real Nitro documents
  with their certificate chain.
* `Prover`, `Verifier`, `Agreement`: proof production, offline verification, and the theorems that
  tie the two together.
* `History`: how a verdict depends on the verifier's clock, and why accepted proofs stay accepted.
* `Witnesses`: concrete cases that show why those theorems have the conditions they have.
* `PublicRequest`, `RequestReader`, `Service`: the public HTTP request, from socket reads to a proof
  request.
* `RuntimeConfig`: the FQDN validator, the vsock channel's framing, its retries, and the Terraform
  check.

Loops that update state are methods proved against a specification function: the chunked decoder,
the header map, the mock verifier's re-keying, `parse_query`, the socket read loop and the two retry
loops. Everything the source writes as expressions is a function.

Libraries (hashing, base64, JSON and the text of JSON numbers, `f64` parsing, HTTP head parsing, HTTP
dates, WebPKI, COSE, CBOR, X.509) are function-valued fields of two records, `Library` and
`NitroLibrary`, that every definition takes as a parameter. Nothing is assumed of them except the
laws a lemma names in its `requires`: base64 and JSON round trips, 32-byte SHA-256 digests, and that
WebPKI trusts no chain beyond the year 9999. No hash is assumed free of collisions: the binding
lemmas conclude that two payloads are equal or are a SHA-384 collision.

Machine integers are explicit. `usize` sums in the chunked decoder and `i64` differences in the
verifier wrap as they do in a release build; where that matters, the exact condition is proved.

Places where the code does less than one might expect are results here.

* The wrapped `usize` sum never yields a wrong body, but the slice check that follows panics, which
  the model reports as `Panic`: `PanicsIffSumWraps` says on which responses, and `AbortingResponse`
  is one of 18 bytes.
* The prover never compares the candle it got with the one it asked for, nor parses the HTTP date, so
  both stand as conditions in `ProverVerifierAgree`. `ProverTakesOtherCandle` is a case in which it makes
  such a bundle, and `OtherCandleIsRefused` gives the verifier's answer to any of them.
* Whether a request is read can depend on how the network cuts it. The reader's limit is enforced
  after a read, and bytes that arrive in one read with the end of the blank line must be UTF-8 like
  the rest, so a character cut at the end of that read spoils the request (`SplitCharacterDecides`).
  Every cut succeeds exactly when the first blank line, or the end of a stream without one, comes at
  most one byte past the limit, the bytes up to there are a request, and the bytes one read can
  deliver behind the blank line are ASCII (`EveryCutSucceedsIff`).
* An accepted bundle stays accepted at every later clock, with real Nitro attestations
  (`NitroAcceptedForGood`) and with any attestation verifier that ignores the clock if TLS trust ends
  with the year 9999 (`AcceptedForGood`). Nothing in the verifier itself keeps its time difference from
  wrapping: without that law `StaysAcceptedIff` gives the exact condition, and `WrappedProofIsLost` a
  library and a bundle that is accepted and later refused.
* The `proof_fqdn` check in Terraform is weaker than `validate_fqdn`, by exactly the label conditions
  in `ValidIffTerraformAndTight`.

## Model

| member | source | states |
|---|---|---|
| Chunked.DecodeChunked | src/http.rs:182-215 | the decoding loop, with wrapping sums, returns what decoding over mathematical integers yields; every slice is in bounds or the panic is reported; it terminates |
| Chunked.SizeOfLineIff | src/http.rs:187-196 | a line is read as a size iff it is UTF-8 text of padding, hexadecimal digits of either case perhaps after a plus sign, padding and an extension, with that value below two to the 64; bytes that are not UTF-8 have their own error |
| Chunked.DecodesIffWireFormat | src/http.rs:182-215 | decoding succeeds with given data iff the input is chunks whose size lines announce their data's length, a line announcing zero and anything, with that data |
| Chunked.DecodesIffGrammatical | src/http.rs:182-215 | decoding succeeds with given data iff the input is chunks (size line, that many bytes, CRLF), a zero-size line and anything, with that data |
| Chunked.PanicsIffSumWraps | src/http.rs:203-206 | the slice panics iff after well-formed chunks a size line announces an end that wraps to inside the input |
| Chunked.AbortingResponse | src/http.rs:203-206 | a response on which the decoder does panic: the line `fffffffffffffffe` and its CRLF |
| Chunked.WrappedSums | src/http.rs:203-206 | which of the length check and the slice check a wrapped sum trips |
| Chunked.LineEnds | src/http.rs:217-222 | the first CRLF found after a CRLF-free line is the one that ends it, even after a trailing CR |
| Chunked.StyledLine | src/http.rs:188-196 | a hexadecimal size with padding and an extension is one line and is read as that size |
| Chunked.ChunkedRoundTrip | src/http.rs:182-215 | decoding an encoded list of non-empty chunks gives their concatenation, for any padding, extensions and tail |
| Chunked.ChunkingIrrelevant | src/http.rs:182-215 | two chunkings of one body decode alike |
| Http.ParsesIff | src/http.rs:85-132 | a response parses to given contents iff a head with a status ends at its first separator, the rest carries the body as the headers describe, any Content-Length spells its length, and it is that JSON |
| Http.HeaderEndIff | src/http.rs:162-170 | the body starts four bytes after the first CR, LF, CR, LF; there is no split iff that occurs nowhere |
| Http.HeaderValueIff | src/http.rs:134-136 | a name has a value iff that is what the last header of the name says, in any case, read leniently and trimmed |
| Http.ChunkedHeaderIff | src/http.rs:100-107 | the body is taken as chunked iff the transfer encoding's value contains the word in any case |
| Http.NormalizeHeaders | src/http.rs:172-180 | the header loop builds the map of headers inserted in order |
| Http.NormalizedNames | src/http.rs:172-180 | the map has exactly the lower-cased names that occur |
| Http.LastHeaderWins | src/http.rs:172-180 | each name has the trimmed value of its last occurrence |
| Http.SplitsAtFirstBlankLine | src/http.rs:162-170 | the head is the one prefix that ends with CR, LF, CR, LF and holds it nowhere else, whatever the body contains |
| Http.FramedResponse | src/http.rs:85-132 | what a well-formed response carrying a body parses to, sent plain or chunked |
| Http.FramingIndependent | src/http.rs:85-132 | a body sent with its Content-Length and the same body in any chunking give the same bytes and JSON, or both fail as not JSON |
| Http.ContentLengthHolds | src/http.rs:110-120 | on success a Content-Length present is the decoded body's length, and the body is the framed rest of the response |
| Candle.SelectsIff | src/candle.rs:6-12 | a candle is selected iff the body's array is not empty and its first row spells it |
| Candle.CandleArrayIff | src/candle.rs:23-28 | the rows are the array under `candles`, and nothing else is |
| Candle.JsonI64Iff | src/candle.rs:57-67 | a JSON value is an integer iff it is a whole number in range or text that spells one |
| Candle.RowParsesIff | src/candle.rs:30-97 | a row parses to a candle iff it is an object with that integer start and five decimals, numbers or texts that are not blank, whose values are finite and positive, or not negative for the volume |
| Candle.RowRoundTrip | src/candle.rs:30-97 | a candle printed as a row of strings parses back to itself iff its texts are decimals the parser admits |
| Candle.ScanIff | src/candle.rs:14-21 | the scan is true iff some row is the candle after rows that all parse, false iff all rows parse to others, and otherwise the first malformed row's error |
| Candle.ContainsIff | src/candle.rs:14-28 | a candle is contained in a body iff the scan of its rows finds it, and missed iff there are rows and all parse to others |
| Candle.SelectedIsContained | src/candle.rs:6-21 | a selected candle is found again in its body |
| Candle.LaterRowsIrrelevant | src/candle.rs:6-21 | rows after the first change neither selection nor the scan for the selected candle |
| TimeUtil.BucketIsLastCompleted | src/timeutil.rs:27-31 | the bucket is aligned, start equals end, it has ended and the next has not, and no later bucket has |
| TimeUtil.BucketEndsTowardEpoch | src/timeutil.rs:27-31 | at any clock, also before the epoch, the bucket ends at the next multiple of 300 toward the epoch |
| PublicRequest.ArgsIff | src/bin/enclave-prover.rs:395-404 | both ends are taken as given, neither means the last bucket, one alone is refused |
| PublicRequest.DefaultRequestValidIff | src/bin/enclave-prover.rs:395-404 | the default one-shot request is valid iff the clock is at least 300 |
| Prover.QueryAcceptsWhatValidates | src/prover.rs:88-105 | the query printer accepts and refuses exactly what the request validator does, with the same error |
| Prover.JsonContentTypeIff | src/prover.rs:37-42 | a content type is JSON iff it starts with that name in any case, whatever follows |
| Prover.BuildsIff | src/prover.rs:24-69 | a payload is built iff the request is aligned and the session presented certificates and answered with a JSON response of status 200 with a date and a candle; its fields are those, with the digest of the body |
| Prover.ProvesIff | src/prover.rs:24-85 | a bundle is made iff a payload is built and attested; it holds that payload and the attestation |
| MockAttestation.AcceptedIffMock | src/attestation.rs:299-325 | a document is accepted as an attestation iff it parses with the right schema, its keys spell 16-bit indices, its values are hexadecimal, and the attestation holds its fields, each index with the value of its greatest key |
| MockAttestation.LexLessIff | src/attestation.rs:310 | keys are taken in the order of their first difference, a prefix first |
| MockAttestation.Verify | src/attestation.rs:299-325 | the re-keying loop, taking entries in key order, returns the specified attestation or the first error |
| MockAttestation.MockRoundTripHolds | src/attestation.rs:280-326 | verifying what the mock attester made gives back exactly the time, PCRs, user data and nonce, at any clock |
| MockAttestation.RekeyRoundTrip | src/attestation.rs:285-317 | re-keying PCRs through decimal and hexadecimal text and back is the identity on every subset of the keys |
| MockAttestation.RekeyedIndices | src/attestation.rs:310-317 | re-keying succeeds iff every entry reads, and yields exactly the indices the keys denote |
| MockAttestation.GreatestKeyWins | src/attestation.rs:310-317 | where several keys denote one index, the greatest key's value stays |
| MockAttestation.ReattestIffCanonical | src/attestation.rs:280-326 | re-attesting verified PCRs restores the document's entries iff all are canonical text |
| NitroAttestation.ChainAcceptedIffTrusted | src/attestation.rs:205-220 | the fold yields a signing certificate iff the chain is non-empty, starts at the pinned root, each certificate verifies under the key before it, and all have the algorithm and are valid at the document's time; it is the last one |
| NitroAttestation.FoldFrom | src/attestation.rs:155-220 | folding from any certificate on succeeds iff all those certificates are trusted |
| NitroAttestation.PrefixAccepted | src/attestation.rs:213-220 | every non-empty prefix of an accepted chain is accepted, with its own last certificate |
| NitroAttestation.PcrsNarrowed | src/attestation.rs:232-240 | the PCR map keeps exactly the non-zero PCRs and fails iff one has an index over 16 bits |
| NitroAttestation.AllZeroIff | src/attestation.rs:232-240 | a PCR is dropped iff it is the zero digest of its length |
| NitroAttestation.AcceptedIffAttests | src/attestation.rs:187-254 | a document is accepted as an attestation iff a trusted chain ends in its own certificate, whose key signed it, and its contents are the attestation's |
| Agreement.PcrLoopIff | src/verify.rs:220-235 | the PCR loop passes iff every required PCR is configured, attested, not all zero and equal |
| Agreement.TimePolicyIff | src/verify.rs:256-271 | from a non-negative attestation time the skew check is the plain integer distance |
| Agreement.TlsCheckIff | src/verify.rs:161-196 | the TLS check passes iff the time is non-negative and the decoded non-empty chain is trusted for the host then |
| Agreement.BodyIntegrityIff | src/verify.rs:198-205 | integrity passes with a JSON value iff the stored body decodes, the digest text is 64 lower-case digits decoding to the body's SHA-256, and the body is that JSON |
| Agreement.PayloadPolicyIff | src/verify.rs:92-159 | the policy passes iff the fixed fields are right, the query prints the candle's own aligned start, and the candle is in the body |
| Agreement.AcceptedIffProof | src/verify.rs:59-90 | a bundle is accepted iff payload, body, policy, attestation, PCRs, TLS chain and times all hold; and then returns that payload and attestation |
| Agreement.ProverVerifierAgree | src/prover.rs:24-85 | with any faithful attester and verifier, a made bundle is accepted iff the candle is the requested one, the future bound holds, PCRs match, the TLS chain is trusted and the date is close; the verifier gets back what was observed |
| Agreement.MockIsFaithful | src/attestation.rs:280-326 | the mock attester and verifier are such a pair |
| Agreement.MockProofAcceptedIff | src/prover.rs:24-85 | with the mock attester every built payload becomes a bundle, and the mock verifier accepts it under exactly those conditions, given only the library round trips |
| Agreement.BuiltBodyIsIntact | src/prover.rs:50-69 | a built payload passes body integrity, with the JSON that was selected from |
| Agreement.BuiltPolicyIff | src/verify.rs:92-159 | of the payload policy, a built payload can only fail on the candle's time |
| Agreement.OtherCandleIsRefused | src/prover.rs:48-67 | a bundle the prover makes from a candle at another time is refused for that reason, with the exact error, whatever attests and verifies |
| Agreement.FramingDoesNotReachPayload | src/http.rs:85-132 | responses that differ only in framing lead to the same payload |
| Agreement.QueryDeterminesStart | src/http.rs:21-40 | a query is the print of one start only |
| Agreement.AttestationBindsPayload | src/verify.rs:207-215 | accepted bundles with equal attested user data carry equal payloads and payload bytes, or those bytes are a SHA-384 collision |
| Agreement.DocumentBindsPayload | src/verify.rs:59-90 | one attestation document leads to one verified proof only, short of a SHA-384 collision |
| Agreement.ProvenQueryAsksForProof | src/bin/enclave-prover.rs:212-258 | an accepted proof's query, sent as a public request, asks for the same candle |
| Agreement.MockVerifierIff | src/attestation.rs:299-325 | the mock verifier the bundle check calls accepts exactly the mock documents, as what they say |
| Agreement.NitroVerifierIff | src/attestation.rs:187-254 | the Nitro verifier the bundle check calls accepts exactly the attesting documents, as what they attest |
| Agreement.MockIgnoresClock | src/attestation.rs:299-300 | the mock verifier does not consult the clock |
| Agreement.NitroIgnoresClock | src/attestation.rs:187-190 | nor does the Nitro verifier |
| Agreement.DebugPcrsAreMissing | src/verify.rs:225-231 | with real attestations the all-zero branch is never reached: a document's all-zero PCR, if configured, is reported missing, and requiring it is refused |
| Agreement.NitroAcceptanceIsSound | src/verify.rs:59-90 | a bundle accepted with the real verifier carries a document that attests the payload's digest, with every required PCR measured as expected |
| History.VerdictDependsOnFutureBound | src/verify.rs:79-84 | for any bundle, accepted or refused, the verdicts at two clocks are equal unless the future bound decides differently, and then the earlier side is refused for that |
| History.AcceptedForGood | src/verify.rs:240-254 | a bundle accepted once is accepted at every later clock with the same result, if TLS trust ends with the year 9999 |
| History.NitroAcceptedForGood | src/verify.rs:240-254 | a bundle accepted with the real verifier is accepted at every later clock with the same result, under no law |
| History.StaysAcceptedIff | src/verify.rs:245 | with no law on TLS trust, an accepted bundle stays accepted at every later clock iff its document's time less the clock does not wrap or the bound is the largest |
| History.StaysAcceptedAfterEpoch | src/verify.rs:240-254 | from the Unix epoch on, once accepted is accepted for good under no law on TLS trust |
| History.DateNotFarInFuture | src/verify.rs:256-271 | acceptance bounds the HTTP date by the clock plus both skews unless the attestation time less the clock wraps |
| History.TrustedDateNotFarInFuture | src/verify.rs:256-271 | that bound holds at every clock if TLS trust ends with the year 9999 |
| History.NitroDateNotFarInFuture | src/verify.rs:256-271 | that bound holds at every clock with real Nitro attestations |
| Witnesses.ProverTakesOtherCandle | src/prover.rs:48-67 | asked for the second bucket and answered with the first candle, the prover makes a bundle that its verifier refuses |
| Witnesses.WrappedProofIsLost | src/verify.rs:245 | the law is needed: a library without it and a bundle it accepts one second before the epoch and refuses at the epoch |
| PublicRequest.ParseQuery | src/bin/enclave-prover.rs:260-281 | the parsing loop returns the specified parameters or the first error |
| PublicRequest.QueryIff | src/bin/enclave-prover.rs:260-281 | a query gives parameters iff it is empty, or a join of pieces that spell pairs with distinct keys and the parameters are those pairs |
| PublicRequest.PercentDecodeIff | src/bin/enclave-prover.rs:270-275 | decoding gives the one text whose bytes the input spells, each as itself or as an escape of two digits in either case |
| PublicRequest.PercentRoundTrip | src/bin/enclave-prover.rs:270-275 | percent-decoding inverts percent-encoding of any text |
| PublicRequest.QueryGivesPairs | src/bin/enclave-prover.rs:260-281 | any well-formed spelling of pairs is parsed as those pairs, inserted in order |
| PublicRequest.ParseInvertsEncode | src/bin/enclave-prover.rs:260-281 | parsing an encoded list gives exactly its pairs iff the keys are distinct, and otherwise reports the first repeated key |
| PublicRequest.AcceptedIff | src/bin/enclave-prover.rs:212-258 | a request is accepted iff it is a GET of the product path whose query holds exactly the four parameters, with start and end spelling one aligned integer |
| PublicRequest.RejectionStatus | src/bin/enclave-prover.rs:212-258 | a refusal is 405 iff the method is wrong, 404 iff the path is that of no product, 400 as an unsupported product iff it is that of another, else 400 |
| PublicRequest.NonIntegerRefused | src/bin/enclave-prover.rs:234-241 | a start or end that spells no 64-bit integer is refused with 400, as such unless a parameter is unknown |
| PublicRequest.ProductOfIff | src/bin/enclave-prover.rs:218-224 | a path names a product iff it is the product between the fixed prefix and suffix |
| PublicRequest.AnyOrderRecognised | src/bin/enclave-prover.rs:212-258 | the four parameters are recognised in any order |
| PublicRequest.PrintedQueryIsJoined | src/http.rs:37-39 | the printed query is the four parameters in order, joined by ampersands |
| PublicRequest.PrintedQueryRecognised | src/http.rs:37-39 | the printed query asks for the request it was printed from |
| PublicRequest.ReprintedRequestRecognised | src/bin/enclave-prover.rs:212-258 | any accepted request, re-printed, is accepted as the same request |
| RequestReader.ReadHttpRequest | src/bin/enclave-prover.rs:167-210 | the read loop over a connection returns the specified request or error |
| RequestReader.CollectedIsPrefix | src/bin/enclave-prover.rs:171-185 | what is collected is a prefix of the stream reaching a blank line or its end, and exceeds the limit by at most one buffer |
| RequestReader.SegmentationIndependent | src/bin/enclave-prover.rs:167-210 | two cuts of one stream that both succeed give the same request |
| RequestReader.EveryCutCollectsIff | src/bin/enclave-prover.rs:171-185 | no cut runs into the limit iff the first blank line, or the end of a stream without one, comes at most one byte past it |
| RequestReader.EveryCutSucceedsIff | src/bin/enclave-prover.rs:167-210 | every cut gives a request iff, besides, the bytes up to there are a request and the bytes one read can deliver behind the blank line are ASCII; all cuts then give that request |
| RequestReader.SplitCharacterDecides | src/bin/enclave-prover.rs:181-187 | streams that one cut reads and another refuses: a request and the first byte of a two-byte character |
| RequestReader.WholeRequestUnderEveryCut | src/bin/enclave-prover.rs:167-210 | a stream within the limit that ends with its first blank line gives its own request under every cut |
| RequestReader.RequestIff | src/bin/enclave-prover.rs:187-209 | bytes are a request iff they are UTF-8 text whose first line is a request line |
| RequestReader.RequestLineIff | src/bin/enclave-prover.rs:192-204 | a line is a request line iff it starts with three words, the third naming HTTP |
| RequestReader.BlankLineEndIff | src/bin/enclave-prover.rs:180 | the loop stops at the first CR, LF, CR, LF |
| RequestReader.RequestLineParses | src/bin/enclave-prover.rs:187-209 | a line of three words, the third naming HTTP, gives its first two |
| Service.PrintedRequestUnderEveryCut | src/bin/enclave-prover.rs:105-113 | a client sending the printed query, up to a blank line in time and with an ASCII trail, is understood as asking for that request under every cut |
| Service.RequestedIff | src/bin/enclave-prover.rs:105-113 | a connection asks for a proof iff what is read from it is a GET of the product path whose query asks for it |
| Service.OneRequestPerStream | src/bin/enclave-prover.rs:105-113 | at most one proof request, and a valid one, can come of a stream |
| RuntimeConfig.ValidIffDnsName | src/bin/choracle-runtime-config.rs:105-144 | the validator accepts exactly at least two host labels joined by dots in at most 253 characters |
| RuntimeConfig.LabelCharIs | src/bin/choracle-runtime-config.rs:134-140 | labels are made of the letters of either case, the digits and the hyphen |
| RuntimeConfig.EarlyChecksAreImplied | src/bin/choracle-runtime-config.rs:105-144 | the length and label checks alone decide |
| RuntimeConfig.ValidIffTerraformAndTight | terraform/variables.tf:23-36 | a name is valid iff Terraform accepts it and no label is too long or has an edge hyphen |
| RuntimeConfig.TerraformAcceptsMore | terraform/variables.tf:23-36 | a name Terraform accepts and the validator refuses |
| RuntimeConfig.FetchedIff | src/bin/choracle-runtime-config.rs:74-88 | bytes are fetched as a name iff they are that valid name, then only CRs and LFs, in at most 254 bytes |
| RuntimeConfig.ServeFetchRoundTrip | src/bin/choracle-runtime-config.rs:90-103 | what is served for a validated name is the name and a line feed, and is fetched as that name |
| RuntimeConfig.FetchWithRetry | src/bin/choracle-runtime-config.rs:54-72 | at least one attempt, the first success at once or the last error, with one sleep per failure |
| RuntimeConfig.SignalReady | src/bin/enclave-prover.rs:335-353 | sixty attempts, the first success at once or the last error, no sleep after the last failure |
| Text.TrimIff | src/http.rs:176 | trimming gives the one text without outer whitespace that the input pads |
| Text.FirstLineIff | src/bin/enclave-prover.rs:188-191 | the first line precedes the first line feed, without the CR before it |
| Text.NextWordIff | src/bin/enclave-prover.rs:192-201 | the next word follows any whitespace and ends before more; there is none in whitespace only |
| Text.WhitespaceIs | src/bin/enclave-prover.rs:192 | whitespace is the 25 characters of the Unicode property |
| Text.LowerCaseIs | src/http.rs:135 | lower-casing changes the 26 upper-case letters and nothing else |
| Text.TrimsToNothingIff | src/candle.rs:72 | text trims to nothing iff it is all whitespace |
| Utf8.DecodeIffEncoded | src/http.rs:188-189 | decoding is exactly the inverse of encoding |
| Utf8.EncodePrefix | src/bin/enclave-prover.rs:187-190 | a prefix of encoded bytes that decodes is the encoding of a prefix of the text |
| Numbers.ParseUnsignedIff | src/http.rs:195-196 | an unsigned number is read iff the text is its digits in either case, perhaps after leading zeros and a plus sign, and it fits |
| Numbers.ParseI64Iff | src/bin/enclave-prover.rs:283-289 | an integer is read iff the text is its digits, perhaps after leading zeros and a sign, and it fits 64 bits |
| Numbers.PrintedIntShape | src/http.rs:38 | integers print without plus sign or leading zeros |
| Numbers.HexDecodeIff | src/attestation.rs:315 | hexadecimal text decodes to bytes iff it is their encoding in either case |
| Numbers.ParsePrinted | src/http.rs:195-196 | parsing a printed number in base ten or sixteen gives it back iff it fits |
| Numbers.ParsePrintedInt | src/bin/enclave-prover.rs:283-289 | parsing a printed `i64` gives it back |
| Numbers.HexCanonical | src/attestation.rs:315 | decoded hexadecimal text re-encodes to itself iff it has no upper-case digit |

## Left out

- TLS, sockets, vsock, threads, sleeping, the NSM device, the clock, randomness and file output: a connection is the sequence of its reads, a session its response bytes and peer certificates, an attempt its outcome.
- httparse, serde_json, httpdate, base64, `f64` parsing, hashing, COSE, CBOR, X.509 and WebPKI are parameters; what they accept is not modelled.
- Percent-decoding of text with a stray percent sign is left to the library and is a parameter.
- Error message texts, including the certificate common name some of them read, and the JSON bodies of error responses; the error kinds and status codes are modelled.
- Which error a refused input gets, where several would apply, is modelled in the source's order; rows pin it only where callers see it: statuses, the exact errors named above, and panics. Elsewhere the results say what is accepted and that the rest is refused.
- `error_status`, response writing, command-line parsing, `send_local_http` and `parse_pcr`: single-branch plumbing.
- The read-only use of `HashMap` iteration order when several parameters are unsupported: the answer is the same for each.
- Terraform's `length` counts grapheme clusters; the model counts characters, which agrees on the ASCII text the regular expression admits.
- MockAttestation.ReattestIffCanonical: states the PCR entries only; the base64 fields would need a canonicity law of the base64 library.

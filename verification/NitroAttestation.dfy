/** Verification of real Nitro attestation documents, of src/attestation.rs. */
module NitroAttestation {
  import opened Wrappers
  import opened Bytes
  import opened Numbers
  import opened Documents
  import opened TimeUtil

  /** SHA-256 fingerprint of the AWS Nitro root certificate G1. */
  const NITRO_ROOT_G1_SHA256: bytes := [
    0x64, 0x1a, 0x03, 0x21, 0xa3, 0xe2, 0x44, 0xef, 0xe4, 0x56, 0x46, 0x31, 0x95, 0xd6, 0x06, 0x31,
    0x7e, 0xd7, 0xcd, 0xcc, 0x3c, 0x17, 0x56, 0xe0, 0x98, 0x93, 0xf3, 0xc6, 0x8f, 0x79, 0xbb, 0x5b]

  /** Object identifier of ECDSA with SHA-384. */
  const OID_SIG_ECDSA_WITH_SHA384 := "1.2.840.10045.4.3.3"

  datatype X509 = X509(algorithm: string, publicKey: bytes, notBefore: int, notAfter: int)

  datatype NitroCert = NitroCert(der: bytes, x509: X509)

  type u64 = n: nat | n < USIZE

  datatype AttestationDoc = AttestationDoc(
    timestamp: u64,
    certificate: bytes,
    cabundle: seq<bytes>,
    pcrs: map<nat, bytes>,
    userData: Option<bytes>,
    nonce: Option<bytes>)

  datatype Cose = Cose(payload: Option<bytes>)

  /** COSE, CBOR, X.509 and signature checking, as functions the model takes as parameters. */
  datatype NitroLibrary = NitroLibrary(
    sha256: bytes -> bytes,
    parseCose: bytes -> Option<Cose>,
    parseDocument: bytes -> Option<AttestationDoc>,
    parseCertificate: bytes -> Option<X509>,
    certificateSignedBy: (bytes, bytes) -> bool,
    coseSignedBy: (bytes, bytes) -> bool)

  datatype NitroError =
    | MalformedCose
    | MissingPayload
    | MalformedDocument
    | TimestampInvalid
    | MalformedCertificate(index: nat)
    | UnexpectedAlgorithm
    | BadCertificateSignature
    | RootMismatch
    | NotYetValid
    | Expired
    | NoCertificates
    | BadCoseSignature
    | PcrIndexTooLarge
    | MissingUserData
    | MissingNonce

  // ----- the certificate chain -----

  function ParseCertificates(lib: NitroLibrary, ders: seq<bytes>): (r: Result<seq<NitroCert>, NitroError>)
    ensures r.Ok? ==> |r.value| == |ders|
    ensures r.Ok? ==> forall i | 0 <= i < |ders| ::
              r.value[i].der == ders[i] && lib.parseCertificate(ders[i]) == Some(r.value[i].x509)
  {
    if ders == [] then Ok([])
    else
      var n := |ders| - 1;
      var init :- ParseCertificates(lib, ders[..n]);
      var x509 :- lib.parseCertificate(ders[n]).ToResult(MalformedCertificate(n));
      Ok(init + [NitroCert(ders[n], x509)])
  }

  function VerifySignature(lib: NitroLibrary, cert: NitroCert, parent: Option<NitroCert>): Result<NitroCert, NitroError> {
    if cert.x509.algorithm != OID_SIG_ECDSA_WITH_SHA384 then Err(UnexpectedAlgorithm)
    else
      match parent
      case Some(p) =>
        if lib.certificateSignedBy(cert.der, p.x509.publicKey) then Ok(cert) else Err(BadCertificateSignature)
      case None =>
        if lib.sha256(cert.der) == NITRO_ROOT_G1_SHA256 then Ok(cert) else Err(RootMismatch)
  }

  function ValidateAt(cert: NitroCert, timestamp: Clock): Result<NitroCert, NitroError> {
    if timestamp < cert.x509.notBefore then Err(NotYetValid)
    else if timestamp > cert.x509.notAfter then Err(Expired)
    else Ok(cert)
  }

  /** The `try_fold`: each certificate is checked against the one accepted before it. */
  function FoldChain(lib: NitroLibrary, certs: seq<NitroCert>, parent: Option<NitroCert>, timestamp: Clock)
    : Result<Option<NitroCert>, NitroError>
  {
    if certs == [] then Ok(parent)
    else
      var signed :- VerifySignature(lib, certs[0], parent);
      var valid :- ValidateAt(signed, timestamp);
      FoldChain(lib, certs[1..], Some(valid), timestamp)
  }

  function SigningCertificate(lib: NitroLibrary, certs: seq<NitroCert>, timestamp: Clock): Result<NitroCert, NitroError> {
    var last :- FoldChain(lib, certs, None, timestamp);
    last.ToResult(NoCertificates)
  }

  /** Certificate `i` is anchored: by the pinned fingerprint, or by the key just before it. */
  predicate IsAnchored(lib: NitroLibrary, certs: seq<NitroCert>, i: nat)
    requires i < |certs|
  {
    if i == 0 then lib.sha256(certs[0].der) == NITRO_ROOT_G1_SHA256
    else lib.certificateSignedBy(certs[i].der, certs[i - 1].x509.publicKey)
  }

  predicate IsTrusted(lib: NitroLibrary, certs: seq<NitroCert>, i: nat, timestamp: Clock)
    requires i < |certs|
  {
    && IsAnchored(lib, certs, i)
    && certs[i].x509.algorithm == OID_SIG_ECDSA_WITH_SHA384
    && certs[i].x509.notBefore <= timestamp <= certs[i].x509.notAfter
  }

  predicate IsTrustedChain(lib: NitroLibrary, certs: seq<NitroCert>, timestamp: Clock) {
    forall i | 0 <= i < |certs| :: IsTrusted(lib, certs, i, timestamp)
  }

  /** Folding from certificate `i` on succeeds exactly when all of those are trusted. */
  lemma {:induction false} FoldFrom(lib: NitroLibrary, certs: seq<NitroCert>, i: nat, timestamp: Clock)
    requires i <= |certs|
    ensures var parent := if i == 0 then None else Some(certs[i - 1]);
            var folded := FoldChain(lib, certs[i..], parent, timestamp);
            && (folded.Ok? <==> forall j | i <= j < |certs| :: IsTrusted(lib, certs, j, timestamp))
            && (folded.Ok? ==> folded.value == if certs == [] then None else Some(certs[|certs| - 1]))
    decreases |certs| - i
  {
    if i < |certs| {
      var parent := if i == 0 then None else Some(certs[i - 1]);
      assert certs[i..][0] == certs[i] && certs[i..][1..] == certs[i + 1..];
      FoldFrom(lib, certs, i + 1, timestamp);
      if IsTrusted(lib, certs, i, timestamp) {
        assert FoldChain(lib, certs[i..], parent, timestamp)
            == FoldChain(lib, certs[i + 1..], Some(certs[i]), timestamp);
      }
    }
  }

  /**
   A chain yields a signing certificate exactly when it is non-empty, starts at the pinned root,
   each certificate verifies under the key before it, and every one has the required algorithm
   and is valid at the document's time. The signing certificate is the last one.
   */
  lemma ChainAcceptedIffTrusted(lib: NitroLibrary, certs: seq<NitroCert>, timestamp: Clock, signer: NitroCert)
    ensures SigningCertificate(lib, certs, timestamp) == Ok(signer)
            <==> certs != [] && IsTrustedChain(lib, certs, timestamp) && signer == certs[|certs| - 1]
  {
    assert certs[0..] == certs;
    FoldFrom(lib, certs, 0, timestamp);
  }

  /** Every non-empty prefix of an accepted chain is accepted. */
  lemma PrefixAccepted(lib: NitroLibrary, certs: seq<NitroCert>, timestamp: Clock, n: nat)
    requires SigningCertificate(lib, certs, timestamp).Ok? && 1 <= n <= |certs|
    ensures SigningCertificate(lib, certs[..n], timestamp) == Ok(certs[n - 1])
  {
    ChainAcceptedIffTrusted(lib, certs, timestamp, SigningCertificate(lib, certs, timestamp).value);
    forall i | 0 <= i < n
      ensures IsTrusted(lib, certs[..n], i, timestamp)
    {
      assert IsTrusted(lib, certs, i, timestamp);
    }
    ChainAcceptedIffTrusted(lib, certs[..n], timestamp, certs[n - 1]);
  }

  // ----- the document -----

  predicate AllZero(digest: bytes) {
    forall i | 0 <= i < |digest| :: digest[i] == 0
  }

  /** A digest is all zero exactly when it is the zero digest of its length. */
  lemma AllZeroIff(digest: bytes)
    ensures AllZero(digest) <==> digest == seq(|digest|, _ => 0)
  {
  }

  /** All-zero PCRs are dropped before the indices are narrowed. */
  function NonZeroPcrs(pcrs: map<nat, bytes>): Result<map<u16, bytes>, NitroError> {
    if exists i :: i in pcrs && !AllZero(pcrs[i]) && i > U16_MAX then Err(PcrIndexTooLarge)
    else Ok(map i: nat | i in pcrs && !AllZero(pcrs[i]) && i <= U16_MAX :: (i as u16) := pcrs[i])
  }

  /** Whole seconds; those of a 64-bit millisecond count always fit an `i64`. */
  function TimestampOf(doc: AttestationDoc): Result<Clock, NitroError> {
    var seconds: nat := doc.timestamp / 1000;
    if seconds > MAX_CLOCK then Err(TimestampInvalid) else Ok(seconds)
  }

  /** `parse_and_verify_nitro_attestation`; the clock is not consulted. */
  function Verified(lib: NitroLibrary, document: bytes, now: Clock): Result<VerifiedAttestation, NitroError> {
    var cose :- lib.parseCose(document).ToResult(MalformedCose);
    var payload :- cose.payload.ToResult(MissingPayload);
    var doc :- lib.parseDocument(payload).ToResult(MalformedDocument);
    var timestamp :- TimestampOf(doc);
    var certs :- ParseCertificates(lib, doc.cabundle + [doc.certificate]);
    var signer :- SigningCertificate(lib, certs, timestamp);
    if !lib.coseSignedBy(document, signer.x509.publicKey) then Err(BadCoseSignature)
    else
      var pcrs :- NonZeroPcrs(doc.pcrs);
      var userData :- doc.userData.ToResult(MissingUserData);
      var nonce :- doc.nonce.ToResult(MissingNonce);
      Ok(VerifiedAttestation(timestamp, pcrs, userData, nonce))
  }

  /** The document that an accepted attestation was read from, and its certificates. */
  ghost predicate IsRead(lib: NitroLibrary, document: bytes, doc: AttestationDoc, certs: seq<NitroCert>) {
    && lib.parseCose(document).Some? && lib.parseCose(document).value.payload.Some?
    && lib.parseDocument(lib.parseCose(document).value.payload.value) == Some(doc)
    && |certs| == |doc.cabundle| + 1
    && (forall i | 0 <= i < |certs| ::
          && certs[i].der == (doc.cabundle + [doc.certificate])[i]
          && lib.parseCertificate(certs[i].der) == Some(certs[i].x509))
  }

  /**
   A document attests `a`: its own certificate ends a chain trusted from the pinned root at the
   document's time, and signed it; every non-zero PCR has a 16-bit index and is in `a`, nothing
   else is; user data and nonce are present.
   */
  ghost predicate Attests(
    lib: NitroLibrary, document: bytes, doc: AttestationDoc, certs: seq<NitroCert>, a: VerifiedAttestation)
  {
    && IsRead(lib, document, doc, certs)
    && a.timestampUnix == doc.timestamp / 1000 <= MAX_CLOCK
    && IsTrustedChain(lib, certs, a.timestampUnix)
    && certs[|certs| - 1].der == doc.certificate
    && lib.coseSignedBy(document, certs[|certs| - 1].x509.publicKey)
    && (forall i | i in doc.pcrs && !AllZero(doc.pcrs[i]) :: i <= U16_MAX)
    && (forall i: u16 :: i in a.pcrs <==> i in doc.pcrs && !AllZero(doc.pcrs[i]))
    && (forall i: u16 | i in a.pcrs :: a.pcrs[i] == doc.pcrs[i])
    && doc.userData == Some(a.userData) && doc.nonce == Some(a.nonce)
  }

  lemma {:induction false} ParsedCertificatesIff(lib: NitroLibrary, ders: seq<bytes>, certs: seq<NitroCert>)
    ensures ParseCertificates(lib, ders) == Ok(certs)
            <==> |certs| == |ders|
                 && forall i | 0 <= i < |ders| ::
                      certs[i].der == ders[i] && lib.parseCertificate(ders[i]) == Some(certs[i].x509)
  {
    if ders != [] && |certs| == |ders| {
      var n := |ders| - 1;
      ParsedCertificatesIff(lib, ders[..n], certs[..n]);
      assert certs == certs[..n] + [certs[n]];
      assert forall i | 0 <= i < n :: certs[..n][i] == certs[i] && ders[..n][i] == ders[i];
    }
  }

  /** The filtered, narrowed PCR map is the one an attestation may carry. */
  lemma PcrsNarrowed(pcrs: map<nat, bytes>, kept: map<u16, bytes>)
    ensures NonZeroPcrs(pcrs) == Ok(kept)
            <==> && (forall i | i in pcrs && !AllZero(pcrs[i]) :: i <= U16_MAX)
                 && (forall i: u16 :: i in kept <==> i in pcrs && !AllZero(pcrs[i]))
                 && (forall i: u16 | i in kept :: kept[i] == pcrs[i])
  {
    hide AllZero;
    if forall i | i in pcrs && !AllZero(pcrs[i]) :: i <= U16_MAX {
      var narrowed := NonZeroPcrs(pcrs).value;
      assert forall i: u16 :: i in narrowed <==> i in pcrs && !AllZero(pcrs[i]);
      assert forall i: u16 | i in narrowed :: narrowed[i] == pcrs[i];
      if && (forall i: u16 :: i in kept <==> i in pcrs && !AllZero(pcrs[i]))
         && (forall i: u16 | i in kept :: kept[i] == pcrs[i]) {
        assert kept == narrowed;
      }
    }
  }

  lemma AcceptedIsAttested(lib: NitroLibrary, document: bytes, now: Clock)
    returns (doc: AttestationDoc, certs: seq<NitroCert>)
    requires Verified(lib, document, now).Ok?
    ensures Attests(lib, document, doc, certs, Verified(lib, document, now).value)
  {
    hide AllZero, IsTrustedChain, NonZeroPcrs;
    doc := lib.parseDocument(lib.parseCose(document).value.payload.value).value;
    certs := ParseCertificates(lib, doc.cabundle + [doc.certificate]).value;
    var timestamp := TimestampOf(doc).value;
    ChainAcceptedIffTrusted(lib, certs, timestamp, SigningCertificate(lib, certs, timestamp).value);
    PcrsNarrowed(doc.pcrs, Verified(lib, document, now).value.pcrs);
  }

  lemma AttestedIsAccepted(
    lib: NitroLibrary, document: bytes, doc: AttestationDoc, certs: seq<NitroCert>, a: VerifiedAttestation, now: Clock)
    requires Attests(lib, document, doc, certs, a)
    ensures Verified(lib, document, now) == Ok(a)
  {
    hide AllZero, IsTrustedChain, NonZeroPcrs;
    ParsedCertificatesIff(lib, doc.cabundle + [doc.certificate], certs);
    ChainAcceptedIffTrusted(lib, certs, a.timestampUnix, certs[|certs| - 1]);
    PcrsNarrowed(doc.pcrs, a.pcrs);
  }

  /** A document is accepted, as an attestation, exactly when it attests it. */
  lemma AcceptedIffAttests(lib: NitroLibrary, document: bytes, now: Clock, a: VerifiedAttestation)
    ensures Verified(lib, document, now) == Ok(a)
            <==> exists doc, certs :: Attests(lib, document, doc, certs, a)
  {
    hide Verified, Attests;
    if Verified(lib, document, now) == Ok(a) {
      var doc, certs := AcceptedIsAttested(lib, document, now);
    }
    forall doc, certs | Attests(lib, document, doc, certs, a)
      ensures Verified(lib, document, now) == Ok(a)
    {
      AttestedIsAccepted(lib, document, doc, certs, a, now);
    }
  }
}

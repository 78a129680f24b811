/** How the verdict on a bundle depends on the verifier's clock: proofs stay verifiable. */
module History {
  import opened Wrappers
  import opened Bytes
  import opened Numbers
  import opened Documents
  import opened Library
  import opened TimeUtil
  import opened Verifier
  import opened Agreement
  import NitroAttestation

  /** The bundle's attestation is made further ahead of the clock than the configuration allows. */
  predicate InFuture(
    lib: Library, verify: AttestationVerifier, bundle: ProofBundle, config: VerificationConfig, now: Clock)
  {
    && lib.b64Decode(bundle.attestationDocB64).Some?
    && var attestation := verify(lib.b64Decode(bundle.attestationDocB64).value, now);
       && attestation.Ok?
       && FutureSkew(attestation.value.timestampUnix, now) > config.maxFutureSkewSeconds
  }

  /**
   The verdict on any bundle, accepted or refused, depends on the clock only through the future
   bound: at two clocks it is the same, unless exactly one of them is too early and there it is
   refused as too far in the future.
   */
  lemma VerdictDependsOnFutureBound(
    lib: Library, verify: AttestationVerifier, bundle: ProofBundle, config: VerificationConfig, now: Clock, now': Clock)
    requires IgnoresClock(verify)
    ensures var (r, r') := (VerifyBundle(lib, verify, bundle, config, now), VerifyBundle(lib, verify, bundle, config, now'));
            var (early, early') := (InFuture(lib, verify, bundle, config, now), InFuture(lib, verify, bundle, config, now'));
            && (|| r == r'
                || (early && !early' && r == Err(TooFarInFuture))
                || (early' && !early && r' == Err(TooFarInFuture)))
            && (early ==> r.Err?) && (early' ==> r'.Err?)
  {
    hide VerifyPayloadPolicy, VerifyBodyIntegrity, VerifyAttestationBinding, VerifyTlsCertificateChain,
         VerifyTimePolicy, FutureSkew;
    var document := lib.b64Decode(bundle.attestationDocB64);
    if document.Some? {
      assert verify(document.value, now) == verify(document.value, now');
    }
  }

  /** An accepted bundle is accepted alike at another clock, or is too far in the future there. */
  lemma KeptUnlessInFuture(
    lib: Library, verify: AttestationVerifier, bundle: ProofBundle, config: VerificationConfig, now: Clock, now': Clock)
    requires IgnoresClock(verify) && VerifyBundle(lib, verify, bundle, config, now).Ok?
    ensures var proof := VerifyBundle(lib, verify, bundle, config, now).value;
            VerifyBundle(lib, verify, bundle, config, now') ==
            if FutureSkew(proof.attestation.timestampUnix, now') <= config.maxFutureSkewSeconds
            then Ok(proof) else Err(TooFarInFuture)
  {
    hide VerifyBundle, FutureSkew, IsReadable, AttestationAccepted;
    VerdictDependsOnFutureBound(lib, verify, bundle, config, now, now');
    var document := AcceptedDocument(lib, verify, bundle, config, now);
    assert verify(document, now) == verify(document, now');
  }

  lemma AcceptedDocument(
    lib: Library, verify: AttestationVerifier, bundle: ProofBundle, config: VerificationConfig, now: Clock)
    returns (document: bytes)
    requires VerifyBundle(lib, verify, bundle, config, now).Ok?
    ensures lib.b64Decode(bundle.attestationDocB64) == Some(document)
    ensures verify(document, now) == Ok(VerifyBundle(lib, verify, bundle, config, now).value.attestation)
  {
    hide VerifyBundle, AttestationAccepted, VerifyPayloadPolicy, VerifyBodyIntegrity;
    var _, _, d := AcceptedParts(lib, verify, bundle, config, now);
    document := d;
  }

  /** An accepted attestation time is one at which the TLS chain is trusted. */
  lemma AcceptedTime(
    lib: Library, verify: AttestationVerifier, bundle: ProofBundle, config: VerificationConfig, now: Clock)
    requires VerifyBundle(lib, verify, bundle, config, now).Ok?
    ensures var proof := VerifyBundle(lib, verify, bundle, config, now).value;
            && proof.attestation.timestampUnix >= 0
            && TlsIsTrusted(lib, proof.payload.tls, proof.attestation.timestampUnix)
            && DateIsClose(lib, proof.payload.httpDate, proof.attestation.timestampUnix, config)
            && FutureSkew(proof.attestation.timestampUnix, now) <= config.maxFutureSkewSeconds
  {
    hide VerifyBundle, StoresBody, HasFixedFields, AsksForItsCandle, CandleIsInBody, DateIsClose, FutureSkew;
    var _, _, _, _ := AcceptedIsProof(lib, verify, bundle, config, now);
  }

  // ----- accepted once, accepted for good -----

  /** No certificate chain is trusted beyond the year 9999 (section 4.1.2.5 of RFC 5280). */
  ghost predicate TlsTrustEnds(lib: Library) {
    forall cert: bytes, chain: seq<bytes>, host: string, time: nat ::
      lib.webPki(cert, chain, host, time) ==> time <= MAX_CLOCK
  }

  lemma SkewOnlyFalls(t: i64, now: Clock, later: Clock)
    requires 0 <= t && now <= later && t as int - now as int <= I64_MAX
    ensures FutureSkew(t, later) <= FutureSkew(t, now) == t as int - now as int
  {
  }

  lemma ClockSpanFits(t: i64, now: Clock)
    requires 0 <= t <= MAX_CLOCK
    ensures t as int - now as int <= I64_MAX
  {
  }

  /** Where TLS trust ends, a bundle accepted once is accepted for good, with the same result. */
  lemma AcceptedForGood(
    lib: Library, verify: AttestationVerifier, bundle: ProofBundle, config: VerificationConfig, now: Clock, later: Clock)
    requires IgnoresClock(verify) && TlsTrustEnds(lib)
    requires VerifyBundle(lib, verify, bundle, config, now).Ok? && now <= later
    ensures VerifyBundle(lib, verify, bundle, config, later) == VerifyBundle(lib, verify, bundle, config, now)
  {
    hide VerifyBundle, FutureSkew, DateIsClose;
    var t := VerifyBundle(lib, verify, bundle, config, now).value.attestation.timestampUnix;
    AcceptedTime(lib, verify, bundle, config, now);
    ClockSpanFits(t, now);
    SkewOnlyFalls(t, now, later);
    KeptUnlessInFuture(lib, verify, bundle, config, now, later);
  }

  /** With real Nitro attestations this needs no law at all. */
  lemma NitroAcceptedForGood(
    lib: Library, nitro: NitroAttestation.NitroLibrary, bundle: ProofBundle, config: VerificationConfig,
    now: Clock, later: Clock)
    requires VerifyBundle(lib, NitroVerifier(nitro), bundle, config, now).Ok? && now <= later
    ensures VerifyBundle(lib, NitroVerifier(nitro), bundle, config, later)
         == VerifyBundle(lib, NitroVerifier(nitro), bundle, config, now)
  {
    hide VerifyBundle, FutureSkew, DateIsClose, IgnoresClock, NitroVerifier;
    var t := VerifyBundle(lib, NitroVerifier(nitro), bundle, config, now).value.attestation.timestampUnix;
    NitroIgnoresClock(nitro);
    AcceptedTime(lib, NitroVerifier(nitro), bundle, config, now);
    NitroTimeFits(lib, nitro, bundle, config, now);
    ClockSpanFits(t, now);
    SkewOnlyFalls(t, now, later);
    KeptUnlessInFuture(lib, NitroVerifier(nitro), bundle, config, now, later);
  }

  lemma NitroTimeFits(
    lib: Library, nitro: NitroAttestation.NitroLibrary, bundle: ProofBundle, config: VerificationConfig, now: Clock)
    requires VerifyBundle(lib, NitroVerifier(nitro), bundle, config, now).Ok?
    ensures VerifyBundle(lib, NitroVerifier(nitro), bundle, config, now).value.attestation.timestampUnix <= MAX_CLOCK
  {
    hide VerifyBundle, NitroAttestation.Verified;
    var document := AcceptedDocument(lib, NitroVerifier(nitro), bundle, config, now);
    var _, _ := NitroAttestation.AcceptedIsAttested(nitro, document, now);
  }

  /**
   For any library: a bundle accepted at `now`, whose document attests `a`, is accepted alike at
   every later time, exactly when the difference between the attestation time and the clock did not
   wrap around, or the configured future bound is the largest one there is.
   */
  lemma StaysAcceptedIff(
    lib: Library, verify: AttestationVerifier, bundle: ProofBundle, document: bytes, a: VerifiedAttestation,
    config: VerificationConfig, now: Clock)
    requires IgnoresClock(verify) && VerifyBundle(lib, verify, bundle, config, now).Ok?
    requires lib.b64Decode(bundle.attestationDocB64) == Some(document) && verify(document, now) == Ok(a)
    ensures (forall later: Clock | now <= later ::
               VerifyBundle(lib, verify, bundle, config, later) == VerifyBundle(lib, verify, bundle, config, now))
            <==> a.timestampUnix as int - now as int <= I64_MAX || config.maxFutureSkewSeconds == I64_MAX
  {
    hide VerifyBundle, DateIsClose, TlsIsTrusted;
    var _ := AcceptedDocument(lib, verify, bundle, config, now);
    var t := a.timestampUnix;
    AcceptedTime(lib, verify, bundle, config, now);
    if t as int - now as int <= I64_MAX || config.maxFutureSkewSeconds == I64_MAX {
      forall later: Clock | now <= later
        ensures VerifyBundle(lib, verify, bundle, config, later) == VerifyBundle(lib, verify, bundle, config, now)
      {
        KeptUnlessInFuture(lib, verify, bundle, config, now, later);
        if t as int - now as int <= I64_MAX {
          SkewOnlyFalls(t, now, later);
        }
      }
    } else {
      var later: Clock := t as int - I64_MAX;
      assert FutureSkew(t, later) == I64_MAX;
      KeptUnlessInFuture(lib, verify, bundle, config, now, later);
    }
  }

  /** With a clock at or after the Unix epoch no difference wraps, so no law is needed. */
  lemma StaysAcceptedAfterEpoch(
    lib: Library, verify: AttestationVerifier, bundle: ProofBundle, config: VerificationConfig, now: Clock, later: Clock)
    requires IgnoresClock(verify) && VerifyBundle(lib, verify, bundle, config, now).Ok?
    requires 0 <= now <= later
    ensures VerifyBundle(lib, verify, bundle, config, later) == VerifyBundle(lib, verify, bundle, config, now)
  {
    hide VerifyBundle;
    var document := AcceptedDocument(lib, verify, bundle, config, now);
    StaysAcceptedIff(lib, verify, bundle, document, verify(document, now).value, config, now);
  }

  // ----- the HTTP date -----

  /** The HTTP date is at most both skews ahead of a clock. */
  predicate DateIsBounded(lib: Library, proof: VerifiedProof, config: VerificationConfig, now: Clock) {
    && lib.parseHttpDate(proof.payload.httpDate).Some?
    && 0 <= lib.parseHttpDate(proof.payload.httpDate).value as int
       <= now as int + config.maxSkewSeconds as int + config.maxFutureSkewSeconds as int
  }

  /** Acceptance bounds the HTTP date from above, whenever the attestation time less the clock does not wrap. */
  lemma DateNotFarInFuture(
    lib: Library, verify: AttestationVerifier, bundle: ProofBundle, config: VerificationConfig, now: Clock)
    requires VerifyBundle(lib, verify, bundle, config, now).Ok?
    ensures var proof := VerifyBundle(lib, verify, bundle, config, now).value;
            && lib.parseHttpDate(proof.payload.httpDate).Some?
            && (proof.attestation.timestampUnix as int - now as int <= I64_MAX ==> DateIsBounded(lib, proof, config, now))
  {
    hide VerifyBundle, FutureSkew, TlsIsTrusted;
    AcceptedTime(lib, verify, bundle, config, now);
    var t := VerifyBundle(lib, verify, bundle, config, now).value.attestation.timestampUnix;
    if t as int - now as int <= I64_MAX {
      SkewOnlyFalls(t, now, now);
    }
  }

  /** At every clock, where TLS trust ends. */
  lemma TrustedDateNotFarInFuture(
    lib: Library, verify: AttestationVerifier, bundle: ProofBundle, config: VerificationConfig, now: Clock)
    requires TlsTrustEnds(lib) && VerifyBundle(lib, verify, bundle, config, now).Ok?
    ensures DateIsBounded(lib, VerifyBundle(lib, verify, bundle, config, now).value, config, now)
  {
    hide VerifyBundle, FutureSkew, DateIsClose, DateIsBounded;
    AcceptedTime(lib, verify, bundle, config, now);
    ClockSpanFits(VerifyBundle(lib, verify, bundle, config, now).value.attestation.timestampUnix, now);
    DateNotFarInFuture(lib, verify, bundle, config, now);
  }

  /** At every clock, with real Nitro attestations. */
  lemma NitroDateNotFarInFuture(
    lib: Library, nitro: NitroAttestation.NitroLibrary, bundle: ProofBundle, config: VerificationConfig, now: Clock)
    requires VerifyBundle(lib, NitroVerifier(nitro), bundle, config, now).Ok?
    ensures DateIsBounded(lib, VerifyBundle(lib, NitroVerifier(nitro), bundle, config, now).value, config, now)
  {
    hide VerifyBundle, FutureSkew, DateIsClose, DateIsBounded, NitroVerifier;
    AcceptedTime(lib, NitroVerifier(nitro), bundle, config, now);
    NitroTimeFits(lib, nitro, bundle, config, now);
    ClockSpanFits(VerifyBundle(lib, NitroVerifier(nitro), bundle, config, now).value.attestation.timestampUnix, now);
    DateNotFarInFuture(lib, NitroVerifier(nitro), bundle, config, now);
  }
}

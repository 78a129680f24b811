/** The mock attester and its verifier, of src/attestation.rs. */
module MockAttestation {
  import opened Wrappers
  import opened Bytes
  import opened Numbers
  import opened Text
  import opened Documents
  import opened Library
  import opened TimeUtil

  // ----- the attester -----

  lemma PrintedIndicesDistinct()
    ensures forall m: nat, n: nat | PrintNat(m, 10) == PrintNat(n, 10) :: m == n
  {
    forall m: nat, n: nat | PrintNat(m, 10) == PrintNat(n, 10)
      ensures m == n
    {
      PrintInjective(m, n, 10);
    }
  }

  /** PCRs re-keyed by the decimal text of their index, with hex values. */
  function StringKeyed(pcrs: map<u16, bytes>): map<string, string> {
    PrintedIndicesDistinct();
    map i | i in pcrs :: PrintNat(i, 10) := HexEncode(pcrs[i])
  }

  function MockDocumentOf(lib: Library, a: VerifiedAttestation): MockDocument {
    MockDocument(MOCK_ATTESTATION_SCHEMA, a.timestampUnix, StringKeyed(a.pcrs),
                 lib.b64Encode(a.userData), lib.b64Encode(a.nonce))
  }

  /** `MockAttester::attest`. */
  function Attest(lib: Library, timestampUnix: i64, pcrs: map<u16, bytes>, userData: bytes, nonce: bytes): bytes {
    lib.mockToJson(MockDocumentOf(lib, VerifiedAttestation(timestampUnix, pcrs, userData, nonce)))
  }

  // ----- the order in which a `BTreeMap<String, _>` is traversed -----

  predicate LexLess(s: string, t: string) {
    if t == "" then false
    else if s == "" then true
    else if s[0] != t[0] then s[0] < t[0]
    else LexLess(s[1..], t[1..])
  }

  /** The order is that of the first difference; a proper prefix comes first. */
  lemma {:induction false} LexLessIff(s: string, t: string)
    ensures LexLess(s, t)
            <==> || s < t
                 || exists k :: 0 <= k < |s| && k < |t| && s[..k] == t[..k] && s[k] < t[k]
  {
    if s != "" && t != "" {
      var s', t' := s[1..], t[1..];
      LexLessIff(s', t');
      assert s == [s[0]] + s' && t == [t[0]] + t';
      forall k | 0 < k < |s| && k < |t| && s[..k] == t[..k]
        ensures s[0] == t[0]
      {
        assert s[..k][0] == s[0] && t[..k][0] == t[0];
      }
      if s[0] == t[0] {
        forall k | 0 <= k < |s'| && k < |t'| && s'[..k] == t'[..k] && s'[k] < t'[k]
          ensures s[..k + 1] == t[..k + 1] && s[k + 1] < t[k + 1]
        {
          assert s[..k + 1] == [s[0]] + s'[..k] && t[..k + 1] == [t[0]] + t'[..k];
        }
        forall k | 0 <= k < |s| && k < |t| && s[..k] == t[..k] && s[k] < t[k]
          ensures k > 0 && s'[..k - 1] == t'[..k - 1] && s'[k - 1] < t'[k - 1]
        {
          assert s'[..k - 1] == s[..k][1..] && t'[..k - 1] == t[..k][1..];
        }
      } else {
        if s[0] < t[0] {
          assert s[..0] == t[..0];
        }
      }
    }
  }

  lemma {:induction false} LexTrichotomy(s: string, t: string)
    ensures s == t || LexLess(s, t) || LexLess(t, s)
    ensures LexLess(s, t) ==> s != t && !LexLess(t, s)
  {
    if s != "" && t != "" {
      LexTrichotomy(s[1..], t[1..]);
      assert s == [s[0]] + s[1..] && t == [t[0]] + t[1..];
    }
  }

  lemma {:induction false} LexTransitive(s: string, t: string, u: string)
    requires LexLess(s, t) && LexLess(t, u)
    ensures LexLess(s, u)
  {
    if s != "" && s[0] == t[0] == u[0] {
      LexTransitive(s[1..], t[1..], u[1..]);
    }
  }

  predicate IsFirst(k: string, keys: set<string>) {
    k in keys && forall other | other in keys :: other == k || LexLess(k, other)
  }

  predicate IsLast(k: string, keys: set<string>) {
    k in keys && forall other | other in keys :: other == k || LexLess(other, k)
  }

  lemma {:induction false} FirstAndLastExist(keys: set<string>)
    requires keys != {}
    ensures exists k :: IsFirst(k, keys)
    ensures exists k :: IsLast(k, keys)
  {
    var x :| x in keys;
    var others := keys - {x};
    if others == {} {
      assert keys == {x};
      assert IsFirst(x, keys) && IsLast(x, keys);
    } else {
      FirstAndLastExist(others);
      var first :| IsFirst(first, others);
      var last :| IsLast(last, others);
      assert keys == others + {x};
      LexTrichotomy(x, first);
      LexTrichotomy(x, last);
      if LexLess(x, first) {
        forall other | other in keys && other != x ensures LexLess(x, other) {
          if other != first { LexTransitive(x, first, other); }
        }
        assert IsFirst(x, keys);
      } else {
        assert IsFirst(first, keys);
      }
      if LexLess(last, x) {
        forall other | other in keys && other != x ensures LexLess(other, x) {
          if other != last { LexTransitive(other, last, x); }
        }
        assert IsLast(x, keys);
      } else {
        assert IsLast(last, keys);
      }
    }
  }

  // ----- the verifier -----

  datatype MockError = MalformedDocument | BadSchema | InvalidIndex | InvalidHex | BadBase64

  function Entry(key: string, value: string): Result<(u16, bytes), MockError> {
    var index :- ParseUnsigned(key, 10, U16_MAX).ToResult(InvalidIndex);
    var digest :- HexDecode(value).ToResult(InvalidHex);
    Ok((index, digest))
  }

  /** The PCR map after the given keys, in ascending order, have been inserted. */
  ghost function Rekeyed(m: map<string, string>, keys: set<string>): Result<map<u16, bytes>, MockError>
    requires keys <= m.Keys
    decreases |keys|
  {
    if keys == {} then Ok(map[])
    else
      FirstAndLastExist(keys);
      var last :| IsLast(last, keys);
      var earlier :- Rekeyed(m, keys - {last});
      var entry :- Entry(last, m[last]);
      Ok(earlier[entry.0 := entry.1])
  }

  /** What `MockAttestationVerifier::verify` returns; the clock is not consulted. */
  ghost function Verified(lib: Library, document: bytes, now: Clock): Result<VerifiedAttestation, MockError> {
    var doc :- lib.mockFromJson(document).ToResult(MalformedDocument);
    if doc.schema != MOCK_ATTESTATION_SCHEMA then Err(BadSchema)
    else
      var pcrs :- Rekeyed(doc.pcrs, doc.pcrs.Keys);
      var userData :- lib.b64Decode(doc.userDataB64).ToResult(BadBase64);
      var nonce :- lib.b64Decode(doc.nonceB64).ToResult(BadBase64);
      Ok(VerifiedAttestation(doc.timestampUnix, pcrs, userData, nonce))
  }

  /** Every key that has been taken precedes every key that remains. */
  ghost predicate Precede(taken: set<string>, remaining: set<string>) {
    forall s, t | s in taken && t in remaining :: LexLess(s, t)
  }

  /** Inserting one more key after all those taken. */
  lemma RekeyNext(m: map<string, string>, taken: set<string>, k: string)
    requires taken <= m.Keys && k in m.Keys && k !in taken && Precede(taken, {k})
    ensures Rekeyed(m, taken + {k}) ==
            match Rekeyed(m, taken)
            case Err(e) => Err(e)
            case Ok(pcrs) =>
              match Entry(k, m[k])
              case Err(e) => Err(e)
              case Ok(entry) => Ok(pcrs[entry.0 := entry.1])
  {
    hide Entry;
    var keys := taken + {k};
    assert IsLast(k, keys);
    forall last | IsLast(last, keys)
      ensures last == k
    {
      if last != k { LexTrichotomy(last, k); }
    }
    assert keys - {k} == taken;
  }

  /** A failure among the first keys is the failure of the whole traversal. */
  lemma {:induction false} FailureStays(m: map<string, string>, taken: set<string>, remaining: set<string>)
    requires taken + remaining <= m.Keys && taken !! remaining && Precede(taken, remaining)
    requires Rekeyed(m, taken).Err?
    ensures Rekeyed(m, taken + remaining) == Rekeyed(m, taken)
    decreases |remaining|
  {
    hide Entry, Rekeyed;
    if remaining == {} {
      assert taken + remaining == taken;
    } else {
      FirstAndLastExist(remaining);
      var k :| IsFirst(k, remaining);
      RekeyNext(m, taken, k);
      FailureStays(m, taken + {k}, remaining - {k});
      assert taken + {k} + (remaining - {k}) == taken + remaining;
    }
  }

  /** `MockAttestationVerifier::verify`: the map's entries are taken in ascending key order. */
  method Verify(lib: Library, document: bytes, now: Clock) returns (r: Result<VerifiedAttestation, MockError>)
    ensures r == Verified(lib, document, now)
  {
    hide Rekeyed, LexLess;
    var parsed := lib.mockFromJson(document);
    if parsed.None? {
      return Err(MalformedDocument);
    }
    var doc := parsed.value;
    if doc.schema != MOCK_ATTESTATION_SCHEMA {
      return Err(BadSchema);
    }
    var pcrs: map<u16, bytes> := map[];
    var remaining := doc.pcrs.Keys;
    ghost var taken: set<string> := {};
    RekeyedNone(doc.pcrs);
    while remaining != {}
      invariant taken + remaining == doc.pcrs.Keys && taken !! remaining
      invariant Precede(taken, remaining)
      invariant Rekeyed(doc.pcrs, taken) == Ok(pcrs)
      decreases remaining
    {
      FirstAndLastExist(remaining);
      var k :| IsFirst(k, remaining);
      RekeyNext(doc.pcrs, taken, k);
      taken, remaining := taken + {k}, remaining - {k};
      assert taken + remaining == doc.pcrs.Keys;
      var entry := Entry(k, doc.pcrs[k]);
      if entry.Err? {
        FailureStays(doc.pcrs, taken, remaining);
        return Err(entry.error);
      }
      pcrs := pcrs[entry.value.0 := entry.value.1];
    }
    assert taken == doc.pcrs.Keys;
    var userData := lib.b64Decode(doc.userDataB64);
    if userData.None? {
      return Err(BadBase64);
    }
    var nonce := lib.b64Decode(doc.nonceB64);
    if nonce.None? {
      return Err(BadBase64);
    }
    r := Ok(VerifiedAttestation(doc.timestampUnix, pcrs, userData.value, nonce.value));
  }

  lemma RekeyedNone(m: map<string, string>)
    ensures Rekeyed(m, {}) == Ok(map[])
  {
  }

  // ----- what the re-keyed map holds -----

  /** `k` is the greatest key whose text denotes the same index as `k`. */
  ghost predicate WinsIndex(k: string, keys: set<string>) {
    k in keys && forall other | other in keys && other != k
                                && ParseUnsigned(other, 10, U16_MAX) == ParseUnsigned(k, 10, U16_MAX) ::
                   LexLess(other, k)
  }

  /** Splitting off the key that is taken last. */
  lemma LastTaken(m: map<string, string>, keys: set<string>) returns (earlier: set<string>, last: string)
    requires keys <= m.Keys && keys != {}
    ensures last in keys && earlier == keys - {last} && keys == earlier + {last} && |earlier| < |keys|
    ensures IsLast(last, keys)
    ensures Rekeyed(m, keys).Ok? <==> Rekeyed(m, earlier).Ok? && Entry(last, m[last]).Ok?
    ensures Rekeyed(m, keys).Ok? ==>
              var (index, digest) := Entry(last, m[last]).value;
              Rekeyed(m, keys).value == Rekeyed(m, earlier).value[index := digest]
  {
    hide Entry, Rekeyed, LexLess;
    FirstAndLastExist(keys);
    last :| IsLast(last, keys);
    earlier := keys - {last};
    assert keys == earlier + {last};
    RekeyNext(m, earlier, last);
  }

  /**
   Re-keying succeeds exactly when every entry is readable, and the map then holds exactly the
   indices the keys denote.
   */
  lemma {:induction false} RekeyedIndices(m: map<string, string>, keys: set<string>)
    requires keys <= m.Keys
    ensures Rekeyed(m, keys).Ok? <==> forall k | k in keys :: Entry(k, m[k]).Ok?
    ensures Rekeyed(m, keys).Ok? ==>
              forall i :: i in Rekeyed(m, keys).value
                          <==> exists k :: k in keys && ParseUnsigned(k, 10, U16_MAX) == Some(i)
    decreases |keys|
  {
    hide ParseUnsigned, HexDecode, LexLess, Rekeyed;
    if keys == {} {
      RekeyedNone(m);
    } else {
      var earlier, last := LastTaken(m, keys);
      RekeyedIndices(m, earlier);
    }
  }

  /** Where several keys denote one index, the greatest key's value stays. */
  lemma {:induction false} GreatestKeyWins(m: map<string, string>, keys: set<string>, k: string)
    requires keys <= m.Keys && Rekeyed(m, keys).Ok? && WinsIndex(k, keys)
    ensures ValueOf(m, k) in Rekeyed(m, keys).value.Items
    decreases |keys|
  {
    hide ParseUnsigned, HexDecode, LexLess, Rekeyed;
    var earlier, last := LastTaken(m, keys);
    RekeyedIndices(m, keys);
    if k != last {
      LexTrichotomy(k, last);
      assert WinsIndex(k, earlier);
      GreatestKeyWins(m, earlier, k);
    }
  }

  /** The entry of a readable key. */
  function ValueOf(m: map<string, string>, k: string): (u16, bytes)
    requires k in m
  {
    match Entry(k, m[k]) case Ok(entry) => entry case Err(_) => (0, [])
  }

  // ----- what a mock document says -----

  /** Some bytes have this text as their hexadecimal encoding, in either case. */
  ghost predicate IsHexOf(text: string, digest: bytes) { ToLower(text) == HexEncode(digest) }

  /** `k` is the greatest key whose text spells the index. */
  ghost predicate IsGreatestFor(k: string, index: u16, keys: set<string>) {
    && k in keys && SpellsUnsigned(k, index, 10)
    && forall other | other in keys && SpellsUnsigned(other, index, 10) :: other == k || LexLess(other, k)
  }

  lemma KeyIff(key: string)
    ensures forall index: u16 :: ParseUnsigned(key, 10, U16_MAX) == Some(index) <==> SpellsUnsigned(key, index, 10)
    ensures ParseUnsigned(key, 10, U16_MAX).Some? <==> exists index: u16 :: SpellsUnsigned(key, index, 10)
  {
    hide ParseUnsigned, SpellsUnsigned;
    forall index: u16
      ensures ParseUnsigned(key, 10, U16_MAX) == Some(index) <==> SpellsUnsigned(key, index, 10)
    {
      ParseUnsignedIff(key, 10, U16_MAX, index);
    }
    if ParseUnsigned(key, 10, U16_MAX).Some? {
      var index := ParseUnsigned(key, 10, U16_MAX).value;
      ParseUnsignedIff(key, 10, U16_MAX, index);
      assert SpellsUnsigned(key, index as u16, 10);
    }
  }

  lemma DigestIff(text: string)
    ensures forall digest :: HexDecode(text) == Some(digest) <==> IsHexOf(text, digest)
    ensures HexDecode(text).Some? <==> exists digest :: IsHexOf(text, digest)
  {
    hide HexDecode, HexEncode;
    forall digest
      ensures HexDecode(text) == Some(digest) <==> IsHexOf(text, digest)
    {
      HexDecodeIff(text, digest);
    }
    hide IsHexOf;
    if HexDecode(text).Some? {
      assert IsHexOf(text, HexDecode(text).value);
    }
  }

  lemma EntryIff(key: string, value: string, index: u16, digest: bytes)
    ensures Entry(key, value) == Ok((index, digest)) <==> SpellsUnsigned(key, index, 10) && IsHexOf(value, digest)
  {
    KeyIff(key);
    DigestIff(value);
    hide ParseUnsigned, SpellsUnsigned, HexDecode, IsHexOf;
  }

  lemma EntryReadableIff(key: string, value: string)
    ensures Entry(key, value).Ok?
            <==> (exists index: u16 :: SpellsUnsigned(key, index, 10)) && (exists digest :: IsHexOf(value, digest))
  {
    KeyIff(key);
    DigestIff(value);
    hide ParseUnsigned, SpellsUnsigned, HexDecode, IsHexOf;
  }

  /** Every key spells a 16-bit index and every value is hexadecimal. */
  ghost predicate IsReadable(m: map<string, string>) {
    && (forall k | k in m :: exists index: u16 :: SpellsUnsigned(k, index, 10))
    && (forall k | k in m :: exists digest :: IsHexOf(m[k], digest))
  }

  ghost predicate IsSpelledIn(m: map<string, string>, index: u16) {
    exists k :: k in m && SpellsUnsigned(k, index, 10)
  }

  /** The value under the greatest key that spells the index. */
  ghost predicate HasGreatestValue(m: map<string, string>, index: u16, digest: bytes) {
    exists k :: k in m && IsGreatestFor(k, index, m.Keys) && IsHexOf(m[k], digest)
  }

  /**
   The entries are readable, and `pcrs` has exactly the indices their keys spell, each with the value
   under its greatest key.
   */
  ghost predicate Says(m: map<string, string>, pcrs: map<u16, bytes>) {
    && IsReadable(m)
    && (forall index: u16 :: index in pcrs <==> IsSpelledIn(m, index))
    && (forall index: u16 | index in pcrs :: HasGreatestValue(m, index, pcrs[index]))
  }

  lemma RekeysIff(m: map<string, string>)
    ensures Rekeyed(m, m.Keys).Ok? <==> IsReadable(m)
  {
    hide SpellsUnsigned, Rekeyed, Entry, IsHexOf, ParseUnsigned;
    RekeyedIndices(m, m.Keys);
    forall k | k in m
      ensures Entry(k, m[k]).Ok?
              <==> (exists index: u16 :: SpellsUnsigned(k, index, 10)) && (exists digest :: IsHexOf(m[k], digest))
    {
      EntryReadableIff(k, m[k]);
    }
  }

  lemma GreatestExists(keys: set<string>, index: u16) returns (k: string)
    requires exists key :: key in keys && SpellsUnsigned(key, index, 10)
    ensures IsGreatestFor(k, index, keys)
  {
    hide SpellsUnsigned, LexLess;
    var some := set key | key in keys && SpellsUnsigned(key, index, 10);
    var key :| key in keys && SpellsUnsigned(key, index, 10);
    assert key in some;
    FirstAndLastExist(some);
    k :| IsLast(k, some);
  }

  lemma GreatestWins(k: string, index: u16, keys: set<string>)
    requires IsGreatestFor(k, index, keys)
    ensures WinsIndex(k, keys)
  {
    hide SpellsUnsigned, LexLess, ParseUnsigned;
    KeyIff(k);
    forall other | other in keys
      ensures forall i: u16 :: ParseUnsigned(other, 10, U16_MAX) == Some(i) <==> SpellsUnsigned(other, i, 10)
    {
      KeyIff(other);
    }
  }

  lemma RekeyedValue(m: map<string, string>, index: u16, k: string, digest: bytes)
    requires Rekeyed(m, m.Keys).Ok? && k in m && IsGreatestFor(k, index, m.Keys)
    ensures index in Rekeyed(m, m.Keys).value
    ensures IsHexOf(m[k], digest) <==> digest == Rekeyed(m, m.Keys).value[index]
  {
    hide SpellsUnsigned, LexLess, Rekeyed, Entry, IsHexOf, WinsIndex;
    GreatestWins(k, index, m.Keys);
    GreatestKeyWins(m, m.Keys, k);
    assert Entry(k, m[k]).Ok? by { RekeyedIndices(m, m.Keys); }
    var (i, d) := Entry(k, m[k]).value;
    EntryIff(k, m[k], i, d);
    EntryIff(k, m[k], index, d);
    EntryIff(k, m[k], index, digest);
  }

  lemma GreatestValueIff(m: map<string, string>, index: u16, digest: bytes)
    requires Rekeyed(m, m.Keys).Ok? && index in Rekeyed(m, m.Keys).value
    ensures HasGreatestValue(m, index, digest) <==> digest == Rekeyed(m, m.Keys).value[index]
  {
    hide SpellsUnsigned, LexLess, Rekeyed, IsHexOf, IsGreatestFor;
    IndexIff(m, index);
    var k := GreatestExists(m.Keys, index);
    KeyOfGreatest(k, index, m);
    RekeyedValue(m, index, k, Rekeyed(m, m.Keys).value[index]);
    forall k | k in m && IsGreatestFor(k, index, m.Keys) && IsHexOf(m[k], digest)
      ensures digest == Rekeyed(m, m.Keys).value[index]
    {
      RekeyedValue(m, index, k, digest);
    }
  }

  /** Re-keying a document's PCRs gives exactly what the document says. */
  lemma RekeyedIff(m: map<string, string>, pcrs: map<u16, bytes>)
    ensures Rekeyed(m, m.Keys) == Ok(pcrs) <==> Says(m, pcrs)
  {
    hide Rekeyed, IsReadable, IsSpelledIn, HasGreatestValue;
    RekeysIff(m);
    if Rekeyed(m, m.Keys).Ok? {
      var r := Rekeyed(m, m.Keys).value;
      forall index: u16
        ensures index in r <==> IsSpelledIn(m, index)
      {
        IndexIff(m, index);
      }
      forall index: u16, digest | index in r
        ensures HasGreatestValue(m, index, digest) <==> digest == r[index]
      {
        GreatestValueIff(m, index, digest);
      }
      if Says(m, pcrs) {
        assert pcrs == r;
      }
    }
  }

  lemma KeyOfGreatest(k: string, index: u16, m: map<string, string>)
    requires IsGreatestFor(k, index, m.Keys)
    ensures k in m
  {
  }

  lemma IndexIff(m: map<string, string>, index: u16)
    requires Rekeyed(m, m.Keys).Ok?
    ensures index in Rekeyed(m, m.Keys).value <==> IsSpelledIn(m, index)
  {
    hide SpellsUnsigned, Rekeyed, ParseUnsigned;
    RekeyedIndices(m, m.Keys);
    forall k | k in m
      ensures ParseUnsigned(k, 10, U16_MAX) == Some(index) <==> SpellsUnsigned(k, index, 10)
    {
      KeyIff(k);
    }
  }

  /** A parsed document is a mock attestation, and its fields are those of `a`. */
  ghost predicate IsMockOf(lib: Library, doc: MockDocument, a: VerifiedAttestation) {
    && doc.schema == "coinbase-candle-mock-attestation/v1"
    && doc.timestampUnix == a.timestampUnix
    && Says(doc.pcrs, a.pcrs)
    && lib.b64Decode(doc.userDataB64) == Some(a.userData)
    && lib.b64Decode(doc.nonceB64) == Some(a.nonce)
  }

  /** A document is accepted, as an attestation, exactly when it parses as a mock of it. */
  lemma AcceptedIffMock(lib: Library, document: bytes, now: Clock, a: VerifiedAttestation)
    ensures Verified(lib, document, now) == Ok(a)
            <==> lib.mockFromJson(document).Some? && IsMockOf(lib, lib.mockFromJson(document).value, a)
  {
    hide Rekeyed, Says;
    if lib.mockFromJson(document).Some? {
      var doc := lib.mockFromJson(document).value;
      RekeyedIff(doc.pcrs, a.pcrs);
    }
  }

  // ----- round trips -----

  lemma EntryOfPrinted(index: u16, value: bytes)
    ensures Entry(PrintNat(index, 10), HexEncode(value)) == Ok((index, value))
  {
    ParsePrinted(index, 10, U16_MAX);
    HexRoundTrip(value);
  }

  /** The PCRs whose printed index is among `keys`. */
  function Selected(pcrs: map<u16, bytes>, keys: set<string>): map<u16, bytes> {
    map i | i in pcrs && PrintNat(i, 10) in keys :: pcrs[i]
  }

  lemma SelectOneMore(pcrs: map<u16, bytes>, keys: set<string>, i: u16)
    requires i in pcrs
    ensures Selected(pcrs, keys + {PrintNat(i, 10)}) == Selected(pcrs, keys)[i := pcrs[i]]
  {
    PrintedIndicesDistinct();
    hide PrintNat;
  }

  /** Re-keying through text and back is the identity. */
  lemma {:induction false} RekeyRoundTrip(pcrs: map<u16, bytes>, keys: set<string>)
    requires keys <= StringKeyed(pcrs).Keys
    ensures Rekeyed(StringKeyed(pcrs), keys) == Ok(Selected(pcrs, keys))
    decreases |keys|
  {
    hide Entry, Rekeyed, PrintNat, HexEncode, LexLess, Selected;
    var m := StringKeyed(pcrs);
    if keys == {} {
      RekeyedNone(m);
      SelectedNone(pcrs);
    } else {
      FirstAndLastExist(keys);
      var last :| IsLast(last, keys);
      var earlier := keys - {last};
      assert keys == earlier + {last};
      RekeyNext(m, earlier, last);
      RekeyRoundTrip(pcrs, earlier);
      var i :| i in pcrs && PrintNat(i, 10) == last;
      StringKeyedAt(pcrs, i);
      EntryOfPrinted(i, pcrs[i]);
      SelectOneMore(pcrs, earlier, i);
    }
  }

  lemma SelectedNone(pcrs: map<u16, bytes>)
    ensures Selected(pcrs, {}) == map[]
  {
  }

  lemma StringKeyedAt(pcrs: map<u16, bytes>, i: u16)
    requires i in pcrs
    ensures PrintNat(i, 10) in StringKeyed(pcrs) && StringKeyed(pcrs)[PrintNat(i, 10)] == HexEncode(pcrs[i])
  {
    PrintedIndicesDistinct();
    hide PrintNat, HexEncode;
  }

  /** Verifying what the attester produced gives back exactly what was attested, at any time. */
  lemma MockRoundTripHolds(lib: Library, a: VerifiedAttestation, now: Clock)
    requires Base64RoundTrip(lib) && MockRoundTrip(lib)
    ensures Verified(lib, Attest(lib, a.timestampUnix, a.pcrs, a.userData, a.nonce), now) == Ok(a)
  {
    hide Rekeyed, PrintNat, HexEncode;
    RekeyRoundTrip(a.pcrs, StringKeyed(a.pcrs).Keys);
    assert Selected(a.pcrs, StringKeyed(a.pcrs).Keys) == a.pcrs;
  }

  /** Decimal text without sign or leading zeros, and hex text without upper-case digits. */
  predicate IsCanonicalEntry(key: string, value: string) {
    Canonical(key) && key[0] != '+' && NoUpperCase(value)
  }

  lemma {:induction false} ValueMeansDecimal(s: string)
    requires DigitsValue(s, 10).Some?
    ensures AllDecimal(s)
  {
    if s != "" {
      ValueMeansDecimal(s[..|s| - 1]);
      assert s == s[..|s| - 1] + [s[|s| - 1]];
    }
  }

  lemma EntryIsPrintedIff(key: string, value: string)
    requires Entry(key, value).Ok?
    ensures var (index, digest) := Entry(key, value).value;
            PrintNat(index, 10) == key && HexEncode(digest) == value <==> IsCanonicalEntry(key, value)
  {
    hide DigitsValue, PrintNat, HexEncode, HexDecode;
    var (index, digest) := Entry(key, value).value;
    HexCanonical(value);
    PrintedIsCanonical(index, 10);
    PrintedValue(index, 10);
    if key[0] != '+' {
      ValueMeansDecimal(key);
      if Canonical(key) {
        CanonicalIsPrinted(key);
      }
    }
  }

  predicate AllCanonical(m: map<string, string>) {
    forall k | k in m :: IsCanonicalEntry(k, m[k])
  }

  lemma PrintedEntriesAreCanonical(pcrs: map<u16, bytes>)
    ensures AllCanonical(StringKeyed(pcrs))
  {
    hide PrintNat, HexEncode, IsCanonicalEntry, Entry;
    var m := StringKeyed(pcrs);
    forall k | k in m
      ensures IsCanonicalEntry(k, m[k])
    {
      var i :| i in pcrs && k == PrintNat(i, 10);
      StringKeyedAt(pcrs, i);
      EntryOfPrinted(i, pcrs[i]);
      EntryIsPrintedIff(k, m[k]);
    }
  }

  /** A readable canonical entry is the one entry of its index, and printing restores it. */
  lemma CanonicalEntryRestored(m: map<string, string>, k: string)
    requires Rekeyed(m, m.Keys).Ok? && AllCanonical(m) && k in m
    ensures var pcrs, index := Rekeyed(m, m.Keys).value, ValueOf(m, k).0;
            index in pcrs && PrintNat(index, 10) == k && HexEncode(pcrs[index]) == m[k]
  {
    hide Rekeyed, PrintNat, HexEncode, HexDecode, IsCanonicalEntry, ParseUnsigned, LexLess;
    RekeyedIndices(m, m.Keys);
    EntryIsPrintedIff(k, m[k]);
    forall other | other in m && ParseUnsigned(other, 10, U16_MAX) == ParseUnsigned(k, 10, U16_MAX)
      ensures other == k
    {
      EntryIsPrintedIff(other, m[other]);
    }
    GreatestKeyWins(m, m.Keys, k);
  }

  lemma CanonicalIsRestored(m: map<string, string>)
    requires Rekeyed(m, m.Keys).Ok? && AllCanonical(m)
    ensures StringKeyed(Rekeyed(m, m.Keys).value) == m
  {
    hide Rekeyed, PrintNat, HexEncode, Entry, AllCanonical, StringKeyed, ValueOf;
    var pcrs := Rekeyed(m, m.Keys).value;
    var again := StringKeyed(pcrs);
    forall k | k in m
      ensures k in again && again[k] == m[k]
    {
      CanonicalEntryRestored(m, k);
      StringKeyedAt(pcrs, ValueOf(m, k).0);
    }
    forall k | k in again
      ensures k in m
    {
      RestoredKeyOccurs(m, k);
    }
  }

  lemma RestoredKeyOccurs(m: map<string, string>, k: string)
    requires Rekeyed(m, m.Keys).Ok? && AllCanonical(m) && k in StringKeyed(Rekeyed(m, m.Keys).value)
    ensures k in m
  {
    hide Rekeyed, PrintNat, HexEncode, IsCanonicalEntry, HexDecode, ParseUnsigned, LexLess;
    RekeyedIndices(m, m.Keys);
    var i :| i in Rekeyed(m, m.Keys).value && k == PrintNat(i, 10);
    var key :| key in m && ParseUnsigned(key, 10, U16_MAX) == Some(i);
    EntryIsPrintedIff(key, m[key]);
  }

  /**
   The other direction: re-attesting what was verified reproduces the PCR entries of the document
   exactly when every entry is canonical text.
   */
  lemma ReattestIffCanonical(doc: MockDocument)
    requires Rekeyed(doc.pcrs, doc.pcrs.Keys).Ok?
    ensures StringKeyed(Rekeyed(doc.pcrs, doc.pcrs.Keys).value) == doc.pcrs <==> AllCanonical(doc.pcrs)
  {
    hide Rekeyed, StringKeyed, AllCanonical;
    PrintedEntriesAreCanonical(Rekeyed(doc.pcrs, doc.pcrs.Keys).value);
    if AllCanonical(doc.pcrs) {
      CanonicalIsRestored(doc.pcrs);
    }
  }
}

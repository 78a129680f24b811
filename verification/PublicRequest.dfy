/** The public proof request: query parsing and request recognition of src/bin/enclave-prover.rs. */
module PublicRequest {
  import opened Wrappers
  import opened Bytes
  import opened Numbers
  import opened Text
  import opened Documents
  import opened Library
  import opened Http
  import opened Prover
  import opened TimeUtil
  import Utf8

  const PROOF_PATH_PREFIX := "/proof/v1/products/"
  const PROOF_PATH_SUFFIX := "/candles"

  // ----- percent-decoding (section 2.1 of RFC 3986) -----

  const PERCENT: byte := 0x25

  function HexByteValue(b: byte): Option<nat> { DigitValue(b as char) }

  predicate IsEscape(b: bytes) {
    |b| >= 3 && b[0] == PERCENT && HexByteValue(b[1]).Some? && HexByteValue(b[2]).Some?
  }

  /** Every percent sign starts an escape. */
  predicate HasOnlyEscapes(b: bytes) {
    b == [] || (if b[0] == PERCENT then IsEscape(b) && HasOnlyEscapes(b[3..]) else HasOnlyEscapes(b[1..]))
  }

  function Unescape(b: bytes): bytes
    requires HasOnlyEscapes(b)
  {
    if b == [] then []
    else if b[0] == PERCENT then
      [(HexByteValue(b[1]).value * 16 + HexByteValue(b[2]).value) as byte] + Unescape(b[3..])
    else [b[0]] + Unescape(b[1..])
  }

  /** `urlencoding::decode`; text with a stray percent sign is left to the library. */
  function PercentDecode(lib: Library, s: string): Option<string> {
    var b := Utf8.Encode(s);
    if HasOnlyEscapes(b) then Utf8.Decode(Unescape(b)) else lib.decodeMalformedEscapes(s)
  }

  /** The two characters are the hexadecimal digits of the byte, in either case. */
  ghost predicate IsHexPairOf(high: byte, low: byte, value: byte) {
    ToLower([high as char, low as char]) == HexEncode([value])
  }

  /** `raw` spells the bytes one by one: each as itself, if it is no percent sign, or as an escape. */
  ghost predicate Escapes(raw: bytes, b: bytes) {
    if b == [] then raw == []
    else
      || (raw != [] && raw[0] != PERCENT && raw[0] == b[0] && Escapes(raw[1..], b[1..]))
      || (|raw| >= 3 && raw[0] == PERCENT && IsHexPairOf(raw[1], raw[2], b[0]) && Escapes(raw[3..], b[1..]))
  }

  lemma HexPairIff(high: byte, low: byte, value: byte)
    ensures IsHexPairOf(high, low, value)
            <==> HexByteValue(high) == Some(value / 16) && HexByteValue(low) == Some(value % 16)
  {
    DigitOfEitherCase(high as char, value / 16);
    DigitOfEitherCase(low as char, value % 16);
    hide DigitValue, LowerChar, DigitChar;
    var text, e := ToLower([high as char, low as char]), HexEncode([value]);
    assert text == [LowerChar(high as char), LowerChar(low as char)];
    assert e == [DigitChar(value / 16), DigitChar(value % 16)];
  }

  /** What an escape denotes. */
  lemma HexPairValue(high: nat, low: nat, value: nat)
    requires high < 16 && low < 16
    ensures high * 16 + low == value <==> high == value / 16 && low == value % 16
  {
  }

  lemma {:induction false} UnescapedIsSpelled(raw: bytes)
    requires HasOnlyEscapes(raw)
    ensures Escapes(raw, Unescape(raw))
    decreases |raw|
  {
    if raw != [] {
      hide HexByteValue, IsHexPairOf;
      var b := Unescape(raw);
      if raw[0] == PERCENT {
        UnescapedIsSpelled(raw[3..]);
        HexPairIff(raw[1], raw[2], b[0]);
        HexPairValue(HexByteValue(raw[1]).value, HexByteValue(raw[2]).value, b[0]);
        assert b[1..] == Unescape(raw[3..]);
      } else {
        UnescapedIsSpelled(raw[1..]);
        assert b[1..] == Unescape(raw[1..]);
      }
    }
  }

  lemma {:induction false} SpelledIsUnescaped(raw: bytes, b: bytes)
    requires Escapes(raw, b)
    ensures HasOnlyEscapes(raw) && Unescape(raw) == b
    decreases |raw|
  {
    if b != [] {
      hide HexByteValue, IsHexPairOf;
      assert b == [b[0]] + b[1..];
      if raw[0] == PERCENT {
        SpelledIsUnescaped(raw[3..], b[1..]);
        HexPairIff(raw[1], raw[2], b[0]);
        HexPairValue(b[0] / 16, b[0] % 16, b[0]);
      } else {
        SpelledIsUnescaped(raw[1..], b[1..]);
      }
    }
  }

  /**
   Percent-decoding gives the one text whose UTF-8 bytes the input spells, if it spells bytes at all;
   input with a stray percent sign, and only that, is left to the library.
   */
  lemma PercentDecodeIff(lib: Library, s: string, t: string)
    ensures if exists b :: Escapes(Utf8.Encode(s), b)
            then PercentDecode(lib, s) == Some(t) <==> Escapes(Utf8.Encode(s), Utf8.Encode(t))
            else PercentDecode(lib, s) == lib.decodeMalformedEscapes(s)
  {
    hide Escapes, HasOnlyEscapes, Unescape, Utf8.Encode, Utf8.Decode;
    var raw := Utf8.Encode(s);
    if HasOnlyEscapes(raw) {
      UnescapedIsSpelled(raw);
      Utf8.DecodeIffEncoded(Unescape(raw), t);
    }
    forall b | Escapes(raw, b)
      ensures HasOnlyEscapes(raw) && Unescape(raw) == b
    {
      SpelledIsUnescaped(raw, b);
    }
  }

  // ----- query strings -----

  datatype QueryError = MissingEquals | BadKeyEncoding | BadValueEncoding | Duplicate(key: string)

  function ParsePair(lib: Library, piece: string): Result<(string, string), QueryError> {
    var (rawKey, rawValue) :- SplitOnce(piece, '=').ToResult(MissingEquals);
    var key :- PercentDecode(lib, rawKey).ToResult(BadKeyEncoding);
    var value :- PercentDecode(lib, rawValue).ToResult(BadValueEncoding);
    Ok((key, value))
  }

  function Insert(params: map<string, string>, pair: (string, string)): Result<map<string, string>, QueryError> {
    if pair.0 in params then Err(Duplicate(pair.0)) else Ok(params[pair.0 := pair.1])
  }

  /** The parameters after the given pieces, left to right. */
  function ParsedPieces(lib: Library, pieces: seq<string>): Result<map<string, string>, QueryError> {
    if pieces == [] then Ok(map[])
    else
      var params :- ParsedPieces(lib, pieces[..|pieces| - 1]);
      var pair :- ParsePair(lib, pieces[|pieces| - 1]);
      Insert(params, pair)
  }

  function ParsedQuery(lib: Library, query: string): Result<map<string, string>, QueryError> {
    if query == "" then Ok(map[]) else ParsedPieces(lib, Split(query, '&'))
  }

  lemma {:induction false} FailureStays(lib: Library, pieces: seq<string>, n: nat)
    requires n <= |pieces| && ParsedPieces(lib, pieces[..n]).Err?
    ensures ParsedPieces(lib, pieces) == ParsedPieces(lib, pieces[..n])
    decreases |pieces|
  {
    if n == |pieces| {
      assert pieces[..n] == pieces;
    } else {
      var init := pieces[..|pieces| - 1];
      assert init[..n] == pieces[..n];
      FailureStays(lib, init, n);
    }
  }

  lemma NoPieces(lib: Library)
    ensures ParsedPieces(lib, []) == Ok(map[])
  {
  }

  lemma NextPiece(lib: Library, pieces: seq<string>, i: nat)
    requires i < |pieces| && ParsedPieces(lib, pieces[..i]).Ok?
    ensures ParsedPieces(lib, pieces[..i + 1]) ==
            match ParsePair(lib, pieces[i])
            case Err(e) => Err(e)
            case Ok(pair) => Insert(ParsedPieces(lib, pieces[..i]).value, pair)
  {
    hide ParsePair, Insert;
    assert pieces[..i + 1][..i] == pieces[..i];
  }

  /** `parse_query`. */
  method ParseQuery(lib: Library, query: string) returns (r: Result<map<string, string>, QueryError>)
    ensures r == ParsedQuery(lib, query)
  {
    hide ParsePair, ParsedPieces;
    NoPieces(lib);
    var out: map<string, string> := map[];
    if query == "" {
      return Ok(out);
    }
    var pieces := Split(query, '&');
    for i := 0 to |pieces|
      invariant ParsedPieces(lib, pieces[..i]) == Ok(out)
    {
      NextPiece(lib, pieces, i);
      var pair := ParsePair(lib, pieces[i]);
      if pair.Err? {
        FailureStays(lib, pieces, i + 1);
        return Err(pair.error);
      }
      var (key, value) := pair.value;
      if key in out {
        FailureStays(lib, pieces, i + 1);
        return Err(Duplicate(key));
      }
      out := out[key := value];
    }
    assert pieces[..|pieces|] == pieces;
    r := Ok(out);
  }

  // ----- what a query denotes -----

  /** A piece that spells a pair, in any well-formed encoding. */
  predicate Spells(lib: Library, piece: string, pair: (string, string)) {
    && '&' !in piece
    && ParsePair(lib, piece) == Ok(pair)
  }

  /** Inserting pairs left to right, refusing a key that is already there. */
  function InsertAll(pairs: seq<(string, string)>): Result<map<string, string>, QueryError> {
    if pairs == [] then Ok(map[])
    else
      var params :- InsertAll(pairs[..|pairs| - 1]);
      Insert(params, pairs[|pairs| - 1])
  }

  predicate DistinctKeys(pairs: seq<(string, string)>) {
    forall i, j | 0 <= i < j < |pairs| :: pairs[i].0 != pairs[j].0
  }

  lemma KeyIsNew(pairs: seq<(string, string)>, value: string)
    requires pairs != [] && DistinctKeys(pairs)
    ensures (pairs[|pairs| - 1].0, value) !in pairs[..|pairs| - 1]
  {
  }

  /** Pairs with distinct keys give exactly the map that holds them. */
  lemma {:induction false} InsertAllDistinct(pairs: seq<(string, string)>)
    requires DistinctKeys(pairs)
    ensures InsertAll(pairs).Ok?
    ensures forall k, v :: (k in InsertAll(pairs).value && InsertAll(pairs).value[k] == v) <==> (k, v) in pairs
  {
    if pairs != [] {
      var n := |pairs| - 1;
      InsertAllDistinct(pairs[..n]);
      assert pairs == pairs[..n] + [pairs[n]];
      var before := InsertAll(pairs[..n]).value;
      if pairs[n].0 in before {
        KeyIsNew(pairs, before[pairs[n].0]);
        assert false;
      }
    }
  }

  /** The first pair whose key occurred before is reported. */
  lemma {:induction false} InsertAllRepeated(pairs: seq<(string, string)>, i: nat, j: nat)
    requires i < j < |pairs| && pairs[i].0 == pairs[j].0 && DistinctKeys(pairs[..j])
    ensures InsertAll(pairs) == Err(Duplicate(pairs[j].0))
  {
    var n := |pairs| - 1;
    if j == n {
      InsertAllDistinct(pairs[..n]);
      assert pairs[..n][i] == pairs[i];
      assert (pairs[i].0, pairs[i].1) in pairs[..n];
    } else {
      assert pairs[..n][..j] == pairs[..j];
      InsertAllRepeated(pairs[..n], i, j);
    }
  }

  lemma {:induction false} PiecesGivePairs(lib: Library, pieces: seq<string>, pairs: seq<(string, string)>)
    requires |pieces| == |pairs|
    requires forall i | 0 <= i < |pieces| :: ParsePair(lib, pieces[i]) == Ok(pairs[i])
    ensures ParsedPieces(lib, pieces) == InsertAll(pairs)
  {
    hide ParsePair;
    if pieces != [] {
      var n := |pieces| - 1;
      PiecesGivePairs(lib, pieces[..n], pairs[..n]);
      assert ParsePair(lib, pieces[n]) == Ok(pairs[n]);
    }
  }

  /** A query joined from pieces that spell pairs is parsed as those pairs, inserted in order. */
  lemma QueryGivesPairs(lib: Library, pieces: seq<string>, pairs: seq<(string, string)>)
    requires |pieces| == |pairs| >= 1
    requires forall i | 0 <= i < |pieces| :: Spells(lib, pieces[i], pairs[i])
    ensures ParsedQuery(lib, Join(pieces, '&')) == InsertAll(pairs)
  {
    forall i | 0 <= i < |pieces|
      ensures '&' !in pieces[i] && ParsePair(lib, pieces[i]) == Ok(pairs[i])
    {
      assert Spells(lib, pieces[i], pairs[i]);
    }
    hide ParsePair;
    SplitOfJoin(pieces, '&');
    PiecesGivePairs(lib, pieces, pairs);
    assert SplitOnce("", '=').None?;
    if Join(pieces, '&') == "" {
      assert Split("", '&') == [""] == pieces;
      EmptyPieceSpellsNothing(lib);
    }
  }

  lemma EmptyPieceSpellsNothing(lib: Library)
    ensures ParsePair(lib, "").Err?
  {
  }

  /** A piece spells a pair: key and value, percent-encoded, around its first equals sign. */
  ghost predicate SpellsPair(lib: Library, piece: string, pair: (string, string)) {
    exists key, value ::
      && piece == key + "=" + value && '=' !in key
      && PercentDecode(lib, key) == Some(pair.0) && PercentDecode(lib, value) == Some(pair.1)
  }

  lemma PairIff(lib: Library, piece: string, pair: (string, string))
    ensures ParsePair(lib, piece) == Ok(pair) <==> SpellsPair(lib, piece, pair)
  {
    hide PercentDecode;
    assert "=" == ['='];
    forall key, value | piece == key + "=" + value && '=' !in key
      ensures SplitOnce(piece, '=') == Some((key, value))
    {
      SplitOnceUnique(key, value, '=');
    }
    if SplitOnce(piece, '=').Some? {
      var (key, value) := SplitOnce(piece, '=').value;
      assert piece == key + "=" + value && '=' !in key;
    }
  }

  /** The query is these pieces, joined; they spell these pairs, whose keys differ. */
  ghost predicate IsQueryOf(lib: Library, query: string, pieces: seq<string>, pairs: seq<(string, string)>) {
    && |pieces| == |pairs| >= 1
    && NoneContains(pieces, '&') && query == Join(pieces, '&')
    && (forall i | 0 <= i < |pieces| :: SpellsPair(lib, pieces[i], pairs[i]))
    && DistinctKeys(pairs)
  }

  /** The map holds these pairs and nothing else. */
  ghost predicate Holds(params: map<string, string>, pairs: seq<(string, string)>) {
    forall k, v :: (k in params && params[k] == v) <==> (k, v) in pairs
  }

  lemma {:induction false} PiecesOfParsed(lib: Library, pieces: seq<string>) returns (pairs: seq<(string, string)>)
    requires ParsedPieces(lib, pieces).Ok?
    ensures |pairs| == |pieces|
    ensures forall i | 0 <= i < |pieces| :: ParsePair(lib, pieces[i]) == Ok(pairs[i])
  {
    hide ParsePair;
    if pieces == [] {
      pairs := [];
    } else {
      var n := |pieces| - 1;
      var init := PiecesOfParsed(lib, pieces[..n]);
      pairs := init + [ParsePair(lib, pieces[n]).value];
      assert forall i | 0 <= i < n :: pieces[..n][i] == pieces[i];
    }
  }

  lemma ParsedIsQuery(lib: Library, query: string) returns (pieces: seq<string>, pairs: seq<(string, string)>)
    requires query != "" && ParsedQuery(lib, query).Ok?
    ensures IsQueryOf(lib, query, pieces, pairs) && Holds(ParsedQuery(lib, query).value, pairs)
  {
    hide ParsePair, Join, SpellsPair, Split;
    pieces := Split(query, '&');
    JoinOfSplit(query, '&');
    pairs := PiecesOfParsed(lib, pieces);
    PiecesGivePairs(lib, pieces, pairs);
    if !DistinctKeys(pairs) {
      var i, j := FirstRepeat(pairs);
      InsertAllRepeated(pairs, i, j);
    }
    InsertAllDistinct(pairs);
    forall i | 0 <= i < |pieces|
      ensures SpellsPair(lib, pieces[i], pairs[i])
    {
      PairIff(lib, pieces[i], pairs[i]);
    }
  }

  lemma QueryIsParsed(
    lib: Library, query: string, pieces: seq<string>, pairs: seq<(string, string)>, params: map<string, string>)
    requires IsQueryOf(lib, query, pieces, pairs) && Holds(params, pairs)
    ensures query != "" && ParsedQuery(lib, query) == Ok(params)
  {
    hide ParsePair, Join, SpellsPair;
    forall i | 0 <= i < |pieces|
      ensures Spells(lib, pieces[i], pairs[i])
    {
      PairIff(lib, pieces[i], pairs[i]);
    }
    QueryGivesPairs(lib, pieces, pairs);
    InsertAllDistinct(pairs);
    var r := InsertAll(pairs).value;
    hide ParsedQuery, InsertAll;
    SameHoldings(params, r, pairs);
    SomethingHeld(params, pairs);
    assert ParsedQuery(lib, "") == Ok(map[]) by { EmptyQuery(lib); }
  }

  lemma EmptyQuery(lib: Library)
    ensures ParsedQuery(lib, "") == Ok(map[])
  {
  }

  lemma SomethingHeld(params: map<string, string>, pairs: seq<(string, string)>)
    requires Holds(params, pairs) && pairs != []
    ensures params != map[]
  {
    assert (pairs[0].0, pairs[0].1) in pairs;
  }

  lemma SameHoldings(params: map<string, string>, params': map<string, string>, pairs: seq<(string, string)>)
    requires Holds(params, pairs) && Holds(params', pairs)
    ensures params == params'
  {
    forall k
      ensures k in params <==> k in params'
      ensures k in params ==> params[k] == params'[k]
    {
      if k in params { assert (k, params[k]) in pairs; }
      if k in params' { assert (k, params'[k]) in pairs; }
    }
  }

  /** A query gives parameters exactly when it is empty and so are they, or it spells them, each key once. */
  lemma QueryIff(lib: Library, query: string, params: map<string, string>)
    ensures ParsedQuery(lib, query) == Ok(params)
            <==> || (query == "" && params == map[])
                 || exists pieces, pairs :: IsQueryOf(lib, query, pieces, pairs) && Holds(params, pairs)
  {
    EmptyQuery(lib);
    hide ParsedQuery, IsQueryOf, Holds;
    if query != "" && ParsedQuery(lib, query) == Ok(params) {
      var pieces, pairs := ParsedIsQuery(lib, query);
    }
    forall pieces, pairs | IsQueryOf(lib, query, pieces, pairs) && Holds(params, pairs)
      ensures ParsedQuery(lib, query) == Ok(params)
    {
      QueryIsParsed(lib, query, pieces, pairs, params);
    }
  }

  // ----- an encoder -----

  function UpperDigit(d: nat): char
    requires d < 16
  {
    "0123456789ABCDEF"[d]
  }

  /** Unreserved characters (section 2.3 of RFC 3986). */
  predicate IsUnreserved(b: byte) {
    var c := b as char;
    'a' <= c <= 'z' || 'A' <= c <= 'Z' || '0' <= c <= '9' || c == '-' || c == '_' || c == '.' || c == '~'
  }

  function EscapeByte(b: byte): string {
    if IsUnreserved(b) then [b as char] else ['%', UpperDigit(b / 16), UpperDigit(b % 16)]
  }

  function EscapeBytes(b: bytes): string {
    if b == [] then "" else EscapeByte(b[0]) + EscapeBytes(b[1..])
  }

  /** Percent-encoding of text: the escaped bytes of its UTF-8 form. */
  function PercentEncode(s: string): string { EscapeBytes(Utf8.Encode(s)) }

  lemma UpperDigitValue(d: nat)
    requires d < 16
    ensures DigitValue(UpperDigit(d)) == Some(d)
    ensures '0' <= UpperDigit(d) <= '9' || 'A' <= UpperDigit(d) <= 'F'
  {
  }

  lemma EncodedEscape(b: byte)
    ensures IsUnreserved(b) ==> Utf8.Encode(EscapeByte(b)) == [b]
    ensures !IsUnreserved(b) ==>
              var e := Utf8.Encode(EscapeByte(b));
              && |e| == 3 && e[0] == PERCENT
              && HexByteValue(e[1]) == Some(b / 16) && HexByteValue(e[2]) == Some(b % 16)
    ensures '&' !in EscapeByte(b) && '=' !in EscapeByte(b)
  {
    UpperDigitValue(b / 16);
    UpperDigitValue(b % 16);
    hide UpperDigit, DigitValue;
    Utf8.EncodeAscii(EscapeByte(b));
    hide Utf8.Encode;
  }

  lemma EscapedByte(b: byte, rest: bytes)
    requires HasOnlyEscapes(rest)
    ensures HasOnlyEscapes(Utf8.Encode(EscapeByte(b)) + rest)
    ensures Unescape(Utf8.Encode(EscapeByte(b)) + rest) == [b] + Unescape(rest)
  {
    EncodedEscape(b);
    hide EscapeByte, Utf8.Encode, HexByteValue;
    var e := Utf8.Encode(EscapeByte(b));
    var s := e + rest;
    if IsUnreserved(b) {
      assert s[0] == b && s[1..] == rest;
    } else {
      assert s[0] == e[0] && s[1] == e[1] && s[2] == e[2] && s[3..] == rest;
      assert b / 16 * 16 + b % 16 == b;
    }
  }

  lemma {:induction false} EscapedBytes(b: bytes)
    ensures HasOnlyEscapes(Utf8.Encode(EscapeBytes(b))) && Unescape(Utf8.Encode(EscapeBytes(b))) == b
    ensures '&' !in EscapeBytes(b) && '=' !in EscapeBytes(b)
  {
    if b != [] {
      hide HasOnlyEscapes, Unescape, EscapeByte;
      EscapedBytes(b[1..]);
      EscapedByte(b[0], Utf8.Encode(EscapeBytes(b[1..])));
      EncodedEscape(b[0]);
      Utf8.EncodeConcat(EscapeByte(b[0]), EscapeBytes(b[1..]));
      assert b == [b[0]] + b[1..];
    }
  }

  /** Percent-decoding inverts percent-encoding. */
  lemma PercentRoundTrip(lib: Library, s: string)
    ensures PercentDecode(lib, PercentEncode(s)) == Some(s)
    ensures '&' !in PercentEncode(s) && '=' !in PercentEncode(s)
  {
    EscapedBytes(Utf8.Encode(s));
    Utf8.DecodeIffEncoded(Utf8.Encode(s), s);
  }

  function EncodePair(pair: (string, string)): string {
    PercentEncode(pair.0) + "=" + PercentEncode(pair.1)
  }

  function EncodePairs(pairs: seq<(string, string)>): (r: seq<string>)
    ensures |r| == |pairs|
  {
    seq(|pairs|, i requires 0 <= i < |pairs| => EncodePair(pairs[i]))
  }

  function EncodeQuery(pairs: seq<(string, string)>): string {
    if pairs == [] then "" else Join(EncodePairs(pairs), '&')
  }

  lemma EncodedPairSpells(lib: Library, pair: (string, string))
    ensures Spells(lib, EncodePair(pair), pair)
  {
    PercentRoundTrip(lib, pair.0);
    PercentRoundTrip(lib, pair.1);
    hide PercentEncode, PercentDecode;
    assert "=" == ['='];
    SplitOnceUnique(PercentEncode(pair.0), PercentEncode(pair.1), '=');
  }

  /** Parsing an encoded list of pairs gives back exactly those pairs, or reports a repeated key. */
  lemma ParseInvertsEncode(lib: Library, pairs: seq<(string, string)>)
    ensures ParsedQuery(lib, EncodeQuery(pairs)).Ok? <==> DistinctKeys(pairs)
    ensures DistinctKeys(pairs) ==>
              forall k, v :: (k in ParsedQuery(lib, EncodeQuery(pairs)).value
                              && ParsedQuery(lib, EncodeQuery(pairs)).value[k] == v) <==> (k, v) in pairs
    ensures forall i, j | 0 <= i < j < |pairs| && pairs[i].0 == pairs[j].0 && DistinctKeys(pairs[..j]) ::
              ParsedQuery(lib, EncodeQuery(pairs)) == Err(Duplicate(pairs[j].0))
  {
    hide Spells, EncodePair, Join, Insert, Split;
    if pairs != [] {
      forall i | 0 <= i < |pairs|
        ensures Spells(lib, EncodePairs(pairs)[i], pairs[i])
      {
        EncodedPairSpells(lib, pairs[i]);
      }
      QueryGivesPairs(lib, EncodePairs(pairs), pairs);
    }
    hide ParsedQuery, EncodeQuery;
    if DistinctKeys(pairs) {
      InsertAllDistinct(pairs);
    } else {
      var i, j := FirstRepeat(pairs);
      InsertAllRepeated(pairs, i, j);
    }
    forall i, j | 0 <= i < j < |pairs| && pairs[i].0 == pairs[j].0 && DistinctKeys(pairs[..j])
      ensures ParsedQuery(lib, EncodeQuery(pairs)) == Err(Duplicate(pairs[j].0))
    {
      InsertAllRepeated(pairs, i, j);
    }
  }

  lemma {:induction false} FirstRepeat(pairs: seq<(string, string)>) returns (i: nat, j: nat)
    requires !DistinctKeys(pairs)
    ensures i < j < |pairs| && pairs[i].0 == pairs[j].0 && DistinctKeys(pairs[..j])
  {
    var n := |pairs| - 1;
    if DistinctKeys(pairs[..n]) {
      var a, b :| 0 <= a < b < |pairs| && pairs[a].0 == pairs[b].0;
      i, j := a, n;
    } else {
      i, j := FirstRepeat(pairs[..n]);
      assert pairs[..n][..j] == pairs[..j];
    }
  }

  // ----- recognising a proof request -----

  datatype Reason =
    | MethodNotAllowed
    | NotFound
    | UnsupportedProduct
    | BadQuery(query: QueryError)
    | UnsupportedParameter
    | Missing(name: string)
    | NotInteger(name: string)
    | WrongGranularity
    | WrongLimit
    | Invalid(request: RequestError)

  datatype Rejection = Rejection(status: nat, reason: Reason)

  function StripPrefix(s: string, prefix: string): Option<string> {
    if prefix <= s then Some(s[|prefix|..]) else None
  }

  function StripSuffix(s: string, suffix: string): Option<string> {
    if |suffix| <= |s| && s[|s| - |suffix|..] == suffix then Some(s[..|s| - |suffix|]) else None
  }

  function ProductOf(path: string): Option<string> {
    var rest :- StripPrefix(path, PROOF_PATH_PREFIX);
    StripSuffix(rest, PROOF_PATH_SUFFIX)
  }

  const PARAMETER_NAMES: set<string> := {"start", "end", "granularity", "limit"}

  function RequiredI64(params: map<string, string>, name: string): Result<i64, Rejection> {
    if name !in params then Err(Rejection(400, Missing(name)))
    else
      match ParseI64(params[name])
      case Some(n) => Ok(n)
      case None => Err(Rejection(400, NotInteger(name)))
  }

  function RequestOfParams(params: map<string, string>): Result<ProofRequest, Rejection> {
    if exists key :: key in params && key !in PARAMETER_NAMES then Err(Rejection(400, UnsupportedParameter))
    else
      var start :- RequiredI64(params, "start");
      var end :- RequiredI64(params, "end");
      if !("granularity" in params && params["granularity"] == GRANULARITY_LABEL)
      then Err(Rejection(400, WrongGranularity))
      else if !("limit" in params && params["limit"] == "1") then Err(Rejection(400, WrongLimit))
      else
        var request := ProofRequest(start, end);
        match ValidateRequest(request)
        case Err(e) => Err(Rejection(400, Invalid(e)))
        case Ok(_) => Ok(request)
  }

  /** `parse_public_proof_request`. */
  function ParsePublicProofRequest(lib: Library, verb: string, target: string): Result<ProofRequest, Rejection> {
    if verb != "GET" then Err(Rejection(405, MethodNotAllowed))
    else
      var (path, query) := match SplitOnce(target, '?') case Some(parts) => parts case None => (target, "");
      match ProductOf(path)
      case None => Err(Rejection(404, NotFound))
      case Some(product) =>
        if product != PRODUCT_ID then Err(Rejection(400, UnsupportedProduct))
        else
          match ParsedQuery(lib, query)
          case Err(e) => Err(Rejection(400, BadQuery(e)))
          case Ok(params) => RequestOfParams(params)
  }

  /** The one path that names the supported product. */
  const PROOF_PATH := PROOF_PATH_PREFIX + PRODUCT_ID + PROOF_PATH_SUFFIX

  /** A path names a product exactly when it is that product between the fixed prefix and suffix. */
  lemma ProductOfIff(path: string, product: string)
    ensures ProductOf(path) == Some(product) <==> path == "/proof/v1/products/" + product + "/candles"
  {
    var n := |PROOF_PATH_PREFIX|;
    if PROOF_PATH_PREFIX <= path {
      var rest := path[n..];
      assert path == PROOF_PATH_PREFIX + rest;
      if ProductOf(path) == Some(product) {
        assert rest == product + rest[|product|..];
      }
    }
    if path == PROOF_PATH_PREFIX + product + PROOF_PATH_SUFFIX {
      var rest := product + PROOF_PATH_SUFFIX;
      assert path == PROOF_PATH_PREFIX + rest;
      assert path[n..] == rest;
      assert rest[|rest| - |PROOF_PATH_SUFFIX|..] == PROOF_PATH_SUFFIX && rest[..|product|] == product;
    }
  }

  lemma ProductPath(path: string)
    ensures ProductOf(path) == Some(PRODUCT_ID) <==> path == PROOF_PATH
  {
    ProductOfIff(path, PRODUCT_ID);
  }

  /** The four parameters, and nothing else, ask for this request. */
  ghost predicate AsksFor(params: map<string, string>, request: ProofRequest) {
    && params.Keys == PARAMETER_NAMES
    && SpellsInt(params["start"], request.start)
    && SpellsInt(params["end"], request.end)
    && params["granularity"] == "FIVE_MINUTE"
    && params["limit"] == "1"
    && 0 <= request.start == request.end && request.start % 300 == 0
  }

  lemma ParamsAcceptedIff(params: map<string, string>, request: ProofRequest)
    ensures RequestOfParams(params) == Ok(request) <==> AsksFor(params, request)
  {
    hide ParseI64, SpellsInt;
    if "start" in params { ParseI64Iff(params["start"], request.start); }
    if "end" in params { ParseI64Iff(params["end"], request.end); }
    if RequestOfParams(params) == Ok(request) {
      assert params.Keys == PARAMETER_NAMES;
    }
  }

  lemma ProofPathHasNoQuery()
    ensures '?' !in PROOF_PATH
  {
  }

  /**
   A request is accepted exactly when it is a GET of the product's path with a query whose
   parameters are the four known ones, asking for an aligned candle start.
   */
  lemma AcceptedIff(lib: Library, verb: string, target: string, request: ProofRequest)
    ensures ParsePublicProofRequest(lib, verb, target) == Ok(request)
            <==> verb == "GET"
                 && exists query ::
                      && target == PROOF_PATH + "?" + query
                      && ParsedQuery(lib, query).Ok? && AsksFor(ParsedQuery(lib, query).value, request)
  {
    hide ParsedQuery, RequestOfParams, ProductOf, AsksFor, PROOF_PATH;
    ProofPathHasNoQuery();
    forall params ensures RequestOfParams(params) == Ok(request) <==> AsksFor(params, request) {
      ParamsAcceptedIff(params, request);
    }
    forall path ensures ProductOf(path) == Some(PRODUCT_ID) <==> path == PROOF_PATH {
      ProductPath(path);
    }
    assert "?" == ['?'];
    forall query | target == PROOF_PATH + "?" + query
      ensures SplitOnce(target, '?') == Some((PROOF_PATH, query))
    {
      SplitOnceUnique(PROOF_PATH, query, '?');
    }
    EmptyQueryAsksNothing(lib, request);
  }

  lemma EmptyQueryAsksNothing(lib: Library, request: ProofRequest)
    ensures ParsedQuery(lib, "") == Ok(map[]) && !AsksFor(map[], request)
  {
    assert "start" in PARAMETER_NAMES;
  }

  /** The part of the target before its query is the path of some product. */
  ghost predicate IsProductPath(target: string, product: string) {
    Before(target, '?') == "/proof/v1/products/" + product + "/candles"
  }

  /**
   A wrong method is answered 405, a path of no product 404, another product 400 as such, and
   anything else that is wrong 400.
   */
  lemma RejectionStatus(lib: Library, verb: string, target: string)
    requires ParsePublicProofRequest(lib, verb, target).Err?
    ensures var rejection := ParsePublicProofRequest(lib, verb, target).error;
            && (rejection.status == 405 <==> verb != "GET")
            && (rejection.status == 404 <==> verb == "GET" && forall product :: !IsProductPath(target, product))
            && (rejection == Rejection(400, UnsupportedProduct)
                <==> verb == "GET" && exists product :: product != "BTC-USD" && IsProductPath(target, product))
            && (rejection.status == 400 || rejection.status == 404 || rejection.status == 405)
  {
    hide ParsedQuery, ProductOf, RequestOfParams;
    forall params
      ensures RequestOfParams(params).Err? ==> IsParamsError(RequestOfParams(params).error)
    {
      BadParamsStatus(params);
    }
    var path := Before(target, '?');
    match SplitOnce(target, '?') {
      case None => SplitHead(target, "", '?');
      case Some((before, query)) => SplitHead(before, query, '?');
    }
    forall product
      ensures ProductOf(path) == Some(product) <==> IsProductPath(target, product)
    {
      ProductOfIff(path, product);
    }
  }

  predicate IsParamsError(rejection: Rejection) {
    rejection.status == 400 && rejection.reason != UnsupportedProduct
  }

  lemma BadParamsStatus(params: map<string, string>)
    ensures RequestOfParams(params).Err? ==> IsParamsError(RequestOfParams(params).error)
  {
    hide ParseI64, ValidateRequest;
  }

  ghost predicate IsIntegerText(s: string) { exists n :: IsI64(n) && SpellsInt(s, n) }

  lemma IntegerTextIff(s: string)
    ensures ParseI64(s).Some? <==> IsIntegerText(s)
  {
    hide ParseI64, SpellsInt;
    if ParseI64(s).Some? {
      ParseI64Iff(s, ParseI64(s).value);
    }
    forall n | IsI64(n) && SpellsInt(s, n)
      ensures ParseI64(s) == Some(n)
    {
      ParseI64Iff(s, n);
    }
  }

  /** A start or end that is no 64-bit integer is refused with 400, as such unless a parameter is unknown. */
  lemma NonIntegerRefused(lib: Library, query: string, params: map<string, string>)
    requires ParsedQuery(lib, query) == Ok(params) && "start" in params && "end" in params
    requires !IsIntegerText(params["start"]) || !IsIntegerText(params["end"])
    ensures ParsePublicProofRequest(lib, "GET", PROOF_PATH + "?" + query) ==
            Err(Rejection(400, if !(params.Keys <= PARAMETER_NAMES) then UnsupportedParameter
                               else NotInteger(if IsIntegerText(params["start"]) then "end" else "start")))
  {
    hide ParsedQuery, ParseI64, ProductOf, IsIntegerText, PROOF_PATH;
    IntegerTextIff(params["start"]);
    IntegerTextIff(params["end"]);
    ProofPathHasNoQuery();
    ProductPath(PROOF_PATH);
    assert "?" == ['?'];
    SplitOnceUnique(PROOF_PATH, query, '?');
  }

  // ----- round trip with the query printer -----

  /** ASCII text without a percent sign decodes to itself. */
  lemma PlainDecodes(lib: Library, s: string)
    requires Utf8.IsAscii(s) && '%' !in s
    ensures PercentDecode(lib, s) == Some(s)
  {
    var b := Utf8.Encode(s);
    Utf8.EncodeAscii(s);
    forall i | 0 <= i < |b|
      ensures b[i] != PERCENT
    {
      assert s[i] != '%';
    }
    NothingToUnescape(b);
    Utf8.DecodeIffEncoded(b, s);
  }

  lemma {:induction false} NothingToUnescape(b: bytes)
    requires forall i | 0 <= i < |b| :: b[i] != PERCENT
    ensures HasOnlyEscapes(b) && Unescape(b) == b
  {
    if b != [] {
      NothingToUnescape(b[1..]);
      assert b == [b[0]] + b[1..];
    }
  }

  /** Text that needs no encoding in a query. */
  predicate IsPlain(s: string) {
    Utf8.IsAscii(s) && '%' !in s && '&' !in s && '=' !in s
  }

  lemma PlainPairSpells(lib: Library, key: string, value: string)
    requires IsPlain(key) && IsPlain(value)
    ensures Spells(lib, key + "=" + value, (key, value))
  {
    PlainDecodes(lib, key);
    PlainDecodes(lib, value);
    hide PercentDecode;
    assert "=" == ['='];
    SplitOnceUnique(key, value, '=');
  }

  /** The four parameters of a request, as the printer writes them. */
  function ParametersOf(request: ProofRequest): seq<(string, string)> {
    [("start", PrintInt(request.start)), ("end", PrintInt(request.end)),
     ("granularity", GRANULARITY_LABEL), ("limit", "1")]
  }

  function PlainPiece(pair: (string, string)): string { pair.0 + "=" + pair.1 }

  lemma PrintedIsPlain(n: i64)
    requires n >= 0
    ensures IsPlain(PrintInt(n))
  {
    hide PrintNat;
    PrintedValue(n, 10);
  }

  lemma ParameterIsPlain(request: ProofRequest, pair: (string, string))
    requires request.start >= 0 && request.end >= 0 && pair in ParametersOf(request)
    ensures IsPlain(pair.0) && IsPlain(pair.1)
  {
    PrintedIsPlain(request.start);
    PrintedIsPlain(request.end);
    NamesArePlain();
    hide PrintInt, IsPlain;
  }

  lemma NamesArePlain()
    ensures IsPlain("start") && IsPlain("end") && IsPlain("granularity") && IsPlain("limit")
    ensures IsPlain(GRANULARITY_LABEL) && IsPlain("1")
  {
    assert IsPlain("start") && IsPlain("end");
    assert IsPlain("granularity") && IsPlain("limit");
    LabelIsPlain();
  }

  lemma LabelIsPlain()
    ensures IsPlain(GRANULARITY_LABEL)
  {
  }

  /** In whatever order the four parameters are sent, the request is recognised. */
  lemma AnyOrderRecognised(lib: Library, request: ProofRequest, pairs: seq<(string, string)>)
    requires ValidateRequest(request).Ok?
    requires |pairs| == 4 && forall pair | pair in ParametersOf(request) :: pair in pairs
    ensures ParsePublicProofRequest(lib, "GET",
              PROOF_PATH + "?" + Join(seq(4, i requires 0 <= i < 4 => PlainPiece(pairs[i])), '&')) == Ok(request)
  {
    var pieces := seq(4, i requires 0 <= i < 4 => PlainPiece(pairs[i]));
    var query := Join(pieces, '&');
    FourOfFour(request, pairs);
    forall i | 0 <= i < 4
      ensures Spells(lib, pieces[i], pairs[i])
    {
      ParameterIsPlain(request, pairs[i]);
      PlainPairSpells(lib, pairs[i].0, pairs[i].1);
    }
    hide Spells, Join;
    QueryGivesPairs(lib, pieces, pairs);
    InsertAllDistinct(pairs);
    hide ParsedQuery, ParsePublicProofRequest, InsertAll;
    ParametersAskFor(request, pairs, ParsedQuery(lib, query).value);
    AcceptedIff(lib, "GET", PROOF_PATH + "?" + query, request);
  }

  /** Four pairs that include the four parameters are those, each once. */
  lemma FourOfFour(request: ProofRequest, pairs: seq<(string, string)>)
    requires |pairs| == 4 && forall pair | pair in ParametersOf(request) :: pair in pairs
    ensures DistinctKeys(pairs)
    ensures forall pair :: pair in pairs <==> pair in ParametersOf(request)
  {
    ParametersDiffer(request);
    hide ParametersOf;
    var p := ParametersOf(request);
    assert p[0] in pairs && p[1] in pairs && p[2] in pairs && p[3] in pairs;
    var a :| 0 <= a < 4 && pairs[a] == p[0];
    var b :| 0 <= b < 4 && pairs[b] == p[1];
    var c :| 0 <= c < 4 && pairs[c] == p[2];
    var d :| 0 <= d < 4 && pairs[d] == p[3];
    assert a != b && a != c && a != d && b != c && b != d && c != d;
  }

  lemma ParametersDiffer(request: ProofRequest)
    ensures |ParametersOf(request)| == 4 && DistinctKeys(ParametersOf(request))
  {
    hide PrintInt;
    assert |"start"| == 5 && |"end"| == 3 && |"granularity"| == 11 && |"limit"| == 5;
    assert "start"[0] == 's' && "limit"[0] == 'l';
  }

  lemma ParametersAskFor(request: ProofRequest, pairs: seq<(string, string)>, params: map<string, string>)
    requires ValidateRequest(request).Ok?
    requires forall pair :: pair in pairs <==> pair in ParametersOf(request)
    requires forall k, v :: (k in params && params[k] == v) <==> (k, v) in pairs
    ensures AsksFor(params, request)
  {
    ParsePrintedInt(request.start);
    ParsePrintedInt(request.end);
    ParseI64Iff(PrintInt(request.start), request.start);
    ParseI64Iff(PrintInt(request.end), request.end);
    hide PrintInt, ParseI64, SpellsInt;
    var p := ParametersOf(request);
    assert p[0] in p && p[1] in p && p[2] in p && p[3] in p;
    assert ("start", PrintInt(request.start)) in pairs && ("end", PrintInt(request.end)) in pairs;
    assert ("granularity", GRANULARITY_LABEL) in pairs && ("limit", "1") in pairs;
    forall k | k in params
      ensures k in PARAMETER_NAMES
    {
      assert (k, params[k]) in p;
    }
  }

  lemma QueryText(start: string, end: string, granularity: string)
    ensures "start=" + start + "&end=" + end + "&granularity=" + granularity + "&limit=1"
         == ("start" + "=" + start) + ['&'] + ("end" + "=" + end) + ['&'] + ("granularity" + "=" + granularity)
            + ['&'] + ("limit" + "=" + "1")
  {
    assert "start=" == "start" + "=";
    assert "&end=" == ['&'] + "end" + "=";
    assert "&granularity=" == ['&'] + "granularity" + "=";
    assert "&limit=1" == ['&'] + ("limit" + "=" + "1");
  }

  /** The printed query is the four parameters, joined in order. */
  lemma PrintedQueryIsJoined(request: ProofRequest)
    requires CoinbaseCandleQuery(request.start, request.end).Ok?
    ensures var pairs := ParametersOf(request);
            CoinbaseCandleQuery(request.start, request.end).value
            == Join(seq(4, i requires 0 <= i < 4 => PlainPiece(pairs[i])), '&')
  {
    hide PrintInt, Join;
    var pairs := ParametersOf(request);
    var pieces := seq(4, i requires 0 <= i < 4 => PlainPiece(pairs[i]));
    assert pieces == [PlainPiece(pairs[0]), PlainPiece(pairs[1]), PlainPiece(pairs[2]), PlainPiece(pairs[3])];
    JoinOfFour(PlainPiece(pairs[0]), PlainPiece(pairs[1]), PlainPiece(pairs[2]), PlainPiece(pairs[3]));
    QueryText(PrintInt(request.start), PrintInt(request.end), GRANULARITY_LABEL);
  }

  lemma JoinOfFour(a: string, b: string, c: string, d: string)
    ensures Join([a, b, c, d], '&') == a + ['&'] + b + ['&'] + c + ['&'] + d
  {
    assert [a, b, c, d][1..] == [b, c, d] && [b, c, d][1..] == [c, d] && [c, d][1..] == [d];
    assert Join([c, d], '&') == c + ['&'] + d;
    assert Join([b, c, d], '&') == b + ['&'] + Join([c, d], '&');
  }

  /** Asking for a request with the query the printer prints for it is recognised as that request. */
  lemma PrintedQueryRecognised(lib: Library, request: ProofRequest)
    requires CoinbaseCandleQuery(request.start, request.end).Ok?
    ensures ParsePublicProofRequest(lib, "GET",
              PROOF_PATH + "?" + CoinbaseCandleQuery(request.start, request.end).value) == Ok(request)
  {
    hide ParsePublicProofRequest, Join, PlainPiece;
    QueryAcceptsWhatValidates(request);
    PrintedQueryIsJoined(request);
    hide CoinbaseCandleQuery;
    AnyOrderRecognised(lib, request, ParametersOf(request));
  }

  /** Any accepted request, re-printed, is accepted as the same request. */
  lemma ReprintedRequestRecognised(lib: Library, verb: string, target: string)
    requires ParsePublicProofRequest(lib, verb, target).Ok?
    ensures var request := ParsePublicProofRequest(lib, verb, target).value;
            && CoinbaseCandleQuery(request.start, request.end).Ok?
            && ParsePublicProofRequest(lib, "GET",
                 PROOF_PATH + "?" + CoinbaseCandleQuery(request.start, request.end).value) == Ok(request)
  {
    var request := ParsePublicProofRequest(lib, verb, target).value;
    AcceptedIff(lib, verb, target, request);
    hide ParsePublicProofRequest;
    QueryAcceptsWhatValidates(request);
    PrintedQueryRecognised(lib, request);
  }

  // ----- one-shot requests -----

  /** `request_from_args`, with the clock as a parameter. */
  function RequestFromArgs(start: Option<i64>, end: Option<i64>, now: Clock): Option<ProofRequest> {
    match (start, end)
    case (Some(s), Some(e)) => Some(ProofRequest(s, e))
    case (None, None) =>
      var (s, e) := LastCompletedBucket(now);
      Some(ProofRequest(s, e))
    case _ => None
  }

  /** Both ends given are taken as they are, neither means the last bucket, and one alone is refused. */
  lemma ArgsIff(start: Option<i64>, end: Option<i64>, now: Clock, request: ProofRequest)
    ensures RequestFromArgs(start, end, now) == Some(request)
            <==> || (start == Some(request.start) && end == Some(request.end))
                 || (start.None? && end.None? && LastCompletedBucket(now) == (request.start, request.end))
  {
  }

  /** The default request is valid exactly once the first bucket after the Unix epoch has ended. */
  lemma DefaultRequestValidIff(now: Clock)
    ensures RequestFromArgs(None, None, now).Some?
    ensures ValidateRequest(RequestFromArgs(None, None, now).value).Ok? <==> now >= 300
  {
    if now >= 300 {
      BucketIsLastCompleted(now);
    } else if now < 0 {
      assert LastCompletedBucket(now).0 < 0;
    }
  }
}

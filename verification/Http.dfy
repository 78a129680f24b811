/** The Coinbase query and the HTTP response parser of src/http.rs. */
module Http {
  import opened Wrappers
  import opened Bytes
  import opened Numbers
  import opened Text
  import opened Documents
  import opened Library
  import opened Chunked
  import Utf8

  // ----- the query -----

  datatype RequestError =
    | NegativeStart
    | NegativeEnd
    | StartAfterEnd
    | StartNotEnd
    | Unaligned

  /** `coinbase_candle_query`. Rust's `%` on a non-negative start is the mathematical one. */
  function CoinbaseCandleQuery(start: i64, end: i64): Result<string, RequestError> {
    if start < 0 then Err(NegativeStart)
    else if end < 0 then Err(NegativeEnd)
    else if start > end then Err(StartAfterEnd)
    else if start != end then Err(StartNotEnd)
    else if start % GRANULARITY_SECONDS != 0 then Err(Unaligned)
    else Ok("start=" + PrintInt(start) + "&end=" + PrintInt(end)
            + "&granularity=" + GRANULARITY_LABEL + "&limit=1")
  }

  // ----- headers -----

  function HeaderText(lib: Library, value: bytes): string {
    Trim(match Utf8.Decode(value) case Some(s) => s case None => lib.utf8Lossy(value))
  }

  /** The header map after the given headers, each inserted over earlier ones. */
  function Normalized(lib: Library, headers: seq<Header>): map<string, string> {
    if headers == [] then map[]
    else
      var last := headers[|headers| - 1];
      Normalized(lib, headers[..|headers| - 1])[ToLower(last.name) := HeaderText(lib, last.value)]
  }

  method NormalizeHeaders(lib: Library, headers: seq<Header>) returns (out: map<string, string>)
    ensures out == Normalized(lib, headers)
  {
    out := map[];
    for i := 0 to |headers|
      invariant out == Normalized(lib, headers[..i])
    {
      assert headers[..i + 1][..i] == headers[..i];
      var name := ToLower(headers[i].name);
      out := out[name := HeaderText(lib, headers[i].value)];
    }
    assert headers[..|headers|] == headers;
  }

  /** Header `i` is the last one of its name, compared without case. */
  predicate IsLastOfName(headers: seq<Header>, i: nat)
    requires i < |headers|
  {
    forall j | i < j < |headers| :: ToLower(headers[j].name) != ToLower(headers[i].name)
  }

  /** A header map holds exactly the names that occur. */
  lemma {:induction false} NormalizedNames(lib: Library, headers: seq<Header>, name: string)
    ensures name in Normalized(lib, headers)
            <==> exists i | 0 <= i < |headers| :: ToLower(headers[i].name) == name
  {
    hide ToLower, HeaderText;
    if headers != [] {
      var n := |headers| - 1;
      NormalizedNames(lib, headers[..n], name);
      if name in Normalized(lib, headers[..n]) {
        var i :| 0 <= i < n && ToLower(headers[..n][i].name) == name;
        assert headers[i] == headers[..n][i];
      }
      forall i | 0 <= i < n && ToLower(headers[i].name) == name
        ensures name in Normalized(lib, headers[..n])
      {
        assert headers[i] == headers[..n][i];
      }
    }
  }

  /** Each name has the value of its last occurrence. */
  lemma {:induction false} LastHeaderWins(lib: Library, headers: seq<Header>, i: nat)
    requires i < |headers| && IsLastOfName(headers, i)
    ensures var name := ToLower(headers[i].name);
            name in Normalized(lib, headers) && Normalized(lib, headers)[name] == HeaderText(lib, headers[i].value)
  {
    hide ToLower, HeaderText;
    var n := |headers| - 1;
    if i < n {
      assert headers[..n][i] == headers[i];
      assert forall j | i < j < n :: headers[..n][j] == headers[j];
      LastHeaderWins(lib, headers[..n], i);
    }
  }

  function HeaderValue(headers: map<string, string>, name: string): Option<string> {
    if ToLower(name) in headers then Some(headers[ToLower(name)]) else None
  }

  // ----- the response -----

  datatype HttpError =
    | NoHeaderEnd
    | BadHead
    | NoStatus
    | BadChunks(chunkError: ChunkError)
    | InvalidContentLength
    | LengthMismatch
    | BodyNotJson

  datatype FetchResult = FetchResult(
    status: u16, headers: map<string, string>, bodyBytes: bytes, bodyJson: Json, tls: TlsInfo)

  /** The index just after the first blank line. */
  function FindHeaderEnd(b: bytes): (r: Option<nat>)
    ensures r.Some? ==> 4 <= r.value <= |b|
  {
    match Find(b, BLANK_LINE, 0)
    case Some(i) => Some(i + 4)
    case None => None
  }

  predicate IsChunkedHeader(headers: map<string, string>) {
    match HeaderValue(headers, "transfer-encoding")
    case Some(value) => Find(ToLower(value), "chunked", 0).Some?
    case None => false
  }

  /** The body the framing headers describe. */
  function BodyBytes(headers: map<string, string>, raw: bytes): Result<bytes, HttpError> {
    if IsChunkedHeader(headers) then
      match Decoded(SizeOfLine, raw, 0)
      case Ok(data) => Ok(data)
      case Err(e) => Err(BadChunks(e))
    else Ok(raw)
  }

  function CheckContentLength(headers: map<string, string>, length: nat): Result<(), HttpError> {
    match HeaderValue(headers, "content-length")
    case None => Ok(())
    case Some(text) =>
      var expected :- ParseUnsigned(text, 10, USIZE - 1).ToResult(InvalidContentLength);
      if length != expected then Err(LengthMismatch) else Ok(())
  }

  /** `parse_http_response`. */
  function ParseHttpResponse(lib: Library, response: bytes, tls: TlsInfo): Result<FetchResult, HttpError> {
    var bodyStart :- FindHeaderEnd(response).ToResult(NoHeaderEnd);
    var head :- lib.parseHead(response[..bodyStart]).ToResult(BadHead);
    var status :- head.code.ToResult(NoStatus);
    var headers := Normalized(lib, head.headers);
    var bodyBytes :- BodyBytes(headers, response[bodyStart..]);
    var _ :- CheckContentLength(headers, |bodyBytes|);
    var bodyJson :- lib.parseJson(bodyBytes).ToResult(BodyNotJson);
    Ok(FetchResult(status, headers, bodyBytes, bodyJson, tls))
  }

  /** The bytes CR, LF, CR, LF stand at `i`. */
  predicate IsSeparator(b: bytes, i: int) {
    0 <= i && i + 4 <= |b| && b[i] == 13 && b[i + 1] == 10 && b[i + 2] == 13 && b[i + 3] == 10
  }

  /** A response head: it ends with that separator, which stands nowhere before. */
  predicate IsHead(head: bytes) {
    IsSeparator(head, |head| - 4) && forall j | 0 <= j < |head| - 4 :: !IsSeparator(head, j)
  }

  lemma SeparatorIsBlankLine(b: bytes, i: int)
    ensures At(b, BLANK_LINE, i) <==> IsSeparator(b, i)
  {
    AtIff(b, BLANK_LINE, i);
    if IsSeparator(b, i) {
      assert forall k | i <= k < i + 4 :: b[k] == BLANK_LINE[k - i];
    }
    if 0 <= i && i + 4 <= |b| && forall k | i <= k < i + 4 :: b[k] == BLANK_LINE[k - i] {
      assert b[i] == 13 && b[i + 1] == 10 && b[i + 2] == 13 && b[i + 3] == 10;
    }
  }

  /** The head ends behind the first separator, and there is none exactly when there is no separator. */
  lemma HeaderEndIff(b: bytes, end: nat)
    ensures FindHeaderEnd(b) == Some(end)
            <==> IsSeparator(b, end - 4) && forall j | 0 <= j < end - 4 :: !IsSeparator(b, j)
    ensures FindHeaderEnd(b).None? <==> forall j :: !IsSeparator(b, j)
  {
    forall i
      ensures At(b, BLANK_LINE, i) <==> IsSeparator(b, i)
    {
      SeparatorIsBlankLine(b, i);
    }
    hide At, IsSeparator;
    if IsSeparator(b, end - 4) && forall j | 0 <= j < end - 4 :: !IsSeparator(b, j) {
      FindsFirst(b, BLANK_LINE, end - 4);
    }
  }

  /** The response splits behind its first blank line, whatever the body contains. */
  lemma SplitsAtFirstBlankLine(response: bytes, bodyStart: nat)
    ensures FindHeaderEnd(response) == Some(bodyStart)
            <==> bodyStart <= |response| && IsHead(response[..bodyStart])
  {
    HeaderEndIff(response, bodyStart);
    if bodyStart <= |response| {
      forall j | j + 4 <= bodyStart
        ensures IsSeparator(response, j) <==> IsSeparator(response[..bodyStart], j)
      {
      }
    }
  }

  // ----- what a response is -----

  /** The lower-cased value of the transfer encoding contains the word. */
  ghost predicate SaysChunked(headers: map<string, string>) {
    && "transfer-encoding" in headers
    && exists before, after :: ToLower(headers["transfer-encoding"]) == before + "chunked" + after
  }

  lemma HeaderNamesAreLower()
    ensures ToLower("transfer-encoding") == "transfer-encoding" && ToLower("content-length") == "content-length"
    ensures ToLower("content-type") == "content-type" && ToLower("date") == "date"
  {
  }

  lemma ChunkedHeaderIff(headers: map<string, string>)
    ensures IsChunkedHeader(headers) <==> SaysChunked(headers)
  {
    HeaderNamesAreLower();
    if "transfer-encoding" in headers {
      var s := ToLower(headers["transfer-encoding"]);
      hide ToLower;
      if Find(s, "chunked", 0).Some? {
        var i := Find(s, "chunked", 0).value;
        assert s == s[..i] + "chunked" + s[i + 7..];
      }
      forall before, after | s == before + "chunked" + after
        ensures Find(s, "chunked", 0).Some?
      {
        assert s[|before|..|before| + 7] == "chunked";
        assert At(s, "chunked", |before|);
      }
    }
  }

  /** What header bytes say: their text, read leniently, without outer whitespace. */
  ghost predicate IsHeaderText(lib: Library, value: bytes, text: string) {
    exists whole, before, after ::
      && (value == Utf8.Encode(whole) || (Utf8.Decode(value).None? && whole == lib.utf8Lossy(value)))
      && IsTrimmed(text) && IsPadded(whole, text, before, after)
  }

  lemma HeaderTextIff(lib: Library, value: bytes, text: string)
    ensures HeaderText(lib, value) == text <==> IsHeaderText(lib, value, text)
  {
    hide Trim, IsTrimmed, IsPadded;
    var decoded := Utf8.Decode(value);
    var read := match decoded case Some(s) => s case None => lib.utf8Lossy(value);
    forall whole
      ensures (value == Utf8.Encode(whole) || (decoded.None? && whole == lib.utf8Lossy(value))) <==> whole == read
    {
      Utf8.DecodeIffEncoded(value, whole);
    }
    hide Utf8.Decode, Utf8.Encode;
    TrimIff(read, text);
  }

  lemma {:induction false} LastOfName(headers: seq<Header>, name: string) returns (i: nat)
    requires exists j | 0 <= j < |headers| :: ToLower(headers[j].name) == name
    ensures i < |headers| && ToLower(headers[i].name) == name && IsLastOfName(headers, i)
  {
    hide ToLower;
    var n := |headers| - 1;
    if ToLower(headers[n].name) == name {
      i := n;
    } else {
      var j :| 0 <= j < |headers| && ToLower(headers[j].name) == name;
      assert headers[..n][j] == headers[j];
      i := LastOfName(headers[..n], name);
      assert forall k | 0 <= k < n :: headers[..n][k] == headers[k];
    }
  }

  /** A header has a value exactly when that is what the last header of its name says, in any case. */
  lemma HeaderValueIff(lib: Library, headers: seq<Header>, name: string, text: string)
    ensures HeaderValue(Normalized(lib, headers), name) == Some(text)
            <==> exists i | 0 <= i < |headers| ::
                   && ToLower(headers[i].name) == ToLower(name) && IsLastOfName(headers, i)
                   && IsHeaderText(lib, headers[i].value, text)
  {
    hide Normalized, ToLower, HeaderText, IsHeaderText;
    var key := ToLower(name);
    NormalizedNames(lib, headers, key);
    forall i | 0 <= i < |headers| && ToLower(headers[i].name) == key && IsLastOfName(headers, i)
      ensures HeaderValue(Normalized(lib, headers), name) == Some(text) <==> IsHeaderText(lib, headers[i].value, text)
    {
      LastHeaderWins(lib, headers, i);
      HeaderTextIff(lib, headers[i].value, text);
    }
    if key in Normalized(lib, headers) {
      var i := LastOfName(headers, key);
    }
  }

  /** `raw` carries `body` as the headers describe, and any Content-Length is its length. */
  ghost predicate CarriesBody(headers: map<string, string>, raw: bytes, body: bytes) {
    && (if SaysChunked(headers) then Decoded(SizeOfLine, raw, 0) == Ok(body) else raw == body)
    && ("content-length" in headers ==> |body| < USIZE && SpellsUnsigned(headers["content-length"], |body|, 10))
  }

  /** A response: a head of `end` bytes with a status, and a JSON body carried by the rest. */
  ghost predicate IsResponse(lib: Library, response: bytes, tls: TlsInfo, fetch: FetchResult, end: nat) {
    && end <= |response| && IsHead(response[..end])
    && var head := lib.parseHead(response[..end]);
       && head.Some? && head.value.code == Some(fetch.status)
       && fetch.headers == Normalized(lib, head.value.headers)
       && CarriesBody(fetch.headers, response[end..], fetch.bodyBytes)
       && lib.parseJson(fetch.bodyBytes) == Some(fetch.bodyJson)
       && fetch.tls == tls
  }

  lemma CarriesBodyIff(headers: map<string, string>, raw: bytes, body: bytes)
    ensures CarriesBody(headers, raw, body)
            <==> BodyBytes(headers, raw) == Ok(body) && CheckContentLength(headers, |body|).Ok?
  {
    ChunkedHeaderIff(headers);
    HeaderNamesAreLower();
    hide Decoded, IsChunkedHeader, SaysChunked, SizeOfLine, ParseUnsigned, SpellsUnsigned, ToLower;
    if "content-length" in headers {
      ParseUnsignedIff(headers["content-length"], 10, USIZE - 1, |body|);
    }
  }

  /** A response is parsed, to given contents, exactly when it is a response with them. */
  lemma ParsesIff(lib: Library, response: bytes, tls: TlsInfo, fetch: FetchResult)
    ensures ParseHttpResponse(lib, response, tls) == Ok(fetch) <==> exists end :: IsResponse(lib, response, tls, fetch, end)
  {
    hide Normalized, CarriesBody, BodyBytes, CheckContentLength, FindHeaderEnd, IsHead;
    forall end: nat
      ensures FindHeaderEnd(response) == Some(end) <==> end <= |response| && IsHead(response[..end])
    {
      SplitsAtFirstBlankLine(response, end);
    }
    if FindHeaderEnd(response).Some? {
      var end := FindHeaderEnd(response).value;
      assert end <= |response| && IsHead(response[..end]);
      var head := lib.parseHead(response[..end]);
      if head.Some? {
        CarriesBodyIff(Normalized(lib, head.value.headers), response[end..], fetch.bodyBytes);
      }
      if ParseHttpResponse(lib, response, tls) == Ok(fetch) {
        assert IsResponse(lib, response, tls, fetch, end);
      }
    }
  }

  /**
   The headers of a parsed head say that the body is sent as is, or chunked; either way a
   Content-Length, if there is one, is the decimal length of the decoded body.
   */
  predicate IsFraming(headers: map<string, string>, body: bytes, raw: bytes) {
    && (IsChunkedHeader(headers) ==> Decoded(SizeOfLine, raw, 0) == Ok(body))
    && (!IsChunkedHeader(headers) ==> raw == body)
    && (HeaderValue(headers, "content-length").Some? ==>
          HeaderValue(headers, "content-length").value == PrintNat(|body|, 10))
  }

  /** What a well-formed response carrying `body` parses to, however it is framed. */
  lemma FramedResponse(lib: Library, head: bytes, body: bytes, raw: bytes, tls: TlsInfo)
    requires IsHead(head) && lib.parseHead(head).Some? && lib.parseHead(head).value.code.Some?
    requires IsFraming(Normalized(lib, lib.parseHead(head).value.headers), body, raw)
    requires |body| <= MAX_SLICE
    ensures ParseHttpResponse(lib, head + raw, tls) ==
            match lib.parseJson(body)
            case None => Err(BodyNotJson)
            case Some(json) =>
              var parsed := lib.parseHead(head).value;
              Ok(FetchResult(parsed.code.value, Normalized(lib, parsed.headers), body, json, tls))
  {
    hide Decoded, Normalized, IsChunkedHeader, SizeOfLine;
    var response := head + raw;
    assert response[..|head|] == head && response[|head|..] == raw;
    SplitsAtFirstBlankLine(response, |head|);
    ParsePrinted(|body|, 10, USIZE - 1);
  }

  /**
   Framing independence: the same body sent with a Content-Length and sent in chunks, under any
   chunking, gives the same body bytes and the same JSON, or fails alike.
   */
  lemma FramingIndependent(
    lib: Library, plain: bytes, chunked: bytes, body: bytes,
    parts: seq<(SizeStyle, bytes)>, end: SizeStyle, tail: bytes, tls: TlsInfo)
    requires IsHead(plain) && lib.parseHead(plain).Some? && lib.parseHead(plain).value.code.Some?
    requires IsHead(chunked) && lib.parseHead(chunked).Some? && lib.parseHead(chunked).value.code.Some?
    requires var headers := Normalized(lib, lib.parseHead(plain).value.headers);
             !IsChunkedHeader(headers)
             && HeaderValue(headers, "content-length") == Some(PrintNat(|body|, 10))
    requires var headers := Normalized(lib, lib.parseHead(chunked).value.headers);
             IsChunkedHeader(headers) && HeaderValue(headers, "content-length") == None
    requires forall i | 0 <= i < |parts| :: IsStyle(parts[i].0) && parts[i].1 != []
    requires IsStyle(end) && ConcatParts(parts) == body
    requires |body| <= MAX_SLICE && |EncodeBody(parts, end, tail)| <= MAX_SLICE
    ensures var direct := ParseHttpResponse(lib, plain + body, tls);
            var framed := ParseHttpResponse(lib, chunked + EncodeBody(parts, end, tail), tls);
            && (direct.Ok? <==> framed.Ok?)
            && (direct.Ok? <==> lib.parseJson(body).Some?)
            && (direct.Ok? ==> direct.value.bodyBytes == framed.value.bodyBytes == body)
            && (direct.Ok? ==> direct.value.bodyJson == framed.value.bodyJson == lib.parseJson(body).value)
            && (direct.Err? ==> direct.error == framed.error == BodyNotJson)
  {
    hide Decoded, Normalized, IsChunkedHeader, SizeOfLine, EncodeBody, ParseHttpResponse;
    ChunkedRoundTrip(parts, end, tail);
    FramedResponse(lib, plain, body, body, tls);
    FramedResponse(lib, chunked, body, EncodeBody(parts, end, tail), tls);
  }

  /** On success, any Content-Length present is the length of the decoded body. */
  lemma ContentLengthHolds(lib: Library, response: bytes, tls: TlsInfo)
    requires ParseHttpResponse(lib, response, tls).Ok?
    ensures var r := ParseHttpResponse(lib, response, tls).value;
            && lib.parseJson(r.bodyBytes) == Some(r.bodyJson)
            && (HeaderValue(r.headers, "content-length").Some? ==>
                  ParseUnsigned(HeaderValue(r.headers, "content-length").value, 10, USIZE - 1)
                  == Some(|r.bodyBytes|))
            && exists head, raw :: response == head + raw && IsHead(head)
                                   && BodyBytes(r.headers, raw) == Ok(r.bodyBytes)
  {
    hide Decoded, Normalized, IsChunkedHeader, SizeOfLine;
    var bodyStart := FindHeaderEnd(response).value;
    SplitsAtFirstBlankLine(response, bodyStart);
    assert response == response[..bodyStart] + response[bodyStart..];
  }
}

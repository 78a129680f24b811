/** From the bytes of a connection to a proof request, of src/bin/enclave-prover.rs. */
module Service {
  import opened Wrappers
  import opened Bytes
  import opened Numbers
  import opened Text
  import opened Documents
  import opened Library
  import opened Http
  import opened Prover
  import opened PublicRequest
  import opened RequestReader
  import Utf8

  datatype Refusal = Unreadable(read: ReadError) | Rejected(rejection: Rejection)

  /** The proof request `handle_connection` takes from a connection. */
  function RequestedOn(lib: Library, incoming: seq<Event>): Result<ProofRequest, Refusal> {
    match RequestFrom(incoming)
    case Err(e) => Err(Unreadable(e))
    case Ok(http) =>
      match ParsePublicProofRequest(lib, http.verb, http.target)
      case Err(rejection) => Err(Rejected(rejection))
      case Ok(request) => Ok(request)
  }

  /** A connection asks for a proof exactly when what is read from it is a GET of such a query. */
  lemma RequestedIff(lib: Library, incoming: seq<Event>, request: ProofRequest)
    ensures RequestedOn(lib, incoming) == Ok(request)
            <==> exists query ::
                   && RequestFrom(incoming) == Ok(HttpRequest("GET", PROOF_PATH + "?" + query))
                   && ParsedQuery(lib, query).Ok? && AsksFor(ParsedQuery(lib, query).value, request)
  {
    hide RequestFrom, ParsePublicProofRequest, ParsedQuery, AsksFor, PROOF_PATH;
    if RequestFrom(incoming).Ok? {
      var http := RequestFrom(incoming).value;
      AcceptedIff(lib, http.verb, http.target, request);
    }
  }

  lemma WordsJoin(s: string, t: string)
    requires IsWord(s) && IsWord(t)
    ensures IsWord(s + t)
  {
  }

  lemma DigitsAreWord(n: i64)
    requires n >= 0
    ensures IsWord(PrintInt(n))
  {
    hide PrintNat;
    PrintedValue(n, 10);
  }

  lemma PathIsWord()
    ensures IsWord(PROOF_PATH_PREFIX) && IsWord(PRODUCT_ID) && IsWord(PROOF_PATH_SUFFIX)
  {
  }

  lemma LabelsAreWords()
    ensures IsWord("start=") && IsWord("&end=") && IsWord("&granularity=") && IsWord("&limit=1")
    ensures IsWord(GRANULARITY_LABEL) && IsWord("?")
  {
  }

  lemma QueryIsWord(request: ProofRequest)
    requires CoinbaseCandleQuery(request.start, request.end).Ok?
    ensures IsWord(CoinbaseCandleQuery(request.start, request.end).value)
  {
    LabelsAreWords();
    DigitsAreWord(request.start);
    DigitsAreWord(request.end);
    hide IsWord, PrintInt;
    var s, e := PrintInt(request.start), PrintInt(request.end);
    WordsJoin("start=", s);
    WordsJoin("start=" + s, "&end=");
    WordsJoin("start=" + s + "&end=", e);
    WordsJoin("start=" + s + "&end=" + e, "&granularity=");
    WordsJoin("start=" + s + "&end=" + e + "&granularity=", GRANULARITY_LABEL);
    WordsJoin("start=" + s + "&end=" + e + "&granularity=" + GRANULARITY_LABEL, "&limit=1");
  }

  lemma TargetIsWord(query: string)
    requires IsWord(query)
    ensures IsWord(PROOF_PATH + "?" + query)
  {
    PathIsWord();
    LabelsAreWords();
    hide IsWord;
    WordsJoin(PROOF_PATH_PREFIX, PRODUCT_ID);
    WordsJoin(PROOF_PATH_PREFIX + PRODUCT_ID, PROOF_PATH_SUFFIX);
    WordsJoin(PROOF_PATH, "?");
    WordsJoin(PROOF_PATH + "?", query);
  }

  /** A GET of the printed query for a request, with any further header lines. */
  function RequestText(request: ProofRequest, rest: string): string
    requires CoinbaseCandleQuery(request.start, request.end).Ok?
  {
    "GET" + " " + (PROOF_PATH + "?" + CoinbaseCandleQuery(request.start, request.end).value)
    + " " + "HTTP/1.1" + "\r\n" + rest
  }

  /**
   A client that sends the printed query for a request, and headers up to its first blank line, is
   understood as asking for it, however the network cuts its bytes, if that line ends in time and
   what one read can deliver behind it is ASCII.
   */
  lemma PrintedRequestUnderEveryCut(lib: Library, request: ProofRequest, rest: string, trail: bytes, incoming: seq<Event>)
    requires CoinbaseCandleQuery(request.start, request.end).Ok?
    requires NoFailure(incoming) && StreamOf(incoming) == Utf8.Encode(RequestText(request, rest)) + trail
    requires BlankLineEnd(StreamOf(incoming)) == |Utf8.Encode(RequestText(request, rest))| <= MAX_REQUEST_BYTES + 1
    requires TrailIsAscii(StreamOf(incoming))
    ensures RequestedOn(lib, incoming) == Ok(request)
  {
    hide CoinbaseCandleQuery, ParsePublicProofRequest, ParseRequest, BlankLineEnd, StreamOf, RequestFrom, IsWord,
         TrailIsAscii, EveryCutSucceeds;
    var query := CoinbaseCandleQuery(request.start, request.end).value;
    var target := PROOF_PATH + "?" + query;
    assert Head(StreamOf(incoming)) == Utf8.Encode(RequestText(request, rest));
    QueryIsWord(request);
    TargetIsWord(query);
    assert IsWord("GET") && IsWord("HTTP/1.1") by { VerbAndVersion(); }
    RequestLineParses("GET", target, "HTTP/1.1", rest);
    EveryCutSucceedsIff(StreamOf(incoming));
    PrintedQueryRecognised(lib, request);
  }

  lemma VerbAndVersion()
    ensures IsWord("GET") && IsWord("HTTP/1.1")
  {
  }

  /** However a connection is cut, at most one proof request can come of it. */
  lemma OneRequestPerStream(lib: Library, incoming: seq<Event>, incoming': seq<Event>)
    requires NoFailure(incoming) && NoFailure(incoming') && StreamOf(incoming) == StreamOf(incoming')
    requires RequestedOn(lib, incoming).Ok? && RequestedOn(lib, incoming').Ok?
    ensures RequestedOn(lib, incoming) == RequestedOn(lib, incoming')
    ensures ValidateRequest(RequestedOn(lib, incoming).value).Ok?
  {
    hide RequestFrom, ParsePublicProofRequest;
    SegmentationIndependent(incoming, incoming');
    var http := RequestFrom(incoming).value;
    AcceptedIff(lib, http.verb, http.target, RequestedOn(lib, incoming).value);
    hide ParsedQuery;
  }
}

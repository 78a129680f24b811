/** Reading an HTTP request from a socket, of src/bin/enclave-prover.rs. */
module RequestReader {
  import opened Wrappers
  import opened Bytes
  import opened Text
  import opened Http
  import Utf8

  const MAX_REQUEST_BYTES: nat := 16 * 1024
  const BUFFER_BYTES: nat := 1024

  datatype ReadError =
    | ReadFailed
    | TooLarge
    | NotUtf8
    | NoRequestLine
    | NoMethod
    | NoTarget
    | NoVersion
    | BadVersion

  /** What one successful `read` delivers: at least one byte, at most a buffer full. */
  type Segment = b: bytes | 1 <= |b| <= BUFFER_BYTES witness [0]

  datatype Event = Data(segment: Segment) | Failure

  /** A connection, as what its reads will deliver; when nothing is left, a read returns zero. */
  class TcpStream {
    var incoming: seq<Event>

    constructor (events: seq<Event>)
      ensures incoming == events
    {
      incoming := events;
    }

    method Read(buf: array<byte>) returns (r: Result<nat, ReadError>)
      requires buf.Length == BUFFER_BYTES
      modifies this, buf
      ensures old(incoming) == [] ==> r == Ok(0) && incoming == []
      ensures old(incoming) != [] ==> incoming == old(incoming)[1..]
      ensures old(incoming) != [] && old(incoming)[0].Failure? ==> r == Err(ReadFailed)
      ensures old(incoming) != [] && old(incoming)[0].Data? ==>
                var segment := old(incoming)[0].segment;
                r == Ok(|segment|) && buf[..|segment|] == segment
    {
      if incoming == [] {
        return Ok(0);
      }
      var event := incoming[0];
      incoming := incoming[1..];
      match event {
        case Failure => r := Err(ReadFailed);
        case Data(segment) =>
          forall i | 0 <= i < |segment| {
            buf[i] := segment[i];
          }
          r := Ok(|segment|);
      }
    }
  }

  datatype HttpRequest = HttpRequest(verb: string, target: string)

  predicate HasBlankLine(b: bytes) { Find(b, BLANK_LINE, 0).Some? }

  /** The bytes the loop ends up with, when it holds `b` and `incoming` is still to come. */
  function Collected(b: bytes, incoming: seq<Event>): Result<bytes, ReadError>
    decreases |incoming|
  {
    if incoming == [] then Ok(b)
    else
      match incoming[0]
      case Failure => Err(ReadFailed)
      case Data(segment) =>
        var more := b + segment;
        if HasBlankLine(more) then Ok(more)
        else if |more| > MAX_REQUEST_BYTES then Err(TooLarge)
        else Collected(more, incoming[1..])
  }

  function ParseRequestLine(line: string): Result<HttpRequest, ReadError> {
    var (verb, afterVerb) :- NextWord(line).ToResult(NoMethod);
    var (target, afterTarget) :- NextWord(afterVerb).ToResult(NoTarget);
    var (version, _) :- NextWord(afterTarget).ToResult(NoVersion);
    if "HTTP/" <= version then Ok(HttpRequest(verb, target)) else Err(BadVersion)
  }

  function ParseRequest(b: bytes): Result<HttpRequest, ReadError> {
    var text :- Utf8.Decode(b).ToResult(NotUtf8);
    var line :- FirstLine(text).ToResult(NoRequestLine);
    ParseRequestLine(line)
  }

  function RequestFrom(incoming: seq<Event>): Result<HttpRequest, ReadError> {
    var b :- Collected([], incoming);
    ParseRequest(b)
  }

  /** `read_http_request`. */
  method ReadHttpRequest(stream: TcpStream) returns (r: Result<HttpRequest, ReadError>)
    modifies stream
    ensures r == RequestFrom(old(stream.incoming))
  {
    hide ParseRequest, HasBlankLine;
    var b: bytes := [];
    var buf := new byte[BUFFER_BYTES];
    while true
      invariant Collected(b, stream.incoming) == Collected([], old(stream.incoming))
      invariant |b| <= MAX_REQUEST_BYTES
      decreases |stream.incoming|
    {
      var read := stream.Read(buf);
      if read.Err? {
        return Err(read.error);
      }
      if read.value == 0 {
        break;
      }
      b := b + buf[..read.value];
      if HasBlankLine(b) {
        break;
      }
      if |b| > MAX_REQUEST_BYTES {
        return Err(TooLarge);
      }
    }
    r := ParseRequest(b);
  }

  // ----- what a request is -----

  /** Three words, in order, the third naming HTTP; what follows does not matter. */
  ghost predicate IsRequestLine(line: string, verb: string, target: string) {
    exists afterVerb, afterTarget, version, rest ::
      && StartsWithWord(line, verb, afterVerb)
      && StartsWithWord(afterVerb, target, afterTarget)
      && StartsWithWord(afterTarget, version, rest)
      && "HTTP/" <= version
  }

  /** A line is a request line exactly when its first three words are, and is told apart by the word it lacks. */
  lemma RequestLineIff(line: string, verb: string, target: string)
    ensures ParseRequestLine(line) == Ok(HttpRequest(verb, target)) <==> IsRequestLine(line, verb, target)
    ensures ParseRequestLine(line) == Err(NoMethod) <==> AllWhitespace(line)
  {
    hide NextWord, StartsWithWord, AllWhitespace;
    forall s, word, rest
      ensures NextWord(s) == Some((word, rest)) <==> StartsWithWord(s, word, rest)
    {
      NextWordIff(s, word, rest);
    }
    NextWordIff(line, verb, "");
    if ParseRequestLine(line) == Ok(HttpRequest(verb, target)) {
      var afterVerb := NextWord(line).value.1;
      var afterTarget := NextWord(afterVerb).value.1;
      var (version, rest) := NextWord(afterTarget).value;
      assert StartsWithWord(afterTarget, version, rest);
    }
  }

  /** Bytes are a request exactly when they are UTF-8 text whose first line is a request line. */
  lemma RequestIff(b: bytes, verb: string, target: string)
    ensures ParseRequest(b) == Ok(HttpRequest(verb, target))
            <==> exists text, line ::
                   && b == Utf8.Encode(text)
                   && IsFirstLine(text, line)
                   && IsRequestLine(line, verb, target)
  {
    hide Utf8.Encode, Utf8.Decode, FirstLine, ParseRequestLine, IsFirstLine, IsRequestLine;
    forall text
      ensures Utf8.Decode(b) == Some(text) <==> b == Utf8.Encode(text)
    {
      Utf8.DecodeIffEncoded(b, text);
    }
    forall text, line
      ensures FirstLine(text) == Some(line) <==> IsFirstLine(text, line)
    {
      FirstLineIff(text, line);
    }
    forall line
      ensures ParseRequestLine(line) == Ok(HttpRequest(verb, target)) <==> IsRequestLine(line, verb, target)
    {
      RequestLineIff(line, verb, target);
    }
    if ParseRequest(b) == Ok(HttpRequest(verb, target)) {
      var text := Utf8.Decode(b).value;
      var line := FirstLine(text).value;
      assert b == Utf8.Encode(text) && IsFirstLine(text, line) && IsRequestLine(line, verb, target);
    }
  }

  // ----- what is collected -----

  /** All the bytes of a connection on which no read fails. */
  function StreamOf(incoming: seq<Event>): bytes {
    if incoming == [] then []
    else match incoming[0]
      case Failure => []
      case Data(segment) => segment + StreamOf(incoming[1..])
  }

  predicate NoFailure(incoming: seq<Event>) {
    forall i | 0 <= i < |incoming| :: incoming[i].Data?
  }

  /**
   What is collected is a prefix of what was held and sent: up to and including a blank line, or
   everything. It never exceeds the limit by more than one buffer.
   */
  lemma {:induction false} CollectedIsPrefix(b: bytes, incoming: seq<Event>)
    requires NoFailure(incoming) && Collected(b, incoming).Ok?
    requires |b| <= MAX_REQUEST_BYTES
    ensures var c := Collected(b, incoming).value;
            && b <= c <= b + StreamOf(incoming)
            && |c| <= MAX_REQUEST_BYTES + BUFFER_BYTES
            && (HasBlankLine(c) || c == b + StreamOf(incoming))
    decreases |incoming|
  {
    hide HasBlankLine;
    if incoming == [] {
      assert b + StreamOf(incoming) == b;
    } else {
      var segment := incoming[0].segment;
      var more := b + segment;
      assert b + StreamOf(incoming) == more + StreamOf(incoming[1..]);
      if !HasBlankLine(more) {
        CollectedIsPrefix(more, incoming[1..]);
      }
    }
  }

  /** A blank line inside bytes that decode shows up as a line feed in the text. */
  lemma BlankLineHasLineFeed(b: bytes, text: string)
    requires HasBlankLine(b) && b == Utf8.Encode(text)
    ensures '\n' in text
  {
    var k := Find(b, BLANK_LINE, 0).value;
    assert b[k..k + 4][1] == LF;
    Utf8.AsciiByteIsChar(text, k + 1);
  }

  /** Text after the first line feed does not change the first line. */
  lemma FirstLineOfPrefix(text: string, rest: string)
    requires '\n' in text
    ensures FirstLine(text + rest) == FirstLine(text)
  {
    var (line, after) := SplitOnce(text, '\n').value;
    SplitOnceUnique(line, after, '\n');
    assert text + rest == line + ['\n'] + (after + rest);
    SplitOnceUnique(line, after + rest, '\n');
  }

  /** Two collected prefixes of one stream that both parse give the same request. */
  lemma PrefixesAgree(c: bytes, longer: bytes)
    requires c <= longer && (HasBlankLine(c) || c == longer)
    requires ParseRequest(c).Ok? && ParseRequest(longer).Ok?
    ensures ParseRequest(c) == ParseRequest(longer)
  {
    hide HasBlankLine, FirstLine, ParseRequestLine;
    if c != longer {
      var s, t := Utf8.Decode(c).value, Utf8.Decode(longer).value;
      Utf8.DecodeIffEncoded(c, s);
      Utf8.DecodeIffEncoded(longer, t);
      assert longer == c + longer[|c|..];
      Utf8.EncodePrefix(s, t, longer[|c|..]);
      BlankLineHasLineFeed(c, s);
      FirstLineOfPrefix(s, t[|s|..]);
      assert t == s + t[|s|..];
    }
  }

  /** However a stream is cut into reads, two cuts that both succeed give the same request. */
  lemma SegmentationIndependent(incoming: seq<Event>, incoming': seq<Event>)
    requires NoFailure(incoming) && NoFailure(incoming')
    requires StreamOf(incoming) == StreamOf(incoming')
    requires RequestFrom(incoming).Ok? && RequestFrom(incoming').Ok?
    ensures RequestFrom(incoming) == RequestFrom(incoming')
  {
    hide ParseRequest, HasBlankLine, Collected;
    var stream := StreamOf(incoming);
    var c, c' := Collected([], incoming).value, Collected([], incoming').value;
    assert [] + stream == stream;
    CollectedIsPrefix([], incoming);
    CollectedIsPrefix([], incoming');
    if |c| <= |c'| {
      assert c == stream[..|c|] == c'[..|c|];
      PrefixesAgree(c, c');
    } else {
      assert c' == stream[..|c'|] == c[..|c'|];
      PrefixesAgree(c', c);
    }
  }

  // ----- when every cut succeeds -----

  /** Where the first blank line of a stream ends; past its end if there is none. */
  function BlankLineEnd(stream: bytes): nat {
    match Find(stream, BLANK_LINE, 0)
    case Some(i) => i + 4
    case None => |stream| + 1
  }

  /** That end is behind the first CR, LF, CR, LF of the stream. */
  lemma BlankLineEndIff(stream: bytes, end: nat)
    requires end <= |stream|
    ensures BlankLineEnd(stream) == end
            <==> IsSeparator(stream, end - 4) && forall j | 0 <= j < end - 4 :: !IsSeparator(stream, j)
    ensures BlankLineEnd(stream) == |stream| + 1 <==> forall j :: !IsSeparator(stream, j)
  {
    HeaderEndIff(stream, end);
  }

  /** A prefix holds a blank line exactly when it reaches the end of the first one. */
  lemma PrefixHasBlankLine(stream: bytes, n: nat)
    requires n <= |stream|
    ensures HasBlankLine(stream[..n]) <==> n >= BlankLineEnd(stream)
  {
    var prefix, rest := stream[..n], stream[n..];
    assert stream == prefix + rest;
    if HasBlankLine(prefix) {
      FindInPrefix(prefix, rest, BLANK_LINE);
    }
    if n >= BlankLineEnd(stream) {
      AtInPrefix(prefix, rest, BLANK_LINE, Find(stream, BLANK_LINE, 0).value);
    }
  }

  /** The stream up to the end of its first blank line; all of it if there is none. */
  function Head(stream: bytes): bytes {
    if BlankLineEnd(stream) <= |stream| then stream[..BlankLineEnd(stream)] else stream
  }

  /**
   If the stream's first blank line ends in time, no cut of it runs into the limit: what is
   collected reaches the end of that blank line in the read that first gets there.
   */
  lemma {:induction false} InTimeCollects(b: bytes, incoming: seq<Event>) returns (n: nat)
    requires NoFailure(incoming)
    requires |b| < BlankLineEnd(b + StreamOf(incoming)) <= MAX_REQUEST_BYTES + 1
    ensures var stream := b + StreamOf(incoming);
            && |Head(stream)| <= n <= |stream| && n < BlankLineEnd(stream) + BUFFER_BYTES
            && Collected(b, incoming) == Ok(stream[..n])
    decreases |incoming|
  {
    hide HasBlankLine, BlankLineEnd;
    var stream := b + StreamOf(incoming);
    if incoming == [] {
      assert stream == b;
      n := |b|;
    } else {
      var more := b + incoming[0].segment;
      assert stream == more + StreamOf(incoming[1..]);
      assert stream[..|more|] == more;
      PrefixHasBlankLine(stream, |more|);
      if HasBlankLine(more) {
        n := |more|;
      } else {
        n := InTimeCollects(more, incoming[1..]);
      }
    }
  }

  /** The stream delivered one byte at a time. */
  function OneByOne(stream: bytes): (r: seq<Event>)
    ensures |r| == |stream| && NoFailure(r)
  {
    seq(|stream|, i requires 0 <= i < |stream| => Data([stream[i]]))
  }

  lemma {:induction false} OneByOneStream(stream: bytes)
    ensures StreamOf(OneByOne(stream)) == stream
  {
    if stream != [] {
      OneByOneStream(stream[1..]);
      assert OneByOne(stream)[1..] == OneByOne(stream[1..]);
      assert stream == [stream[0]] + stream[1..];
    }
  }

  /** One byte at a time, a stream whose first blank line ends too late runs into the limit. */
  lemma {:induction false} TooLateOneByOne(stream: bytes, n: nat)
    requires n <= MAX_REQUEST_BYTES && n <= |stream|
    requires BlankLineEnd(stream) > MAX_REQUEST_BYTES + 1 && |stream| > MAX_REQUEST_BYTES
    ensures Collected(stream[..n], OneByOne(stream[n..])) == Err(TooLarge)
    decreases |stream| - n
  {
    hide HasBlankLine, BlankLineEnd;
    var more := stream[..n + 1];
    assert stream[..n] + [stream[n]] == more;
    assert OneByOne(stream[n..])[1..] == OneByOne(stream[n + 1..]);
    PrefixHasBlankLine(stream, n + 1);
    if n + 1 <= MAX_REQUEST_BYTES {
      TooLateOneByOne(stream, n + 1);
    }
  }

  /**
   Every cut of a stream is collected without running into the limit exactly when its first blank
   line, or its end if it has none, comes at most one byte past the limit.
   */
  lemma EveryCutCollectsIff(stream: bytes)
    ensures (forall incoming | NoFailure(incoming) && StreamOf(incoming) == stream :: Collected([], incoming).Ok?)
            <==> BlankLineEnd(stream) <= 16385
  {
    hide Collected, BlankLineEnd;
    if BlankLineEnd(stream) <= MAX_REQUEST_BYTES + 1 {
      forall incoming | NoFailure(incoming) && StreamOf(incoming) == stream
        ensures Collected([], incoming).Ok?
      {
        assert [] + StreamOf(incoming) == stream;
        BlankLineEndBounds(stream);
        var _ := InTimeCollects([], incoming);
      }
    } else {
      OneByOneStream(stream);
      BlankLineEndBounds(stream);
      TooLateOneByOne(stream, 0);
      assert stream[..0] == [] && stream[0..] == stream;
    }
  }

  lemma BlankLineEndBounds(stream: bytes)
    ensures 1 <= BlankLineEnd(stream) <= |stream| + 1
  {
  }

  // ----- when every cut gives a request -----

  /** Every byte that one read can deliver behind the end of the first blank line is ASCII. */
  predicate TrailIsAscii(stream: bytes) {
    var end := BlankLineEnd(stream);
    forall k | end <= k < |stream| && k < end + 1023 :: stream[k] < 0x80
  }

  /** ASCII bytes are the encoding of a text. */
  lemma {:induction false} AsciiText(b: bytes) returns (text: string)
    requires forall i | 0 <= i < |b| :: b[i] < 0x80
    ensures Utf8.Encode(text) == b
  {
    if b == [] {
      text := "";
    } else {
      var rest := AsciiText(b[1..]);
      text := [b[0] as char] + rest;
      assert text[1..] == rest;
      assert b == [b[0]] + b[1..];
    }
  }

  /** ASCII bytes behind a blank line do not change the request. */
  lemma AsciiTrailIgnored(head: bytes, trail: bytes)
    requires HasBlankLine(head) && ParseRequest(head).Ok?
    requires forall i | 0 <= i < |trail| :: trail[i] < 0x80
    ensures ParseRequest(head + trail) == ParseRequest(head)
  {
    hide HasBlankLine, FirstLine, ParseRequestLine;
    var s := Utf8.Decode(head).value;
    var t := AsciiText(trail);
    Utf8.DecodeIffEncoded(head, s);
    Utf8.EncodeConcat(s, t);
    Utf8.DecodeIffEncoded(head + trail, s + t);
    BlankLineHasLineFeed(head, s);
    FirstLineOfPrefix(s, t);
  }

  /** A byte that turns decodable bytes into decodable bytes is ASCII. */
  lemma OneMoreByteIsAscii(b: bytes, last: byte)
    requires Utf8.Decode(b).Some? && Utf8.Decode(b + [last]).Some?
    ensures last < 0x80
  {
    hide Utf8.Decode;
    var s, t := Utf8.Decode(b).value, Utf8.Decode(b + [last]).value;
    Utf8.DecodeIffEncoded(b, s);
    Utf8.DecodeIffEncoded(b + [last], t);
    Utf8.EncodePrefix(s, t, [last]);
    Utf8.AsciiByteOnly(t[|s|..], last);
  }

  /** One byte per read up to byte `m`, then all up to `n` in one read, then one byte per read. */
  function CutAround(stream: bytes, from: nat, m: nat, n: nat): (r: seq<Event>)
    requires from <= m < n <= |stream| && n - m <= BUFFER_BYTES
    ensures NoFailure(r)
    decreases m - from
  {
    if from == m then [Data(stream[m..n])] + OneByOne(stream[n..])
    else [Data([stream[from]])] + CutAround(stream, from + 1, m, n)
  }

  lemma {:induction false} CutAroundStream(stream: bytes, from: nat, m: nat, n: nat)
    requires from <= m < n <= |stream| && n - m <= BUFFER_BYTES
    ensures StreamOf(CutAround(stream, from, m, n)) == stream[from..]
    decreases m - from
  {
    if from == m {
      OneByOneStream(stream[n..]);
    } else {
      CutAroundStream(stream, from + 1, m, n);
    }
  }

  /** Cut just before the end of its first blank line, a stream is collected up to `n`. */
  lemma {:induction false} CutAroundCollects(stream: bytes, from: nat, n: nat)
    requires from < BlankLineEnd(stream) <= n <= |stream|
    requires BlankLineEnd(stream) <= MAX_REQUEST_BYTES + 1 && n < BlankLineEnd(stream) + BUFFER_BYTES
    ensures Collected(stream[..from], CutAround(stream, from, BlankLineEnd(stream) - 1, n)) == Ok(stream[..n])
    decreases |stream| - from
  {
    hide HasBlankLine, BlankLineEnd;
    var m := BlankLineEnd(stream) - 1;
    if from == m {
      assert stream[..m] + stream[m..n] == stream[..n];
      PrefixHasBlankLine(stream, n);
    } else {
      assert stream[..from] + [stream[from]] == stream[..from + 1];
      PrefixHasBlankLine(stream, from + 1);
      CutAroundCollects(stream, from + 1, n);
    }
  }

  ghost predicate EveryCutSucceeds(stream: bytes) {
    forall incoming | NoFailure(incoming) && StreamOf(incoming) == stream :: RequestFrom(incoming).Ok?
  }

  /** If every cut succeeds, then so does every prefix that one read can complete. */
  lemma CompletedPrefixParses(stream: bytes, n: nat)
    requires EveryCutSucceeds(stream)
    requires BlankLineEnd(stream) <= MAX_REQUEST_BYTES + 1
    requires BlankLineEnd(stream) <= n <= |stream| && n < BlankLineEnd(stream) + BUFFER_BYTES
    ensures ParseRequest(stream[..n]).Ok?
  {
    hide ParseRequest, Collected, BlankLineEnd, CutAround;
    BlankLineEndBounds(stream);
    var incoming := CutAround(stream, 0, BlankLineEnd(stream) - 1, n);
    CutAroundStream(stream, 0, BlankLineEnd(stream) - 1, n);
    CutAroundCollects(stream, 0, n);
    assert stream[..0] == [] && stream[0..] == stream;
    assert RequestFrom(incoming).Ok?;
  }

  /** Under every cut a stream in time and with an ASCII trail gives the request of its head. */
  lemma SafeStreamGivesHead(incoming: seq<Event>)
    requires NoFailure(incoming)
    requires BlankLineEnd(StreamOf(incoming)) <= MAX_REQUEST_BYTES + 1
    requires ParseRequest(Head(StreamOf(incoming))).Ok? && TrailIsAscii(StreamOf(incoming))
    ensures RequestFrom(incoming) == ParseRequest(Head(StreamOf(incoming)))
  {
    hide ParseRequest, HasBlankLine, Collected, BlankLineEnd;
    var stream := StreamOf(incoming);
    var head := Head(stream);
    assert [] + stream == stream;
    BlankLineEndBounds(stream);
    var n := InTimeCollects([], incoming);
    if n != |head| {
      PrefixHasBlankLine(stream, |head|);
      assert stream[..|head|] == head;
      AsciiTrailIgnored(head, stream[|head|..n]);
      assert head + stream[|head|..n] == stream[..n];
    } else {
      assert stream[..n] == head;
    }
  }

  lemma SafeIfEveryCutSucceeds(stream: bytes)
    requires EveryCutSucceeds(stream)
    ensures BlankLineEnd(stream) <= MAX_REQUEST_BYTES + 1
    ensures ParseRequest(Head(stream)).Ok? && TrailIsAscii(stream)
  {
    hide Collected, BlankLineEnd, ParseRequestLine, FirstLine;
    EveryCutCollectsIff(stream);
    var end := BlankLineEnd(stream);
    if end <= |stream| {
      CompletedPrefixParses(stream, end);
      forall k | end <= k < |stream| && k < end + BUFFER_BYTES - 1
        ensures stream[k] < 0x80
      {
        CompletedPrefixParses(stream, k);
        CompletedPrefixParses(stream, k + 1);
        assert stream[..k] + [stream[k]] == stream[..k + 1];
        OneMoreByteIsAscii(stream[..k], stream[k]);
      }
    } else {
      OneByOneStream(stream);
      assert [] + stream == stream;
      BlankLineEndBounds(stream);
      var n := InTimeCollects([], OneByOne(stream));
      assert stream[..n] == stream;
      assert RequestFrom(OneByOne(stream)).Ok?;
    }
  }

  /**
   Every cut of a stream gives a request exactly when its first blank line, or its end if it has
   none, comes at most one byte past the limit, its bytes up to there are a request, and whatever
   one read can deliver behind the blank line is ASCII. All cuts then give the request of its head.
   */
  lemma EveryCutSucceedsIff(stream: bytes)
    ensures EveryCutSucceeds(stream)
            <==> && BlankLineEnd(stream) <= 16385
                 && ParseRequest(Head(stream)).Ok?
                 && TrailIsAscii(stream)
    ensures EveryCutSucceeds(stream) ==>
              forall incoming | NoFailure(incoming) && StreamOf(incoming) == stream ::
                RequestFrom(incoming) == ParseRequest(Head(stream))
  {
    hide ParseRequest, RequestFrom, BlankLineEnd, TrailIsAscii, Head;
    if EveryCutSucceeds(stream) {
      SafeIfEveryCutSucceeds(stream);
    }
    if && BlankLineEnd(stream) <= MAX_REQUEST_BYTES + 1
       && ParseRequest(Head(stream)).Ok? && TrailIsAscii(stream) {
      forall incoming | NoFailure(incoming) && StreamOf(incoming) == stream
        ensures RequestFrom(incoming) == ParseRequest(Head(stream))
      {
        SafeStreamGivesHead(incoming);
      }
    }
  }

  /**
   A stream on which the cut decides: a request followed by the first byte of a two-byte character
   is read if that byte comes in a read of its own, and refused if it comes with the blank line.
   */
  lemma SplitCharacterDecides(verb: string, target: string)
    requires IsWord(verb) && IsWord(target)
    requires |Utf8.Encode(verb + " " + target + " " + "HTTP/1.1" + "\r\n" + "\r\n")| < BUFFER_BYTES
    ensures var head := Utf8.Encode(verb + " " + target + " " + "HTTP/1.1" + "\r\n" + "\r\n");
            && 1 <= |head|
            && StreamOf([Data(head), Data([0xC3])]) == StreamOf([Data(head + [0xC3])])
            && RequestFrom([Data(head), Data([0xC3])]) == Ok(HttpRequest(verb, target))
            && RequestFrom([Data(head + [0xC3])]) == Err(NotUtf8)
  {
    hide Utf8.Encode, Utf8.Decode, IsWord, ParseRequest, HasBlankLine;
    var line := verb + " " + target + " " + "HTTP/1.1";
    var text := line + "\r\n" + "\r\n";
    var head := Utf8.Encode(text);
    VersionIsWord();
    RequestLineParses(verb, target, "HTTP/1.1", "\r\n");
    EndsWithBlankLine(line);
    BlankLineStays(head, [0xC3]);
    assert Utf8.Decode(head) == Some(text) by { Utf8.DecodeIffEncoded(head, text); }
    assert Utf8.Decode(head + [0xC3]).None? by {
      if Utf8.Decode(head + [0xC3]).Some? {
        OneMoreByteIsAscii(head, 0xC3);
      }
    }
    NotTextIsRefused(head + [0xC3]);
    assert [] + head == head && [] + (head + [0xC3]) == head + [0xC3];
    ThatReadIsLast(head, [Data([0xC3])]);
    ThatReadIsLast(head + [0xC3], []);
    assert [Data(head), Data([0xC3])] == [Data(head)] + [Data([0xC3])];
    assert [Data(head + [0xC3])] == [Data(head + [0xC3])] + [];
    TwoReads(head, [0xC3]);
  }

  lemma VersionIsWord()
    ensures IsWord("HTTP/1.1") && "HTTP/" <= "HTTP/1.1"
  {
  }

  lemma NotTextIsRefused(b: bytes)
    requires Utf8.Decode(b).None?
    ensures ParseRequest(b) == Err(NotUtf8)
  {
  }

  /** A first read that holds a blank line is the last one. */
  lemma ThatReadIsLast(segment: Segment, later: seq<Event>)
    requires HasBlankLine(segment)
    ensures RequestFrom([Data(segment)] + later) == ParseRequest(segment)
  {
    hide ParseRequest, HasBlankLine;
    assert [] + segment == segment;
  }

  lemma TwoReads(first: bytes, second: bytes)
    requires 1 <= |first| && 1 <= |second| && |first + second| <= BUFFER_BYTES
    ensures StreamOf([Data(first), Data(second)]) == StreamOf([Data(first + second)]) == first + second
  {
    assert [Data(first), Data(second)][1..] == [Data(second)];
    assert StreamOf([Data(second)]) == second + [];
  }

  lemma EndsWithBlankLine(line: string)
    ensures HasBlankLine(Utf8.Encode(line + "\r\n" + "\r\n"))
    ensures |Utf8.Encode(line + "\r\n" + "\r\n")| >= 4
  {
    var ending := "\r\n\r\n";
    assert line + "\r\n" + "\r\n" == line + ending;
    Utf8.EncodeConcat(line, ending);
    Utf8.EncodeAscii(ending);
    assert Utf8.Encode(ending) == BLANK_LINE;
    var b := Utf8.Encode(line);
    assert At(b + BLANK_LINE, BLANK_LINE, |b|);
  }

  lemma BlankLineStays(b: bytes, rest: bytes)
    requires HasBlankLine(b)
    ensures HasBlankLine(b + rest)
  {
    FindInPrefix(b, rest, BLANK_LINE);
  }

  /**
   A stream within the limit that ends with its first blank line is read whole under every cut,
   so every cut gives the request its bytes spell.
   */
  lemma WholeRequestUnderEveryCut(incoming: seq<Event>)
    requires NoFailure(incoming) && |StreamOf(incoming)| <= MAX_REQUEST_BYTES
    requires BlankLineEnd(StreamOf(incoming)) == |StreamOf(incoming)|
    ensures RequestFrom(incoming) == ParseRequest(StreamOf(incoming))
  {
    hide ParseRequest, HasBlankLine, Collected, BlankLineEnd;
    var stream := StreamOf(incoming);
    assert [] + stream == stream;
    BlankLineEndBounds(stream);
    var n := InTimeCollects([], incoming);
    assert stream[..n] == stream;
  }

  /** A request line of three words, the third naming HTTP, gives its first two words. */
  lemma RequestLineParses(verb: string, target: string, version: string, rest: string)
    requires IsWord(verb) && IsWord(target) && IsWord(version) && "HTTP/" <= version
    ensures var text := verb + " " + target + " " + version + "\r\n" + rest;
            ParseRequest(Utf8.Encode(text)) == Ok(HttpRequest(verb, target))
  {
    hide Utf8.Decode, Utf8.Encode, ParseRequestLine;
    var line := verb + " " + target + " " + version;
    var text := line + "\r\n" + rest;
    Utf8.DecodeIffEncoded(Utf8.Encode(text), text);
    NoLineFeed(verb, target, version);
    assert "\r\n" == ['\r'] + ['\n'];
    assert text == (line + ['\r']) + ['\n'] + rest;
    SplitOnceUnique(line + ['\r'], rest, '\n');
    assert (line + ['\r'])[..|line|] == line;
    assert FirstLine(text) == Some(line);
    ThreeWords(verb, target, version);
  }

  lemma NoLineFeed(verb: string, target: string, version: string)
    requires IsWord(verb) && IsWord(target) && IsWord(version)
    ensures '\n' !in verb + " " + target + " " + version + ['\r']
  {
    assert IsWhitespace('\n');
  }

  lemma ThreeWords(verb: string, target: string, version: string)
    requires IsWord(verb) && IsWord(target) && IsWord(version) && "HTTP/" <= version
    ensures ParseRequestLine(verb + " " + target + " " + version) == Ok(HttpRequest(verb, target))
  {
    hide NextWord;
    var line := verb + " " + target + " " + version;
    assert line == "" + verb + (" " + target + " " + version);
    NextWordIs("", verb, " " + target + " " + version);
    assert " " + target + " " + version == " " + target + (" " + version);
    NextWordIs(" ", target, " " + version);
    assert " " + version == " " + version + "";
    NextWordIs(" ", version, "");
  }
}

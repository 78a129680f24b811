/**
 The chunked transfer decoder of src/http.rs (section 7.1 of RFC 9112, read leniently):
 the loop, the grammar it accepts, and round trips with an encoder.
 */
module Chunked {
  import opened Wrappers
  import opened Bytes
  import opened Numbers
  import opened Text
  import Utf8

  datatype SizeError = NotUtf8 | InvalidSize

  /** `Panic` stands for the slice-range panic a wrapped `usize` sum leads to. */
  datatype ChunkError =
    | MalformedChunkSize
    | BadSize(reason: SizeError)
    | ChunkTooLong
    | ChunkNotTerminated
    | Panic

  /** The size a chunk-size line announces: padding and everything after `;` are ignored. */
  function SizeOfLine(line: bytes): (r: Result<nat, SizeError>)
    ensures r.Ok? ==> r.value < USIZE
  {
    var text :- Utf8.Decode(line).ToResult(NotUtf8);
    ParseUnsigned(Trim(Before(text, ';')), 16, USIZE - 1).ToResult(InvalidSize)
  }

  /** Padding, digits of either case perhaps after a plus sign, padding, and an extension. */
  ghost predicate IsSizeText(text: string, size: nat, before: string, digits: string, after: string, extension: string) {
    && AllWhitespace(before) && AllWhitespace(after)
    && SpellsUnsigned(digits, size, 16)
    && (extension == "" || extension[0] == ';')
    && text == before + digits + after + extension
  }

  ghost predicate TextAnnounces(text: string, size: nat) {
    exists before, digits, after, extension :: IsSizeText(text, size, before, digits, after, extension)
  }

  /** The line is such a text, in UTF-8. */
  ghost predicate AnnouncesSize(line: bytes, size: nat) {
    exists text :: line == Utf8.Encode(text) && TextAnnounces(text, size)
  }

  lemma SizeTextIsPlain(digits: string, size: nat)
    requires SpellsUnsigned(digits, size, 16)
    ensures digits != "" && forall i | 0 <= i < |digits| :: !IsWhitespace(digits[i]) && digits[i] != ';'
  {
    hide SpellsUnsigned;
    SpelledDigits(digits, size, 16);
    forall i | 0 <= i < |digits|
      ensures !IsWhitespace(digits[i]) && digits[i] != ';'
    {
      if i > 0 { assert digits[i] == digits[1..][i - 1]; }
    }
  }

  lemma AnnouncedIsParsed(text: string, size: nat, before: string, digits: string, after: string, extension: string)
    requires IsSizeText(text, size, before, digits, after, extension) && size < USIZE
    ensures ParseUnsigned(Trim(Before(text, ';')), 16, USIZE - 1) == Some(size)
  {
    SizeTextIsPlain(digits, size);
    ParseUnsignedIff(digits, 16, USIZE - 1, size);
    assert !IsWhitespace(';');
    hide IsWhitespace, SpellsUnsigned, ParseUnsigned;
    var number := before + digits + after;
    assert ';' !in number;
    assert extension != "" ==> extension == [';'] + extension[1..];
    assert text == if extension == "" then number else number + [';'] + extension[1..];
    BeforeIff(text, ';', number);
    TrimPadded(before, digits, after);
  }

  lemma ParsedIsAnnounced(text: string, size: nat)
    requires ParseUnsigned(Trim(Before(text, ';')), 16, USIZE - 1) == Some(size)
    ensures size < USIZE && TextAnnounces(text, size)
  {
    hide ParseUnsigned, SpellsUnsigned, Trim, Before;
    var number := Before(text, ';');
    var digits := Trim(number);
    ParseUnsignedIff(digits, 16, USIZE - 1, size);
    TrimIff(number, digits);
    var before, after :| IsPadded(number, digits, before, after);
    BeforeIff(text, ';', number);
    if text == number {
      assert text == before + digits + after + "";
      assert IsSizeText(text, size, before, digits, after, "");
    } else {
      var rest :| text == number + [';'] + rest;
      assert text == before + digits + after + ([';'] + rest);
      assert IsSizeText(text, size, before, digits, after, [';'] + rest);
    }
  }

  /**
   A line is read as a size exactly when it announces it in UTF-8 and the size fits a machine word;
   bytes that are not UTF-8 are told from text that announces no such size.
   */
  lemma SizeOfLineIff(line: bytes, size: nat)
    ensures SizeOfLine(line) == Ok(size) <==> size < USIZE && AnnouncesSize(line, size)
    ensures SizeOfLine(line) == Err(NotUtf8) <==> forall text :: Utf8.Encode(text) != line
  {
    hide TextAnnounces, ParseUnsigned, Trim, Before, Utf8.Decode, Utf8.Encode;
    if Utf8.Decode(line).Some? {
      var text := Utf8.Decode(line).value;
      Utf8.DecodeIffEncoded(line, text);
      if SizeOfLine(line) == Ok(size) {
        ParsedIsAnnounced(text, size);
      }
    }
    forall text | line == Utf8.Encode(text)
      ensures Utf8.Decode(line) == Some(text)
    {
      Utf8.DecodeIffEncoded(line, text);
    }
    if size < USIZE && AnnouncesSize(line, size) {
      var text :| line == Utf8.Encode(text) && TextAnnounces(text, size);
      AnnouncedTextIsRead(text, size);
    }
    NotUtf8Iff(line);
  }

  lemma NotUtf8Iff(line: bytes)
    ensures SizeOfLine(line) == Err(NotUtf8) <==> Utf8.Decode(line).None?
  {
    hide ParseUnsigned, Trim, Before, Utf8.Decode;
  }

  lemma AnnouncedTextIsRead(text: string, size: nat)
    requires TextAnnounces(text, size) && size < USIZE
    ensures ParseUnsigned(Trim(Before(text, ';')), 16, USIZE - 1) == Some(size)
  {
    hide IsSizeText;
    var before, digits, after, extension :| IsSizeText(text, size, before, digits, after, extension);
    AnnouncedIsParsed(text, size, before, digits, after, extension);
  }

  /** A way of reading chunk-size lines; the framing results below hold for any of them. */
  type SizeReader = bytes -> Result<nat, SizeError>

  /** `start + size + 2` exceeds the machine word and wraps to an index inside the input. */
  predicate SumWrapsInside(start: nat, size: nat, length: nat) {
    USIZE <= start + size + 2 <= USIZE + length
  }

  function Prepend(data: bytes, r: Result<bytes, ChunkError>): Result<bytes, ChunkError> {
    match r
    case Ok(rest) => Ok(data + rest)
    case Err(_) => r
  }

  /** What one turn of the decoding loop finds at the head of the input. */
  datatype Turn =
    | Last
    | Fail(error: ChunkError)
    | Next(data: bytes, rest: bytes)

  /** One turn, over mathematical integers, when `rest` stands at offset `pos` of the input. */
  function TakeTurn(sizeOf: SizeReader, rest: bytes, pos: nat): (turn: Turn)
    ensures turn.Next? ==> |turn.rest| < |rest|
  {
    match Find(rest, CRLF, 0)
    case None => Fail(MalformedChunkSize)
    case Some(lineEnd) =>
      match sizeOf(rest[..lineEnd])
      case Err(e) => Fail(BadSize(e))
      case Ok(size) =>
        var start := lineEnd + 2;
        if size == 0 then Last
        else if SumWrapsInside(pos + start, size, pos + |rest|) then Fail(Panic)
        else if |rest| < start + size + 2 then Fail(ChunkTooLong)
        else if !At(rest, CRLF, start + size) then Fail(ChunkNotTerminated)
        else Next(rest[start..start + size], rest[start + size + 2..])
  }

  /** What decoding `rest`, at offset `pos` of the whole input, yields. */
  function Decoded(sizeOf: SizeReader, rest: bytes, pos: nat): Result<bytes, ChunkError>
    decreases |rest|
  {
    match TakeTurn(sizeOf, rest, pos)
    case Last => Ok([])
    case Fail(e) => Err(e)
    case Next(data, after) => Prepend(data, Decoded(sizeOf, after, pos + |rest| - |after|))
  }

  /**
   The decoding loop with the release build's wrapping `usize` sums. A Rust slice has at most
   `isize::MAX` bytes. Every slice taken is in bounds or the panic is reported.
   */
  method DecodeChunked(b: bytes) returns (r: Result<bytes, ChunkError>)
    requires |b| <= MAX_SLICE
    ensures r == Decoded(SizeOfLine, b, 0)
  {
    hide SizeOfLine, Decoded, WrapUsize, TurnAt;
    var pos: nat := 0;
    var out: bytes := [];
    assert b[0..] == b;
    PrependNothing(Decoded(SizeOfLine, b, 0));
    while true
      invariant pos <= |b|
      invariant Prepend(out, Decoded(SizeOfLine, b[pos..], pos)) == Decoded(SizeOfLine, b, 0)
      decreases |b| - pos
    {
      TurnBranches(SizeOfLine, b, pos);
      DecodedByTurn(SizeOfLine, b, pos);
      var lineEnd := Find(b, CRLF, pos);
      if lineEnd.None? {
        return Err(MalformedChunkSize);
      }
      var size := SizeOfLine(b[pos..lineEnd.value]);
      if size.Err? {
        return Err(BadSize(size.error));
      }
      pos := lineEnd.value + 2;
      if size.value == 0 {
        PrependToNothing(out);
        break;
      }
      var needed := WrapUsize(pos + size.value + 2);
      if |b| < needed {
        return Err(ChunkTooLong);
      }
      var end := WrapUsize(pos + size.value);
      if !(pos <= end <= |b|) {
        return Err(Panic);
      }
      ghost var kept := out;
      ghost var data := b[pos..end];
      out := out + b[pos..end];
      pos := end;
      if !At(b, CRLF, pos) {
        return Err(ChunkNotTerminated);
      }
      pos := pos + 2;
      PrependTwice(kept, data, Decoded(SizeOfLine, b[pos..], pos));
    }
    r := Ok(out);
  }

  /** The turn at `pos`, by the branches of the loop. */
  lemma TurnBranches(sizeOf: SizeReader, b: bytes, pos: nat)
    requires pos <= |b| <= MAX_SLICE
    ensures var turn := TurnAt(sizeOf, b, pos);
            match Find(b, CRLF, pos)
            case None => turn == Fail(MalformedChunkSize)
            case Some(lineEnd) =>
              match sizeOf(b[pos..lineEnd])
              case Err(e) => turn == Fail(BadSize(e))
              case Ok(size) =>
                var start := lineEnd + 2;
                var needed, end := WrapUsize(start + size + 2), WrapUsize(start + size);
                if size >= USIZE then true
                else if size == 0 then turn == Last
                else if |b| < needed then turn == Fail(ChunkTooLong)
                else if !(start <= end <= |b|) then turn == Fail(Panic)
                else if !At(b, CRLF, end) then turn == Fail(ChunkNotTerminated)
                else turn == Next(b[start..end], b[end + 2..])
  {
    hide SumWrapsInside, At, WrapUsize, TurnAt;
    TurnAtFails(sizeOf, b, pos);
    if Find(b, CRLF, pos).Some? {
      var lineEnd := Find(b, CRLF, pos).value;
      if sizeOf(b[pos..lineEnd]).Ok? {
        var size := sizeOf(b[pos..lineEnd]).value;
        TurnAtSize(sizeOf, b, pos, size);
        if size < USIZE {
          WrappedSums(lineEnd + 2, size, |b|);
        }
      }
    }
  }

  lemma TurnAtFails(sizeOf: SizeReader, b: bytes, pos: nat)
    requires pos <= |b|
    ensures match Find(b, CRLF, pos)
            case None => TurnAt(sizeOf, b, pos) == Fail(MalformedChunkSize)
            case Some(lineEnd) =>
              match sizeOf(b[pos..lineEnd])
              case Err(e) => TurnAt(sizeOf, b, pos) == Fail(BadSize(e))
              case Ok(_) => true
  {
    hide SumWrapsInside, At;
  }

  lemma TurnAtSize(sizeOf: SizeReader, b: bytes, pos: nat, size: nat)
    requires pos <= |b| && Find(b, CRLF, pos).Some? && sizeOf(b[pos..Find(b, CRLF, pos).value]) == Ok(size)
    ensures var turn, start := TurnAt(sizeOf, b, pos), Find(b, CRLF, pos).value + 2;
            if size == 0 then turn == Last
            else if SumWrapsInside(start, size, |b|) then turn == Fail(Panic)
            else if |b| < start + size + 2 then turn == Fail(ChunkTooLong)
            else if !At(b, CRLF, start + size) then turn == Fail(ChunkNotTerminated)
            else turn == Next(b[start..start + size], b[start + size + 2..])
  {
    hide SumWrapsInside, At;
  }

  /** What the length check and the slice check mean for the wrapping sums. */
  lemma WrappedSums(pos: nat, size: nat, length: nat)
    requires pos <= length <= MAX_SLICE && size < USIZE
    ensures var needed, end := WrapUsize(pos + size + 2), WrapUsize(pos + size);
            if SumWrapsInside(pos, size, length) then needed <= length && !(pos <= end <= length)
            else if length < pos + size + 2 then length < needed
            else needed == pos + size + 2 && end == pos + size
  {
  }

  /** A slice of a suffix is a slice of the whole. */
  lemma SliceOfRest(b: bytes, pos: nat, lo: nat, hi: nat)
    requires pos <= lo <= hi <= |b|
    ensures b[pos..][lo - pos..hi - pos] == b[lo..hi]
    ensures b[pos..][hi - pos..] == b[hi..]
    ensures At(b[pos..], CRLF, hi - pos) == At(b, CRLF, hi)
  {
    assert b == b[..pos] + b[pos..];
    AtInSuffix(b[..pos], b[pos..], CRLF, hi - pos);
  }

  /** The turn at `pos`, in terms of indices into the whole input. */
  function TurnAt(sizeOf: SizeReader, b: bytes, pos: nat): Turn
    requires pos <= |b|
  {
    match Find(b, CRLF, pos)
    case None => Fail(MalformedChunkSize)
    case Some(lineEnd) =>
      match sizeOf(b[pos..lineEnd])
      case Err(e) => Fail(BadSize(e))
      case Ok(size) =>
        var start := lineEnd + 2;
        if size == 0 then Last
        else if SumWrapsInside(start, size, |b|) then Fail(Panic)
        else if |b| < start + size + 2 then Fail(ChunkTooLong)
        else if !At(b, CRLF, start + size) then Fail(ChunkNotTerminated)
        else Next(b[start..start + size], b[start + size + 2..])
  }

  lemma TurnAtIsTurn(sizeOf: SizeReader, b: bytes, pos: nat)
    requires pos <= |b|
    ensures TakeTurn(sizeOf, b[pos..], pos) == TurnAt(sizeOf, b, pos)
  {
    hide At, SumWrapsInside;
    var rest := b[pos..];
    FindInRest(b, CRLF, pos);
    if Find(b, CRLF, pos).Some? {
      var lineEnd := Find(b, CRLF, pos).value;
      assert Find(rest, CRLF, 0) == Some(lineEnd - pos);
      assert rest[..lineEnd - pos] == b[pos..lineEnd];
      var size := sizeOf(b[pos..lineEnd]);
      if size.Ok? {
        var start, end := lineEnd + 2, lineEnd + 2 + size.value;
        assert pos + (lineEnd - pos + 2) == start && pos + |rest| == |b|;
        if end + 2 <= |b| {
          SliceOfRest(b, pos, start, end);
          SliceOfRest(b, pos, end, end + 2);
        }
      }
    }
  }

  /** Decoding at `pos` is one turn there, then decoding on. */
  lemma DecodedByTurn(sizeOf: SizeReader, b: bytes, pos: nat)
    requires pos <= |b|
    ensures match TurnAt(sizeOf, b, pos)
            case Last => Decoded(sizeOf, b[pos..], pos) == Ok([])
            case Fail(e) => Decoded(sizeOf, b[pos..], pos) == Err(e)
            case Next(data, after) =>
              Decoded(sizeOf, b[pos..], pos) == Prepend(data, Decoded(sizeOf, after, |b| - |after|))
  {
    hide TakeTurn, TurnAt, Prepend;
    TurnAtIsTurn(sizeOf, b, pos);
  }

  lemma PrependToNothing(data: bytes)
    ensures Prepend(data, Ok([])) == Ok(data)
  {
    assert data + [] == data;
  }

  lemma PrependNothing(r: Result<bytes, ChunkError>)
    ensures Prepend([], r) == r
  {
    if r.Ok? {
      assert [] + r.value == r.value;
    }
  }

  lemma PrependTwice(first: bytes, second: bytes, r: Result<bytes, ChunkError>)
    ensures Prepend(first, Prepend(second, r)) == Prepend(first + second, r)
  {
    if r.Ok? {
      assert first + (second + r.value) == (first + second) + r.value;
    }
  }

  // ----- the grammar -----

  /** A size line and the data it announces. */
  datatype Chunk = Chunk(line: bytes, data: bytes)

  predicate IsLine(line: bytes) { Find(line, CRLF, 0).None? }

  predicate IsChunk(sizeOf: SizeReader, c: Chunk) {
    IsLine(c.line) && c.data != [] && sizeOf(c.line) == Ok(|c.data|)
  }

  predicate AreChunks(sizeOf: SizeReader, chunks: seq<Chunk>) {
    forall i | 0 <= i < |chunks| :: IsChunk(sizeOf, chunks[i])
  }

  function FrameOf(c: Chunk): bytes { c.line + CRLF + c.data + CRLF }

  function Frames(chunks: seq<Chunk>): bytes {
    if chunks == [] then [] else FrameOf(chunks[0]) + Frames(chunks[1..])
  }

  function DataOf(chunks: seq<Chunk>): bytes {
    if chunks == [] then [] else chunks[0].data + DataOf(chunks[1..])
  }

  /** Chunks, then a line announcing size zero, then anything. */
  predicate IsChunkedBody(sizeOf: SizeReader, b: bytes, chunks: seq<Chunk>, last: bytes, tail: bytes) {
    && AreChunks(sizeOf, chunks)
    && IsLine(last) && sizeOf(last) == Ok(0)
    && b == Frames(chunks) + (last + CRLF + tail)
  }

  /** The first CRLF after a line ends it. */
  lemma LineEnds(line: bytes, rest: bytes)
    requires IsLine(line)
    ensures Find(line + CRLF + rest, CRLF, 0) == Some(|line|)
    ensures (line + CRLF + rest)[..|line|] == line
  {
    var s := line + CRLF + rest;
    assert s == line + (CRLF + rest);
    assert s[|line|..|line| + 2] == CRLF;
    forall j | 0 <= j < |line|
      ensures !At(s, CRLF, j)
    {
      if j + 2 <= |line| {
        AtInPrefix(line, CRLF + rest, CRLF, j);
      } else {
        assert s[j + 1] == CR;
        assert s[j..j + 2][1] == s[j + 1];
      }
    }
    FindsFirst(s, CRLF, |line|);
  }

  /** What precedes the first CRLF is a line. */
  lemma FoundLine(s: bytes)
    requires Find(s, CRLF, 0).Some?
    ensures var end := Find(s, CRLF, 0).value;
            IsLine(s[..end]) && s == s[..end] + CRLF + s[end + 2..]
  {
    var end := Find(s, CRLF, 0).value;
    assert s[end..end + 2] == CRLF;
    forall j | 0 <= j
      ensures !At(s[..end], CRLF, j)
    {
      if j + 2 <= end {
        assert s[..end] + s[end..] == s;
        AtInPrefix(s[..end], s[end..], CRLF, j);
      }
    }
  }

  lemma FrameParts(c: Chunk, rest: bytes)
    ensures FrameOf(c) + rest == c.line + CRLF + (c.data + CRLF + rest)
    ensures var s, start := FrameOf(c) + rest, |c.line| + 2;
            && s[start..start + |c.data|] == c.data
            && At(s, CRLF, start + |c.data|)
            && s[start + |c.data| + 2..] == rest
  {
    var s := FrameOf(c) + rest;
    var start := |c.line| + 2;
    var head := c.line + CRLF;
    assert s == head + c.data + CRLF + rest;
    assert s[start + |c.data|..start + |c.data| + 2] == CRLF;
  }

  /** A chunk is taken in one turn. */
  lemma ChunkTurn(sizeOf: SizeReader, c: Chunk, rest: bytes, pos: nat)
    requires IsChunk(sizeOf, c) && pos + |FrameOf(c) + rest| <= MAX_SLICE
    ensures TakeTurn(sizeOf, FrameOf(c) + rest, pos) == Next(c.data, rest)
  {
    FrameParts(c, rest);
    LineEnds(c.line, c.data + CRLF + rest);
  }

  lemma DataAndRest(b: bytes, start: nat, size: nat)
    requires At(b, CRLF, start + size)
    ensures b[start..] == b[start..start + size] + CRLF + b[start + size + 2..]
  {
  }

  /** A turn that takes data takes a chunk. */
  lemma TurnChunk(sizeOf: SizeReader, b: bytes, pos: nat) returns (c: Chunk)
    requires TakeTurn(sizeOf, b, pos).Next?
    ensures IsChunk(sizeOf, c) && c.data == TakeTurn(sizeOf, b, pos).data
    ensures b == FrameOf(c) + TakeTurn(sizeOf, b, pos).rest
  {
    hide FrameOf, IsLine;
    FoundLine(b);
    var start := Find(b, CRLF, 0).value + 2;
    var size := sizeOf(b[..start - 2]).value;
    c := Chunk(b[..start - 2], b[start..start + size]);
    var rest := b[start + size + 2..];
    DataAndRest(b, start, size);
    FrameParts(c, rest);
  }

  lemma FramesCons(c: Chunk, chunks: seq<Chunk>, rest: bytes)
    ensures Frames([c] + chunks) + rest == FrameOf(c) + (Frames(chunks) + rest)
    ensures DataOf([c] + chunks) == c.data + DataOf(chunks)
  {
    assert ([c] + chunks)[1..] == chunks;
  }

  /** Decoding goes past any chunks, and on with what follows. */
  lemma {:induction false} DecodePast(sizeOf: SizeReader, chunks: seq<Chunk>, rest: bytes, pos: nat)
    requires AreChunks(sizeOf, chunks) && pos + |Frames(chunks) + rest| <= MAX_SLICE
    ensures Decoded(sizeOf, Frames(chunks) + rest, pos) == Prepend(DataOf(chunks), Decoded(sizeOf, rest, pos + |Frames(chunks)|))
    decreases |chunks|
  {
    hide TakeTurn, IsChunk, FrameOf;
    if chunks == [] {
      assert Frames(chunks) + rest == rest;
      PrependNothing(Decoded(sizeOf, rest, pos));
    } else {
      var c, more := chunks[0], chunks[1..];
      assert chunks == [c] + more;
      FramesCons(c, more, rest);
      ChunkTurn(sizeOf, c, Frames(more) + rest, pos);
      DecodePast(sizeOf, more, rest, pos + |FrameOf(c)|);
      PrependTwice(c.data, DataOf(more), Decoded(sizeOf, rest, pos + |Frames(chunks)|));
    }
  }

  /** A decoding run goes past some chunks, to the turn that ends it. */
  lemma {:induction false} RunOfChunks(sizeOf: SizeReader, b: bytes, pos: nat) returns (chunks: seq<Chunk>, rest: bytes)
    ensures AreChunks(sizeOf, chunks) && b == Frames(chunks) + rest
    ensures !TakeTurn(sizeOf, rest, pos + |Frames(chunks)|).Next?
    decreases |b|
  {
    hide TakeTurn, IsChunk, FrameOf;
    if TakeTurn(sizeOf, b, pos).Next? {
      var c := TurnChunk(sizeOf, b, pos);
      var after := TakeTurn(sizeOf, b, pos).rest;
      var more;
      more, rest := RunOfChunks(sizeOf, after, pos + |b| - |after|);
      chunks := [c] + more;
      FramesCons(c, more, rest);
      FramesCons(c, more, []);
      assert Frames(more) + [] == Frames(more);
    } else {
      chunks, rest := [], b;
      assert Frames(chunks) + rest == b;
    }
  }

  lemma LastTurn(sizeOf: SizeReader, b: bytes, pos: nat)
    ensures TakeTurn(sizeOf, b, pos).Last?
            <==> exists last, tail :: IsLine(last) && sizeOf(last) == Ok(0) && b == last + CRLF + tail
  {
    if TakeTurn(sizeOf, b, pos).Last? {
      FoundLine(b);
    }
    forall last, tail | IsLine(last) && sizeOf(last) == Ok(0) && b == last + CRLF + tail
      ensures TakeTurn(sizeOf, b, pos).Last?
    {
      LineEnds(last, tail);
    }
  }

  /** Every grammatical body decodes to the concatenation of its chunks. */
  lemma GrammaticalDecodes(sizeOf: SizeReader, b: bytes, chunks: seq<Chunk>, last: bytes, tail: bytes)
    requires |b| <= MAX_SLICE && IsChunkedBody(sizeOf, b, chunks, last, tail)
    ensures Decoded(sizeOf, b, 0) == Ok(DataOf(chunks))
  {
    hide TakeTurn, IsChunk, IsLine, FrameOf;
    var rest := last + CRLF + tail;
    DecodePast(sizeOf, chunks, rest, 0);
    LastTurn(sizeOf, rest, |Frames(chunks)|);
    PrependToNothing(DataOf(chunks));
  }

  /** Whatever decodes is grammatical. */
  lemma DecodedIsGrammatical(sizeOf: SizeReader, b: bytes) returns (chunks: seq<Chunk>, last: bytes, tail: bytes)
    requires |b| <= MAX_SLICE && Decoded(sizeOf, b, 0).Ok?
    ensures IsChunkedBody(sizeOf, b, chunks, last, tail)
    ensures Decoded(sizeOf, b, 0) == Ok(DataOf(chunks))
  {
    hide TakeTurn, IsChunk, IsLine, FrameOf;
    var rest;
    chunks, rest := RunOfChunks(sizeOf, b, 0);
    DecodePast(sizeOf, chunks, rest, 0);
    LastTurn(sizeOf, rest, |Frames(chunks)|);
    last, tail :| IsLine(last) && sizeOf(last) == Ok(0) && rest == last + CRLF + tail;
    PrependToNothing(DataOf(chunks));
  }

  /** The decoder succeeds on exactly the grammatical bodies, and returns their data. */
  lemma DecodesIffGrammatical(sizeOf: SizeReader, b: bytes, data: bytes)
    requires |b| <= MAX_SLICE
    ensures Decoded(sizeOf, b, 0) == Ok(data)
            <==> exists chunks, last, tail :: IsChunkedBody(sizeOf, b, chunks, last, tail) && data == DataOf(chunks)
  {
    if Decoded(sizeOf, b, 0) == Ok(data) {
      var chunks, last, tail := DecodedIsGrammatical(sizeOf, b);
    }
    forall chunks, last, tail | IsChunkedBody(sizeOf, b, chunks, last, tail) && data == DataOf(chunks)
      ensures Decoded(sizeOf, b, 0) == Ok(data)
    {
      GrammaticalDecodes(sizeOf, b, chunks, last, tail);
    }
  }

  // ----- the wire format -----

  /** A size line announcing as many bytes as follow it. */
  ghost predicate IsWireChunk(c: Chunk) {
    IsLine(c.line) && c.data != [] && AnnouncesSize(c.line, |c.data|)
  }

  /** Chunks, then a line announcing zero, then anything. */
  ghost predicate IsWireBody(b: bytes, chunks: seq<Chunk>, last: bytes, tail: bytes) {
    && (forall i | 0 <= i < |chunks| :: IsWireChunk(chunks[i]))
    && IsLine(last) && AnnouncesSize(last, 0)
    && b == Frames(chunks) + (last + CRLF + tail)
  }

  lemma WireBodyIff(b: bytes, chunks: seq<Chunk>, last: bytes, tail: bytes)
    requires |b| <= MAX_SLICE
    ensures IsWireBody(b, chunks, last, tail) <==> IsChunkedBody(SizeOfLine, b, chunks, last, tail)
  {
    hide SizeOfLine, AnnouncesSize, IsLine, Frames;
    SizeOfLineIff(last, 0);
    if b == Frames(chunks) + (last + CRLF + tail) {
      forall i | 0 <= i < |chunks|
        ensures IsWireChunk(chunks[i]) <==> IsChunk(SizeOfLine, chunks[i])
      {
        FrameFits(chunks, i);
        SizeOfLineIff(chunks[i].line, |chunks[i].data|);
      }
    }
  }

  /** The decoder succeeds on exactly the bodies of the wire format, and returns their data. */
  lemma DecodesIffWireFormat(b: bytes, data: bytes)
    requires |b| <= MAX_SLICE
    ensures Decoded(SizeOfLine, b, 0) == Ok(data)
            <==> exists chunks, last, tail :: IsWireBody(b, chunks, last, tail) && data == DataOf(chunks)
  {
    hide IsWireBody, IsChunkedBody, Decoded, SizeOfLine;
    DecodesIffGrammatical(SizeOfLine, b, data);
    forall chunks, last, tail
      ensures IsWireBody(b, chunks, last, tail) <==> IsChunkedBody(SizeOfLine, b, chunks, last, tail)
    {
      WireBodyIff(b, chunks, last, tail);
    }
  }

  // ----- when the word-sized sum aborts the decoder -----

  /** After some chunks stands a size line whose announced end wraps around. */
  predicate WrapsAfter(sizeOf: SizeReader, b: bytes, chunks: seq<Chunk>, line: bytes, rest: bytes) {
    && AreChunks(sizeOf, chunks)
    && b == Frames(chunks) + (line + CRLF + rest)
    && IsWrappingLine(sizeOf, line, |Frames(chunks)| + |line| + 2, |b|)
  }

  predicate IsWrappingLine(sizeOf: SizeReader, line: bytes, start: nat, length: nat) {
    && IsLine(line)
    && sizeOf(line).Ok? && sizeOf(line).value > 0
    && SumWrapsInside(start, sizeOf(line).value, length)
  }

  lemma PanicTurn(sizeOf: SizeReader, b: bytes, pos: nat)
    ensures TakeTurn(sizeOf, b, pos) == Fail(Panic)
            <==> exists line, rest :: b == line + CRLF + rest && IsWrappingLine(sizeOf, line, pos + |line| + 2, pos + |b|)
  {
    if TakeTurn(sizeOf, b, pos) == Fail(Panic) {
      FoundLine(b);
      var end := Find(b, CRLF, 0).value;
      assert IsWrappingLine(sizeOf, b[..end], pos + |b[..end]| + 2, pos + |b|);
    }
    forall line, rest | b == line + CRLF + rest && IsWrappingLine(sizeOf, line, pos + |line| + 2, pos + |b|)
      ensures TakeTurn(sizeOf, b, pos) == Fail(Panic)
    {
      LineEnds(line, rest);
    }
  }

  lemma PanicHasWrap(sizeOf: SizeReader, b: bytes) returns (chunks: seq<Chunk>, line: bytes, rest: bytes)
    requires |b| <= MAX_SLICE && Decoded(sizeOf, b, 0) == Err(Panic)
    ensures WrapsAfter(sizeOf, b, chunks, line, rest)
  {
    hide TakeTurn, IsWrappingLine, IsChunk, FrameOf, Frames;
    var after;
    chunks, after := RunOfChunks(sizeOf, b, 0);
    DecodePast(sizeOf, chunks, after, 0);
    PanicTurn(sizeOf, after, |Frames(chunks)|);
    line, rest :| after == line + CRLF + rest && IsWrappingLine(sizeOf, line, |Frames(chunks)| + |line| + 2, |b|);
  }

  lemma WrapPanics(sizeOf: SizeReader, b: bytes, chunks: seq<Chunk>, line: bytes, rest: bytes)
    requires |b| <= MAX_SLICE && WrapsAfter(sizeOf, b, chunks, line, rest)
    ensures Decoded(sizeOf, b, 0) == Err(Panic)
  {
    hide TakeTurn, IsWrappingLine, IsChunk, FrameOf, Frames;
    DecodePast(sizeOf, chunks, line + CRLF + rest, 0);
    PanicTurn(sizeOf, line + CRLF + rest, |Frames(chunks)|);
  }

  /** The decoder aborts exactly when, after well-formed chunks, an announced end wraps around. */
  lemma PanicsIffSumWraps(sizeOf: SizeReader, b: bytes)
    requires |b| <= MAX_SLICE
    ensures Decoded(sizeOf, b, 0) == Err(Panic)
            <==> exists chunks, line, rest :: WrapsAfter(sizeOf, b, chunks, line, rest)
  {
    hide TakeTurn, WrapsAfter;
    if Decoded(sizeOf, b, 0) == Err(Panic) {
      var chunks, line, rest := PanicHasWrap(sizeOf, b);
    }
    forall chunks, line, rest | WrapsAfter(sizeOf, b, chunks, line, rest)
      ensures Decoded(sizeOf, b, 0) == Err(Panic)
    {
      WrapPanics(sizeOf, b, chunks, line, rest);
    }
  }

  // ----- round trip with an encoder -----

  /** The free parts of a size line: padding on both sides, and an extension. */
  datatype SizeStyle = SizeStyle(before: string, after: string, extension: string)

  predicate IsStyle(s: SizeStyle) {
    && AllWhitespace(s.before) && AllWhitespace(s.after)
    && (s.extension == "" || s.extension[0] == ';')
    && '\r' !in s.before && '\r' !in s.after && '\r' !in s.extension
  }

  function SizeText(s: SizeStyle, size: nat): string {
    s.before + PrintNat(size, 16) + s.after + s.extension
  }

  function EncodeChunk(part: (SizeStyle, bytes)): Chunk {
    Chunk(Utf8.Encode(SizeText(part.0, |part.1|)), part.1)
  }

  function EncodeChunks(parts: seq<(SizeStyle, bytes)>): (chunks: seq<Chunk>)
    ensures |chunks| == |parts|
  {
    seq(|parts|, i requires 0 <= i < |parts| => EncodeChunk(parts[i]))
  }

  /** A chunked body: the parts, the zero line, and a tail. */
  function EncodeBody(parts: seq<(SizeStyle, bytes)>, end: SizeStyle, tail: bytes): bytes {
    Frames(EncodeChunks(parts)) + (Utf8.Encode(SizeText(end, 0)) + CRLF + tail)
  }

  /** Text before the first `;` of a size text is the padded number. */
  lemma NumberBeforeExtension(number: string, extension: string)
    requires ';' !in number && (extension == "" || extension[0] == ';')
    ensures Before(number + extension, ';') == number
  {
    if extension == "" {
      assert number + extension == number;
      SplitHead(number, "", ';');
    } else {
      assert number + extension == number + [';'] + extension[1..];
      SplitHead(number, extension[1..], ';');
    }
  }

  lemma CrFreeEncodesToLine(text: string)
    requires '\r' !in text
    ensures IsLine(Utf8.Encode(text))
  {
    var line := Utf8.Encode(text);
    if Find(line, CRLF, 0).Some? {
      var k := Find(line, CRLF, 0).value;
      assert line[k..k + 2] == CRLF;
      assert line[k] == CR;
      Utf8.AsciiByteIsChar(text, k);
    }
  }

  /** A styled size line is a line, and announces its number. */
  lemma StyledLine(s: SizeStyle, size: nat)
    requires IsStyle(s) && size < USIZE
    ensures IsLine(Utf8.Encode(SizeText(s, size)))
    ensures SizeOfLine(Utf8.Encode(SizeText(s, size))) == Ok(size)
  {
    var text := SizeText(s, size);
    var digits := PrintNat(size, 16);
    PrintedValue(size, 16);
    assert forall i | 0 <= i < |digits| :: digits[i] != ';' && digits[i] != '\r' && !IsWhitespace(digits[i]);
    assert forall i | 0 <= i < |s.before| :: s.before[i] != ';' by { assert !IsWhitespace(';'); }
    assert forall i | 0 <= i < |s.after| :: s.after[i] != ';' by { assert !IsWhitespace(';'); }
    CrFreeEncodesToLine(text);
    Utf8.DecodeIffEncoded(Utf8.Encode(text), text);
    NumberBeforeExtension(s.before + digits + s.after, s.extension);
    TrimPadded(s.before, digits, s.after);
    ParsePrinted(size, 16, USIZE - 1);
  }

  /** The largest number of `n` hexadecimal digits. */
  function Largest(n: nat): nat { if n == 0 then 0 else 16 * Largest(n - 1) + 15 }

  lemma {:induction false} LargestIsPrinted(n: nat)
    requires n > 0
    ensures PrintNat(Largest(n), 16) == seq(n, _ => 'f')
  {
    if n > 1 {
      LargestIsPrinted(n - 1);
      assert seq(n, _ => 'f') == seq(n - 1, _ => 'f') + ['f'];
      OneMoreDigit(Largest(n - 1), 15);
    }
  }

  lemma OneMoreDigit(high: nat, low: nat)
    requires high > 0 && low < 16
    ensures PrintNat(16 * high + low, 16) == PrintNat(high, 16) + [DigitChar(low)]
  {
    assert (16 * high + low) / 16 == high && (16 * high + low) % 16 == low;
  }

  lemma FiveMoreDigits(n: nat)
    ensures Largest(n + 5) == 0x10_0000 * Largest(n) + 0xF_FFFF
  {
    assert Largest(n + 2) == 0x100 * Largest(n) + 0xFF;
    assert Largest(n + 4) == 0x100 * Largest(n + 2) + 0xFF;
  }

  lemma LargestOfFifteen()
    ensures 16 * Largest(15) + 14 == USIZE - 2 && Largest(15) > 0
  {
    assert Largest(0) == 0;
    hide Largest;
    FiveMoreDigits(0);
    FiveMoreDigits(5);
    FiveMoreDigits(10);
  }

  lemma AbortingSizeText()
    ensures PrintNat(USIZE - 2, 16) == seq(15, _ => 'f') + "e"
  {
    hide PrintNat, Largest;
    LargestOfFifteen();
    LargestIsPrinted(15);
    OneMoreDigit(Largest(15), 14);
  }

  /** A lone size line aborts the decoder when its announced end wraps to the end of the input. */
  lemma LoneLineAborts(text: string)
    requires text == PrintNat(USIZE - 2, 16) && |text| == 16
    ensures Decoded(SizeOfLine, Utf8.Encode(text) + CRLF, 0) == Err(Panic)
  {
    hide PrintNat, SizeOfLine, Decoded, Utf8.Encode;
    var style, line := SizeStyle("", "", ""), Utf8.Encode(text);
    PrintedValue(USIZE - 2, 16);
    Utf8.EncodeAscii(text);
    assert SizeText(style, USIZE - 2) == text;
    StyledLine(style, USIZE - 2);
    assert line + CRLF == Frames([]) + (line + CRLF + []);
    WrapPanics(SizeOfLine, line + CRLF, [], line, []);
  }

  /**
   A response that aborts the decoder: one line, whose size makes the sum of the data's offset, the
   size and the two bytes of the closing CRLF wrap to the length of the input.
   */
  lemma AbortingResponse()
    ensures Decoded(SizeOfLine, Utf8.Encode("fffffffffffffffe") + CRLF, 0) == Err(Panic)
  {
    hide *;
    AbortingSizeText();
    assert seq(15, _ => 'f') + "e" == "fffffffffffffffe";
    LoneLineAborts("fffffffffffffffe");
  }

  function ConcatParts(parts: seq<(SizeStyle, bytes)>): bytes {
    if parts == [] then [] else parts[0].1 + ConcatParts(parts[1..])
  }

  lemma {:induction false} EncodedChunksData(parts: seq<(SizeStyle, bytes)>)
    ensures DataOf(EncodeChunks(parts)) == ConcatParts(parts)
  {
    if parts != [] {
      EncodedChunksData(parts[1..]);
      assert EncodeChunks(parts)[1..] == EncodeChunks(parts[1..]);
    }
  }

  /** Decoding what the encoder wrote gives back the data, whatever the styles and the tail. */
  lemma ChunkedRoundTrip(parts: seq<(SizeStyle, bytes)>, end: SizeStyle, tail: bytes)
    requires forall i | 0 <= i < |parts| :: IsStyle(parts[i].0) && parts[i].1 != []
    requires IsStyle(end)
    requires |EncodeBody(parts, end, tail)| <= MAX_SLICE
    ensures Decoded(SizeOfLine, EncodeBody(parts, end, tail), 0) == Ok(ConcatParts(parts))
  {
    var chunks := EncodeChunks(parts);
    var body := EncodeBody(parts, end, tail);
    forall i | 0 <= i < |parts|
      ensures IsChunk(SizeOfLine, chunks[i])
    {
      FrameFits(chunks, i);
      StyledLine(parts[i].0, |parts[i].1|);
    }
    StyledLine(end, 0);
    EncodedChunksData(parts);
    GrammaticalDecodes(SizeOfLine, body, chunks, Utf8.Encode(SizeText(end, 0)), tail);
  }

  lemma {:induction false} FrameFits(chunks: seq<Chunk>, i: nat)
    requires i < |chunks|
    ensures |chunks[i].data| <= |Frames(chunks)|
  {
    if i > 0 {
      FrameFits(chunks[1..], i - 1);
    }
  }

  /** Two chunkings of one body decode alike: neither the cuts nor the tails matter. */
  lemma ChunkingIrrelevant(
    parts: seq<(SizeStyle, bytes)>, end: SizeStyle, tail: bytes,
    parts': seq<(SizeStyle, bytes)>, end': SizeStyle, tail': bytes)
    requires forall i | 0 <= i < |parts| :: IsStyle(parts[i].0) && parts[i].1 != []
    requires forall i | 0 <= i < |parts'| :: IsStyle(parts'[i].0) && parts'[i].1 != []
    requires IsStyle(end) && IsStyle(end')
    requires |EncodeBody(parts, end, tail)| <= MAX_SLICE && |EncodeBody(parts', end', tail')| <= MAX_SLICE
    requires ConcatParts(parts) == ConcatParts(parts')
    ensures Decoded(SizeOfLine, EncodeBody(parts, end, tail), 0) == Decoded(SizeOfLine, EncodeBody(parts', end', tail'), 0)
  {
    ChunkedRoundTrip(parts, end, tail);
    ChunkedRoundTrip(parts', end', tail');
  }
}

/** The `str` operations the program relies on: splitting, trimming, lines and words. */
module Text {
  import opened Wrappers

  /** `char::is_whitespace`: the Unicode White_Space property. */
  predicate IsWhitespace(c: char) {
    var n := c as int;
    || 0x9 <= n <= 0xD || n == 0x20 || n == 0x85 || n == 0xA0 || n == 0x1680
    || 0x2000 <= n <= 0x200A || n == 0x2028 || n == 0x2029 || n == 0x202F || n == 0x205F || n == 0x3000
  }

  /** The 25 characters with that property. */
  const WHITESPACE := "\t\n\U{B}\U{C}\r \U{85}\U{A0}\U{1680}"
    + "\U{2000}\U{2001}\U{2002}\U{2003}\U{2004}\U{2005}\U{2006}\U{2007}\U{2008}\U{2009}\U{200A}"
    + "\U{2028}\U{2029}\U{202F}\U{205F}\U{3000}"

  lemma WhitespaceIs(c: char)
    ensures IsWhitespace(c) <==> c in WHITESPACE
  {
  }

  predicate AllWhitespace(s: string) {
    forall i | 0 <= i < |s| :: IsWhitespace(s[i])
  }

  function TrimStart(s: string): string {
    if s != "" && IsWhitespace(s[0]) then TrimStart(s[1..]) else s
  }

  function TrimEnd(s: string): string {
    if s != "" && IsWhitespace(s[|s| - 1]) then TrimEnd(s[..|s| - 1]) else s
  }

  function Trim(s: string): string { TrimEnd(TrimStart(s)) }

  lemma {:induction false} TrimStartPadded(pad: string, core: string)
    requires AllWhitespace(pad)
    ensures TrimStart(pad + core) == TrimStart(core)
  {
    if pad == "" {
      assert pad + core == core;
    } else {
      assert (pad + core)[1..] == pad[1..] + core;
      TrimStartPadded(pad[1..], core);
    }
  }

  lemma {:induction false} TrimEndPadded(core: string, pad: string)
    requires AllWhitespace(pad)
    ensures TrimEnd(core + pad) == TrimEnd(core)
  {
    if pad == "" {
      assert core + pad == core;
    } else {
      var n := |pad| - 1;
      assert (core + pad)[..|core| + n] == core + pad[..n];
      TrimEndPadded(core, pad[..n]);
    }
  }

  /** Trimming removes any padding around text that has none of its own at its ends. */
  lemma TrimPadded(before: string, core: string, after: string)
    requires AllWhitespace(before) && AllWhitespace(after)
    requires core != "" && !IsWhitespace(core[0]) && !IsWhitespace(core[|core| - 1])
    ensures Trim(before + core + after) == core
  {
    assert before + core + after == before + (core + after);
    TrimStartPadded(before, core + after);
    TrimEndPadded(core, after);
  }

  /** Text is empty after trimming exactly when it is all whitespace. */
  lemma {:induction false} TrimsToNothingIff(s: string)
    ensures Trim(s) == "" <==> AllWhitespace(s)
  {
    if AllWhitespace(s) {
      assert s + "" == s;
      TrimStartPadded(s, "");
    } else if IsWhitespace(s[0]) {
      assert s == [s[0]] + s[1..];
      TrimsToNothingIff(s[1..]);
    } else {
      TrimEndKeepsWord(s);
    }
  }

  lemma {:induction false} TrimEndKeepsWord(s: string)
    requires s != "" && !IsWhitespace(s[0])
    ensures TrimEnd(s) != ""
  {
    if IsWhitespace(s[|s| - 1]) {
      TrimEndKeepsWord(s[..|s| - 1]);
    }
  }

  /** Text without whitespace at its ends. */
  predicate IsTrimmed(s: string) {
    s != "" ==> !IsWhitespace(s[0]) && !IsWhitespace(s[|s| - 1])
  }

  ghost predicate IsPadded(s: string, core: string, before: string, after: string) {
    AllWhitespace(before) && AllWhitespace(after) && s == before + core + after
  }

  /** Trimming gives the one text without outer whitespace that the input is a padding of. */
  lemma TrimIff(s: string, t: string)
    ensures Trim(s) == t <==> IsTrimmed(t) && exists before, after :: IsPadded(s, t, before, after)
  {
    hide IsWhitespace, TrimStart, TrimEnd;
    if Trim(s) == t {
      var before := TrimStartCuts(s);
      var after := TrimEndCuts(TrimStart(s));
      assert s == before + t + after;
      assert IsPadded(s, t, before, after);
    }
    forall before, after | IsTrimmed(t) && IsPadded(s, t, before, after)
      ensures Trim(s) == t
    {
      if t == "" {
        TrimsToNothingIff(s);
      } else {
        TrimPadded(before, t, after);
      }
    }
  }

  lemma {:induction false} TrimStartCuts(s: string) returns (before: string)
    ensures AllWhitespace(before) && s == before + TrimStart(s)
    ensures TrimStart(s) != "" ==> !IsWhitespace(TrimStart(s)[0])
  {
    hide IsWhitespace;
    if s != "" && IsWhitespace(s[0]) {
      var more := TrimStartCuts(s[1..]);
      before := [s[0]] + more;
      assert s == [s[0]] + s[1..];
    } else {
      before := "";
    }
  }

  lemma {:induction false} TrimEndCuts(s: string) returns (after: string)
    ensures AllWhitespace(after) && s == TrimEnd(s) + after
    ensures TrimEnd(s) != "" ==> !IsWhitespace(TrimEnd(s)[|TrimEnd(s)| - 1])
  {
    hide IsWhitespace;
    if s != "" && IsWhitespace(s[|s| - 1]) {
      var more := TrimEndCuts(s[..|s| - 1]);
      after := more + [s[|s| - 1]];
      assert s == s[..|s| - 1] + [s[|s| - 1]];
    } else {
      after := "";
      assert s == TrimEnd(s) + after;
    }
  }

  /** `str::to_ascii_lowercase`. */
  function LowerChar(c: char): char {
    if 'A' <= c <= 'Z' then (c as int + 32) as char else c
  }

  const UPPER := "ABCDEFGHIJKLMNOPQRSTUVWXYZ"
  const LOWER := "abcdefghijklmnopqrstuvwxyz"

  const DIGITS := "0123456789"

  lemma LowerLetters(c: char)
    ensures c in LOWER <==> 'a' <= c <= 'z'
  {
    if 'a' <= c <= 'z' { assert LOWER[c as int - 'a' as int] == c; }
  }

  lemma UpperLetters(c: char)
    ensures c in UPPER <==> 'A' <= c <= 'Z'
  {
    if 'A' <= c <= 'Z' { assert UPPER[c as int - 'A' as int] == c; }
  }

  lemma DecimalDigits(c: char)
    ensures c in DIGITS <==> '0' <= c <= '9'
  {
    if '0' <= c <= '9' { assert DIGITS[c as int - '0' as int] == c; }
  }

  /** Lower-casing maps the upper-case alphabet to the lower-case one and changes nothing else. */
  lemma LowerCaseIs(c: char)
    ensures forall k | 0 <= k < 26 :: LowerChar(UPPER[k]) == LOWER[k]
    ensures c !in UPPER ==> LowerChar(c) == c
  {
    UpperLetters(c);
  }

  function ToLower(s: string): (r: string)
    ensures |r| == |s|
  {
    seq(|s|, i requires 0 <= i < |s| => LowerChar(s[i]))
  }

  /** `str::split(sep)`. */
  function Split(s: string, sep: char): (r: seq<string>)
    ensures |r| >= 1
  {
    if s == "" then [""]
    else
      var rest := Split(s[1..], sep);
      if s[0] == sep then [""] + rest else [[s[0]] + rest[0]] + rest[1..]
  }

  function Join(parts: seq<string>, sep: char): string
    requires |parts| >= 1
  {
    if |parts| == 1 then parts[0] else parts[0] + [sep] + Join(parts[1..], sep)
  }

  predicate NoneContains(parts: seq<string>, sep: char) {
    forall i | 0 <= i < |parts| :: sep !in parts[i]
  }

  /** Splitting loses nothing, and no piece contains the separator. */
  lemma {:induction false} JoinOfSplit(s: string, sep: char)
    ensures Join(Split(s, sep), sep) == s && NoneContains(Split(s, sep), sep)
  {
    if s != "" {
      JoinOfSplit(s[1..], sep);
      var rest := Split(s[1..], sep);
      var whole := Split(s, sep);
      assert s == [s[0]] + s[1..];
      if s[0] == sep {
        assert whole[1..] == rest;
        assert Join(whole, sep) == [sep] + Join(rest, sep);
      } else {
        assert whole[1..] == rest[1..];
        assert Join(whole, sep) == [s[0]] + Join(rest, sep);
      }
    }
  }

  lemma {:induction false} SplitHead(piece: string, rest: string, sep: char)
    requires sep !in piece
    ensures Split(piece, sep) == [piece]
    ensures Split(piece + [sep] + rest, sep) == [piece] + Split(rest, sep)
  {
    if piece == "" {
      assert ([sep] + rest)[1..] == rest;
      assert piece + [sep] + rest == [sep] + rest;
    } else {
      SplitHead(piece[1..], rest, sep);
      assert (piece + [sep] + rest)[1..] == piece[1..] + [sep] + rest;
      assert piece == [piece[0]] + piece[1..];
    }
  }

  /** The pieces of a join of separator-free pieces are those pieces. */
  lemma {:induction false} SplitOfJoin(parts: seq<string>, sep: char)
    requires |parts| >= 1 && NoneContains(parts, sep)
    ensures Split(Join(parts, sep), sep) == parts
  {
    if |parts| == 1 {
      SplitHead(parts[0], "", sep);
    } else {
      SplitOfJoin(parts[1..], sep);
      SplitHead(parts[0], Join(parts[1..], sep), sep);
    }
  }

  /** `str::split_once(sep)`: cut at the first separator. */
  function SplitOnce(s: string, sep: char): (r: Option<(string, string)>)
    ensures r.None? <==> sep !in s
    ensures r.Some? ==> sep !in r.value.0 && s == r.value.0 + [sep] + r.value.1
  {
    if s == "" then None
    else if s[0] == sep then Some(("", s[1..]))
    else
      var (before, after) :- SplitOnce(s[1..], sep);
      Some(([s[0]] + before, after))
  }

  lemma {:induction false} SplitOnceUnique(before: string, after: string, sep: char)
    requires sep !in before
    ensures SplitOnce(before + [sep] + after, sep) == Some((before, after))
  {
    if before == "" {
      assert before + [sep] + after == [sep] + after;
    } else {
      var s := before + [sep] + after;
      SplitOnceUnique(before[1..], after, sep);
      assert s[0] == before[0] && s[1..] == before[1..] + [sep] + after;
      assert before == [before[0]] + before[1..];
    }
  }

  /** `str::split(sep).next()`: the text before the first separator, or all of it. */
  function Before(s: string, sep: char): string { Split(s, sep)[0] }

  /** The text before the first separator: it holds none, and is all or is followed by one. */
  lemma BeforeIff(s: string, sep: char, t: string)
    ensures Before(s, sep) == t <==> sep !in t && (s == t || exists rest :: s == t + [sep] + rest)
  {
    hide Split;
    match SplitOnce(s, sep)
    case None =>
      SplitHead(s, "", sep);
      forall rest ensures sep in t + [sep] + rest { assert (t + [sep] + rest)[|t|] == sep; }
    case Some((before, after)) =>
      SplitHead(before, after, sep);
      if s == t { assert s[|before|] == sep; }
      forall rest | sep !in t && s == t + [sep] + rest ensures t == before {
        SplitOnceUnique(t, rest, sep);
      }
  }

  /** `str::lines().next()`: the first line without its terminator. */
  function FirstLine(s: string): Option<string> {
    if s == "" then None
    else
      match SplitOnce(s, '\n')
      case None => Some(s)
      case Some((line, _)) =>
        Some(if line != "" && line[|line| - 1] == '\r' then line[..|line| - 1] else line)
  }

  /** `s` is `line` and its terminator, a line feed or CR and line feed, and `rest`. */
  predicate StartsWithLine(s: string, line: string, rest: string) {
    || s == line + "\r\n" + rest
    || (s == line + "\n" + rest && (line == "" || line[|line| - 1] != '\r'))
  }

  /** The first line precedes the first terminator, or is all of a non-empty text without one. */
  ghost predicate IsFirstLine(s: string, line: string) {
    s != "" && '\n' !in line && (s == line || exists rest :: StartsWithLine(s, line, rest))
  }

  lemma FirstLineIff(s: string, line: string)
    ensures FirstLine(s) == Some(line) <==> IsFirstLine(s, line)
  {
    assert "\r\n" == ['\r'] + ['\n'] && "\n" == ['\n'];
    match SplitOnce(s, '\n')
    case None =>
      forall rest ensures StartsWithLine(s, line, rest) ==> '\n' in s {
        if StartsWithLine(s, line, rest) { LineHasFeed(s, line, rest); }
      }
    case Some((first, after)) =>
      forall rest | '\n' !in line && StartsWithLine(s, line, rest)
        ensures FirstLine(s) == Some(line)
      {
        LineSplits(s, line, rest);
      }
      if FirstLine(s) == Some(line) {
        assert StartsWithLine(s, line, after) by {
          if first != "" && first[|first| - 1] == '\r' {
            assert first == line + ['\r'];
            assert s == line + "\r\n" + after;
          } else {
            assert s == line + "\n" + after;
          }
        }
      }
  }

  lemma LineHasFeed(s: string, line: string, rest: string)
    requires StartsWithLine(s, line, rest)
    ensures '\n' in s
  {
    if s == line + "\r\n" + rest {
      assert s[|line| + 1] == '\n';
    } else {
      assert s[|line|] == '\n';
    }
  }

  lemma LineSplits(s: string, line: string, rest: string)
    requires '\n' !in line && StartsWithLine(s, line, rest)
    ensures FirstLine(s) == Some(line)
  {
    if s == line + "\r\n" + rest {
      assert "\r\n" == ['\r'] + ['\n'];
      assert s == (line + ['\r']) + ['\n'] + rest;
      SplitOnceUnique(line + ['\r'], rest, '\n');
      assert (line + ['\r'])[..|line|] == line;
    } else {
      assert "\n" == ['\n'];
      SplitOnceUnique(line, rest, '\n');
    }
  }

  /** The first word of `split_whitespace`, and the text after it. */
  function NextWord(s: string): (r: Option<(string, string)>)
    ensures r.Some? ==> r.value.0 != "" && |r.value.1| < |s|
  {
    if s == "" then None
    else if IsWhitespace(s[0]) then NextWord(s[1..])
    else
      match NextWordTail(s[1..])
      case (word, rest) => Some(([s[0]] + word, rest))
  }

  /** The longest whitespace-free prefix, and the rest. */
  function NextWordTail(s: string): (r: (string, string))
    ensures r.0 + r.1 == s
  {
    if s == "" || IsWhitespace(s[0]) then ("", s)
    else
      match NextWordTail(s[1..])
      case (word, rest) => ([s[0]] + word, rest)
  }

  predicate IsWord(s: string) {
    s != "" && forall i | 0 <= i < |s| :: !IsWhitespace(s[i])
  }

  lemma {:induction false} WordTail(word: string, rest: string)
    requires forall i | 0 <= i < |word| :: !IsWhitespace(word[i])
    requires rest == "" || IsWhitespace(rest[0])
    ensures NextWordTail(word + rest) == (word, rest)
  {
    if word == "" {
      assert word + rest == rest;
    } else {
      assert (word + rest)[1..] == word[1..] + rest;
      assert word == [word[0]] + word[1..];
      WordTail(word[1..], rest);
    }
  }

  /** Text of the form padding, word, padding starts with that word. */
  lemma {:induction false} NextWordIs(pad: string, word: string, rest: string)
    requires AllWhitespace(pad) && IsWord(word)
    requires rest == "" || IsWhitespace(rest[0])
    ensures NextWord(pad + word + rest) == Some((word, rest))
  {
    var s := pad + word + rest;
    if pad == "" {
      assert s == word + rest;
      assert s[1..] == word[1..] + rest;
      assert word == [word[0]] + word[1..];
      WordTail(word[1..], rest);
    } else {
      assert s[1..] == pad[1..] + word + rest;
      NextWordIs(pad[1..], word, rest);
    }
  }

  /** `s` is whitespace, then the word, then nothing or more whitespace and `rest`. */
  ghost predicate StartsWithWord(s: string, word: string, rest: string) {
    && IsWord(word) && (rest == "" || IsWhitespace(rest[0]))
    && exists pad :: AllWhitespace(pad) && s == pad + word + rest
  }

  lemma {:induction false} WordTailCuts(s: string)
    ensures var (word, rest) := NextWordTail(s);
            && (forall i | 0 <= i < |word| :: !IsWhitespace(word[i]))
            && (rest == "" || IsWhitespace(rest[0]))
  {
    hide IsWhitespace;
    if s != "" && !IsWhitespace(s[0]) {
      WordTailCuts(s[1..]);
    }
  }

  lemma {:induction false} NextWordCuts(s: string)
    ensures match NextWord(s)
            case None => AllWhitespace(s)
            case Some((word, rest)) => StartsWithWord(s, word, rest)
  {
    hide IsWhitespace;
    if s == "" {
    } else if IsWhitespace(s[0]) {
      NextWordCuts(s[1..]);
      assert s == [s[0]] + s[1..];
      match NextWord(s) {
        case None =>
        case Some((word, rest)) =>
          var pad :| AllWhitespace(pad) && s[1..] == pad + word + rest;
          assert AllWhitespace([s[0]] + pad) && s == [s[0]] + pad + word + rest;
      }
    } else {
      WordTailCuts(s[1..]);
      var (word, rest) := NextWord(s).value;
      assert AllWhitespace("") && s == "" + word + rest;
    }
  }

  /** The next word is the one after any whitespace; there is none in whitespace only. */
  lemma NextWordIff(s: string, word: string, rest: string)
    ensures NextWord(s) == Some((word, rest)) <==> StartsWithWord(s, word, rest)
    ensures NextWord(s).None? <==> AllWhitespace(s)
  {
    hide IsWhitespace, NextWord;
    NextWordCuts(s);
    forall pad | AllWhitespace(pad) && IsWord(word) && s == pad + word + rest && (rest == "" || IsWhitespace(rest[0]))
      ensures NextWord(s) == Some((word, rest))
    {
      NextWordIs(pad, word, rest);
    }
    if NextWord(s).Some? {
      var (w, r) := NextWord(s).value;
      var pad :| AllWhitespace(pad) && s == pad + w + r;
      assert s[|pad|] == w[0];
    }
  }
}

/** The runtime FQDN channel of src/bin/choracle-runtime-config.rs, and the Terraform check. */
module RuntimeConfig {
  import opened Wrappers
  import opened Bytes
  import opened Text
  import Utf8

  const MAX_FQDN_BYTES: nat := 253

  datatype FqdnError =
    | Empty
    | TooLong
    | IsUrl
    | NotBareName
    | NotPlainAscii
    | TooFewLabels
    | EmptyLabel
    | LabelTooLong
    | EdgeHyphen
    | BadLabelCharacter

  function ByteLength(s: string): nat { |Utf8.Encode(s)| }

  predicate IsAlphanumeric(c: char) {
    'a' <= c <= 'z' || 'A' <= c <= 'Z' || '0' <= c <= '9'
  }

  predicate IsLabelChar(c: char) { IsAlphanumeric(c) || c == '-' }

  /** Label characters are the letters of either case, the digits and the hyphen. */
  lemma LabelCharIs(c: char)
    ensures IsAlphanumeric(c) <==> c in LOWER || c in UPPER || c in DIGITS
    ensures IsLabelChar(c) <==> c in LOWER || c in UPPER || c in DIGITS || c == '-'
  {
    LowerLetters(c);
    UpperLetters(c);
    DecimalDigits(c);
  }

  predicate AllLabelChars(s: string) {
    forall i | 0 <= i < |s| :: IsLabelChar(s[i])
  }

  /** `char::is_ascii_whitespace`. */
  predicate IsAsciiWhitespace(c: char) {
    c == ' ' || c == '\t' || c == '\n' || c == '\r' || c as int == 0xC
  }

  predicate StartsWith(s: string, prefix: string) { prefix <= s }

  predicate StartsWithChar(s: string, c: char) { s != "" && s[0] == c }

  predicate EndsWithChar(s: string, c: char) { s != "" && s[|s| - 1] == c }

  function CheckLabel(label_: string): Result<(), FqdnError> {
    if label_ == "" then Err(EmptyLabel)
    else if ByteLength(label_) > 63 then Err(LabelTooLong)
    else if StartsWithChar(label_, '-') || EndsWithChar(label_, '-') then Err(EdgeHyphen)
    else if !AllLabelChars(label_) then Err(BadLabelCharacter)
    else Ok(())
  }

  /** The label loop: the first label that fails decides. */
  function CheckLabels(labels: seq<string>): Result<(), FqdnError> {
    if labels == [] then Ok(())
    else
      var _ :- CheckLabel(labels[0]);
      CheckLabels(labels[1..])
  }

  /** `validate_fqdn`. */
  function ValidateFqdn(value: string): Result<string, FqdnError> {
    if value == "" then Err(Empty)
    else if ByteLength(value) > MAX_FQDN_BYTES then Err(TooLong)
    else if StartsWith(value, "http://") || StartsWith(value, "https://") then Err(IsUrl)
    else if EndsWithChar(value, '.') || '/' in value || ':' in value then Err(NotBareName)
    else if !Utf8.IsAscii(value) || exists i :: 0 <= i < |value| && IsAsciiWhitespace(value[i])
    then Err(NotPlainAscii)
    else
      var labels := Split(value, '.');
      if |labels| < 2 then Err(TooFewLabels)
      else
        var _ :- CheckLabels(labels);
        Ok(value)
  }

  // ----- the label grammar -----

  /** A host label (section 2.3.1 of RFC 1035, as relaxed by section 2.1 of RFC 1123). */
  predicate IsLabel(s: string) {
    1 <= |s| <= 63 && AllLabelChars(s) && s[0] != '-' && s[|s| - 1] != '-'
  }

  predicate AreLabels(labels: seq<string>) {
    forall i | 0 <= i < |labels| :: IsLabel(labels[i])
  }

  /** At least two labels joined by dots, in at most 253 characters. */
  ghost predicate IsDnsName(s: string) {
    |s| <= MAX_FQDN_BYTES && exists labels :: IsNameOf(s, labels)
  }

  ghost predicate IsNameOf(s: string, labels: seq<string>) {
    |labels| >= 2 && AreLabels(labels) && s == Join(labels, '.')
  }

  lemma LabelCharsAreAscii(s: string)
    requires AllLabelChars(s)
    ensures Utf8.IsAscii(s) && ByteLength(s) == |s|
    ensures '.' !in s && '/' !in s && ':' !in s
  {
    Utf8.EncodeAscii(s);
  }

  lemma LabelCheckIff(s: string)
    ensures CheckLabel(s).Ok? <==> IsLabel(s)
  {
    if AllLabelChars(s) {
      LabelCharsAreAscii(s);
    }
  }

  lemma {:induction false} LabelChecksIff(labels: seq<string>)
    ensures CheckLabels(labels).Ok? <==> AreLabels(labels)
  {
    hide CheckLabel, IsLabel;
    if labels != [] {
      LabelCheckIff(labels[0]);
      LabelChecksIff(labels[1..]);
      assert labels == [labels[0]] + labels[1..];
      if AreLabels(labels) {
        assert forall i | 0 <= i < |labels| - 1 :: labels[1..][i] == labels[i + 1];
      }
    }
  }

  /** The characters of a name are label characters and dots; it neither starts nor ends with a dot. */
  predicate IsDotted(s: string) {
    && (forall i | 0 <= i < |s| :: IsLabelChar(s[i]) || s[i] == '.')
    && s != "" && IsAlphanumeric(s[0]) && IsAlphanumeric(s[|s| - 1])
  }

  lemma {:induction false} JoinedLabelsAreDotted(labels: seq<string>)
    requires |labels| >= 1 && AreLabels(labels)
    ensures IsDotted(Join(labels, '.'))
  {
    var first := labels[0];
    assert IsLabel(first);
    if |labels| > 1 {
      assert AreLabels(labels[1..]);
      JoinedLabelsAreDotted(labels[1..]);
      var rest := Join(labels[1..], '.');
      var s := first + ['.'] + rest;
      forall i | 0 <= i < |s|
        ensures IsLabelChar(s[i]) || s[i] == '.'
      {
        if i > |first| { assert s[i] == rest[i - |first| - 1]; }
      }
      assert s[|s| - 1] == rest[|rest| - 1];
    }
  }

  lemma UrlHasColon(s: string)
    ensures StartsWith(s, "http://") || StartsWith(s, "https://") ==> ':' in s
  {
    if StartsWith(s, "http://") { assert s[4] == "http://"[4]; }
    if StartsWith(s, "https://") { assert s[5] == "https://"[5]; }
  }

  /** A dotted text passes every check that comes before the labels, but for the length. */
  lemma DottedIsBare(s: string)
    requires IsDotted(s)
    ensures Utf8.IsAscii(s) && ByteLength(s) == |s|
    ensures !StartsWith(s, "http://") && !StartsWith(s, "https://")
    ensures !EndsWithChar(s, '.') && '/' !in s && ':' !in s
    ensures !exists i :: 0 <= i < |s| && IsAsciiWhitespace(s[i])
  {
    assert Utf8.IsAscii(s) by {
      forall i | 0 <= i < |s| ensures s[i] as int < 0x80 { assert IsLabelChar(s[i]) || s[i] == '.'; }
    }
    Utf8.EncodeAscii(s);
    hide Utf8.Encode;
    UrlHasColon(s);
  }

  /** The validator accepts exactly the names of the label grammar. */
  lemma ValidIffDnsName(value: string)
    ensures ValidateFqdn(value) == Ok(value) <==> IsDnsName(value)
    ensures ValidateFqdn(value).Ok? ==> ValidateFqdn(value) == Ok(value)
  {
    hide Utf8.IsAscii, CheckLabels, Join, Split, AreLabels, StartsWith, IsAsciiWhitespace;
    var labels := Split(value, '.');
    LabelChecksIff(labels);
    JoinOfSplit(value, '.');
    if ValidateFqdn(value).Ok? {
      JoinedLabelsAreDotted(labels);
      DottedIsBare(value);
      assert IsNameOf(value, labels);
    }
    if IsDnsName(value) {
      var parts :| IsNameOf(value, parts);
      NameHasLabels(value, parts);
      JoinedLabelsAreDotted(parts);
      DottedIsBare(value);
    }
  }

  lemma NameHasLabels(s: string, labels: seq<string>)
    requires IsNameOf(s, labels)
    ensures Split(s, '.') == labels
  {
    forall i | 0 <= i < |labels|
      ensures '.' !in labels[i]
    {
      assert IsLabel(labels[i]);
      LabelCharsAreAscii(labels[i]);
    }
    SplitOfJoin(labels, '.');
  }

  /**
   The length and label checks alone decide: the emptiness, URL, slash, colon, trailing-dot, ASCII
   and whitespace checks reject nothing more.
   */
  lemma EarlyChecksAreImplied(value: string)
    ensures ValidateFqdn(value).Ok?
            <==> ByteLength(value) <= MAX_FQDN_BYTES && |Split(value, '.')| >= 2
                 && CheckLabels(Split(value, '.')).Ok?
  {
    hide Utf8.IsAscii, CheckLabels, Join, Split, AreLabels, StartsWith, IsAsciiWhitespace;
    var labels := Split(value, '.');
    LabelChecksIff(labels);
    JoinOfSplit(value, '.');
    if |labels| >= 2 && CheckLabels(labels).Ok? {
      JoinedLabelsAreDotted(labels);
      DottedIsBare(value);
    }
  }

  // ----- the Terraform condition -----

  /** The `proof_fqdn` validation of terraform/variables.tf. */
  predicate TerraformAccepts(s: string) {
    && Trim(s) == s
    && |s| <= 253
    && |Split(s, '.')| >= 2
    && !StartsWith(s, "http://") && !StartsWith(s, "https://")
    && '/' !in s && ':' !in s && '_' !in s
    && Find(s, "..", 0).None?
    && |s| >= 2 && IsDotted(s)
  }

  /** What Terraform leaves to the enclave: label lengths, and hyphens at label edges. */
  predicate LabelsAreTight(labels: seq<string>) {
    forall i | 0 <= i < |labels| ::
      |labels[i]| <= 63 && !StartsWithChar(labels[i], '-') && !EndsWithChar(labels[i], '-')
  }

  /** Two dots in a row leave an empty piece between them, and the other way round. */
  lemma {:induction false} EmptyPieceIffTwoDots(s: string)
    requires s != "" && s[0] != '.' && s[|s| - 1] != '.'
    ensures (exists i :: 0 <= i < |Split(s, '.')| && Split(s, '.')[i] == "") <==> Find(s, "..", 0).Some?
    decreases |s|
  {
    match SplitOnce(s, '.')
    case None =>
      SplitHead(s, "", '.');
      assert forall i | 0 <= i < |s| :: s[i] != '.';
      forall k: nat
        ensures !At(s, "..", k)
      {
        TwoDotsAt(s, k);
      }
    case Some((first, rest)) =>
      SplitHead(first, rest, '.');
      var pieces, more := Split(s, '.'), Split(rest, '.');
      assert pieces == [first] + more;
      assert rest != "" && rest[|rest| - 1] == s[|s| - 1];
      if rest[0] == '.' {
        assert rest == "" + ['.'] + rest[1..];
        SplitHead("", rest[1..], '.');
        assert pieces[1] == "";
        assert s[|first|..|first| + 2] == "..";
        assert At(s, "..", |first|);
      } else {
        EmptyPieceIffTwoDots(rest);
        TwoDotsAfterFirst(first, rest);
        assert forall i | 0 <= i < |more| :: pieces[i + 1] == more[i];
      }
  }

  lemma TwoDotsAt(s: string, k: nat)
    ensures At(s, "..", k) <==> k + 2 <= |s| && s[k] == '.' && s[k + 1] == '.'
  {
    if k + 2 <= |s| {
      assert s[k..k + 2] == [s[k], s[k + 1]];
      assert ".." == ['.', '.'];
    }
  }

  lemma TwoDotsAfterFirst(first: string, rest: string)
    requires '.' !in first && first != "" && rest != "" && rest[0] != '.'
    ensures Find(first + ['.'] + rest, "..", 0).Some? <==> Find(rest, "..", 0).Some?
  {
    var s, n := first + ['.'] + rest, |first| + 1;
    hide At;
    if Find(rest, "..", 0).Some? {
      var k := Find(rest, "..", 0).value;
      TwoDotsAt(rest, k);
      TwoDotsAt(s, n + k);
    }
    if Find(s, "..", 0).Some? {
      var k := Find(s, "..", 0).value;
      TwoDotsAt(s, k);
      assert forall i | 0 <= i < |first| :: s[i] == first[i] && first[i] in first;
      assert s[n] == rest[0];
      TwoDotsAt(rest, k - n);
    }
  }

  lemma DottedIsTrimmed(s: string)
    requires IsDotted(s)
    ensures Trim(s) == s && '_' !in s
  {
    assert "" + s + "" == s;
    TrimPadded("", s, "");
  }

  lemma PieceChars(s: string, i: nat)
    requires IsDotted(s) && i < |Split(s, '.')|
    ensures AllLabelChars(Split(s, '.')[i])
  {
    JoinOfSplit(s, '.');
    var pieces := Split(s, '.');
    forall k | 0 <= k < |pieces[i]|
      ensures IsLabelChar(pieces[i][k])
    {
      PieceCharOccurs(pieces, i, k);
      var j :| 0 <= j < |s| && s[j] == pieces[i][k];
      assert pieces[i][k] in pieces[i];
    }
  }

  lemma {:induction false} PieceCharOccurs(pieces: seq<string>, i: nat, k: nat)
    requires i < |pieces| && k < |pieces[i]|
    ensures pieces[i][k] in Join(pieces, '.')
  {
    if i > 0 {
      PieceCharOccurs(pieces[1..], i - 1, k);
    }
  }

  /**
   A name is valid exactly when Terraform accepts it and no label is too long or has a hyphen at
   its edge. So every valid name passes Terraform.
   */
  lemma ValidIffTerraformAndTight(s: string)
    ensures IsDnsName(s) <==> TerraformAccepts(s) && LabelsAreTight(Split(s, '.'))
  {
    hide Join, Split, Trim, IsDotted, StartsWith, AllLabelChars;
    var labels := Split(s, '.');
    JoinOfSplit(s, '.');
    if IsDnsName(s) {
      var parts :| IsNameOf(s, parts);
      NameHasLabels(s, parts);
      JoinedLabelsAreDotted(parts);
      DottedIsBare(s);
      DottedIsTrimmed(s);
      DottedEdges(s);
      assert forall i | 0 <= i < |labels| :: IsLabel(labels[i]);
      EmptyPieceIffTwoDots(s);
      TwoPiecesAreLong(s);
    }
    if TerraformAccepts(s) && LabelsAreTight(labels) {
      DottedEdges(s);
      EmptyPieceIffTwoDots(s);
      forall i | 0 <= i < |labels|
        ensures IsLabel(labels[i])
      {
        PieceChars(s, i);
      }
      assert IsNameOf(s, labels);
    }
  }

  lemma DottedEdges(s: string)
    requires IsDotted(s)
    ensures s != "" && s[0] != '.' && s[|s| - 1] != '.'
  {
  }

  lemma TwoPiecesAreLong(s: string)
    requires IsDotted(s) && |Split(s, '.')| >= 2
    ensures |s| >= 2
  {
    if |s| == 1 {
      assert false;
    }
  }

  /** The inclusion is strict: a label that ends in a hyphen passes Terraform only. */
  lemma TerraformAcceptsMore()
    ensures TerraformAccepts("a-.b") && !IsDnsName("a-.b")
  {
    hide Split, Trim, IsDnsName, StartsWith;
    var s := "a-.b";
    assert s == ['a', '-', '.', 'b'];
    assert IsDotted(s);
    LooseLabels(s);
    DottedIsTrimmed(s);
    DottedIsBare(s);
    EmptyPieceIffTwoDots(s);
    ValidIffTerraformAndTight(s);
  }

  lemma LooseLabels(s: string)
    requires s == ['a', '-', '.', 'b']
    ensures Split(s, '.') == ["a-", "b"] && !LabelsAreTight(Split(s, '.'))
  {
    hide Split;
    assert s == "a-" + ['.'] + "b";
    SplitHead("a-", "b", '.');
    SplitHead("b", "", '.');
    assert EndsWithChar(Split(s, '.')[0], '-');
  }

  // ----- the channel -----

  /** What `serve_fqdn` writes to each client. */
  function ServedBytes(fqdn: string): bytes { Utf8.Encode(fqdn) + [LF] }

  function TrimEndNewlines(s: string): string {
    if s != "" && (s[|s| - 1] == '\r' || s[|s| - 1] == '\n') then TrimEndNewlines(s[..|s| - 1]) else s
  }

  datatype FetchError =
    | ConnectFailed
    | ReadFailed
    | ResponseTooLong
    | NotUtf8
    | BadFqdn(fqdn: FqdnError)
    | NoAttempt

  /** How `fetch_fqdn_once` reads the bytes it received up to the end of the stream. */
  function FetchedFqdn(received: bytes): Result<string, FetchError> {
    if |received| > MAX_FQDN_BYTES + 1 then Err(ResponseTooLong)
    else
      var text :- Utf8.Decode(received).ToResult(NotUtf8);
      match ValidateFqdn(TrimEndNewlines(text))
      case Ok(fqdn) => Ok(fqdn)
      case Err(e) => Err(BadFqdn(e))
  }

  predicate AreNewlines(b: bytes) {
    forall i | 0 <= i < |b| :: b[i] == CR || b[i] == LF
  }

  predicate AreNewlineChars(s: string) {
    forall i | 0 <= i < |s| :: s[i] == '\r' || s[i] == '\n'
  }

  lemma {:induction false} TrimmedNewlines(s: string)
    ensures var t := TrimEndNewlines(s);
            t <= s && AreNewlineChars(s[|t|..]) && (t != "" ==> t[|t| - 1] != '\r' && t[|t| - 1] != '\n')
  {
    if s != "" && (s[|s| - 1] == '\r' || s[|s| - 1] == '\n') {
      var n := |s| - 1;
      TrimmedNewlines(s[..n]);
      var t := TrimEndNewlines(s);
      assert s[|t|..] == s[..n][|t|..] + [s[n]];
    }
  }

  lemma {:induction false} TrimNewlinesOf(t: string, tail: string)
    requires AreNewlineChars(tail) && t != "" && t[|t| - 1] != '\r' && t[|t| - 1] != '\n'
    ensures TrimEndNewlines(t + tail) == t
  {
    if tail == "" {
      assert t + tail == t;
    } else {
      var n := |tail| - 1;
      assert (t + tail)[..|t| + n] == t + tail[..n];
      TrimNewlinesOf(t, tail[..n]);
    }
  }

  /** Newline bytes are the encoding of newline characters. */
  lemma NewlineBytes(tail: bytes) returns (text: string)
    requires AreNewlines(tail)
    ensures AreNewlineChars(text) && Utf8.Encode(text) == tail
  {
    text := seq(|tail|, i requires 0 <= i < |tail| => if tail[i] == CR then '\r' else '\n');
    Utf8.EncodeAscii(text);
    hide Utf8.Encode;
    assert Utf8.Encode(text) == tail;
  }

  lemma NewlineChars(text: string)
    requires AreNewlineChars(text)
    ensures AreNewlines(Utf8.Encode(text))
  {
    Utf8.EncodeAscii(text);
    hide Utf8.Encode;
  }

  /** Bytes are accepted as a name exactly when they are the name, then only CRs and LFs, in 254 bytes. */
  lemma FetchedIff(received: bytes, fqdn: string)
    ensures FetchedFqdn(received) == Ok(fqdn)
            <==> IsDnsName(fqdn) && |received| <= 254
                 && exists tail :: AreNewlines(tail) && received == Utf8.Encode(fqdn) + tail
  {
    hide ValidateFqdn, IsDnsName, Utf8.Encode, Utf8.Decode;
    if FetchedFqdn(received) == Ok(fqdn) {
      var text := Utf8.Decode(received).value;
      Utf8.DecodeIffEncoded(received, text);
      ValidIffDnsName(TrimEndNewlines(text));
      TrimmedNewlines(text);
      assert text == fqdn + text[|fqdn|..];
      Utf8.EncodeConcat(fqdn, text[|fqdn|..]);
      NewlineChars(text[|fqdn|..]);
    }
    forall tail | IsDnsName(fqdn) && |received| <= 254 && AreNewlines(tail) && received == Utf8.Encode(fqdn) + tail
      ensures FetchedFqdn(received) == Ok(fqdn)
    {
      var end := NewlineBytes(tail);
      Utf8.EncodeConcat(fqdn, end);
      Utf8.DecodeIffEncoded(received, fqdn + end);
      DnsNameEnd(fqdn);
      TrimNewlinesOf(fqdn, end);
      ValidIffDnsName(fqdn);
    }
  }

  lemma DnsNameEnd(fqdn: string)
    requires IsDnsName(fqdn)
    ensures fqdn != "" && fqdn[|fqdn| - 1] != '\r' && fqdn[|fqdn| - 1] != '\n'
    ensures ByteLength(fqdn) == |fqdn|
  {
    var labels :| IsNameOf(fqdn, labels);
    JoinedLabelsAreDotted(labels);
    DottedIsBare(fqdn);
  }

  /** What is served for a validated name is fetched as that name. */
  lemma ServeFetchRoundTrip(value: string)
    requires ValidateFqdn(value).Ok?
    ensures ServedBytes(ValidateFqdn(value).value) == Utf8.Encode(value + "\n")
    ensures FetchedFqdn(ServedBytes(ValidateFqdn(value).value)) == Ok(value)
  {
    LineFeedBytes(value);
    hide ValidateFqdn, FetchedFqdn, Utf8.Encode, IsDnsName;
    ValidIffDnsName(value);
    DnsNameEnd(value);
    assert |value| <= MAX_FQDN_BYTES by { DnsNameLength(value); }
    assert AreNewlines([LF]);
    FetchedIff(ServedBytes(value), value);
  }

  lemma LineFeedBytes(value: string)
    ensures Utf8.Encode(value + "\n") == Utf8.Encode(value) + [10]
  {
    Utf8.EncodeConcat(value, "\n");
    Utf8.EncodeAscii("\n");
    assert Utf8.Encode("\n") == [10];
  }

  lemma DnsNameLength(s: string)
    requires IsDnsName(s)
    ensures |s| <= MAX_FQDN_BYTES
  {
  }

  // ----- retries -----

  /** Attempt `k` is the first that succeeds among the first `n`, or `k` is `n` if none does. */
  predicate FirstSuccess<T, E>(attempt: nat -> Result<T, E>, n: nat, k: nat) {
    && k <= n
    && (forall i | 0 <= i < k :: attempt(i).Err?)
    && (k < n ==> attempt(k).Ok?)
  }

  /** The attempt whose outcome is returned when the first success is `k`: that one, or the last. */
  function LastTry(n: nat, k: nat): nat { if k < n || k == 0 then k else k - 1 }

  /**
   `fetch_fqdn_with_retry`: at least one attempt, the first success at once, or the last error; it
   sleeps after every failure. `attempt(i)` is the outcome of the i-th connection.
   */
  method FetchWithRetry(retries: nat, attempt: nat -> Result<string, FetchError>)
    returns (r: Result<string, FetchError>, sleeps: nat)
    ensures var n := if retries == 0 then 1 else retries;
            FirstSuccess(attempt, n, sleeps) && r == attempt(LastTry(n, sleeps))
  {
    var attempts := if retries == 0 then 1 else retries;
    var lastError: Option<FetchError> := None;
    sleeps := 0;
    for i := 0 to attempts
      invariant sleeps == i
      invariant forall j | 0 <= j < i :: attempt(j).Err?
      invariant i > 0 ==> lastError.Some? && attempt(i - 1) == Err(lastError.value)
    {
      match attempt(i) {
        case Ok(fqdn) =>
          return Ok(fqdn), sleeps;
        case Err(error) =>
          lastError := Some(error);
          sleeps := sleeps + 1;
      }
    }
    r := Err(match lastError case Some(e) => e case None => NoAttempt);
  }

  const NITRIDING_READY_RETRIES: nat := 60

  /**
   `signal_nitriding_ready`: sixty attempts, the first success at once, or the last error; it does
   not sleep after the last failure.
   */
  method SignalReady<E>(attempt: nat -> Result<(), E>, noAttempt: E) returns (r: Result<(), E>, sleeps: nat)
    ensures exists k ::
              && FirstSuccess(attempt, 60, k) && r == attempt(LastTry(60, k)) && sleeps == LastTry(60, k)
  {
    var lastError: Option<E> := None;
    sleeps := 0;
    for i := 0 to NITRIDING_READY_RETRIES
      invariant sleeps == if i < NITRIDING_READY_RETRIES then i else i - 1
      invariant forall j | 0 <= j < i :: attempt(j).Err?
      invariant i > 0 ==> lastError.Some? && attempt(i - 1) == Err(lastError.value)
    {
      match attempt(i) {
        case Ok(done) =>
          assert FirstSuccess(attempt, NITRIDING_READY_RETRIES, i);
          return Ok(done), sleeps;
        case Err(error) =>
          lastError := Some(error);
          if i + 1 < NITRIDING_READY_RETRIES {
            sleeps := sleeps + 1;
          }
      }
    }
    assert FirstSuccess(attempt, NITRIDING_READY_RETRIES, NITRIDING_READY_RETRIES);
    r := Err(match lastError case Some(e) => e case None => noAttempt);
  }
}

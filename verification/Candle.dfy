/** Candle selection and lookup of src/candle.rs. */
module Candle {
  import opened Wrappers
  import opened Numbers
  import opened Text
  import opened Documents
  import opened Library

  datatype CandleError =
    | NoCandleArray
    | NoCandles
    | RowNotObject
    | MissingField(name: string)
    | InvalidStart
    | InvalidDecimal(name: string)
    | NotNumeric(name: string)
    | OutOfRange(name: string)

  function CandleArray(body: Json): Result<seq<Json>, CandleError> {
    if body.Obj? && "candles" in body.fields && body.fields["candles"].Arr?
    then Ok(body.fields["candles"].items)
    else Err(NoCandleArray)
  }

  /** `Value::as_i64`. */
  function AsI64(n: Number): Option<i64> {
    match n
    case PosInt(u) => if u <= I64_MAX then Some(u) else None
    case NegInt(i) => Some(i)
    case Float(_) => None
  }

  function JsonI64(value: Json): Option<i64> {
    match value
    case Num(n) => AsI64(n)
    case Str(s) => ParseI64(s)
    case _ => None
  }

  /** A number's own text, or a string that does not trim to nothing (`Text.TrimsToNothingIff`). */
  function JsonDecimal(lib: Library, value: Json): Option<string> {
    match value
    case Num(n) => Some(lib.numberText(n))
    case Str(s) => if AllWhitespace(s) then None else Some(s)
    case _ => None
  }

  function Field(fields: map<string, Json>, name: string): Result<Json, CandleError> {
    if name in fields then Ok(fields[name]) else Err(MissingField(name))
  }

  function DecimalField(lib: Library, fields: map<string, Json>, name: string): Result<string, CandleError> {
    var value :- Field(fields, name);
    JsonDecimal(lib, value).ToResult(InvalidDecimal(name))
  }

  /** `validate_positive_decimal` passes. */
  predicate IsPositive(lib: Library, text: string) {
    match lib.parseF64(text) case Some(Finite(v)) => v > 0.0 case _ => false
  }

  /** `validate_non_negative_decimal` passes. */
  predicate IsNonNegative(lib: Library, text: string) {
    match lib.parseF64(text) case Some(Finite(v)) => v >= 0.0 case _ => false
  }

  /** Why a decimal was refused. */
  function RangeError(lib: Library, name: string, text: string): CandleError {
    if lib.parseF64(text).None? then NotNumeric(name) else OutOfRange(name)
  }

  function ParseCandleObject(lib: Library, row: Json): Result<SelectedCandle, CandleError> {
    if !row.Obj? then Err(RowNotObject)
    else
      var start :- Field(row.fields, "start");
      var time :- JsonI64(start).ToResult(InvalidStart);
      var low :- DecimalField(lib, row.fields, "low");
      var high :- DecimalField(lib, row.fields, "high");
      var open :- DecimalField(lib, row.fields, "open");
      var close :- DecimalField(lib, row.fields, "close");
      var volume :- DecimalField(lib, row.fields, "volume");
      if !IsPositive(lib, low) then Err(RangeError(lib, "low", low))
      else if !IsPositive(lib, high) then Err(RangeError(lib, "high", high))
      else if !IsPositive(lib, open) then Err(RangeError(lib, "open", open))
      else if !IsPositive(lib, close) then Err(RangeError(lib, "close", close))
      else if !IsNonNegative(lib, volume) then Err(RangeError(lib, "volume", volume))
      else Ok(SelectedCandle(time, low, high, open, close, volume))
  }

  function SelectCandle(lib: Library, body: Json): Result<SelectedCandle, CandleError> {
    var rows :- CandleArray(body);
    if rows == [] then Err(NoCandles) else ParseCandleObject(lib, rows[0])
  }

  /** The scan of `contains_selected_candle` over the rows that are left. */
  function ScanRows(lib: Library, rows: seq<Json>, selected: SelectedCandle): Result<bool, CandleError> {
    if rows == [] then Ok(false)
    else
      var candle :- ParseCandleObject(lib, rows[0]);
      if candle == selected then Ok(true) else ScanRows(lib, rows[1..], selected)
  }

  function ContainsSelectedCandle(lib: Library, body: Json, selected: SelectedCandle): Result<bool, CandleError> {
    var rows :- CandleArray(body);
    ScanRows(lib, rows, selected)
  }

  // ----- what a row is -----

  /** A JSON value that is an integer: a number without fraction, or the text of one. */
  ghost predicate SpellsInteger(value: Json, n: i64) {
    || (n >= 0 && value == Num(PosInt(n)))
    || value == Num(NegInt(n))
    || (value.Str? && SpellsInt(value.s, n))
  }

  lemma AsI64Iff(number: Number, n: i64)
    ensures AsI64(number) == Some(n) <==> (n >= 0 && number == PosInt(n)) || number == NegInt(n)
  {
    match number {
      case PosInt(u) =>
        assert IsI64(n);
        assert AsI64(number) == Some(n) <==> u <= I64_MAX && u == n;
      case NegInt(i) =>
        assert AsI64(number) == Some(i);
      case Float(_) =>
    }
  }

  lemma JsonI64Iff(value: Json, n: i64)
    ensures JsonI64(value) == Some(n) <==> SpellsInteger(value, n)
  {
    hide ParseI64, SpellsInt, AsI64;
    if value.Num? {
      AsI64Iff(value.number, n);
    } else if value.Str? {
      ParseI64Iff(value.s, n);
    }
  }

  /** Text that reads as a finite number above zero, or at zero where that is allowed. */
  ghost predicate HasDecimalValue(lib: Library, text: string, zeroAllowed: bool) {
    exists v :: lib.parseF64(text) == Some(Finite(v)) && (v > 0.0 || (zeroAllowed && v == 0.0))
  }

  lemma DecimalChecksIff(lib: Library, text: string)
    ensures IsPositive(lib, text) <==> HasDecimalValue(lib, text, false)
    ensures IsNonNegative(lib, text) <==> HasDecimalValue(lib, text, true)
  {
  }

  /** A decimal field of a row: a number with that text, or that text, not blank; and of such a value. */
  ghost predicate SpellsDecimal(lib: Library, fields: map<string, Json>, name: string, text: string, zeroAllowed: bool) {
    && name in fields
    && (|| (fields[name].Num? && text == lib.numberText(fields[name].number))
        || (fields[name] == Str(text) && exists i :: 0 <= i < |text| && !IsWhitespace(text[i])))
    && HasDecimalValue(lib, text, zeroAllowed)
  }

  lemma DecimalFieldIff(lib: Library, fields: map<string, Json>, name: string, text: string, zeroAllowed: bool)
    ensures (&& DecimalField(lib, fields, name) == Ok(text)
             && (if zeroAllowed then IsNonNegative(lib, text) else IsPositive(lib, text)))
            <==> SpellsDecimal(lib, fields, name, text, zeroAllowed)
  {
    DecimalChecksIff(lib, text);
    hide IsWhitespace, HasDecimalValue, IsNonNegative, IsPositive;
  }

  /** A row spells a candle: an integer start, four positive decimals and a non-negative volume. */
  ghost predicate SpellsCandle(lib: Library, row: Json, c: SelectedCandle) {
    && row.Obj?
    && "start" in row.fields && SpellsInteger(row.fields["start"], c.time)
    && SpellsDecimal(lib, row.fields, "low", c.low, false)
    && SpellsDecimal(lib, row.fields, "high", c.high, false)
    && SpellsDecimal(lib, row.fields, "open", c.open, false)
    && SpellsDecimal(lib, row.fields, "close", c.close, false)
    && SpellsDecimal(lib, row.fields, "volume", c.volume, true)
  }

  /** A row parses to a candle exactly when it spells it. */
  lemma RowParsesIff(lib: Library, row: Json, c: SelectedCandle)
    ensures ParseCandleObject(lib, row) == Ok(c) <==> SpellsCandle(lib, row, c)
  {
    if row.Obj? {
      var fields := row.fields;
      if "start" in fields {
        JsonI64Iff(fields["start"], c.time);
      }
      DecimalFieldIff(lib, fields, "low", c.low, false);
      DecimalFieldIff(lib, fields, "high", c.high, false);
      DecimalFieldIff(lib, fields, "open", c.open, false);
      DecimalFieldIff(lib, fields, "close", c.close, false);
      DecimalFieldIff(lib, fields, "volume", c.volume, true);
    }
    hide DecimalField, JsonI64, SpellsInteger, SpellsDecimal, IsPositive, IsNonNegative;
  }

  ghost predicate HasRows(body: Json, rows: seq<Json>) { body.Obj? && ("candles", Arr(rows)) in body.fields.Items }

  /** The rows of a body are the array under its `candles` key. */
  lemma CandleArrayIff(body: Json, rows: seq<Json>)
    ensures CandleArray(body) == Ok(rows) <==> HasRows(body, rows)
  {
  }

  /** A candle is selected exactly when the first row of the body spells it. */
  lemma SelectsIff(lib: Library, body: Json, c: SelectedCandle)
    ensures SelectCandle(lib, body) == Ok(c)
            <==> exists first, more :: HasRows(body, [first] + more) && SpellsCandle(lib, first, c)
  {
    hide ParseCandleObject, SpellsCandle, CandleArray, HasRows;
    forall rows
      ensures CandleArray(body) == Ok(rows) <==> HasRows(body, rows)
    {
      CandleArrayIff(body, rows);
    }
    if CandleArray(body).Ok? && CandleArray(body).value != [] {
      var rows := CandleArray(body).value;
      assert rows == [rows[0]] + rows[1..];
      RowParsesIff(lib, rows[0], c);
    }
    forall first, more | HasRows(body, [first] + more)
      ensures CandleArray(body) == Ok([first] + more)
    {
    }
  }

  /** A candle as Coinbase sends it: every field a string. */
  function RowOf(c: SelectedCandle): Json {
    Obj(map["start" := Str(PrintInt(c.time)), "low" := Str(c.low), "high" := Str(c.high),
            "open" := Str(c.open), "close" := Str(c.close), "volume" := Str(c.volume)])
  }

  /** Text the row parser takes as a decimal. */
  ghost predicate IsDecimalText(lib: Library, text: string, zeroAllowed: bool) {
    !AllWhitespace(text) && HasDecimalValue(lib, text, zeroAllowed)
  }

  /** Printing a candle as a row and parsing it gives it back, exactly when its texts are decimals. */
  lemma RowRoundTrip(lib: Library, c: SelectedCandle)
    ensures ParseCandleObject(lib, RowOf(c)) == Ok(c)
            <==> IsDecimalText(lib, c.low, false) && IsDecimalText(lib, c.high, false)
                 && IsDecimalText(lib, c.open, false) && IsDecimalText(lib, c.close, false)
                 && IsDecimalText(lib, c.volume, true)
  {
    hide PrintInt, ParseI64, SpellsInt, HasDecimalValue, IsWhitespace, ParseCandleObject;
    RowParsesIff(lib, RowOf(c), c);
    ParsePrintedInt(c.time);
    ParseI64Iff(PrintInt(c.time), c.time);
    RowFields(c);
    hide RowOf;
  }

  lemma RowFields(c: SelectedCandle)
    ensures var row := RowOf(c);
            && row.Obj?
            && row.fields.Keys == {"start", "low", "high", "open", "close", "volume"}
            && row.fields["start"] == Str(PrintInt(c.time))
            && row.fields["low"] == Str(c.low) && row.fields["high"] == Str(c.high)
            && row.fields["open"] == Str(c.open) && row.fields["close"] == Str(c.close)
            && row.fields["volume"] == Str(c.volume)
  {
    hide PrintInt;
    assert |"start"| == 5 && |"low"| == 3 && |"high"| == 4 && |"open"| == 4 && |"close"| == 5 && |"volume"| == 6;
    assert "start"[0] == 's' && "close"[0] == 'c' && "high"[0] == 'h' && "open"[0] == 'o';
  }

  // ----- the scan -----

  /** The scan reaches index `i`: all rows before it parse, and none of them is `selected`. */
  predicate StopsAt(lib: Library, rows: seq<Json>, selected: SelectedCandle, i: nat) {
    && i <= |rows|
    && (forall j | 0 <= j < i :: ParseCandleObject(lib, rows[j]).Ok?)
    && (forall j | 0 <= j < i :: ParseCandleObject(lib, rows[j]) != Ok(selected))
  }

  /** Where the scan stops, and with what. */
  lemma {:induction false} ScanStop(lib: Library, rows: seq<Json>, selected: SelectedCandle)
    returns (stop: nat)
    ensures stop <= |rows| && StopsAt(lib, rows, selected, stop) && EndsScan(lib, rows, selected, stop)
    ensures stop == |rows| ==> ScanRows(lib, rows, selected) == Ok(false)
    ensures stop < |rows| ==>
              match ParseCandleObject(lib, rows[stop])
              case Ok(candle) => candle == selected && ScanRows(lib, rows, selected) == Ok(true)
              case Err(e) => ScanRows(lib, rows, selected) == Err(e)
  {
    hide ParseCandleObject;
    if rows == [] {
      stop := 0;
    } else if ParseCandleObject(lib, rows[0]).Err? || ParseCandleObject(lib, rows[0]).value == selected {
      stop := 0;
    } else {
      var rest := ScanStop(lib, rows[1..], selected);
      stop := rest + 1;
      forall j | 0 <= j < stop
        ensures ParseCandleObject(lib, rows[j]).Ok? && ParseCandleObject(lib, rows[j]) != Ok(selected)
      {
        if j > 0 { assert rows[j] == rows[1..][j - 1]; }
      }
    }
  }

  /** The scan goes no further than `i`: the rows end, or this one is malformed or the candle. */
  predicate EndsScan(lib: Library, rows: seq<Json>, selected: SelectedCandle, i: nat)
    requires i <= |rows|
  {
    i == |rows| || ParseCandleObject(lib, rows[i]).Err? || ParseCandleObject(lib, rows[i]) == Ok(selected)
  }

  lemma StopIsUnique(lib: Library, rows: seq<Json>, selected: SelectedCandle, i: nat, j: nat)
    requires i <= |rows| && j <= |rows|
    requires StopsAt(lib, rows, selected, i) && EndsScan(lib, rows, selected, i)
    requires StopsAt(lib, rows, selected, j) && EndsScan(lib, rows, selected, j)
    ensures i == j
  {
    hide ParseCandleObject;
  }

  /**
   The scan finds the candle exactly when some row is that candle after rows that all parse;
   misses it exactly when all rows parse to others; and fails with the first malformed row's
   error exactly when no earlier row is the candle.
   */
  lemma {:induction false} ScanIff(lib: Library, rows: seq<Json>, selected: SelectedCandle)
    ensures ScanRows(lib, rows, selected) == Ok(true)
            <==> exists i :: 0 <= i < |rows| && StopsAt(lib, rows, selected, i)
                             && ParseCandleObject(lib, rows[i]) == Ok(selected)
    ensures ScanRows(lib, rows, selected) == Ok(false) <==> StopsAt(lib, rows, selected, |rows|)
    ensures forall e :: ScanRows(lib, rows, selected) == Err(e)
                        <==> exists i :: 0 <= i < |rows| && StopsAt(lib, rows, selected, i)
                                         && ParseCandleObject(lib, rows[i]) == Err(e)
  {
    hide ParseCandleObject, ScanRows, StopsAt;
    var stop := ScanStop(lib, rows, selected);
    forall i | 0 <= i <= |rows| && StopsAt(lib, rows, selected, i) && EndsScan(lib, rows, selected, i)
      ensures i == stop
    {
      StopIsUnique(lib, rows, selected, i, stop);
    }
  }

  /**
   A candle is contained in a body exactly when the scan of the body's rows finds it, is missed exactly
   when there are rows and all parse to others, and anything else, a body without rows too, is an error.
   */
  lemma ContainsIff(lib: Library, body: Json, selected: SelectedCandle)
    ensures ContainsSelectedCandle(lib, body, selected) == Ok(true)
            <==> exists rows, i :: HasRows(body, rows) && 0 <= i < |rows| && StopsAt(lib, rows, selected, i)
                                   && ParseCandleObject(lib, rows[i]) == Ok(selected)
    ensures ContainsSelectedCandle(lib, body, selected) == Ok(false)
            <==> exists rows :: HasRows(body, rows) && StopsAt(lib, rows, selected, |rows|)
  {
    hide ParseCandleObject, ScanRows, StopsAt, CandleArray, HasRows;
    forall rows
      ensures CandleArray(body) == Ok(rows) <==> HasRows(body, rows)
    {
      CandleArrayIff(body, rows);
    }
    if CandleArray(body).Ok? {
      ScanIff(lib, CandleArray(body).value, selected);
      assert HasRows(body, CandleArray(body).value);
    }
  }

  /** A selected candle is always found again in the body it came from. */
  lemma SelectedIsContained(lib: Library, body: Json)
    requires SelectCandle(lib, body).Ok?
    ensures ContainsSelectedCandle(lib, body, SelectCandle(lib, body).value) == Ok(true)
  {
  }

  /** Rows after the first do not matter to a selected candle, not even malformed ones. */
  lemma LaterRowsIrrelevant(lib: Library, body: Json, more: seq<Json>)
    requires SelectCandle(lib, body).Ok?
    ensures var extended := Obj(body.fields["candles" := Arr(CandleArray(body).value + more)]);
            && SelectCandle(lib, extended) == SelectCandle(lib, body)
            && ContainsSelectedCandle(lib, extended, SelectCandle(lib, body).value) == Ok(true)
  {
    hide ParseCandleObject;
    var rows := CandleArray(body).value;
    assert (rows + more)[0] == rows[0];
  }
}

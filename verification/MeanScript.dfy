/**
 The whole `mean` script (`run_inner` and the exit code and body that `run` reports): the
 argument reader, the scanner and the writers composed. UTF-8 conversion is given.
 */
module MeanScript {
  import opened Basics
  import opened MeanScanner
  import Decimal
  import JsonText
  import Printer

  /** `str::from_utf8` and `str::as_bytes`. */
  datatype Codec = Codec(decode: string -> Option<string>, encode: string -> Bytes)

  const BAD_ARGS := 2
  const NO_MEAN := 3

  function Message(f: Failure, codec: Codec): string {
    match f
    case EmptyCsv => "empty CSV"
    case ColumnNotInHeader(column) =>
      "column '" + (match codec.decode(column) case None => "" case Some(text) => text) + "' not in header"
    case NoNumericValues => "no numeric values in column"
  }

  function Report(stats: Stats): JsonText.MeanStats {
    JsonText.MeanStats(stats.count, stats.skipped, Printer.Finite(stats.mean))
  }

  /** The column the arguments ask for. */
  function Requested(args: Bytes, codec: Codec): Result<string, string> {
    match codec.decode(args)
    case None => Err("args not UTF-8")
    case Some(text) =>
      match JsonText.Extract(text, "column")
      case None => Err("missing 'column' arg")
      case Some(column) => Ok(column)
  }

  /** Exit code and body. */
  function Output(csv: Bytes, args: Bytes, codec: Codec, ops: FloatOps): (int, string) {
    match Requested(args, codec)
    case Err(message) => (BAD_ARGS, JsonText.ErrorText(message))
    case Ok(column) =>
      match Mean(csv, codec.encode(column), ops)
      case Err(f) => (NO_MEAN, JsonText.ErrorText(Message(f, codec)))
      case Ok(stats) => (0, JsonText.ResultText(column, Report(stats)))
  }

  // ------------------------------------------------------------- no overflow

  lemma {:induction false} RowsAtMostBytes(s: string)
    ensures |NonEmptyRows(Split(s, '\n'))| <= |s|
  {
    hide CleanRow;
    EmptyRowIsClean();
    if '\n' !in s {
      SplitPlain(s, '\n');
      assert [s][1..] == [];
    } else {
      var i := IndexOf(s, '\n');
      var rest := Split(s[i + 1..], '\n');
      assert Split(s, '\n') == [s[..i]] + rest && ([s[..i]] + rest)[1..] == rest;
      RowsAtMostBytes(s[i + 1..]);
      assert i == 0 ==> s[..i] == "";
    }
  }

  /** A CSV in memory has fewer rows than 2^64, so the counters cannot overflow. */
  lemma CountsFit(csv: Bytes, column: Bytes, ops: FloatOps)
    requires |csv| < TWO64 && Mean(csv, column, ops).Ok?
    ensures
      var stats := Mean(csv, column, ops).value;
      stats.count < TWO64 && stats.skipped < TWO64
  {
    hide Values, Trim, FoldLeft, NonEmptyRows, Split, FirstMatch;
    RowsAtMostBytes(Body(csv));
  }

  // ------------------------------------------------------------- the script

  method RunScript(csv: Bytes, args: Bytes, codec: Codec, ops: FloatOps) returns (code: int, body: string)
    requires |csv| < TWO64
    ensures (code, body) == Output(csv, args, codec, ops)
  {
    hide Mean, JsonText.Extract, JsonText.ErrorText, JsonText.ResultText;
    var text := codec.decode(args);
    if text.None? {
      body := JsonText.FormatError("args not UTF-8");
      return BAD_ARGS, body;
    }
    var column := JsonText.ExtractStringField(text.value, "column");
    if column.None? {
      body := JsonText.FormatError("missing 'column' arg");
      return BAD_ARGS, body;
    }
    var r := ComputeMean(csv, codec.encode(column.value), ops);
    if r.Err? {
      body := JsonText.FormatError(Message(r.error, codec));
      return NO_MEAN, body;
    }
    CountsFit(csv, codec.encode(column.value), ops);
    body := JsonText.FormatResult(column.value, Report(r.value));
    return 0, body;
  }

  // ------------------------------------------------------ what the caller reads

  /** Every failure is reported with a nonzero code, and its message reads back without control characters. */
  lemma FailureReadsBack(csv: Bytes, args: Bytes, codec: Codec, ops: FloatOps)
    ensures
      var (code, body) := Output(csv, args, codec, ops);
      match Requested(args, codec)
      case Err(message) =>
        code == BAD_ARGS && JsonText.Extract(body, "error") == Some(JsonText.WithoutControls(message))
      case Ok(column) =>
        match Mean(csv, codec.encode(column), ops)
        case Err(f) =>
          code == NO_MEAN && JsonText.Extract(body, "error") == Some(JsonText.WithoutControls(Message(f, codec)))
        case Ok(_) => code == 0
  {
    hide Mean, JsonText.Extract, JsonText.ErrorText, JsonText.ResultText, JsonText.WithoutControls;
    match Requested(args, codec) {
      case Err(message) => JsonText.ErrorRoundTrip(message);
      case Ok(column) =>
        match Mean(csv, codec.encode(column), ops) {
          case Err(f) => JsonText.ErrorRoundTrip(Message(f, codec));
          case Ok(_) =>
        }
    }
  }

  /** The message of each failure. */
  lemma FailureTexts(args: Bytes, codec: Codec, column: string, name: string)
    ensures Message(EmptyCsv, codec) == "empty CSV" && Message(NoNumericValues, codec) == "no numeric values in column"
    ensures codec.decode(column) == Some(name) ==>
              Message(ColumnNotInHeader(column), codec) == "column '" + name + "' not in header"
    ensures codec.decode(args).None? ==> Requested(args, codec) == Err("args not UTF-8")
    ensures codec.decode(args).Some? && JsonText.Extract(codec.decode(args).value, "column").None? ==>
              Requested(args, codec) == Err("missing 'column' arg")
  {
    hide JsonText.Extract;
  }

  predicate ReadsBack(body: string, stats: Stats) {
    && JsonText.FieldText(body, "count") == Some(Printer.DecimalText(stats.count))
    && JsonText.FieldText(body, "skipped") == Some(Printer.DecimalText(stats.skipped))
    && JsonText.FieldText(body, "mean").Some?
    && var mean := Decimal.Parsed(JsonText.FieldText(body, "mean").value);
       && mean.Some?
       && (AbsReal(stats.mean) < TWO64 as real ==> 0.0 <= AbsReal(stats.mean) - AbsReal(mean.value) < 0.000001)
       && mean.value == if stats.mean < 0.0 then -AbsReal(mean.value) else AbsReal(mean.value)
  }

  lemma NumbersReadBack(column: string, stats: Stats)
    requires JsonText.QUOTE !in column
    ensures ReadsBack(JsonText.ResultText(column, Report(stats)), stats)
  {
    hide JsonText.ResultText, JsonText.FieldText, JsonText.Hides, Printer.NumberText, Printer.DecimalText,
         Decimal.Parsed;
    JsonText.QuotelessHidesNothing(column, "count");
    JsonText.QuotelessHidesNothing(column, "skipped");
    JsonText.QuotelessHidesNothing(column, "mean");
    JsonText.NumbersRoundTrip(column, Report(stats), "count");
    JsonText.NumbersRoundTrip(column, Report(stats), "skipped");
    JsonText.NumbersRoundTrip(column, Report(stats), "mean");
    Printer.PrintThenParse(stats.mean);
  }

  /**
   On success the body carries the plain definition's statistics of the requested column: the
   counts as decimal numbers, the mean to within 10^-6 below its magnitude, and the column name
   exactly when it is plain. Only a column name with quotes can hide a number.
   */
  lemma SuccessReadsBack(csv: Bytes, args: Bytes, codec: Codec, ops: FloatOps)
    requires Output(csv, args, codec, ops).0 == 0
    ensures Requested(args, codec).Ok? && Mean(csv, codec.encode(Requested(args, codec).value), ops).Ok?
    ensures
      var column, body := Requested(args, codec).value, Output(csv, args, codec, ops).1;
      var stats := Mean(csv, codec.encode(column), ops).value;
      && (JsonText.Extract(body, "column") == Some(column) <==> JsonText.Plain(column))
      && (JsonText.QUOTE !in column ==> ReadsBack(body, stats))
  {
    hide Mean, JsonText.Extract, JsonText.ErrorText, JsonText.ResultText, JsonText.Plain, JsonText.FieldText,
         Printer.NumberText, Printer.DecimalText, Decimal.Parsed;
    var column := Requested(args, codec).value;
    var stats := Mean(csv, codec.encode(column), ops).value;
    JsonText.ColumnRoundTrip(column, Report(stats));
    if JsonText.QUOTE !in column {
      NumbersReadBack(column, stats);
    }
  }

  /** The arguments a caller writes to ask for a column, escaped as the script escapes its messages. */
  function Request(column: string): string {
    "{" + (JsonText.Needle("column") + [JsonText.QUOTE] + JsonText.Escaped(column) + [JsonText.QUOTE] + "}")
  }

  /** A request names the column it was written for, less its control characters. */
  lemma RequestIsUnderstood(column: string, args: Bytes, codec: Codec)
    requires codec.decode(args) == Some(Request(column))
    ensures Requested(args, codec) == Ok(JsonText.WithoutControls(column))
  {
    hide JsonText.Extract, JsonText.Needle, JsonText.Escaped, JsonText.WithoutControls;
    var tail := [JsonText.QUOTE] + "}";
    JsonText.ExtractAtStart("column", JsonText.Escaped(column) + tail);
    JsonText.UnquoteEscaped(column, tail);
    assert Request(column) == "{" + (JsonText.Needle("column") + [JsonText.QUOTE] + (JsonText.Escaped(column) + tail));
  }
}

/**
 The capped CSV validator (`validate_csv_bytes`) and the uncapped checker it agrees with. The
 CSV library is represented by what it yields: the header, if readable, and the records, each
 readable or not.
 */
module CsvValidator {
  import opened Basics
  import opened FieldRules

  const MAX_ERRORS: nat := 100

  datatype Mode = NoValidation | HeadersOnly | Strict

  type Record = seq<string>

  datatype Csv = Csv(headers: Option<seq<string>>, records: seq<Option<Record>>)

  datatype ValidationError = ValidationError(row: nat, field: string, defect: Defect)
  datatype Summary = Summary(valid: bool, errors: seq<ValidationError>, rowsValidated: nat)

  type Schema = seq<FieldSchema>

  // ---------------------------------------------------- the uncapped checker

  function MissingColumns(schema: Schema, headers: seq<string>): seq<ValidationError> {
    if schema == [] then []
    else
      var front, f := schema[..|schema| - 1], schema[|schema| - 1];
      MissingColumns(front, headers) +
      if f.name in headers then [] else [ValidationError(0, f.name, MissingColumn)]
  }

  predicate InSchema(name: string, schema: Schema) {
    exists i | 0 <= i < |schema| :: schema[i].name == name
  }

  function ExtraColumns(headers: seq<string>, schema: Schema): seq<ValidationError> {
    if headers == [] then []
    else
      var front, h := headers[..|headers| - 1], headers[|headers| - 1];
      ExtraColumns(front, schema) +
      if InSchema(h, schema) then [] else [ValidationError(0, h, UnexpectedColumn)]
  }

  /** Where each header stands; the last one wins when a name repeats. */
  function HeaderIndex(headers: seq<string>): (m: map<string, nat>)
    ensures forall h :: h in m <==> h in headers
    ensures forall h | h in m :: m[h] < |headers| && headers[m[h]] == h
  {
    if headers == [] then map[]
    else
      var last := |headers| - 1;
      assert headers == headers[..last] + [headers[last]];
      HeaderIndex(headers[..last])[headers[last] := last]
  }

  function CellText(record: Record, column: nat): string {
    TrimWhitespace(if column < |record| then record[column] else "")
  }

  function FieldDefect(record: Record, headers: seq<string>, field: FieldSchema, isDate: string -> bool)
    : Option<Defect>
  {
    var index := HeaderIndex(headers);
    if field.name !in index then None
    else ValidateField(CellText(record, index[field.name]), field, isDate)
  }

  function FieldErrors(row: nat, record: Record, headers: seq<string>, schema: Schema, isDate: string -> bool)
    : seq<ValidationError>
  {
    if schema == [] then []
    else
      var front, f := schema[..|schema| - 1], schema[|schema| - 1];
      FieldErrors(row, record, headers, front, isDate) +
      match FieldDefect(record, headers, f, isDate)
      case None => []
      case Some(defect) => [ValidationError(row, f.name, defect)]
  }

  function RowErrors(row: nat, record: Option<Record>, headers: seq<string>, schema: Schema, isDate: string -> bool)
    : seq<ValidationError>
  {
    match record
    case None => [ValidationError(row, "row", MalformedRow)]
    case Some(r) =>
      FieldErrors(row, r, headers, schema, isDate) +
      if |r| < |headers| then [ValidationError(row, "row", ShortRow)] else []
  }

  function AllRowErrors(records: seq<Option<Record>>, headers: seq<string>, schema: Schema, isDate: string -> bool)
    : seq<ValidationError>
  {
    if records == [] then []
    else
      AllRowErrors(records[..|records| - 1], headers, schema, isDate) +
      RowErrors(|records|, records[|records| - 1], headers, schema, isDate)
  }

  function HeaderErrors(headers: seq<string>, schema: Schema): seq<ValidationError> {
    MissingColumns(schema, headers) + ExtraColumns(headers, schema)
  }

  /** Every defect of the file under the mode, in order, without a limit. */
  function AllErrors(csv: Csv, schema: Schema, mode: Mode, isDate: string -> bool): seq<ValidationError> {
    match csv.headers
    case None => [ValidationError(0, "header", HeaderUnreadable)]
    case Some(headers) =>
      match mode
      case NoValidation => []
      case HeadersOnly => HeaderErrors(headers, schema)
      case Strict => HeaderErrors(headers, schema) + AllRowErrors(csv.records, headers, schema, isDate)
  }

  function CountReadable(records: seq<Option<Record>>): nat {
    if records == [] then 0
    else CountReadable(records[..|records| - 1]) + if records[|records| - 1].Some? then 1 else 0
  }

  /** The readable records met before 100 errors have been found, `before` included. */
  function RowsBelowCap(before: seq<ValidationError>, records: seq<Option<Record>>, headers: seq<string>,
                        schema: Schema, isDate: string -> bool): nat
  {
    if records == [] then 0
    else
      var front, last := records[..|records| - 1], records[|records| - 1];
      RowsBelowCap(before, front, headers, schema, isDate) +
      if last.Some? && |before + AllRowErrors(front, headers, schema, isDate)| < MAX_ERRORS then 1 else 0
  }

  /** How many rows the summary reports. */
  function RowsReported(csv: Csv, schema: Schema, mode: Mode, isDate: string -> bool): nat {
    match csv.headers
    case None => 0
    case Some(headers) =>
      match mode
      case NoValidation => CountReadable(csv.records)
      case HeadersOnly => if |MissingColumns(schema, headers)| < MAX_ERRORS then CountReadable(csv.records) else 0
      case Strict => RowsBelowCap(HeaderErrors(headers, schema), csv.records, headers, schema, isDate)
  }

  lemma {:induction false} AllRowsBelowCap(
      records: seq<Option<Record>>, headers: seq<string>, schema: Schema, isDate: string -> bool)
    requires AllRowErrors(records, headers, schema, isDate) == []
    ensures RowsBelowCap([], records, headers, schema, isDate) == CountReadable(records)
  {
    hide RowErrors;
    if records != [] {
      AllRowsBelowCap(records[..|records| - 1], headers, schema, isDate);
    }
  }

  /** Without errors every readable record is reported. */
  lemma ValidReportsAllRows(csv: Csv, schema: Schema, mode: Mode, isDate: string -> bool)
    requires AllErrors(csv, schema, mode, isDate) == []
    ensures RowsReported(csv, schema, mode, isDate) == CountReadable(csv.records)
  {
    hide MissingColumns, ExtraColumns, RowsBelowCap, CountReadable, AllRowErrors;
    if csv.headers.Some? && mode.Strict? {
      AllRowsBelowCap(csv.records, csv.headers.value, schema, isDate);
    }
  }

  // ------------------------------------------------------ the capped collector

  function Capped(errors: seq<ValidationError>): seq<ValidationError> {
    Take(errors, MAX_ERRORS)
  }

  /** Appending under the cap, and doing nothing at the cap, both keep the first 100. */
  lemma CapAppend(all: seq<ValidationError>, more: seq<ValidationError>)
    ensures |Capped(all)| >= MAX_ERRORS ==> Capped(all + more) == Capped(all)
    ensures |Capped(all)| < MAX_ERRORS && |more| <= 1 ==> Capped(all + more) == Capped(all) + more
    ensures Capped(all) == [] <==> all == []
  {
  }

  lemma CapReached(all: seq<ValidationError>)
    ensures |Capped(all)| < MAX_ERRORS <==> |all| < MAX_ERRORS
  {
  }

  lemma {:induction false} NoRowsAtCap(before: seq<ValidationError>, records: seq<Option<Record>>, headers: seq<string>,
                                       schema: Schema, isDate: string -> bool)
    requires |before| >= MAX_ERRORS
    ensures RowsBelowCap(before, records, headers, schema, isDate) == 0
  {
    hide AllRowErrors;
    if records != [] {
      NoRowsAtCap(before, records[..|records| - 1], headers, schema, isDate);
    }
  }

  lemma MissingStep(schema: Schema, headers: seq<string>, i: nat)
    requires i < |schema|
    ensures
      var all, more := MissingColumns(schema[..i], headers),
                       if schema[i].name in headers then [] else [ValidationError(0, schema[i].name, MissingColumn)];
      && MissingColumns(schema[..i + 1], headers) == all + more
      && (|Capped(all)| < MAX_ERRORS ==> Capped(all + more) == Capped(all) + more)
  {
    assert schema[..i + 1][..i] == schema[..i];
    CapAppend(MissingColumns(schema[..i], headers),
              if schema[i].name in headers then [] else [ValidationError(0, schema[i].name, MissingColumn)]);
  }

  lemma {:induction false} MissingCapped(schema: Schema, headers: seq<string>, i: nat)
    requires i <= |schema| && |Capped(MissingColumns(schema[..i], headers))| >= MAX_ERRORS
    ensures Capped(MissingColumns(schema, headers)) == Capped(MissingColumns(schema[..i], headers))
    decreases |schema| - i
  {
    hide MissingColumns;
    if i < |schema| {
      MissingStep(schema, headers, i);
      CapAppend(MissingColumns(schema[..i], headers),
                if schema[i].name in headers then [] else [ValidationError(0, schema[i].name, MissingColumn)]);
      MissingCapped(schema, headers, i + 1);
    } else {
      assert schema[..i] == schema;
    }
  }

  method CheckMissing(schema: Schema, headers: seq<string>, index: map<string, nat>)
    returns (errors: seq<ValidationError>)
    requires index == HeaderIndex(headers)
    ensures errors == Capped(MissingColumns(schema, headers))
  {
    errors := [];
    for i := 0 to |schema|
      invariant errors == Capped(MissingColumns(schema[..i], headers)) && |errors| < MAX_ERRORS
    {
      MissingStep(schema, headers, i);
      if schema[i].name !in index {
        errors := errors + [ValidationError(0, schema[i].name, MissingColumn)];
        if |errors| >= MAX_ERRORS {
          MissingCapped(schema, headers, i + 1);
          return;
        }
      }
    }
    assert schema[..|schema|] == schema;
  }

  method CheckExtra(headers: seq<string>, schema: Schema, missing: seq<ValidationError>)
    returns (errors: seq<ValidationError>)
    ensures errors == Capped(missing + ExtraColumns(headers, schema))
  {
    errors := Capped(missing);
    assert missing + ExtraColumns([], schema) == missing;
    for i := 0 to |headers|
      invariant errors == Capped(missing + ExtraColumns(headers[..i], schema))
    {
      var h := headers[i];
      assert headers[..i + 1][..i] == headers[..i];
      ghost var more := if InSchema(h, schema) then [] else [ValidationError(0, h, UnexpectedColumn)];
      CapAppend(missing + ExtraColumns(headers[..i], schema), more);
      assert missing + ExtraColumns(headers[..i + 1], schema) == missing + ExtraColumns(headers[..i], schema) + more;
      if !InSchema(h, schema) && |errors| < MAX_ERRORS {
        errors := errors + [ValidationError(0, h, UnexpectedColumn)];
      }
    }
    assert headers[..|headers|] == headers;
  }

  lemma FieldErrorsStep(row: nat, record: Record, headers: seq<string>, schema: Schema, isDate: string -> bool, i: nat)
    returns (more: seq<ValidationError>)
    requires i < |schema|
    ensures more == match FieldDefect(record, headers, schema[i], isDate)
                    case None => []
                    case Some(defect) => [ValidationError(row, schema[i].name, defect)]
    ensures FieldErrors(row, record, headers, schema[..i + 1], isDate) ==
            FieldErrors(row, record, headers, schema[..i], isDate) + more
  {
    assert schema[..i + 1][..i] == schema[..i];
    more := match FieldDefect(record, headers, schema[i], isDate)
      case None => []
      case Some(defect) => [ValidationError(row, schema[i].name, defect)];
  }

  lemma NoFieldErrorsYet(row: nat, record: Record, headers: seq<string>, isDate: string -> bool)
    ensures FieldErrors(row, record, headers, [], isDate) == []
  {
  }

  /** The cells of one record; stops collecting at the cap. */
  method CheckFields(row: nat, record: Record, headers: seq<string>, index: map<string, nat>, schema: Schema,
                     isDate: string -> bool, ghost before: seq<ValidationError>, start: seq<ValidationError>)
    returns (errors: seq<ValidationError>)
    requires start == Capped(before) && index == HeaderIndex(headers)
    ensures errors == Capped(before + FieldErrors(row, record, headers, schema, isDate))
  {
    hide ValidateField, HeaderIndex, CellText, FieldErrors, Capped;
    errors := start;
    NoFieldErrorsYet(row, record, headers, isDate);
    assert before + [] == before && schema[..0] == [];
    for i := 0 to |schema|
      invariant errors == Capped(before + FieldErrors(row, record, headers, schema[..i], isDate))
    {
      ghost var more := FieldErrorsStep(row, record, headers, schema, isDate, i);
      CapAppend(before + FieldErrors(row, record, headers, schema[..i], isDate), more);
      assert before + (FieldErrors(row, record, headers, schema[..i], isDate) + more)
          == before + FieldErrors(row, record, headers, schema[..i], isDate) + more;
      if |errors| < MAX_ERRORS && schema[i].name in index {
        var defect := ValidateField(CellText(record, index[schema[i].name]), schema[i], isDate);
        if defect.Some? {
          errors := errors + [ValidationError(row, schema[i].name, defect.value)];
        }
      }
    }
    assert schema[..|schema|] == schema;
  }

  /** One record, or an unreadable one, below the cap. */
  method CheckRow(row: nat, record: Option<Record>, headers: seq<string>, index: map<string, nat>, schema: Schema,
                  isDate: string -> bool, ghost before: seq<ValidationError>, start: seq<ValidationError>)
    returns (errors: seq<ValidationError>)
    requires start == Capped(before) && |start| < MAX_ERRORS && index == HeaderIndex(headers)
    ensures errors == Capped(before + RowErrors(row, record, headers, schema, isDate))
  {
    hide FieldErrors, HeaderIndex;
    if record.None? {
      errors := start + [ValidationError(row, "row", MalformedRow)];
      CapAppend(before, [ValidationError(row, "row", MalformedRow)]);
      return;
    }
    var r := record.value;
    errors := CheckFields(row, r, headers, index, schema, isDate, before, start);
    ghost var fields := FieldErrors(row, r, headers, schema, isDate);
    ghost var short := if |r| < |headers| then [ValidationError(row, "row", ShortRow)] else [];
    CapAppend(before + fields, short);
    assert before + (fields + short) == before + fields + short;
    if |r| < |headers| && |errors| < MAX_ERRORS {
      errors := errors + [ValidationError(row, "row", ShortRow)];
    }
  }

  method CheckRows(records: seq<Option<Record>>, headers: seq<string>, index: map<string, nat>, schema: Schema,
                   isDate: string -> bool, ghost before: seq<ValidationError>, start: seq<ValidationError>)
    returns (errors: seq<ValidationError>, rowsValidated: nat)
    requires start == Capped(before) && index == HeaderIndex(headers)
    ensures errors == Capped(before + AllRowErrors(records, headers, schema, isDate))
    ensures rowsValidated == RowsBelowCap(before, records, headers, schema, isDate)
  {
    hide RowErrors, HeaderIndex, Capped;
    errors, rowsValidated := start, 0;
    assert before + [] == before;
    for i := 0 to |records|
      invariant errors == Capped(before + AllRowErrors(records[..i], headers, schema, isDate))
      invariant rowsValidated == RowsBelowCap(before, records[..i], headers, schema, isDate)
    {
      CapReached(before + AllRowErrors(records[..i], headers, schema, isDate));
      ghost var done := before + AllRowErrors(records[..i], headers, schema, isDate);
      ghost var more := RowErrors(i + 1, records[i], headers, schema, isDate);
      assert records[..i + 1][..i] == records[..i];
      assert before + AllRowErrors(records[..i + 1], headers, schema, isDate) == done + more;
      if |errors| >= MAX_ERRORS {
        CapAppend(done, more);
        continue;
      }
      errors := CheckRow(i + 1, records[i], headers, index, schema, isDate, done, errors);
      if records[i].Some? {
        rowsValidated := rowsValidated + 1;
      }
    }
    assert records[..|records|] == records;
  }

  /** The validator reports exactly the first 100 errors of the uncapped checker. */
  method ValidateCsv(csv: Csv, schema: Schema, mode: Mode, isDate: string -> bool) returns (s: Summary)
    ensures s.errors == Capped(AllErrors(csv, schema, mode, isDate))
    ensures |s.errors| == Min(|AllErrors(csv, schema, mode, isDate)|, 100)
    ensures s.valid <==> AllErrors(csv, schema, mode, isDate) == []
    ensures s.rowsValidated == RowsReported(csv, schema, mode, isDate)
  {
    hide MissingColumns, ExtraColumns, AllRowErrors, HeaderIndex, RowsBelowCap;
    ghost var all := AllErrors(csv, schema, mode, isDate);
    CapAppend(all, []);
    if csv.headers.None? {
      return Summary(false, [ValidationError(0, "header", HeaderUnreadable)], 0);
    }
    var headers := csv.headers.value;
    if mode.NoValidation? {
      var readable := CountReadable(csv.records);
      return Summary(true, [], readable);
    }
    var index := HeaderIndex(headers);
    var errors := CheckMissing(schema, headers, index);
    ghost var missing := MissingColumns(schema, headers);
    ghost var header := HeaderErrors(headers, schema);
    CapReached(missing);
    if |errors| >= MAX_ERRORS {
      NoRowsAtCap(header, csv.records, headers, schema, isDate);
      CapAppend(missing, ExtraColumns(headers, schema));
      CapAppend(header, AllRowErrors(csv.records, headers, schema, isDate));
      return Summary(false, errors, 0);
    }
    CapAppend(missing, []);
    assert Capped(missing) == missing;
    errors := CheckExtra(headers, schema, errors);
    if mode.HeadersOnly? {
      var readable := CountReadable(csv.records);
      return Summary(errors == [], errors, readable);
    }
    var rows;
    errors, rows := CheckRows(csv.records, headers, index, schema, isDate, header, errors);
    return Summary(errors == [], errors, rows);
  }

  // --------------------------------------------------- what validity means

  lemma {:induction false} NoMissing(schema: Schema, headers: seq<string>)
    ensures MissingColumns(schema, headers) == [] <==> forall i | 0 <= i < |schema| :: schema[i].name in headers
  {
    if schema != [] {
      var front := schema[..|schema| - 1];
      NoMissing(front, headers);
      assert forall i | 0 <= i < |front| :: front[i] == schema[i];
    }
  }

  lemma {:induction false} NoExtra(headers: seq<string>, schema: Schema)
    ensures ExtraColumns(headers, schema) == [] <==> forall i | 0 <= i < |headers| :: InSchema(headers[i], schema)
  {
    hide InSchema;
    if headers != [] {
      var front := headers[..|headers| - 1];
      NoExtra(front, schema);
      assert forall i | 0 <= i < |front| :: front[i] == headers[i];
    }
  }

  function Names(schema: Schema): set<string> {
    set i | 0 <= i < |schema| :: schema[i].name
  }

  function Valid(csv: Csv, schema: Schema, mode: Mode, isDate: string -> bool): bool {
    AllErrors(csv, schema, mode, isDate) == []
  }

  /** Headers-only validity: a readable header whose names are exactly the schema's. */
  lemma HeadersOnlyMeaning(csv: Csv, schema: Schema, isDate: string -> bool)
    ensures Valid(csv, schema, HeadersOnly, isDate) <==>
            csv.headers.Some? && (set h | h in csv.headers.value) == Names(schema)
  {
    hide MissingColumns, ExtraColumns;
    if csv.headers.Some? {
      var headers := csv.headers.value;
      NoMissing(schema, headers);
      NoExtra(headers, schema);
      var have, want := (set h | h in headers), Names(schema);
      if have == want {
        forall i | 0 <= i < |schema| ensures schema[i].name in headers {
          assert schema[i].name in want;
        }
        forall i | 0 <= i < |headers| ensures InSchema(headers[i], schema) {
          assert headers[i] in have;
        }
      }
      if Valid(csv, schema, HeadersOnly, isDate) {
        forall h | h in have ensures h in want {
          var i :| 0 <= i < |headers| && headers[i] == h;
          assert InSchema(headers[i], schema);
        }
      }
    }
  }

  /** A readable record, long enough, whose every schema cell passes its rule. */
  predicate GoodRow(record: Option<Record>, headers: seq<string>, schema: Schema, isDate: string -> bool) {
    && record.Some? && |headers| <= |record.value|
    && forall i | 0 <= i < |schema| :: FieldDefect(record.value, headers, schema[i], isDate) == None
  }

  lemma {:induction false} NoFieldErrors(
      row: nat, record: Record, headers: seq<string>, schema: Schema, isDate: string -> bool)
    ensures FieldErrors(row, record, headers, schema, isDate) == [] <==>
            forall i | 0 <= i < |schema| :: FieldDefect(record, headers, schema[i], isDate) == None
  {
    hide FieldDefect;
    if schema != [] {
      var front := schema[..|schema| - 1];
      NoFieldErrors(row, record, headers, front, isDate);
      assert forall i | 0 <= i < |front| :: front[i] == schema[i];
    }
  }

  lemma NoErrorsInRow(row: nat, record: Option<Record>, headers: seq<string>, schema: Schema, isDate: string -> bool)
    ensures RowErrors(row, record, headers, schema, isDate) == [] <==> GoodRow(record, headers, schema, isDate)
  {
    hide FieldErrors, FieldDefect;
    if record.Some? {
      NoFieldErrors(row, record.value, headers, schema, isDate);
    }
  }

  lemma {:induction false} NoRowErrors(
      records: seq<Option<Record>>, headers: seq<string>, schema: Schema, isDate: string -> bool)
    ensures AllRowErrors(records, headers, schema, isDate) == [] <==>
            forall i | 0 <= i < |records| :: GoodRow(records[i], headers, schema, isDate)
  {
    hide RowErrors, GoodRow;
    if records != [] {
      var last := |records| - 1;
      var front := records[..last];
      NoRowErrors(front, headers, schema, isDate);
      NoErrorsInRow(|records|, records[last], headers, schema, isDate);
      assert forall i | 0 <= i < last :: front[i] == records[i];
    }
  }

  /** The last header cell with the name. */
  predicate LastPosition(headers: seq<string>, name: string, k: nat) {
    k < |headers| && headers[k] == name && forall j | k < j < |headers| :: headers[j] != name
  }

  lemma HeaderIndexStep(headers: seq<string>)
    requires headers != []
    ensures
      var last := |headers| - 1;
      HeaderIndex(headers) == HeaderIndex(headers[..last])[headers[last] := last]
  {
  }

  lemma LastPositionStep(headers: seq<string>, name: string, k: nat)
    requires headers != []
    ensures
      var last := |headers| - 1;
      LastPosition(headers, name, k) <==>
      if headers[last] == name then k == last else LastPosition(headers[..last], name, k)
  {
    var last := |headers| - 1;
    assert forall j | 0 <= j < last :: headers[..last][j] == headers[j];
  }

  lemma NoPosition(name: string, k: nat)
    ensures !LastPosition([], name, k) && HeaderIndex([]) == map[]
  {
  }

  lemma {:induction false} HeaderIndexIsLast(headers: seq<string>, name: string, k: nat)
    ensures LastPosition(headers, name, k) <==> name in HeaderIndex(headers) && HeaderIndex(headers)[name] == k
  {
    hide HeaderIndex, LastPosition;
    if headers == [] {
      NoPosition(name, k);
    } else {
      HeaderIndexIsLast(headers[..|headers| - 1], name, k);
      HeaderIndexStep(headers);
      LastPositionStep(headers, name, k);
    }
  }

  /** The cell, without surrounding whitespace, is what its field demands. */
  ghost predicate CellMeets(cell: string, field: FieldSchema, isDate: string -> bool) {
    forall text | IsTrimmed(cell, text) :: Meets(text, field, isDate)
  }

  /** The record's cell in the last column of the field's name meets the field. */
  ghost predicate ColumnMeets(record: Record, headers: seq<string>, field: FieldSchema, isDate: string -> bool)
    requires |headers| <= |record|
  {
    forall k: nat | k < |headers| && LastPosition(headers, field.name, k) :: CellMeets(record[k], field, isDate)
  }

  /** A readable record, as long as the header, whose cell in the last column of each field's name meets the field. */
  ghost predicate SoundRecord(record: Option<Record>, headers: seq<string>, schema: Schema, isDate: string -> bool) {
    && record.Some? && |headers| <= |record.value|
    && forall f | 0 <= f < |schema| :: ColumnMeets(record.value, headers, schema[f], isDate)
  }

  lemma TrimmedEnds(s: string, t: string)
    requires IsTrimmed(s, t)
    ensures NoWhitespaceAtEnds(t)
  {
  }

  lemma CellMeetsExactly(cell: string, field: FieldSchema, isDate: string -> bool)
    ensures ValidateField(TrimWhitespace(cell), field, isDate) == None <==> CellMeets(cell, field, isDate)
  {
    hide TrimWhitespace, ValidateField, Meets, IsTrimmed;
    var text := TrimWhitespace(cell);
    TrimWhitespaceMeaning(cell);
    TrimmedEnds(cell, text);
    FieldAcceptedExactly(text, field, isDate);
    forall t | IsTrimmed(cell, t) ensures t == text {
      TrimIsUnique(cell, t);
    }
  }

  lemma FieldIsSound(record: Record, headers: seq<string>, field: FieldSchema, isDate: string -> bool)
    requires |headers| <= |record|
    ensures FieldDefect(record, headers, field, isDate) == None <==> ColumnMeets(record, headers, field, isDate)
  {
    hide HeaderIndex, ValidateField, CellMeets, TrimWhitespace, LastPosition;
    forall k: nat
      ensures LastPosition(headers, field.name, k) <==>
              field.name in HeaderIndex(headers) && HeaderIndex(headers)[field.name] == k
    {
      HeaderIndexIsLast(headers, field.name, k);
    }
    if field.name in HeaderIndex(headers) {
      CellMeetsExactly(record[HeaderIndex(headers)[field.name]], field, isDate);
    }
  }

  lemma GoodRowIsSound(record: Option<Record>, headers: seq<string>, schema: Schema, isDate: string -> bool)
    ensures GoodRow(record, headers, schema, isDate) <==> SoundRecord(record, headers, schema, isDate)
  {
    hide FieldDefect, ColumnMeets;
    if record.Some? && |headers| <= |record.value| {
      forall f | 0 <= f < |schema|
        ensures FieldDefect(record.value, headers, schema[f], isDate) == None <==>
                ColumnMeets(record.value, headers, schema[f], isDate)
      {
        FieldIsSound(record.value, headers, schema[f], isDate);
      }
    }
  }

  /**
   Strict validity: a readable header whose names are exactly the schema's, and only records that
   are readable, long enough and meet every field in its own column.
   */
  lemma StrictMeaning(csv: Csv, schema: Schema, isDate: string -> bool)
    ensures Valid(csv, schema, Strict, isDate) <==>
            && csv.headers.Some? && (set h | h in csv.headers.value) == Names(schema)
            && forall i | 0 <= i < |csv.records| :: SoundRecord(csv.records[i], csv.headers.value, schema, isDate)
  {
    hide HeaderErrors, AllRowErrors, GoodRow, SoundRecord;
    HeadersOnlyMeaning(csv, schema, isDate);
    if csv.headers.Some? {
      NoRowErrors(csv.records, csv.headers.value, schema, isDate);
      forall i | 0 <= i < |csv.records|
        ensures GoodRow(csv.records[i], csv.headers.value, schema, isDate) <==>
                SoundRecord(csv.records[i], csv.headers.value, schema, isDate)
      {
        GoodRowIsSound(csv.records[i], csv.headers.value, schema, isDate);
      }
    }
  }

  // ------------------------------------------------------- which errors are reported

  lemma {:induction false} MissingExactly(schema: Schema, headers: seq<string>, e: ValidationError)
    ensures e in MissingColumns(schema, headers) <==>
            e.row == 0 && e.defect == MissingColumn && InSchema(e.field, schema) && e.field !in headers
  {
    if schema != [] {
      var front := schema[..|schema| - 1];
      MissingExactly(front, headers, e);
      assert forall i | 0 <= i < |front| :: front[i] == schema[i];
      assert InSchema(e.field, schema) <==> InSchema(e.field, front) || schema[|schema| - 1].name == e.field;
    }
  }

  lemma {:induction false} ExtraExactly(headers: seq<string>, schema: Schema, e: ValidationError)
    ensures e in ExtraColumns(headers, schema) <==>
            e.row == 0 && e.defect == UnexpectedColumn && e.field in headers && !InSchema(e.field, schema)
  {
    hide InSchema;
    if headers != [] {
      var front := headers[..|headers| - 1];
      ExtraExactly(front, schema, e);
      assert headers == front + [headers[|headers| - 1]];
    }
  }

  /** The error names a field of the schema whose cell in the record has that defect. */
  predicate FieldErrorOf(
    e: ValidationError, record: Record, headers: seq<string>, schema: Schema, isDate: string -> bool)
  {
    exists f | 0 <= f < |schema| ::
      schema[f].name == e.field && FieldDefect(record, headers, schema[f], isDate) == Some(e.defect)
  }

  lemma NoFieldErrorOf(e: ValidationError, record: Record, headers: seq<string>, isDate: string -> bool)
    ensures !FieldErrorOf(e, record, headers, [], isDate)
  {
  }

  lemma FieldErrorStep(e: ValidationError, record: Record, headers: seq<string>, schema: Schema, isDate: string -> bool)
    requires schema != []
    ensures
      var front, f := schema[..|schema| - 1], schema[|schema| - 1];
      FieldErrorOf(e, record, headers, schema, isDate) <==>
      FieldErrorOf(e, record, headers, front, isDate)
      || (f.name == e.field && FieldDefect(record, headers, f, isDate) == Some(e.defect))
  {
    hide FieldDefect;
    var front := schema[..|schema| - 1];
    assert forall i | 0 <= i < |front| :: front[i] == schema[i];
  }

  lemma {:induction false} FieldErrorsExactly(
      row: nat, record: Record, headers: seq<string>, schema: Schema, isDate: string -> bool, e: ValidationError)
    ensures e in FieldErrors(row, record, headers, schema, isDate) <==>
            e.row == row && FieldErrorOf(e, record, headers, schema, isDate)
  {
    hide FieldDefect, FieldErrorOf;
    if schema == [] {
      NoFieldErrorOf(e, record, headers, isDate);
    } else {
      var front := schema[..|schema| - 1];
      FieldErrorsExactly(row, record, headers, front, isDate, e);
      FieldErrorStep(e, record, headers, schema, isDate);
    }
  }

  /** The error is one of the given record: unreadable, too short, or with a defective cell. */
  predicate RecordErrorOf(
    e: ValidationError, record: Option<Record>, headers: seq<string>, schema: Schema, isDate: string -> bool)
  {
    match record
    case None => e.field == "row" && e.defect == MalformedRow
    case Some(r) =>
      || (e.field == "row" && e.defect == ShortRow && |r| < |headers|)
      || FieldErrorOf(e, r, headers, schema, isDate)
  }

  lemma RecordErrorsExactly(row: nat, record: Option<Record>, headers: seq<string>, schema: Schema,
                            isDate: string -> bool, e: ValidationError)
    ensures e in RowErrors(row, record, headers, schema, isDate) <==>
            e.row == row && RecordErrorOf(e, record, headers, schema, isDate)
  {
    hide FieldErrors, FieldErrorOf;
    if record.Some? {
      FieldErrorsExactly(row, record.value, headers, schema, isDate, e);
    }
  }

  lemma {:induction false} RowErrorsExactly(
      records: seq<Option<Record>>, headers: seq<string>, schema: Schema, isDate: string -> bool, e: ValidationError)
    ensures e in AllRowErrors(records, headers, schema, isDate) <==>
            0 < e.row <= |records| && RecordErrorOf(e, records[e.row - 1], headers, schema, isDate)
  {
    hide RowErrors, RecordErrorOf;
    if records != [] {
      var last := |records| - 1;
      RowErrorsExactly(records[..last], headers, schema, isDate, e);
      RecordErrorsExactly(|records|, records[last], headers, schema, isDate, e);
      assert 0 < e.row <= last ==> records[..last][e.row - 1] == records[e.row - 1];
    }
  }

  /** The strict checker reports exactly the missing and unexpected columns and the errors of each record, by row. */
  lemma ErrorsExactly(csv: Csv, schema: Schema, isDate: string -> bool, e: ValidationError)
    requires csv.headers.Some?
    ensures
      var headers := csv.headers.value;
      e in AllErrors(csv, schema, Strict, isDate) <==>
      || (e.row == 0 && e.defect == MissingColumn && InSchema(e.field, schema) && e.field !in headers)
      || (e.row == 0 && e.defect == UnexpectedColumn && e.field in headers && !InSchema(e.field, schema))
      || (0 < e.row <= |csv.records| && RecordErrorOf(e, csv.records[e.row - 1], headers, schema, isDate))
  {
    hide MissingColumns, ExtraColumns, AllRowErrors, InSchema, RecordErrorOf;
    var headers := csv.headers.value;
    MissingExactly(schema, headers, e);
    ExtraExactly(headers, schema, e);
    RowErrorsExactly(csv.records, headers, schema, isDate, e);
  }

  lemma {:induction false} RowErrorsOrdered(
      records: seq<Option<Record>>, headers: seq<string>, schema: Schema, isDate: string -> bool, a: nat, b: nat)
    requires a < b < |AllRowErrors(records, headers, schema, isDate)|
    ensures
      var all := AllRowErrors(records, headers, schema, isDate);
      all[a].row <= all[b].row
  {
    hide RowErrors, RecordErrorOf;
    var last := |records| - 1;
    var earlier := AllRowErrors(records[..last], headers, schema, isDate);
    var all := AllRowErrors(records, headers, schema, isDate);
    if b < |earlier| {
      RowErrorsOrdered(records[..last], headers, schema, isDate, a, b);
    } else {
      var row := RowErrors(|records|, records[last], headers, schema, isDate);
      assert all[b] == row[b - |earlier|] && row[b - |earlier|] in row;
      RecordErrorsExactly(|records|, records[last], headers, schema, isDate, all[b]);
      assert all[a] in all;
      RowErrorsExactly(records, headers, schema, isDate, all[a]);
    }
  }

  /** Errors are reported in row order, the header's first. */
  lemma ErrorsAreOrdered(csv: Csv, schema: Schema, isDate: string -> bool, a: nat, b: nat)
    requires csv.headers.Some? && a < b < |AllErrors(csv, schema, Strict, isDate)|
    ensures AllErrors(csv, schema, Strict, isDate)[a].row <= AllErrors(csv, schema, Strict, isDate)[b].row
  {
    hide MissingColumns, ExtraColumns, AllRowErrors;
    var headers := csv.headers.value;
    var header, rows := HeaderErrors(headers, schema), AllRowErrors(csv.records, headers, schema, isDate);
    var all := header + rows;
    if a < |header| {
      assert header[a] in header;
      MissingExactly(schema, headers, header[a]);
      ExtraExactly(headers, schema, header[a]);
    } else {
      RowErrorsOrdered(csv.records, headers, schema, isDate, a - |header|, b - |header|);
    }
  }

  /** Strict validity implies headers-only validity, which implies validity without checks. */
  lemma ModesAreOrdered(csv: Csv, schema: Schema, isDate: string -> bool)
    ensures Valid(csv, schema, Strict, isDate) ==> Valid(csv, schema, HeadersOnly, isDate)
    ensures Valid(csv, schema, HeadersOnly, isDate) ==> Valid(csv, schema, NoValidation, isDate)
    ensures Valid(csv, schema, NoValidation, isDate) <==> csv.headers.Some?
  {
    StrictMeaning(csv, schema, isDate);
  }
}

/**
 The single-pass CSV scanner of the `mean` script, and the plain definition it agrees with:
 split the body at newlines, strip carriage returns, drop empty rows, split at commas, trim,
 read the number. Quoting is not interpreted.
 */
module MeanScanner {
  import opened Basics
  import opened Decimal

  /** Floating-point addition and division: any functions at all. */
  datatype FloatOps = FloatOps(add: (real, real) -> real, div: (real, nat) -> real)

  datatype Stats = Stats(count: nat, skipped: nat, mean: real)
  datatype Failure = EmptyCsv | ColumnNotInHeader(column: string) | NoNumericValues

  // --------------------------------------------------- the plain definition

  predicate IsBlank(c: char) {
    c == ' ' || c == '\t'
  }

  predicate AllBlank(s: string) {
    forall i | 0 <= i < |s| :: IsBlank(s[i])
  }

  function TrimStart(s: string): string {
    if s != "" && IsBlank(s[0]) then TrimStart(s[1..]) else s
  }

  function TrimEnd(s: string): string {
    if s != "" && IsBlank(s[|s| - 1]) then TrimEnd(s[..|s| - 1]) else s
  }

  function Trim(s: string): string {
    TrimEnd(TrimStart(s))
  }

  function DropLeadingCrs(s: string): string {
    if s != "" && s[0] == '\r' then DropLeadingCrs(s[1..]) else s
  }

  function CleanRow(segment: string): string {
    DropTrailingCr(DropLeadingCrs(segment))
  }

  function NonEmptyRows(segments: seq<string>): seq<string> {
    if segments == [] then []
    else (if CleanRow(segments[0]) == "" then [] else [CleanRow(segments[0])]) + NonEmptyRows(segments[1..])
  }

  function Rows(body: string): seq<string> {
    NonEmptyRows(Split(body, '\n'))
  }

  function Header(csv: string): string {
    DropTrailingCr(csv[..IndexOf(csv, '\n')])
  }

  function Body(csv: string): string {
    csv[Min(IndexOf(csv, '\n') + 1, |csv|)..]
  }

  function FirstMatch(cells: seq<string>, column: string): Option<nat> {
    if cells == [] then None
    else if Trim(cells[0]) == column then Some(0)
    else match FirstMatch(cells[1..], column)
      case None => None
      case Some(k) => Some(k + 1)
  }

  function Cell(cells: seq<string>, n: nat): Option<string> {
    if n < |cells| then Some(cells[n]) else None
  }

  function CellValue(row: string, col: nat): Option<real> {
    match Cell(Split(row, ','), col)
    case None => None
    case Some(cell) => Parsed(Trim(cell))
  }

  /** The numbers found in a column, in row order. */
  function Values(rows: seq<string>, col: nat): seq<real> {
    if rows == [] then []
    else (match CellValue(rows[0], col) case None => [] case Some(v) => [v]) + Values(rows[1..], col)
  }

  function FoldLeft(add: (real, real) -> real, acc: real, values: seq<real>): real
    decreases values
  {
    if values == [] then acc else FoldLeft(add, add(acc, values[0]), values[1..])
  }

  lemma {:induction false} ValuesAtMostRows(rows: seq<string>, col: nat)
    ensures |Values(rows, col)| <= |rows|
  {
    if rows != [] {
      ValuesAtMostRows(rows[1..], col);
    }
  }

  function Mean(csv: string, column: string, ops: FloatOps): Result<Stats, Failure> {
    if csv == "" then Err(EmptyCsv)
    else match FirstMatch(Split(Header(csv), ','), column)
      case None => Err(ColumnNotInHeader(column))
      case Some(col) =>
        var rows := Rows(Body(csv));
        var values := Values(rows, col);
        if values == [] then Err(NoNumericValues)
        else
          ValuesAtMostRows(rows, col);
          Ok(Stats(|values|, |rows| - |values|, ops.div(FoldLeft(ops.add, 0.0, values), |values|)))
  }

  // ------------------------------------------------------------ byte loops

  lemma TrimStartStep(s: string, start: nat)
    requires start <= |s|
    ensures TrimStart(s[start..]) ==
            if start < |s| && IsBlank(s[start]) then TrimStart(s[start + 1..]) else s[start..]
  {
    assert start < |s| ==> s[start..][0] == s[start] && s[start..][1..] == s[start + 1..];
  }

  lemma TrimEndStep(s: string, start: nat, end: nat)
    requires start <= end <= |s|
    ensures TrimEnd(s[start..end]) ==
            if start < end && IsBlank(s[end - 1]) then TrimEnd(s[start..end - 1]) else s[start..end]
  {
    var cell := s[start..end];
    assert start < end ==> cell[|cell| - 1] == s[end - 1] && cell[..|cell| - 1] == s[start..end - 1];
  }

  method TrimAscii(s: Bytes) returns (r: Bytes)
    ensures r == Trim(s)
  {
    hide TrimStart, TrimEnd;
    var start, end := 0, |s|;
    assert s[0..] == s;
    while start < end && IsBlank(s[start])
      invariant 0 <= start <= end == |s|
      invariant TrimStart(s[start..]) == TrimStart(s)
    {
      TrimStartStep(s, start);
      start := start + 1;
    }
    TrimStartStep(s, start);
    assert s[start..end] == s[start..];
    while end > start && IsBlank(s[end - 1])
      invariant start <= end <= |s|
      invariant TrimEnd(s[start..end]) == Trim(s)
    {
      TrimEndStep(s, start, end);
      end := end - 1;
    }
    TrimEndStep(s, start, end);
    return s[start..end];
  }

  lemma {:induction false} TrimStartParts(s: string) returns (before: string)
    ensures AllBlank(before) && s == before + TrimStart(s)
    ensures TrimStart(s) != "" ==> !IsBlank(TrimStart(s)[0])
  {
    before := "";
    if s != "" && IsBlank(s[0]) {
      var rest := TrimStartParts(s[1..]);
      before := [s[0]] + rest;
    }
  }

  lemma {:induction false} TrimEndParts(s: string) returns (after: string)
    ensures AllBlank(after) && s == TrimEnd(s) + after
    ensures TrimEnd(s) != "" ==> !IsBlank(TrimEnd(s)[|TrimEnd(s)| - 1]) && TrimEnd(s)[0] == s[0]
  {
    after := "";
    if s != "" && IsBlank(s[|s| - 1]) {
      var rest := TrimEndParts(s[..|s| - 1]);
      after := rest + [s[|s| - 1]];
    }
  }

  /** Trimming removes blanks at both ends and nothing else. */
  lemma TrimMeaning(s: string)
    ensures exists before, after ::
              AllBlank(before) && AllBlank(after) && s == before + Trim(s) + after
    ensures Trim(s) != "" ==> Trim(s)[0] !in {' ', '\t'} && Trim(s)[|Trim(s)| - 1] !in {' ', '\t'}
    ensures AllBlank(s) <==> forall i | 0 <= i < |s| :: s[i] == ' ' || s[i] == '\t'
  {
    var before := TrimStartParts(s);
    var after := TrimEndParts(TrimStart(s));
    assert s == before + Trim(s) + after;
  }

  method SplitFirstLine(buf: Bytes) returns (header: Bytes, body: Bytes)
    ensures header == Header(buf) && body == Body(buf)
  {
    var i := 0;
    while i < |buf| && buf[i] != '\n'
      invariant 0 <= i <= |buf|
      invariant forall k | 0 <= k < i :: buf[k] != '\n'
    {
      i := i + 1;
    }
    IndexOfAt(buf, '\n', i);
    var headerEnd := i;
    if headerEnd > 0 && buf[headerEnd - 1] == '\r' {
      headerEnd := headerEnd - 1;
    }
    var bodyStart := Min(i + 1, |buf|);
    return buf[..headerEnd], buf[bodyStart..];
  }

  /** The segment from `start` to a separator at `i` is the next one; the rest follows it. */
  lemma SplitAt(s: string, sep: char, start: nat, i: nat)
    requires start <= i <= |s|
    requires forall k | start <= k < i :: s[k] != sep
    requires i < |s| ==> s[i] == sep
    ensures Split(s[start..], sep) ==
            [s[start..i]] + if i < |s| then Split(s[i + 1..], sep) else []
  {
    if i < |s| {
      assert s[start..] == s[start..i] + [sep] + s[i + 1..];
      SplitStep(s[start..i], sep, s[i + 1..]);
    } else {
      assert s[start..] == s[start..i];
    }
  }

  function Shift(k: Option<nat>, places: nat): Option<nat> {
    match k
    case None => None
    case Some(n) => Some(n + places)
  }

  lemma MatchStep(header: string, column: string, start: nat, i: nat)
    requires start <= i <= |header|
    requires forall k | start <= k < i :: header[k] != ','
    requires i < |header| ==> header[i] == ','
    ensures FirstMatch(Split(header[start..], ','), column) ==
            if Trim(header[start..i]) == column then Some(0)
            else if i < |header| then Shift(FirstMatch(Split(header[i + 1..], ','), column), 1)
            else None
  {
    hide Split, Trim;
    SplitAt(header, ',', start, i);
    var rest := if i < |header| then Split(header[i + 1..], ',') else [];
    assert ([header[start..i]] + rest)[1..] == rest;
  }

  method HeaderColumnIndex(header: Bytes, column: Bytes) returns (r: Option<nat>)
    ensures r == FirstMatch(Split(header, ','), column)
  {
    hide Split, Trim, FirstMatch;
    var start, idx, i := 0, 0, 0;
    assert header[0..] == header;
    while i <= |header|
      invariant 0 <= start <= i <= |header| + 1 && 0 <= idx
      invariant i == |header| + 1 ==> start == i
      invariant forall k | start <= k < i && k < |header| :: header[k] != ','
      invariant FirstMatch(Split(header, ','), column) ==
                if start <= |header| then Shift(FirstMatch(Split(header[start..], ','), column), idx) else None
    {
      if i == |header| || header[i] == ',' {
        MatchStep(header, column, start, i);
        var cell := TrimAscii(header[start..i]);
        if cell == column {
          return Some(idx);
        }
        idx := idx + 1;
        start := i + 1;
      }
      i := i + 1;
    }
    return None;
  }

  lemma CellStep(row: string, start: nat, i: nat, n: nat)
    requires start <= i <= |row|
    requires forall k | start <= k < i :: row[k] != ','
    requires i < |row| ==> row[i] == ','
    ensures Cell(Split(row[start..], ','), n) ==
            if n == 0 then Some(row[start..i])
            else if i < |row| then Cell(Split(row[i + 1..], ','), n - 1)
            else None
  {
    hide Split;
    SplitAt(row, ',', start, i);
  }

  method FieldAt(row: Bytes, n: nat) returns (r: Option<Bytes>)
    ensures r == Cell(Split(row, ','), n)
  {
    hide Split, Cell;
    var start, idx, i := 0, 0, 0;
    assert row[0..] == row;
    while i < |row|
      invariant 0 <= start <= i <= |row| && 0 <= idx <= n
      invariant forall k | start <= k < i :: row[k] != ','
      invariant Cell(Split(row, ','), n) == Cell(Split(row[start..], ','), n - idx)
    {
      if row[i] == ',' {
        CellStep(row, start, i, n - idx);
        if idx == n {
          return Some(row[start..i]);
        }
        idx := idx + 1;
        start := i + 1;
      }
      i := i + 1;
    }
    CellStep(row, start, i, n - idx);
    assert row[start..] == row[start..i];
    return if idx == n then Some(row[start..]) else None;
  }

  // --------------------------------------------------------- the whole scan

  datatype Tally = Tally(sum: real, count: nat, skipped: nat)

  function AddRow(t: Tally, row: string, col: nat, ops: FloatOps): Tally {
    match CellValue(row, col)
    case None => t.(skipped := t.skipped + 1)
    case Some(v) => t.(sum := ops.add(t.sum, v), count := t.count + 1)
  }

  function AddRows(t: Tally, rows: seq<string>, col: nat, ops: FloatOps): Tally
    decreases rows
  {
    if rows == [] then t else AddRows(AddRow(t, rows[0], col, ops), rows[1..], col, ops)
  }

  /** Counting row by row gives the left fold of the column's numbers; every row is counted or skipped. */
  lemma {:induction false} TallyIsFold(t: Tally, rows: seq<string>, col: nat, ops: FloatOps)
    ensures
      var values := Values(rows, col);
      |values| <= |rows| &&
      AddRows(t, rows, col, ops) ==
      Tally(FoldLeft(ops.add, t.sum, values), t.count + |values|, t.skipped + |rows| - |values|)
    decreases rows
  {
    hide CellValue;
    if rows != [] {
      TallyIsFold(AddRow(t, rows[0], col, ops), rows[1..], col, ops);
      var tail := Values(rows[1..], col);
      match CellValue(rows[0], col) {
        case None => assert Values(rows, col) == tail;
        case Some(v) => assert Values(rows, col) == [v] + tail && ([v] + tail)[1..] == tail;
      }
    }
  }

  /** A row starting at `i` and ending before the newline at `j`. */
  lemma RowStep(body: string, i: nat, j: nat)
    requires i <= j <= |body|
    requires forall k | i <= k < j :: body[k] != '\n'
    requires j < |body| ==> body[j] == '\n'
    ensures Rows(body[i..]) ==
            (if CleanRow(body[i..j]) == "" then [] else [CleanRow(body[i..j])]) +
            (if j < |body| then Rows(body[j + 1..]) else [])
  {
    hide Split, CleanRow;
    SplitAt(body, '\n', i, j);
    var rest := if j < |body| then Split(body[j + 1..], '\n') else [];
    var all := [body[i..j]] + rest;
    assert all[1..] == rest;
    assert NonEmptyRows(all) == (if CleanRow(all[0]) == "" then [] else [CleanRow(all[0])]) + NonEmptyRows(rest);
  }

  lemma EmptyRowIsClean()
    ensures CleanRow("") == ""
  {
  }

  lemma CleanAfterCr(row: string)
    requires row != "" && row[0] == '\r'
    ensures CleanRow(row) == CleanRow(row[1..])
  {
  }

  /** A stray line break before a row changes nothing. */
  lemma SkipBreak(body: string, i: nat)
    requires i < |body| && (body[i] == '\r' || body[i] == '\n')
    ensures Rows(body[i..]) == Rows(body[i + 1..])
  {
    hide Rows, CleanRow;
    if body[i] == '\n' {
      RowStep(body, i, i);
      EmptyRowIsClean();
      assert body[i..i] == "";
    } else {
      var j := i + 1 + IndexOf(body[i + 1..], '\n');
      assert forall k | i + 1 <= k < j :: body[k] == body[i + 1..][..j - i - 1][k - i - 1];
      assert j < |body| ==> body[j] == body[i + 1..][j - i - 1];
      RowStep(body, i, j);
      RowStep(body, i + 1, j);
      assert body[i..j][1..] == body[i + 1..j];
      CleanAfterCr(body[i..j]);
    }
  }

  lemma EmptyRows()
    ensures Rows("") == []
  {
  }

  /** The row that starts at a byte which is no line break: clean up to its newline. */
  lemma RowIsClean(row: string)
    requires row != "" && row[0] != '\r'
    ensures CleanRow(row) == DropTrailingCr(row) != ""
  {
  }

  method ReadCell(row: Bytes, col: nat) returns (v: Option<real>)
    ensures v == CellValue(row, col)
  {
    var field := FieldAt(row, col);
    if field.None? {
      return None;
    }
    var trimmed := TrimAscii(field.value);
    if trimmed == "" {
      assert Cut("").whole == "" && Cut("").fraction == "";
      return None;
    }
    v := ParseF64Bytes(trimmed);
  }

  /** One row of the body: from `i`, which holds no line break, to the end of the line. */
  method ReadRow(body: Bytes, i: nat) returns (row: Bytes, next: nat)
    requires i < |body| && body[i] != '\r' && body[i] != '\n'
    ensures i < next <= |body| && row != ""
    ensures Rows(body[i..]) == [row] + Rows(body[next..])
  {
    hide Rows, CleanRow;
    var j := i;
    while j < |body| && body[j] != '\n'
      invariant i <= j <= |body|
      invariant forall k | i <= k < j :: body[k] != '\n'
    {
      j := j + 1;
    }
    RowStep(body, i, j);
    var rowEnd := j;
    if rowEnd > i && body[rowEnd - 1] == '\r' {
      rowEnd := rowEnd - 1;
    }
    RowIsClean(body[i..j]);
    row := body[i..rowEnd];
    assert row == DropTrailingCr(body[i..j]);
    next := if j < |body| then j + 1 else j;
    if j == |body| {
      assert body[next..] == "";
      EmptyRows();
    }
  }

  method ScanBody(body: Bytes, col: nat, ops: FloatOps) returns (t: Tally)
    ensures t == AddRows(Tally(0.0, 0, 0), Rows(body), col, ops)
  {
    hide Rows, CellValue;
    t := Tally(0.0, 0, 0);
    var i := 0;
    assert body[0..] == body;
    while i < |body|
      invariant 0 <= i <= |body|
      invariant AddRows(t, Rows(body[i..]), col, ops) == AddRows(Tally(0.0, 0, 0), Rows(body), col, ops)
    {
      if body[i] == '\r' || body[i] == '\n' {
        SkipBreak(body, i);
        i := i + 1;
        continue;
      }
      var row, next := ReadRow(body, i);
      var v := ReadCell(row, col);
      assert ([row] + Rows(body[next..]))[1..] == Rows(body[next..]);
      t := match v
        case None => t.(skipped := t.skipped + 1)
        case Some(x) => t.(sum := ops.add(t.sum, x), count := t.count + 1);
      i := next;
    }
    assert body[i..] == "";
    EmptyRows();
  }

  /** The script's computation is the plain definition, for every input, column and arithmetic. */
  method ComputeMean(csv: Bytes, column: Bytes, ops: FloatOps) returns (r: Result<Stats, Failure>)
    ensures r == Mean(csv, column, ops)
  {
    hide Rows, Values, FoldLeft, AddRows, Split, FirstMatch, Header, Body;
    if csv == "" {
      return Err(EmptyCsv);
    }
    var header, body := SplitFirstLine(csv);
    var col := HeaderColumnIndex(header, column);
    if col.None? {
      return Err(ColumnNotInHeader(column));
    }
    var t := ScanBody(body, col.value, ops);
    TallyIsFold(Tally(0.0, 0, 0), Rows(body), col.value, ops);
    if t.count == 0 {
      return Err(NoNumericValues);
    }
    return Ok(Stats(t.count, t.skipped, ops.div(t.sum, t.count)));
  }

  // ------------------------------------------------- what the result reports

  /** The row has a cell in the column, and it reads as a number. */
  predicate HasNumber(row: string, col: nat) {
    var cells := Split(row, ',');
    col < |cells| && Parsed(Trim(cells[col])).Some?
  }

  function NumberIn(row: string, col: nat): real
    requires HasNumber(row, col)
  {
    Parsed(Trim(Split(row, ',')[col])).value
  }

  /** The rows with a number, by index. */
  function Numbered(rows: seq<string>, col: nat): set<nat> {
    set i | 0 <= i < |rows| && HasNumber(rows[i], col)
  }

  /** The rows without a number. */
  function Unnumbered(rows: seq<string>, col: nat): set<nat> {
    set i | 0 <= i < |rows| && !HasNumber(rows[i], col)
  }

  /** The numbers of the column added up in row order. */
  function Accumulated(rows: seq<string>, col: nat, add: (real, real) -> real): real {
    if rows == [] then 0.0
    else
      var acc, last := Accumulated(rows[..|rows| - 1], col, add), rows[|rows| - 1];
      if HasNumber(last, col) then add(acc, NumberIn(last, col)) else acc
  }

  /** The first header cell that is the column. */
  predicate IsColumn(header: string, column: string, k: nat) {
    var cells := Split(header, ',');
    k < |cells| && Trim(cells[k]) == column && forall j | 0 <= j < k :: Trim(cells[j]) != column
  }

  lemma {:induction false} FirstMatchIs(cells: seq<string>, column: string)
    ensures FirstMatch(cells, column) == None <==> forall j | 0 <= j < |cells| :: Trim(cells[j]) != column
    ensures FirstMatch(cells, column).Some? ==>
              var k := FirstMatch(cells, column).value;
              k < |cells| && Trim(cells[k]) == column && forall j | 0 <= j < k :: Trim(cells[j]) != column
  {
    hide Trim;
    if cells != [] && Trim(cells[0]) != column {
      FirstMatchIs(cells[1..], column);
      assert forall j | 0 < j < |cells| :: cells[j] == cells[1..][j - 1];
      assert forall j | 0 <= j < |cells| - 1 :: cells[1..][j] == cells[j + 1];
    }
  }

  lemma CellValueIs(row: string, col: nat)
    ensures CellValue(row, col) == if HasNumber(row, col) then Some(NumberIn(row, col)) else None
  {
    hide Parsed, Trim, Split;
  }

  lemma ValuesStep(rows: seq<string>, col: nat)
    requires rows != []
    ensures Values(rows, col) ==
            (if HasNumber(rows[0], col) then [NumberIn(rows[0], col)] else []) + Values(rows[1..], col)
  {
    hide HasNumber, NumberIn, CellValue;
    CellValueIs(rows[0], col);
  }

  lemma NoNumbers(col: nat)
    ensures Numbered([], col) == {} && Unnumbered([], col) == {} && Values([], col) == []
  {
  }

  lemma {:induction false} ValuesAppend(rows: seq<string>, row: string, col: nat)
    ensures Values(rows + [row], col) ==
            Values(rows, col) + if HasNumber(row, col) then [NumberIn(row, col)] else []
  {
    hide HasNumber, NumberIn, Values;
    NoNumbers(col);
    ValuesStep(rows + [row], col);
    if rows == [] {
      assert (rows + [row])[1..] == [];
    } else {
      assert (rows + [row])[1..] == rows[1..] + [row];
      ValuesStep(rows, col);
      ValuesAppend(rows[1..], row, col);
    }
  }

  lemma {:induction false} FoldAppend(add: (real, real) -> real, acc: real, values: seq<real>, v: real)
    ensures FoldLeft(add, acc, values + [v]) == add(FoldLeft(add, acc, values), v)
    decreases values
  {
    if values == [] {
      assert ([] + [v])[1..] == [];
    } else {
      assert (values + [v])[1..] == values[1..] + [v];
      FoldAppend(add, add(acc, values[0]), values[1..], v);
    }
  }

  lemma NumberedStep(rows: seq<string>, row: string, col: nat)
    ensures |Numbered(rows + [row], col)| == |Numbered(rows, col)| + if HasNumber(row, col) then 1 else 0
    ensures |Unnumbered(rows + [row], col)| == |Unnumbered(rows, col)| + if HasNumber(row, col) then 0 else 1
  {
    hide HasNumber;
    var n, all := |rows|, rows + [row];
    assert forall i | 0 <= i < n :: all[i] == rows[i];
    assert Numbered(all, col) == Numbered(rows, col) + if HasNumber(row, col) then {n} else {};
    assert Unnumbered(all, col) == Unnumbered(rows, col) + if HasNumber(row, col) then {} else {n};
  }

  lemma {:induction false} ValuesAreCounted(rows: seq<string>, col: nat)
    ensures |Values(rows, col)| == |Numbered(rows, col)| && |rows| == |Numbered(rows, col)| + |Unnumbered(rows, col)|
  {
    hide HasNumber, NumberIn, Numbered, Unnumbered, Values;
    if rows == [] {
      NoNumbers(col);
    } else {
      var front, last := rows[..|rows| - 1], rows[|rows| - 1];
      assert rows == front + [last];
      ValuesAreCounted(front, col);
      ValuesAppend(front, last, col);
      NumberedStep(front, last, col);
    }
  }

  lemma {:induction false} FoldIsAccumulated(rows: seq<string>, col: nat, add: (real, real) -> real)
    ensures FoldLeft(add, 0.0, Values(rows, col)) == Accumulated(rows, col, add)
  {
    hide HasNumber, NumberIn, Values;
    if rows == [] {
      NoNumbers(col);
    } else {
      var front, last := rows[..|rows| - 1], rows[|rows| - 1];
      assert rows == front + [last];
      FoldIsAccumulated(front, col, add);
      ValuesAppend(front, last, col);
      if HasNumber(last, col) {
        FoldAppend(add, 0.0, Values(front, col), NumberIn(last, col));
      } else {
        assert Values(front, col) + [] == Values(front, col);
      }
    }
  }

  /**
   The count is the number of rows with a number in the column, the skipped count the number of
   the others, and the mean the accumulated numbers divided by the count. Without any number, a
   column or a CSV the matching error is reported.
   */
  lemma MeanMeaning(csv: string, column: string, ops: FloatOps)
    ensures Mean(csv, column, ops) == Err(EmptyCsv) <==> csv == ""
    ensures csv != "" ==>
              (Mean(csv, column, ops) == Err(ColumnNotInHeader(column)) <==>
               forall k: nat :: !IsColumn(Header(csv), column, k))
    ensures forall col: nat | csv != "" && IsColumn(Header(csv), column, col) ::
              var rows := Rows(Body(csv));
              var count := |Numbered(rows, col)|;
              Mean(csv, column, ops) ==
              if count == 0 then Err(NoNumericValues)
              else Ok(Stats(count, |Unnumbered(rows, col)|, ops.div(Accumulated(rows, col, ops.add), count)))
  {
    hide Rows, Trim, Values, FoldLeft, Numbered, Unnumbered, Accumulated, Split;
    if csv != "" {
      var cells, rows := Split(Header(csv), ','), Rows(Body(csv));
      FirstMatchIs(cells, column);
      if FirstMatch(cells, column).Some? {
        var k := FirstMatch(cells, column).value;
        assert IsColumn(Header(csv), column, k);
        ValuesAreCounted(rows, k);
        FoldIsAccumulated(rows, k, ops.add);
        forall col: nat | IsColumn(Header(csv), column, col) ensures col == k {
          assert col < k || k < col || col == k;
        }
      }
    }
  }

  /** The sum of the column's numbers. */
  function Total(rows: seq<string>, col: nat): real {
    if rows == [] then 0.0
    else (if HasNumber(rows[0], col) then NumberIn(rows[0], col) else 0.0) + Total(rows[1..], col)
  }

  lemma {:induction false} TotalAppend(rows: seq<string>, row: string, col: nat)
    ensures Total(rows + [row], col) ==
            Total(rows, col) + if HasNumber(row, col) then NumberIn(row, col) else 0.0
  {
    hide HasNumber, NumberIn;
    if rows == [] {
      assert ([] + [row])[1..] == [];
    } else {
      assert (rows + [row])[1..] == rows[1..] + [row];
      TotalAppend(rows[1..], row, col);
    }
  }

  lemma {:induction false} AccumulatedIsTotal(rows: seq<string>, col: nat, add: (real, real) -> real)
    requires forall x, y :: add(x, y) == x + y
    ensures Accumulated(rows, col, add) == Total(rows, col)
  {
    hide HasNumber, NumberIn;
    if rows != [] {
      var front, last := rows[..|rows| - 1], rows[|rows| - 1];
      assert rows == front + [last];
      AccumulatedIsTotal(front, col, add);
      TotalAppend(front, last, col);
    }
  }

  /** With exact arithmetic the reported mean times the reported count is the sum of the column's numbers. */
  lemma ExactMean(csv: string, column: string, ops: FloatOps, col: nat)
    requires forall x, y :: ops.add(x, y) == x + y
    requires forall x, n: nat | n > 0 :: ops.div(x, n) == x / n as real
    requires csv != "" && IsColumn(Header(csv), column, col) && Mean(csv, column, ops).Ok?
    ensures
      var stats := Mean(csv, column, ops).value;
      stats.mean * stats.count as real == Total(Rows(Body(csv)), col)
  {
    hide Mean, Rows, IsColumn, Accumulated, Total, Numbered, Unnumbered;
    MeanMeaning(csv, column, ops);
    AccumulatedIsTotal(Rows(Body(csv)), col, ops.add);
  }

  /** A line ends at its newline: what the header, the body and the rows of a text are. */
  lemma LinesAreCut(line: string, rest: string)
    requires '\n' !in line
    ensures Header(line) == DropTrailingCr(line) && Body(line) == ""
    ensures Header(line + ['\n'] + rest) == DropTrailingCr(line) && Body(line + ['\n'] + rest) == rest
    ensures Rows(line) == if CleanRow(line) == "" then [] else [CleanRow(line)]
    ensures Rows(line + ['\n'] + rest) == Rows(line) + Rows(rest)
  {
    hide CleanRow;
    var all := line + ['\n'] + rest;
    assert all[|line|] == '\n' && all[..|line|] == line && line[..|line|] == line;
    IndexOfAt(all, '\n', |line|);
    IndexOfAt(line, '\n', |line|);
    SplitStep(line, '\n', rest);
    SplitPlain(line, '\n');
    assert ([line] + Split(rest, '\n'))[1..] == Split(rest, '\n') && [line][1..] == [];
    assert NonEmptyRows([]) == [];
  }

  lemma {:induction false} LeadingCrs(line: string) returns (crs: string)
    ensures line == crs + DropLeadingCrs(line) && forall i | 0 <= i < |crs| :: crs[i] == '\r'
    ensures DropLeadingCrs(line) != "" ==> DropLeadingCrs(line)[0] != '\r'
  {
    crs := "";
    if line != "" && line[0] == '\r' {
      var rest := LeadingCrs(line[1..]);
      crs := [line[0]] + rest;
    }
  }

  /** Cleaning a row removes leading carriage returns and at most one trailing one. */
  lemma CleanRowMeaning(line: string) returns (crs: string, cr: string)
    ensures line == crs + CleanRow(line) + cr
    ensures (forall i | 0 <= i < |crs| :: crs[i] == '\r') && (cr == "" || cr == "\r")
    ensures CleanRow(line) != "" ==> CleanRow(line)[0] != '\r'
    ensures CleanRow(line) != "" && cr == "" ==> CleanRow(line)[|CleanRow(line)| - 1] != '\r'
  {
    crs := LeadingCrs(line);
    var rest := DropLeadingCrs(line);
    cr := if rest != "" && rest[|rest| - 1] == '\r' then "\r" else "";
    assert rest == CleanRow(line) + cr;
  }
}

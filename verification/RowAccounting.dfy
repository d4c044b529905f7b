/** Counting the rows of stored CSV files and of their concatenation handed to the script. */
module RowAccounting {
  import opened Basics

  /** `str::lines`: newline-terminated pieces without their line ending; an unterminated last piece as it is. */
  function Lines(s: string): (ls: seq<string>)
    ensures forall l | l in ls :: '\n' !in l
    ensures ls == [] <==> s == ""
  {
    if s == "" then []
    else if '\n' !in s then [s]
    else
      var i := IndexOf(s, '\n');
      [DropTrailingCr(s[..i])] + Lines(s[i + 1..])
  }

  predicate Blank(line: string) {
    TrimWhitespace(line) == ""
  }

  function NonBlank(lines: seq<string>): nat {
    if lines == [] then 0 else (if Blank(lines[0]) then 0 else 1) + NonBlank(lines[1..])
  }

  /** `count_csv_rows`: non-blank lines, less one for the header. */
  function CountRows(text: string): nat {
    var n := NonBlank(Lines(text));
    if n > 1 then n - 1 else 0
  }

  function NonEmptyLines(lines: seq<string>): seq<string> {
    if lines == [] then [] else (if lines[0] == "" then [] else [lines[0]]) + NonEmptyLines(lines[1..])
  }

  /** The lines the concatenation writes: one header, then every non-empty line after each file's first. */
  function ConcatLines(files: seq<string>, headerEmitted: bool): seq<string> {
    if files == [] then []
    else
      var lines := Lines(files[0]);
      if lines == [] then ConcatLines(files[1..], headerEmitted)
      else (if headerEmitted then [] else [lines[0]]) + NonEmptyLines(lines[1..]) + ConcatLines(files[1..], true)
  }

  function Unlines(lines: seq<string>): string {
    if lines == [] then "" else lines[0] + "\n" + Unlines(lines[1..])
  }

  function Concat(files: seq<string>): string {
    Unlines(ConcatLines(files, false))
  }

  // ----------------------------------------------------------------- the loop

  lemma NoLinesOut()
    ensures Unlines([]) == ""
  {
  }

  lemma UnlinesStep(lines: seq<string>)
    requires lines != []
    ensures Unlines(lines) == lines[0] + "\n" + Unlines(lines[1..])
  {
  }

  lemma JoinLeft(a: string, b: string, c: string)
    ensures a + (b + c) == a + b + c
  {
  }

  lemma {:induction false} UnlinesConcat(a: seq<string>, b: seq<string>)
    ensures Unlines(a + b) == Unlines(a) + Unlines(b)
  {
    hide Unlines;
    NoLinesOut();
    if a == [] {
      assert a + b == b && "" + Unlines(b) == Unlines(b);
    } else {
      UnlinesConcat(a[1..], b);
      UnlinesStep(a);
      UnlinesStep(a + b);
      assert (a + b)[1..] == a[1..] + b;
      JoinLeft(a[0] + "\n", Unlines(a[1..]), Unlines(b));
    }
  }

  lemma BodyStep(lines: seq<string>, i: nat, out: string)
    requires i < |lines|
    ensures out + Unlines(NonEmptyLines(lines[i..])) ==
            (if lines[i] == "" then out else out + lines[i] + "\n") + Unlines(NonEmptyLines(lines[i + 1..]))
  {
    var rest := NonEmptyLines(lines[i + 1..]);
    assert lines[i..][1..] == lines[i + 1..];
    if lines[i] == "" {
      assert [] + rest == rest;
    } else {
      assert ([lines[i]] + rest)[1..] == rest;
      assert out + (lines[i] + "\n" + Unlines(rest)) == out + lines[i] + "\n" + Unlines(rest);
    }
  }

  method AppendBody(start: string, lines: seq<string>) returns (out: string)
    ensures out == start + Unlines(NonEmptyLines(lines))
  {
    out := start;
    assert lines[0..] == lines;
    for i := 0 to |lines|
      invariant out + Unlines(NonEmptyLines(lines[i..])) == start + Unlines(NonEmptyLines(lines))
    {
      BodyStep(lines, i, out);
      if lines[i] == "" {
        continue;
      }
      out := out + lines[i];
      out := out + "\n";
    }
    assert NonEmptyLines(lines[|lines|..]) == [] && out + "" == out;
  }

  /** The texts of the readable files. */
  function Readable(files: seq<Option<string>>): seq<string> {
    if files == [] then []
    else (match files[0] case None => [] case Some(t) => [t]) + Readable(files[1..])
  }

  lemma NoLines(headerEmitted: bool)
    ensures Unlines(ConcatLines([], headerEmitted)) == ""
  {
  }

  lemma ReadableStep(files: seq<Option<string>>, i: nat)
    requires i < |files| && files[i].Some?
    ensures Readable(files[i..]) == [files[i].value] + Readable(files[i + 1..])
  {
    assert files[i..][1..] == files[i + 1..];
  }

  lemma ConcatStep(text: string, rest: seq<string>, emitted: bool)
    ensures
      var lines := Lines(text);
      ConcatLines([text] + rest, emitted) ==
      if lines == [] then ConcatLines(rest, emitted)
      else (if emitted then [] else [lines[0]]) + NonEmptyLines(lines[1..]) + ConcatLines(rest, true)
  {
    hide Lines, NonEmptyLines;
    assert ([text] + rest)[1..] == rest;
  }

  lemma Reassociate(a: string, b: string, c: string, d: string)
    ensures a + (b + c + d) == a + b + c + d
  {
  }

  lemma HeadText(head: seq<string>)
    requires |head| <= 1
    ensures Unlines(head) == if head == [] then "" else head[0] + "\n"
  {
    if head != [] {
      assert head[1..] == [] && Unlines([]) == "";
      assert head[0] + "\n" + "" == head[0] + "\n";
    }
  }

  lemma JoinedText(out: string, header: string, emitted: bool, body: seq<string>, tail: seq<string>)
    ensures out + Unlines((if emitted then [] else [header]) + body + tail) ==
            (if emitted then out else out + header + "\n") + Unlines(body) + Unlines(tail)
  {
    hide Unlines;
    var head := if emitted then [] else [header];
    UnlinesConcat(head + body, tail);
    UnlinesConcat(head, body);
    HeadText(head);
    Reassociate(out, Unlines(head), Unlines(body), Unlines(tail));
    assert emitted ==> out + "" == out;
    assert !emitted ==> out + (header + "\n") == out + header + "\n";
  }

  lemma FileStep(files: seq<Option<string>>, i: nat, emitted: bool, out: string)
    requires i < |files| && files[i].Some?
    ensures
      var lines := Lines(files[i].value);
      out + Unlines(ConcatLines(Readable(files[i..]), emitted)) ==
      if lines == [] then out + Unlines(ConcatLines(Readable(files[i + 1..]), emitted))
      else (if emitted then out else out + lines[0] + "\n") + Unlines(NonEmptyLines(lines[1..]))
           + Unlines(ConcatLines(Readable(files[i + 1..]), true))
  {
    hide Lines, NonEmptyLines, Readable, ConcatLines, Unlines;
    var lines, rest := Lines(files[i].value), Readable(files[i + 1..]);
    ReadableStep(files, i);
    ConcatStep(files[i].value, rest, emitted);
    if lines != [] {
      JoinedText(out, lines[0], emitted, NonEmptyLines(lines[1..]), ConcatLines(rest, true));
    }
  }

  /** The files come in path order; one that cannot be opened or is not UTF-8 is skipped (`None`). */
  method LoadAndConcat(files: seq<Option<string>>) returns (out: string)
    ensures out == Concat(Readable(files))
  {
    hide Unlines, NonEmptyLines, Lines;
    out := "";
    var headerEmitted := false;
    assert files[0..] == files;
    for i := 0 to |files|
      invariant out + Unlines(ConcatLines(Readable(files[i..]), headerEmitted)) == Concat(Readable(files))
    {
      assert files[i..][0] == files[i] && files[i..][1..] == files[i + 1..];
      if files[i].None? {
        assert Readable(files[i..]) == Readable(files[i + 1..]);
        continue;
      }
      var lines := Lines(files[i].value);
      FileStep(files, i, headerEmitted, out);
      if lines == [] {
        continue;
      }
      if !headerEmitted {
        out := out + lines[0];
        out := out + "\n";
        headerEmitted := true;
      }
      out := AppendBody(out, lines[1..]);
    }
    NoLines(headerEmitted);
    assert Readable(files[|files|..]) == [] && out + "" == out;
  }

  // ---------------------------------------------------------------- counting

  lemma {:induction false} TrimStartBlank(s: string)
    ensures AllWhitespace(s) <==> TrimWhitespaceStart(s) == ""
    ensures TrimWhitespaceStart(s) != "" ==> !IsWhitespace(TrimWhitespaceStart(s)[0])
  {
    if s != "" && IsWhitespace(s[0]) {
      TrimStartBlank(s[1..]);
      assert AllWhitespace(s[1..]) ==> AllWhitespace(s) by {
        assert forall i | 0 < i < |s| :: s[i] == s[1..][i - 1];
      }
    }
  }

  lemma {:induction false} TrimEndKeepsFirst(s: string)
    requires s != "" && !IsWhitespace(s[0])
    ensures TrimWhitespaceEnd(s) != ""
  {
    if IsWhitespace(s[|s| - 1]) {
      TrimEndKeepsFirst(s[..|s| - 1]);
    }
  }

  lemma BlankMeaning(s: string)
    ensures Blank(s) <==> AllWhitespace(s)
  {
    TrimStartBlank(s);
    var t := TrimWhitespaceStart(s);
    if t != "" {
      TrimEndKeepsFirst(t);
    }
  }

  /** A carriage return at the end does not matter for blankness. */
  lemma DroppedCrKeepsBlank(line: string)
    ensures Blank(DropTrailingCr(line)) <==> Blank(line)
  {
    hide Blank;
    BlankMeaning(line);
    BlankMeaning(DropTrailingCr(line));
    assert DropTrailingCr(line) != line ==> line == DropTrailingCr(line) + ['\r'];
  }

  lemma {:induction false} NonBlankConcat(a: seq<string>, b: seq<string>)
    ensures NonBlank(a + b) == NonBlank(a) + NonBlank(b)
  {
    hide Blank;
    if a == [] {
      assert a + b == b;
    } else {
      NonBlankConcat(a[1..], b);
      assert (a + b)[1..] == a[1..] + b;
    }
  }

  lemma {:induction false} EmptyLinesDoNotCount(lines: seq<string>)
    ensures NonBlank(NonEmptyLines(lines)) == NonBlank(lines)
  {
    if lines != [] {
      EmptyLinesDoNotCount(lines[1..]);
      NonBlankConcat(if lines[0] == "" then [] else [lines[0]], NonEmptyLines(lines[1..]));
    }
  }

  lemma LinesStep(first: string, rest: string)
    requires '\n' !in first
    ensures Lines(first + ['\n'] + rest) == [DropTrailingCr(first)] + Lines(rest)
  {
    var s := first + ['\n'] + rest;
    assert s[|first|] == '\n';
    IndexOfAt(s, '\n', |first|);
    assert s[..|first|] == first && s[|first| + 1..] == rest;
  }

  /** Writing lines out and splitting them again keeps the number of non-blank ones. */
  lemma {:induction false} LinesOfUnlines(lines: seq<string>)
    requires forall l | l in lines :: '\n' !in l
    ensures NonBlank(Lines(Unlines(lines))) == NonBlank(lines)
  {
    hide Blank;
    if lines != [] {
      var first, rest := lines[0], Unlines(lines[1..]);
      assert first in lines;
      LinesOfUnlines(lines[1..]);
      LinesStep(first, rest);
      assert Unlines(lines) == first + ['\n'] + rest;
      DroppedCrKeepsBlank(first);
      assert ([DropTrailingCr(first)] + Lines(rest))[1..] == Lines(rest);
    }
  }

  lemma {:induction false} NonEmptyLinesPlain(lines: seq<string>)
    requires forall l | l in lines :: '\n' !in l
    ensures forall l | l in NonEmptyLines(lines) :: '\n' !in l
  {
    if lines != [] {
      NonEmptyLinesPlain(lines[1..]);
    }
  }

  lemma {:induction false} ConcatLinesPlain(files: seq<string>, emitted: bool)
    ensures forall l | l in ConcatLines(files, emitted) :: '\n' !in l
  {
    hide Lines, NonEmptyLines;
    if files != [] {
      var lines := Lines(files[0]);
      if lines == [] {
        ConcatLinesPlain(files[1..], emitted);
      } else {
        ConcatLinesPlain(files[1..], true);
        assert forall l | l in lines[1..] :: l in lines;
        NonEmptyLinesPlain(lines[1..]);
        assert lines[0] in lines;
      }
    }
  }

  // -------------------------------------------------------- exact agreement

  /** Non-blank lines after the first line of a file. */
  function BodyRows(file: string): nat {
    if file == "" then 0 else NonBlank(Lines(file)[1..])
  }

  predicate BlankHeader(file: string) {
    file != "" && Blank(Lines(file)[0])
  }

  function SumBodyRows(files: seq<string>): nat {
    if files == [] then 0 else BodyRows(files[0]) + SumBodyRows(files[1..])
  }

  function SumRows(files: seq<string>): nat {
    if files == [] then 0 else CountRows(files[0]) + SumRows(files[1..])
  }

  /** Files whose first line is blank although rows follow. */
  function MisheadedFiles(files: seq<string>): nat {
    if files == [] then 0
    else (if BlankHeader(files[0]) && BodyRows(files[0]) > 0 then 1 else 0) + MisheadedFiles(files[1..])
  }

  /** The first file that is not empty starts with a blank line. */
  predicate FirstHeaderBlank(files: seq<string>) {
    files != [] && if files[0] == "" then FirstHeaderBlank(files[1..]) else BlankHeader(files[0])
  }

  predicate AllEmpty(files: seq<string>) {
    forall i | 0 <= i < |files| :: files[i] == ""
  }

  lemma EmptyHasNoLines()
    ensures Lines("") == []
  {
  }

  lemma RowsOfFile(file: string)
    ensures CountRows(file) == BodyRows(file) - if BlankHeader(file) && BodyRows(file) > 0 then 1 else 0
  {
    hide Blank, Lines;
    if file != "" {
      var lines := Lines(file);
      assert lines != [];
    } else {
      EmptyHasNoLines();
    }
  }

  lemma {:induction false} SumOfRows(files: seq<string>)
    ensures SumRows(files) == SumBodyRows(files) - MisheadedFiles(files)
  {
    hide CountRows, BodyRows, BlankHeader;
    if files != [] {
      RowsOfFile(files[0]);
      SumOfRows(files[1..]);
    }
  }

  lemma NoNonBlank()
    ensures NonBlank([]) == 0
  {
  }

  lemma NonBlankOne(line: string)
    ensures NonBlank([line]) == if Blank(line) then 0 else 1
  {
    assert [line][1..] == [];
  }

  lemma EmptyFileFirst(files: seq<string>)
    requires files != [] && files[0] == ""
    ensures AllEmpty(files) == AllEmpty(files[1..]) && FirstHeaderBlank(files) == FirstHeaderBlank(files[1..])
    ensures BodyRows(files[0]) == 0
  {
    assert AllEmpty(files[1..]) ==> AllEmpty(files) by {
      assert forall i | 0 < i < |files| :: files[i] == files[1..][i - 1];
    }
  }

  lemma {:induction false} ConcatNonBlank(files: seq<string>, emitted: bool)
    ensures NonBlank(ConcatLines(files, emitted)) ==
            SumBodyRows(files) + if emitted || AllEmpty(files) || FirstHeaderBlank(files) then 0 else 1
  {
    hide Blank, Lines, NonEmptyLines, NonBlank;
    NoNonBlank();
    if files != [] {
      var lines, rest := Lines(files[0]), files[1..];
      if lines == [] {
        ConcatNonBlank(rest, emitted);
        EmptyFileFirst(files);
      } else {
        ConcatNonBlank(rest, true);
        var head := if emitted then [] else [lines[0]];
        EmptyLinesDoNotCount(lines[1..]);
        NonBlankConcat(head + NonEmptyLines(lines[1..]), ConcatLines(rest, true));
        NonBlankConcat(head, NonEmptyLines(lines[1..]));
        NonBlankOne(lines[0]);
        assert files[0] != "";
      }
    }
  }

  lemma {:induction false} AllEmptyHasNoRows(files: seq<string>)
    requires AllEmpty(files)
    ensures SumBodyRows(files) == 0 && MisheadedFiles(files) == 0 && !FirstHeaderBlank(files)
  {
    if files != [] {
      AllEmptyHasNoRows(files[1..]);
    }
  }

  /**
   The rows counted file by file equal the rows counted in the concatenation exactly when the
   number of files that hide rows under a blank first line is 1, if the first non-empty file
   starts with a blank line and any file has a row, and 0 otherwise.
   */
  lemma RowsAgreeExactly(files: seq<string>)
    ensures CountRows(Concat(files)) == SumRows(files) <==>
            MisheadedFiles(files) == if FirstHeaderBlank(files) && SumBodyRows(files) > 0 then 1 else 0
  {
    hide ConcatLines, Unlines, Lines, Blank, NonBlank, SumBodyRows, SumRows, MisheadedFiles, FirstHeaderBlank;
    ConcatLinesPlain(files, false);
    LinesOfUnlines(ConcatLines(files, false));
    ConcatNonBlank(files, false);
    SumOfRows(files);
    if AllEmpty(files) {
      AllEmptyHasNoRows(files);
    }
  }

  lemma {:induction false} NoneMisheaded(files: seq<string>)
    requires forall i | 0 <= i < |files| :: !BlankHeader(files[i])
    ensures MisheadedFiles(files) == 0 && !FirstHeaderBlank(files)
  {
    hide BlankHeader;
    if files != [] {
      NoneMisheaded(files[1..]);
    }
  }

  /** The rows agree when every file is empty or starts with a line that is not blank. */
  lemma RowsAgree(files: seq<string>)
    requires forall i | 0 <= i < |files| :: !BlankHeader(files[i])
    ensures CountRows(Concat(files)) == SumRows(files)
  {
    hide Concat, CountRows, BlankHeader;
    NoneMisheaded(files);
    RowsAgreeExactly(files);
  }

  lemma BlankLineFile()
    ensures BlankHeader("\n") && BodyRows("\n") == 0
  {
    hide TrimWhitespace;
    EmptyHasNoLines();
    assert "\n" == "" + ['\n'] + "";
    LinesStep("", "");
    assert Lines("\n") == [""];
    BlankMeaning("");
  }

  lemma OneFile(files: seq<string>)
    requires |files| == 1
    ensures SumBodyRows(files) == BodyRows(files[0])
    ensures MisheadedFiles(files) == if BlankHeader(files[0]) && BodyRows(files[0]) > 0 then 1 else 0
  {
    hide BodyRows, BlankHeader;
    assert files[1..] == [];
  }

  /** A file of one blank line before a file with a header and rows: the header is counted as a row. */
  lemma BlankFileFirst(file: string)
    requires !BlankHeader(file) && BodyRows(file) > 0
    ensures MisheadedFiles(["\n", file]) == 0 && CountRows(Concat(["\n", file])) != SumRows(["\n", file])
  {
    hide Concat, CountRows, BodyRows, BlankHeader;
    var files := ["\n", file];
    BlankLineFile();
    assert files[1..] == [file];
    OneFile(files[1..]);
    RowsAgreeExactly(files);
  }

  /** A file that hides a row behind a file of one blank line: the counts agree. */
  lemma HiddenRowSecond(file: string)
    requires BlankHeader(file) && BodyRows(file) > 0
    ensures MisheadedFiles(["\n", file]) == 1 && CountRows(Concat(["\n", file])) == SumRows(["\n", file])
  {
    hide Concat, CountRows, BodyRows, BlankHeader;
    var files := ["\n", file];
    BlankLineFile();
    assert files[1..] == [file];
    OneFile(files[1..]);
    RowsAgreeExactly(files);
  }

  lemma OneLine(s: string)
    requires s != "" && '\n' !in s
    ensures Lines(s) == [s]
  {
  }

  /** Both cases occur: a header with two rows, and a row under a blank line. */
  lemma BlankFileWitness()
    ensures CountRows(Concat(["\n", "h\nx\ny"])) != SumRows(["\n", "h\nx\ny"])
    ensures CountRows(Concat(["\n", "\nx"])) == SumRows(["\n", "\nx"])
  {
    hide Concat, CountRows, TrimWhitespace, Lines;
    assert "h\nx\ny" == "h" + ['\n'] + "x\ny" && "x\ny" == "x" + ['\n'] + "y" && "\nx" == "" + ['\n'] + "x";
    LinesStep("h", "x\ny");
    LinesStep("x", "y");
    LinesStep("", "x");
    OneLine("x");
    OneLine("y");
    BlankMeaning("h");
    BlankMeaning("x");
    BlankMeaning("y");
    BlankMeaning("");
    assert Lines("h\nx\ny") == ["h", "x", "y"] && ["h", "x", "y"][1..] == ["x", "y"] && ["x", "y"][1..] == ["y"];
    assert Lines("\nx") == ["", "x"] && ["", "x"][1..] == ["x"];
    assert !IsWhitespace("h"[0]) && !IsWhitespace("x"[0]) && !IsWhitespace("y"[0]);
    assert NonBlank(["x", "y"]) > 0 && NonBlank(["x"]) > 0;
    BlankFileFirst("h\nx\ny");
    HiddenRowSecond("\nx");
  }

  // ------------------------------------------------------ what is counted and written

  /** The lines with a character that is not whitespace, by index. */
  function Counted(lines: seq<string>): set<nat> {
    set i | 0 <= i < |lines| && !AllWhitespace(lines[i])
  }

  lemma CountedStep(lines: seq<string>, line: string)
    ensures |Counted(lines + [line])| == |Counted(lines)| + if AllWhitespace(line) then 0 else 1
  {
    hide AllWhitespace;
    var all := lines + [line];
    assert forall i | 0 <= i < |lines| :: all[i] == lines[i];
    assert Counted(all) == Counted(lines) + if AllWhitespace(line) then {} else {|lines|};
  }

  lemma NothingCounted()
    ensures NonBlank([]) == 0 && Counted([]) == {}
  {
  }

  lemma {:induction false} NonBlankIsCounted(lines: seq<string>)
    ensures NonBlank(lines) == |Counted(lines)|
  {
    hide AllWhitespace, NonBlank, Counted, Blank;
    if lines == [] {
      NothingCounted();
    } else {
      var front, last := lines[..|lines| - 1], lines[|lines| - 1];
      assert lines == front + [last];
      NonBlankIsCounted(front);
      NonBlankConcat(front, [last]);
      NonBlankOne(last);
      BlankMeaning(last);
      CountedStep(front, last);
    }
  }

  /** The rows of a text are its lines that are not all whitespace, less one, and none if there is at most one. */
  lemma CountRowsMeaning(text: string)
    ensures CountRows(text) == if |Counted(Lines(text))| > 1 then |Counted(Lines(text))| - 1 else 0
  {
    hide Lines, NonBlank, Counted;
    NonBlankIsCounted(Lines(text));
  }

  /** The lines of a text are what lies between its newlines, less a carriage return before each, less an empty end. */
  lemma {:induction false} LinesAreParts(s: string)
    ensures
      var parts, lines := Split(s, '\n'), Lines(s);
      var n := |parts| - 1;
      && |lines| == (if parts[n] == "" then n else n + 1)
      && forall i | 0 <= i < |lines| :: lines[i] == if i < n then DropTrailingCr(parts[i]) else parts[i]
  {
    hide Split, Lines, DropTrailingCr;
    if '\n' !in s {
      SplitPlain(s, '\n');
      if s == "" {
        EmptyHasNoLines();
      } else {
        OneLine(s);
      }
    } else {
      var i := IndexOf(s, '\n');
      var rest := s[i + 1..];
      assert s == s[..i] + ['\n'] + rest;
      SplitStep(s[..i], '\n', rest);
      LinesStep(s[..i], rest);
      LinesAreParts(rest);
    }
  }

  lemma AllEmptyStep(files: seq<string>)
    requires files != []
    ensures AllEmpty(files) <==> files[0] == "" && AllEmpty(files[1..])
  {
    assert forall i | 0 < i < |files| :: files[i] == files[1..][i - 1];
    assert forall i | 0 <= i < |files| - 1 :: files[1..][i] == files[i + 1];
  }

  lemma NothingConcatenated(emitted: bool)
    ensures ConcatLines([], emitted) == [] && AllEmpty([])
  {
  }

  /** Files are concatenated in order; only the first that is not empty contributes its first line. */
  lemma {:induction false} ConcatInOrder(a: seq<string>, b: seq<string>, emitted: bool)
    ensures ConcatLines(a + b, emitted) == ConcatLines(a, emitted) + ConcatLines(b, emitted || !AllEmpty(a))
  {
    hide Lines, NonEmptyLines, ConcatLines, AllEmpty;
    if a == [] {
      assert a + b == b;
      NothingConcatenated(emitted);
    } else {
      var rest := a[1..];
      assert a == [a[0]] + rest && a + b == [a[0]] + (rest + b);
      ConcatStep(a[0], rest, emitted);
      ConcatStep(a[0], rest + b, emitted);
      AllEmptyStep(a);
      ConcatInOrder(rest, b, emitted || a[0] != "");
    }
  }

  lemma ConcatOfOne(file: string, emitted: bool)
    ensures
      var lines := Lines(file);
      ConcatLines([file], emitted) ==
      if lines == [] then [] else (if emitted then [] else [lines[0]]) + NonEmptyLines(lines[1..])
  {
    hide Lines, NonEmptyLines;
    assert [file][1..] == [] && ConcatLines([], true) == [] && ConcatLines([], emitted) == [];
  }

  /** Dropping empty lines keeps the others in order. */
  lemma {:induction false} NonEmptyInOrder(a: seq<string>, b: seq<string>)
    ensures NonEmptyLines(a + b) == NonEmptyLines(a) + NonEmptyLines(b)
    ensures forall x :: NonEmptyLines([x]) == if x == "" then [] else [x]
  {
    forall x ensures NonEmptyLines([x]) == if x == "" then [] else [x] {
      assert [x][1..] == [] && NonEmptyLines([]) == [];
    }
    if a == [] {
      assert a + b == b;
    } else {
      assert (a + b)[1..] == a[1..] + b;
      NonEmptyInOrder(a[1..], b);
    }
  }
}

/** The hand-written JSON reader and writers of the `mean` script. */
module JsonText {
  import opened Basics
  import Decimal
  import opened Printer

  const QUOTE := '"'
  const BACKSLASH := '\\'

  // ---------------------------------------------------------------- reader

  /** The first position at which `needle` occurs. */
  function Find(s: string, needle: string): Option<nat> {
    if StartsWith(s, needle) then Some(0)
    else if s == "" then None
    else match Find(s[1..], needle)
      case None => None
      case Some(i) => Some(i + 1)
  }

  function Unescaped(c: char): Option<char> {
    match c
    case '"' => Some('"')
    case '\\' => Some('\\')
    case '/' => Some('/')
    case 'n' => Some('\n')
    case 'r' => Some('\r')
    case 't' => Some('\t')
    case _ => None
  }

  function Prepend(c: char, s: Option<string>): Option<string> {
    match s
    case None => None
    case Some(t) => Some([c] + t)
  }

  /** The contents of a JSON string whose opening quote has been consumed. */
  function Unquote(body: string): Option<string> {
    if body == "" then None
    else if body[0] == QUOTE then Some("")
    else if body[0] == BACKSLASH then
      if |body| < 2 || Unescaped(body[1]).None? then None
      else Prepend(Unescaped(body[1]).value, Unquote(body[2..]))
    else Prepend(body[0], Unquote(body[1..]))
  }

  function Needle(key: string): string {
    [QUOTE] + key + [QUOTE] + ":"
  }

  lemma {:induction false} FindInside(s: string, needle: string)
    ensures Find(s, needle).Some? ==>
              var i := Find(s, needle).value;
              i + |needle| <= |s| && s[i..i + |needle|] == needle
  {
    if !StartsWith(s, needle) && s != "" {
      FindInside(s[1..], needle);
      match Find(s[1..], needle) {
        case None =>
        case Some(i) => assert s[1..][i..i + |needle|] == s[i + 1..i + 1 + |needle|];
      }
    }
  }

  function Extract(input: string, key: string): Option<string> {
    match Find(input, Needle(key))
    case None => None
    case Some(i) =>
      FindInside(input, Needle(key));
      var rest := TrimWhitespaceStart(input[i + |Needle(key)|..]);
      if rest == "" || rest[0] != QUOTE then None else Unquote(rest[1..])
  }

  function Append(front: string, s: Option<string>): Option<string> {
    match s
    case None => None
    case Some(t) => Some(front + t)
  }

  lemma AppendNothing(s: Option<string>)
    ensures Append("", s) == s
  {
    assert s.Some? ==> "" + s.value == s.value;
  }

  lemma UnquoteStep(body: string, i: nat, out: string)
    requires i < |body| && body[i] != QUOTE
    ensures
      Append(out, Unquote(body[i..])) ==
      if body[i] != BACKSLASH then Append(out + [body[i]], Unquote(body[i + 1..]))
      else if i + 1 == |body| || Unescaped(body[i + 1]).None? then None
      else Append(out + [Unescaped(body[i + 1]).value], Unquote(body[i + 2..]))
  {
    var rest := body[i..];
    assert rest[0] == body[i] && rest[1..] == body[i + 1..];
    if i + 1 < |body| {
      assert rest[1] == body[i + 1] && rest[2..] == body[i + 2..];
    }
    assert forall c: char, t: string :: out + ([c] + t) == (out + [c]) + t;
  }

  /** The reader's loop over the characters after the opening quote. */
  method ReadQuoted(body: string) returns (r: Option<string>)
    ensures r == Unquote(body)
  {
    var out, i := "", 0;
    assert body[0..] == body;
    AppendNothing(Unquote(body));
    while i < |body|
      invariant 0 <= i <= |body|
      invariant Unquote(body) == Append(out, Unquote(body[i..]))
    {
      var c := body[i];
      if c == QUOTE {
        assert out + "" == out;
        return Some(out);
      }
      UnquoteStep(body, i, out);
      if c == BACKSLASH {
        if i + 1 == |body| {
          return None;
        }
        var u := Unescaped(body[i + 1]);
        if u.None? {
          return None;
        }
        out := out + [u.value];
        i := i + 2;
      } else {
        out := out + [c];
        i := i + 1;
      }
    }
    return None;
  }

  method ExtractStringField(input: string, key: string) returns (r: Option<string>)
    ensures r == Extract(input, key)
  {
    FindInside(input, Needle(key));
    var idx := Find(input, Needle(key));
    if idx.None? {
      return None;
    }
    var rest := TrimWhitespaceStart(input[idx.value + |Needle(key)|..]);
    if rest == "" || rest[0] != QUOTE {
      return None;
    }
    r := ReadQuoted(rest[1..]);
  }

  // --------------------------------------------------------------- writers

  function EscapedChar(c: char): string {
    if c == QUOTE then [BACKSLASH, QUOTE]
    else if c == BACKSLASH then [BACKSLASH, BACKSLASH]
    else if c == '\n' then [BACKSLASH, 'n']
    else if c as int < 0x20 then ""
    else [c]
  }

  function Escaped(msg: string): string {
    if msg == "" then "" else EscapedChar(msg[0]) + Escaped(msg[1..])
  }

  function ErrorText(msg: string): string {
    "{" + (Needle("error") + [QUOTE] + Escaped(msg) + [QUOTE] + "}")
  }

  lemma NothingEscaped()
    ensures Escaped("") == ""
  {
  }

  lemma ErrorParts(escaped: string)
    ensures "{\"error\":\"" + escaped + "\"}" == "{" + (Needle("error") + [QUOTE] + escaped + [QUOTE] + "}")
  {
    assert "{\"error\":\"" == "{" + (Needle("error") + [QUOTE]);
    assert "\"}" == [QUOTE] + "}";
  }

  lemma {:induction false} EscapedStep(msg: string, i: nat)
    requires i < |msg|
    ensures Escaped(msg[..i + 1]) == Escaped(msg[..i]) + EscapedChar(msg[i])
    decreases i
  {
    hide EscapedChar;
    assert msg[..1] == [msg[0]];
    if i > 0 {
      assert msg[..i + 1][1..] == msg[1..][..i] && msg[..i][1..] == msg[1..][..i - 1];
      EscapedStep(msg[1..], i - 1);
    }
  }

  method FormatError(msg: string) returns (s: string)
    ensures s == ErrorText(msg)
  {
    hide Escaped, EscapedChar;
    s := "{\"error\":\"";
    ghost var start := s;
    NothingEscaped();
    assert msg[..0] == "";
    for i := 0 to |msg|
      invariant s == start + Escaped(msg[..i])
    {
      EscapedStep(msg, i);
      s := s + EscapedChar(msg[i]);
    }
    assert msg[..|msg|] == msg;
    s := s + "\"}";
    ErrorParts(Escaped(msg));
  }

  datatype MeanStats = MeanStats(count: nat, skipped: nat, mean: Number)

  /** Everything after the column name in a result. */
  function ResultTail(stats: MeanStats): string {
    "\",\"count\":" + DecimalText(stats.count) + ",\"skipped\":" + DecimalText(stats.skipped)
    + ",\"mean\":" + NumberText(stats.mean) + "}"
  }

  function ResultText(column: string, stats: MeanStats): string {
    "{" + (Needle("column") + [QUOTE] + (column + ResultTail(stats)))
  }

  lemma OpeningOf(key: string, s: string)
    requires key == "column" && s == "{\"column\":\""
    ensures s == "{" + (Needle(key) + [QUOTE])
  {
  }

  method PushTail(start: string, stats: MeanStats) returns (s: string)
    requires stats.count < TWO64 && stats.skipped < TWO64
    ensures s == start + ResultTail(stats)
  {
    hide DecimalText, NumberText;
    s := start + "\",\"count\":";
    s := PushU64(s, stats.count);
    s := s + ",\"skipped\":";
    s := PushU64(s, stats.skipped);
    s := s + ",\"mean\":";
    s := PushF64(s, stats.mean);
    s := s + "}";
    assert s == start + ResultTail(stats);
  }

  method FormatResult(column: string, stats: MeanStats) returns (s: string)
    requires stats.count < TWO64 && stats.skipped < TWO64
    ensures s == ResultText(column, stats)
  {
    hide DecimalText, NumberText, ResultTail, Needle;
    s := "{\"column\":\"";
    OpeningOf("column", s);
    s := s + column;
    s := PushTail(s, stats);
    assert s == "{" + (Needle("column") + [QUOTE] + (column + ResultTail(stats)));
  }

  // ------------------------------------------------------------ round trips

  /** A message without control characters, the newline excepted. */
  function WithoutControls(msg: string): string {
    if msg == "" then ""
    else (if msg[0] as int < 0x20 && msg[0] != '\n' then "" else [msg[0]]) + WithoutControls(msg[1..])
  }

  lemma FindAtOne(c: char, needle: string, rest: string)
    requires needle != "" && c != needle[0]
    ensures Find([c] + (needle + rest), needle) == Some(1)
  {
    var inner := needle + rest;
    var input := [c] + inner;
    assert input[..|needle|][0] == c;
    assert input[1..] == inner;
    assert inner[..|needle|] == needle;
  }

  /** In `{"key":"...` the reader finds the key at position 1 and starts after the quote. */
  lemma ExtractAtStart(key: string, body: string)
    ensures Extract("{" + (Needle(key) + [QUOTE] + body), key) == Unquote(body)
  {
    hide Find, Unquote;
    var needle := Needle(key);
    var input := "{" + (needle + [QUOTE] + body);
    assert input == ['{'] + (needle + ([QUOTE] + body));
    FindAtOne('{', needle, [QUOTE] + body);
    assert input[1 + |needle|..] == [QUOTE] + body;
    assert ([QUOTE] + body)[1..] == body;
  }

  lemma UnquoteChar(all: string, c: char, rest: string)
    requires c != QUOTE && c != BACKSLASH && all == [c] + rest
    ensures Unquote(all) == Prepend(c, Unquote(rest))
  {
    assert all[1..] == rest;
  }

  lemma UnquoteEscape(all: string, e: char, rest: string)
    requires all == [BACKSLASH, e] + rest
    ensures Unquote(all) == match Unescaped(e) case None => None case Some(c) => Prepend(c, Unquote(rest))
  {
    assert all[2..] == rest;
  }

  lemma UnquoteEnd(all: string)
    requires all != "" && all[0] == QUOTE
    ensures Unquote(all) == Some("")
  {
  }

  lemma UnquoteEscapedChar(c: char, rest: string, all: string)
    requires all == EscapedChar(c) + rest
    ensures Unquote(all) == if c as int < 0x20 && c != '\n' then Unquote(rest) else Prepend(c, Unquote(rest))
  {
    hide Unquote;
    if c == QUOTE || c == BACKSLASH {
      UnquoteEscape(all, c, rest);
    } else if c == '\n' {
      UnquoteEscape(all, 'n', rest);
    } else if c as int < 0x20 {
      assert all == rest;
    } else {
      UnquoteChar(all, c, rest);
    }
  }

  lemma {:induction false} UnquoteEscaped(msg: string, tail: string)
    requires tail != "" && tail[0] == QUOTE
    ensures Unquote(Escaped(msg) + tail) == Some(WithoutControls(msg))
  {
    hide Unquote, EscapedChar;
    if msg == "" {
      assert Escaped(msg) + tail == tail;
      UnquoteEnd(tail);
    } else {
      UnquoteEscaped(msg[1..], tail);
      var rest := Escaped(msg[1..]) + tail;
      assert Escaped(msg) + tail == EscapedChar(msg[0]) + rest;
      UnquoteEscapedChar(msg[0], rest, Escaped(msg) + tail);
      assert "" + WithoutControls(msg[1..]) == WithoutControls(msg[1..]);
    }
  }

  /** Reading back an error report gives the message without its control characters. */
  lemma ErrorRoundTrip(msg: string)
    ensures Extract(ErrorText(msg), "error") == Some(WithoutControls(msg))
  {
    hide Extract, Unquote, Escaped;
    var body := Escaped(msg) + ([QUOTE] + "}");
    assert Needle("error") + [QUOTE] + Escaped(msg) + [QUOTE] + "}" == Needle("error") + [QUOTE] + body;
    ExtractAtStart("error", body);
    UnquoteEscaped(msg, [QUOTE] + "}");
  }

  predicate Plain(s: string) {
    QUOTE !in s && BACKSLASH !in s
  }

  lemma {:induction false} UnquotePlain(s: string, tail: string)
    requires Plain(s) && tail != "" && tail[0] == QUOTE
    ensures Unquote(s + tail) == Some(s)
  {
    hide Unquote;
    if s == "" {
      assert s + tail == tail;
      UnquoteEnd(tail);
    } else {
      UnquotePlain(s[1..], tail);
      UnquoteChar(s + tail, s[0], s[1..] + tail);
      assert s == [s[0]] + s[1..];
    }
  }

  predicate OnlyBackslashes(s: string) {
    forall i | 0 <= i < |s| :: s[i] == BACKSLASH
  }

  lemma PrependInjective(c: char, t: Option<string>, u: string)
    ensures Prepend(c, t) == Some([c] + u) ==> t == Some(u)
  {
    if t.Some? {
      assert ([c] + t.value)[1..] == t.value && ([c] + u)[1..] == u;
    }
  }

  /** Each pair of backslashes is read as one, so the reader can never catch up with a run of them. */
  lemma {:induction false} NeverCatchesUp(ahead: string, s: string, tail: string)
    requires ahead != "" && OnlyBackslashes(ahead)
    requires tail != "" && tail[0] == QUOTE
    ensures Unquote(s + tail) != Some(ahead + s)
    decreases |s|
  {
    hide Unquote;
    var all := s + tail;
    assert (ahead + s)[0] == BACKSLASH;
    if all[0] == QUOTE {
      UnquoteEnd(all);
    } else if s[0] == BACKSLASH {
      var e := all[1];
      UnquoteEscape(all, e, all[2..]);
      if e == BACKSLASH {
        var longer := ahead + [BACKSLASH];
        NeverCatchesUp(longer, s[2..], tail);
        assert all[2..] == s[2..] + tail;
        assert ahead + s == [BACKSLASH] + (longer + s[2..]);
        PrependInjective(BACKSLASH, Unquote(all[2..]), longer + s[2..]);
      }
    } else {
      UnquoteChar(all, s[0], s[1..] + tail);
    }
  }

  lemma {:induction false} UnquoteNotPlain(s: string, tail: string)
    requires !Plain(s) && tail != "" && tail[0] == QUOTE
    ensures Unquote(s + tail) != Some(s)
  {
    hide Unquote;
    var all := s + tail;
    if s[0] == QUOTE {
      UnquoteEnd(all);
    } else if s[0] == BACKSLASH {
      var e := all[1];
      UnquoteEscape(all, e, all[2..]);
      if e == BACKSLASH {
        NeverCatchesUp([BACKSLASH], s[2..], tail);
        assert all[2..] == s[2..] + tail;
        assert s == [BACKSLASH] + ([BACKSLASH] + s[2..]);
        PrependInjective(BACKSLASH, Unquote(all[2..]), [BACKSLASH] + s[2..]);
      }
    } else {
      UnquoteNotPlain(s[1..], tail);
      UnquoteChar(all, s[0], s[1..] + tail);
      assert s == [s[0]] + s[1..];
      PrependInjective(s[0], Unquote(s[1..] + tail), s[1..]);
    }
  }

  /** The column name of a result, which is written unescaped, reads back exactly when it is plain. */
  lemma ColumnRoundTrip(column: string, stats: MeanStats)
    ensures Extract(ResultText(column, stats), "column") == Some(column) <==> Plain(column)
  {
    hide Extract, Unquote, DecimalText, NumberText, Plain;
    var tail := ResultTail(stats);
    assert tail[0] == QUOTE;
    ExtractAtStart("column", column + tail);
    if Plain(column) {
      UnquotePlain(column, tail);
    } else {
      UnquoteNotPlain(column, tail);
    }
  }

  // ---------------------------------------------------- the numeric fields

  /** The text after the first occurrence of the key. */
  function After(input: string, key: string): Option<string> {
    match Find(input, Needle(key))
    case None => None
    case Some(i) =>
      FindInside(input, Needle(key));
      Some(input[i + |Needle(key)|..])
  }

  predicate EndsField(c: char) {
    c == ',' || c == '}'
  }

  predicate StaysInField(s: string) {
    forall i | 0 <= i < |s| :: !EndsField(s[i])
  }

  function UpToEnd(s: string): string {
    if s == "" || EndsField(s[0]) then "" else [s[0]] + UpToEnd(s[1..])
  }

  /** The text of a field that is not a string: from the colon to the next comma or brace. */
  function FieldText(input: string, key: string): Option<string> {
    match After(input, key)
    case None => None
    case Some(rest) => Some(UpToEnd(rest))
  }

  lemma AfterStep(s: string, key: string)
    requires s != "" && !StartsWith(s, Needle(key))
    ensures After(s, key) == After(s[1..], key)
  {
    hide Needle;
    FindInside(s, Needle(key));
    FindInside(s[1..], Needle(key));
    var found := Find(s[1..], Needle(key));
    if found.Some? {
      var i := found.value + |Needle(key)|;
      assert s[1..][i..] == s[i + 1..];
    }
  }

  lemma AfterHit(s: string, key: string, rest: string)
    requires s == Needle(key) + rest
    ensures After(s, key) == Some(rest)
  {
    hide Needle;
    assert StartsWith(s, Needle(key));
  }

  /** No key starts inside a stretch without quotes. */
  lemma {:induction false} AfterPlain(s: string, plain: string, rest: string, key: string)
    requires s == plain + rest && QUOTE !in plain
    ensures After(s, key) == After(rest, key)
  {
    hide After;
    if plain == "" {
      assert s == rest;
    } else {
      assert s[0] == plain[0] && Needle(key)[0] == QUOTE;
      AfterStep(s, key);
      assert s[1..] == plain[1..] + rest;
      AfterPlain(s[1..], plain[1..], rest, key);
    }
  }

  /** A key that starts at a quote is the text up to the next quote, and a colon follows. */
  lemma KeyIsQuoted(s: string, plain: string, tail: string, key: string)
    requires s == [QUOTE] + plain + [QUOTE] + tail && QUOTE !in plain && QUOTE !in key
    requires StartsWith(s, Needle(key))
    ensures plain == key && tail != "" && tail[0] == ':'
  {
    var needle, inner := Needle(key), s[1..];
    assert forall i | 0 <= i < |needle| :: s[i] == s[..|needle|][i] == needle[i];
    assert inner[..|plain|] == plain && inner[|plain|] == QUOTE;
    IndexOfAt(inner, QUOTE, |plain|);
    assert forall i | 0 <= i < |key| :: inner[i] == needle[i + 1] == key[i];
    assert inner[|key|] == needle[|key| + 1] == QUOTE;
    IndexOfAt(inner, QUOTE, |key|);
    assert inner[|key| + 1] == needle[|key| + 2] == ':';
  }

  /** A quoted stretch that is not the key, or is not followed by a colon, is passed over. */
  lemma AfterQuoted(s: string, plain: string, tail: string, key: string)
    requires s == [QUOTE] + plain + [QUOTE] + tail && QUOTE !in plain && QUOTE !in key
    requires plain != key || tail == "" || tail[0] != ':'
    ensures After(s, key) == After([QUOTE] + tail, key)
  {
    hide After;
    if StartsWith(s, Needle(key)) {
      KeyIsQuoted(s, plain, tail, key);
    }
    AfterStep(s, key);
    assert s[1..] == plain + ([QUOTE] + tail);
    AfterPlain(s[1..], plain, [QUOTE] + tail, key);
  }

  lemma {:induction false} UpToEndIs(front: string, rest: string)
    requires rest != "" && EndsField(rest[0]) && StaysInField(front)
    ensures UpToEnd(front + rest) == front
  {
    if front == "" {
      assert front + rest == rest;
    } else {
      assert (front + rest)[1..] == front[1..] + rest;
      UpToEndIs(front[1..], rest);
    }
  }

  lemma DigitsStayInField(s: string)
    requires Decimal.AllDigits(s)
    ensures StaysInField(s) && QUOTE !in s
  {
  }

  lemma NumberTextStaysInField(x: Number)
    ensures StaysInField(NumberText(x))
  {
    hide DecimalText, FractionText, Decimal.AllDigits;
    if x.Finite? {
      var m := AbsReal(x.value);
      DigitsStayInField(DecimalText(ToU64(m)));
      DigitsStayInField(FractionText(FractionOf(m), PRINTED_FRACTION));
    }
  }

  /** The key opens the text, and its field is followed by a comma or brace. */
  lemma FieldHere(key: string, value: string, rest: string)
    requires rest != "" && EndsField(rest[0]) && StaysInField(value)
    ensures FieldText(Needle(key) + (value + rest), key) == Some(value)
  {
    hide After, UpToEnd;
    AfterHit(Needle(key) + (value + rest), key, value + rest);
    UpToEndIs(value, rest);
  }

  /** One field of the result and what follows it. */
  function NumberPart(key: string, value: string, rest: string): string {
    Needle(key) + (value + rest)
  }

  /** A quote followed by text that cannot be the start of the key. */
  lemma LoneQuote(plain: string, rest: string, key: string)
    requires plain != "" && QUOTE !in plain && QUOTE !in key && (key == "" || key[0] != plain[0])
    ensures After([QUOTE] + plain + rest, key) == After(rest, key)
  {
    hide After;
    var s := [QUOTE] + plain + rest;
    assert s[1] == plain[0] && Needle(key)[1] != plain[0];
    assert |Needle(key)| <= |s| ==> s[..|Needle(key)|][1] == s[1];
    AfterStep(s, key);
    assert s[1..] == plain + rest;
    AfterPlain(s[1..], plain, rest, key);
  }

  lemma FieldLater(key: string, other: string, value: string, rest: string)
    requires QUOTE !in key && QUOTE !in other && QUOTE !in value && key != other && (key == "" || key[0] != ':')
    ensures After(NumberPart(other, value, "," + rest), key) == After(rest, key)
  {
    hide After;
    var tail := ":" + value + "," + rest;
    assert NumberPart(other, value, "," + rest) == [QUOTE] + other + [QUOTE] + tail;
    AfterQuoted(NumberPart(other, value, "," + rest), other, tail, key);
    var plain := ":" + value + ",";
    LoneQuote(plain, rest, key);
    assert [QUOTE] + tail == [QUOTE] + plain + rest;
  }

  /** A result from its first numeric field on. */
  function Numbers(stats: MeanStats): string {
    NumberPart("count", DecimalText(stats.count),
               "," + NumberPart("skipped", DecimalText(stats.skipped),
                                "," + NumberPart("mean", NumberText(stats.mean), "}")))
  }

  lemma PartText(lead: string, front: string, key: string, value: string, rest: string)
    requires lead == front + Needle(key)
    ensures lead + value + rest == front + NumberPart(key, value, rest)
  {
    hide Needle;
  }

  lemma Leads()
    ensures "\",\"count\":" == ([QUOTE] + ",") + Needle("count")
    ensures ",\"skipped\":" == "," + Needle("skipped")
    ensures ",\"mean\":" == "," + Needle("mean")
  {
  }

  lemma Regrouped(a: string, b: string, c: string, d: string, e: string, f: string, g: string)
    ensures a + b + c + d + e + f + g == a + b + (c + d + (e + f + g))
  {
  }

  lemma TailIsNumbers(stats: MeanStats)
    ensures ResultTail(stats) == [QUOTE] + "," + Numbers(stats)
  {
    hide DecimalText, NumberText, Needle, NumberPart;
    var count, skipped, mean := DecimalText(stats.count), DecimalText(stats.skipped), NumberText(stats.mean);
    var last := NumberPart("mean", mean, "}");
    var middle := NumberPart("skipped", skipped, "," + last);
    Leads();
    PartText(",\"mean\":", ",", "mean", mean, "}");
    PartText(",\"skipped\":", ",", "skipped", skipped, "," + last);
    PartText("\",\"count\":", [QUOTE] + ",", "count", count, "," + middle);
    Regrouped("\",\"count\":", count, ",\"skipped\":", skipped, ",\"mean\":", mean, "}");
  }

  /** The needle cannot reach into a quote that a comma follows. */
  lemma NeedleFits(front: string, rest: string, key: string)
    requires front != "" && rest != "" && rest[0] == ',' && QUOTE !in key
    requires StartsWith(front + ([QUOTE] + rest), Needle(key))
    ensures |Needle(key)| <= |front|
  {
    var s, needle := front + ([QUOTE] + rest), Needle(key);
    assert forall i | 0 <= i < |needle| :: s[i] == s[..|needle|][i] == needle[i];
    assert s[|front|] == QUOTE && s[|front| + 1] == ',';
    assert forall i | 0 < i < |key| + 1 :: needle[i] == key[i - 1];
    assert needle[|key| + 2] == ':';
  }

  lemma NothingAfter(key: string)
    ensures After("", key) == None
  {
  }

  /** A text, then a quote and a comma: the key is found inside the text, or after it. */
  lemma {:induction false} AfterText(front: string, rest: string, key: string)
    requires rest != "" && rest[0] == ',' && QUOTE !in key
    ensures After(front + ([QUOTE] + rest), key) ==
            match After(front, key)
            case None => After([QUOTE] + rest, key)
            case Some(a) => Some(a + ([QUOTE] + rest))
  {
    var s, needle := front + ([QUOTE] + rest), Needle(key);
    hide After, Needle;
    assert |needle| <= |front| ==> s[..|needle|] == front[..|needle|];
    if front == "" {
      assert s == [QUOTE] + rest;
      NothingAfter(key);
    } else if StartsWith(s, needle) {
      NeedleFits(front, rest, key);
      assert front[..|needle|] == s[..|needle|] == needle;
      assert front == needle + front[|needle|..];
      AfterHit(front, key, front[|needle|..]);
      assert s == needle + (front[|needle|..] + ([QUOTE] + rest));
      AfterHit(s, key, front[|needle|..] + ([QUOTE] + rest));
    } else {
      AfterStep(s, key);
      AfterStep(front, key);
      assert s[1..] == front[1..] + ([QUOTE] + rest);
      AfterText(front[1..], rest, key);
    }
  }

  /** The key, with its quotes and colon, occurs in the opening quote and the column name after it. */
  predicate Hides(column: string, key: string) {
    After([QUOTE] + column, key).Some?
  }

  predicate IsNumeric(key: string) {
    key == "count" || key == "skipped" || key == "mean"
  }

  /** Where a numeric field is looked up in a result: among the numbers, unless the column name hides it. */
  lemma AfterColumn(column: string, stats: MeanStats, key: string)
    requires IsNumeric(key)
    ensures After(ResultText(column, stats), key) ==
            match After([QUOTE] + column, key)
            case None => After(Numbers(stats), key)
            case Some(a) => Some(a + ([QUOTE] + ("," + Numbers(stats))))
  {
    hide After, Numbers, ResultTail;
    TailIsNumbers(stats);
    var rest := "," + Numbers(stats);
    var third := [QUOTE] + column + ([QUOTE] + rest);
    var second := [QUOTE] + ":" + third;
    var first := [QUOTE] + "column" + second;
    assert ResultText(column, stats) == "{" + first;
    AfterPlain(ResultText(column, stats), "{", first, key);
    assert first == [QUOTE] + "column" + [QUOTE] + (":" + third);
    AfterQuoted(first, "column", ":" + third, key);
    assert second == [QUOTE] + (":" + third) && second == [QUOTE] + ":" + [QUOTE] + (column + ([QUOTE] + rest));
    AfterQuoted(second, ":", column + ([QUOTE] + rest), key);
    assert third == [QUOTE] + (column + ([QUOTE] + rest));
    AfterText([QUOTE] + column, rest, key);
    LoneQuote(",", Numbers(stats), key);
    assert [QUOTE] + rest == [QUOTE] + "," + Numbers(stats);
  }

  function PrintedField(stats: MeanStats, key: string): string {
    if key == "count" then DecimalText(stats.count)
    else if key == "skipped" then DecimalText(stats.skipped)
    else NumberText(stats.mean)
  }

  /** Among the numbers every field is found. */
  lemma FieldOfNumbers(stats: MeanStats, key: string)
    requires IsNumeric(key)
    ensures FieldText(Numbers(stats), key) == Some(PrintedField(stats, key))
  {
    hide After, UpToEnd, DecimalText, NumberText, Needle;
    var count, skipped, mean := DecimalText(stats.count), DecimalText(stats.skipped), NumberText(stats.mean);
    var last := NumberPart("mean", mean, "}");
    var middle := NumberPart("skipped", skipped, "," + last);
    DigitsStayInField(count);
    DigitsStayInField(skipped);
    NumberTextStaysInField(stats.mean);
    FieldHere("count", count, "," + middle);
    FieldLater("skipped", "count", count, middle);
    FieldHere("skipped", skipped, "," + last);
    FieldLater("mean", "count", count, middle);
    FieldLater("mean", "skipped", skipped, last);
    FieldHere("mean", mean, "}");
  }

  /** A numeric field that the column name does not hide reads back as it was printed. */
  lemma NumbersRoundTrip(column: string, stats: MeanStats, key: string)
    requires IsNumeric(key) && !Hides(column, key)
    ensures FieldText(ResultText(column, stats), key) == Some(PrintedField(stats, key))
  {
    hide After, UpToEnd, ResultText, PrintedField;
    AfterColumn(column, stats, key);
    FieldOfNumbers(stats, key);
  }

  lemma {:induction false} UpToEndStops(front: string, x: string, y: string)
    ensures UpToEnd(front + ("," + x)) == UpToEnd(front + ("," + y))
  {
    if front == "" {
      assert front + ("," + x) == "," + x && front + ("," + y) == "," + y;
    } else {
      assert (front + ("," + x))[1..] == front[1..] + ("," + x);
      assert (front + ("," + y))[1..] == front[1..] + ("," + y);
      UpToEndStops(front[1..], x, y);
    }
  }

  /** A hidden field reads the same whatever the numbers are. */
  lemma HiddenFieldIsFixed(column: string, key: string, a: MeanStats, b: MeanStats)
    requires IsNumeric(key) && Hides(column, key)
    ensures FieldText(ResultText(column, a), key) == FieldText(ResultText(column, b), key)
  {
    hide After, UpToEnd, ResultText, Numbers;
    AfterColumn(column, a, key);
    AfterColumn(column, b, key);
    var t := After([QUOTE] + column, key).value;
    UpToEndStops(t + [QUOTE], Numbers(a), Numbers(b));
    assert forall x :: t + ([QUOTE] + ("," + x)) == t + [QUOTE] + ("," + x);
  }

  lemma PrintedDiffer(key: string)
    requires IsNumeric(key)
    ensures PrintedField(MeanStats(0, 0, Finite(0.0)), key) != PrintedField(MeanStats(1, 1, Finite(1.0)), key)
  {
    hide DecimalText;
    assert DecimalText(0) != DecimalText(1);
    assert NumberText(Finite(0.0)) == DecimalText(0) + "" && NumberText(Finite(1.0)) == DecimalText(1) + "";
    assert DecimalText(0) + "" == DecimalText(0) && DecimalText(1) + "" == DecimalText(1);
  }

  /** A numeric field reads back for all statistics exactly when the column name does not hide its key. */
  lemma NumbersReadBackExactly(column: string, key: string)
    requires IsNumeric(key)
    ensures (forall stats :: FieldText(ResultText(column, stats), key) == Some(PrintedField(stats, key)))
            <==> !Hides(column, key)
  {
    hide FieldText, ResultText, PrintedField, Hides;
    if Hides(column, key) {
      var a, b := MeanStats(0, 0, Finite(0.0)), MeanStats(1, 1, Finite(1.0));
      HiddenFieldIsFixed(column, key, a, b);
      PrintedDiffer(key);
    } else {
      forall stats ensures FieldText(ResultText(column, stats), key) == Some(PrintedField(stats, key)) {
        NumbersRoundTrip(column, stats, key);
      }
    }
  }

  /** A column name without quotes hides nothing. */
  lemma QuotelessHidesNothing(column: string, key: string)
    requires QUOTE !in column && key != ""
    ensures !Hides(column, key)
  {
    hide After;
    var s, needle := [QUOTE] + column, Needle(key);
    assert |needle| <= |s| ==> s[..|needle|][|key| + 1] == column[|key|];
    AfterStep(s, key);
    assert s[1..] == column + "";
    AfterPlain(s[1..], column, "", key);
    NothingAfter(key);
  }

  // ------------------------------------------------- what the reader accepts

  /** The key is found at its first occurrence, and not found exactly when it does not occur. */
  lemma {:induction false} FindIsFirst(s: string, needle: string)
    ensures Find(s, needle) == None <==> forall j | 0 <= j <= |s| :: !StartsWith(s[j..], needle)
    ensures forall i | Find(s, needle) == Some(i) ::
              i <= |s| && StartsWith(s[i..], needle) && forall j | 0 <= j < i :: !StartsWith(s[j..], needle)
  {
    assert s[0..] == s;
    if !StartsWith(s, needle) && s != "" {
      FindIsFirst(s[1..], needle);
      assert forall j | 0 < j <= |s| :: s[j..] == s[1..][j - 1..];
      assert forall j | 0 <= j <= |s| - 1 :: s[1..][j..] == s[j + 1..];
    }
  }

  /** A character of a JSON string as written: itself, or an escape. */
  datatype Token = Raw(c: char) | Escape(e: char)

  /** The two-character escapes of section 7 of RFC 8259 that the reader knows. */
  const ESCAPES: map<char, char> :=
    map['"' := '"', '\\' := '\\', '/' := '/', 'n' := '\n', 'r' := '\r', 't' := '\t']

  predicate GoodTokens(ts: seq<Token>) {
    forall i | 0 <= i < |ts| ::
      match ts[i]
      case Raw(c) => c != QUOTE && c != BACKSLASH
      case Escape(e) => e in ESCAPES
  }

  function Spelling(ts: seq<Token>): string {
    if ts == [] then ""
    else (match ts[0] case Raw(c) => [c] case Escape(e) => [BACKSLASH, e]) + Spelling(ts[1..])
  }

  function Meaning(ts: seq<Token>): string
    requires GoodTokens(ts)
  {
    if ts == [] then ""
    else [match ts[0] case Raw(c) => c case Escape(e) => ESCAPES[e]] + Meaning(ts[1..])
  }

  lemma EscapeTable(e: char)
    ensures Unescaped(e) == if e in ESCAPES then Some(ESCAPES[e]) else None
  {
  }

  /** Every string written with raw characters and known escapes is read as what it means. */
  lemma {:induction false} SpelledIsRead(ts: seq<Token>, tail: string)
    requires GoodTokens(ts) && tail != "" && tail[0] == QUOTE
    ensures Unquote(Spelling(ts) + tail) == Some(Meaning(ts))
  {
    hide Unquote, Unescaped;
    var all := Spelling(ts) + tail;
    if ts == [] {
      UnquoteEnd(all);
    } else {
      var rest := Spelling(ts[1..]) + tail;
      SpelledIsRead(ts[1..], tail);
      match ts[0] {
        case Raw(c) =>
          assert all == [c] + rest;
          UnquoteChar(all, c, rest);
        case Escape(e) =>
          assert all == [BACKSLASH, e] + rest;
          UnquoteEscape(all, e, rest);
          EscapeTable(e);
      }
    }
  }

  /** Whatever the reader accepts was written that way, up to a closing quote. */
  lemma {:induction false} ReadWasSpelled(body: string) returns (ts: seq<Token>, tail: string)
    requires Unquote(body).Some?
    ensures GoodTokens(ts) && body == Spelling(ts) + ([QUOTE] + tail) && Unquote(body).value == Meaning(ts)
  {
    if body[0] == QUOTE {
      ts, tail := [], body[1..];
    } else {
      var width := if body[0] == BACKSLASH then 2 else 1;
      var more, end := ReadWasSpelled(body[width..]);
      if width == 2 {
        EscapeTable(body[1]);
      }
      ts, tail := [if width == 2 then Escape(body[1]) else Raw(body[0])] + more, end;
      assert ts[1..] == more;
      assert body == body[..width] + body[width..];
    }
  }

  lemma {:induction false} TrimStartAt(s: string, j: nat)
    requires j <= |s| && AllWhitespace(s[..j]) && (j < |s| ==> !IsWhitespace(s[j]))
    ensures TrimWhitespaceStart(s) == s[j..]
  {
    if j == 0 {
      assert s[0..] == s;
    } else {
      assert s[..j][0] == s[0];
      var rest := s[1..][..j - 1];
      assert rest == s[..j][1..];
      assert forall i | 0 <= i < |rest| :: rest[i] == s[..j][i + 1];
      TrimStartAt(s[1..], j - 1);
      assert s[1..][j - 1..] == s[j..];
    }
  }

  lemma {:induction false} FoundAt(s: string, needle: string, i: nat)
    requires i <= |s| && StartsWith(s[i..], needle) && forall k | 0 <= k < i :: !StartsWith(s[k..], needle)
    ensures Find(s, needle) == Some(i)
  {
    assert s[0..] == s;
    if i > 0 {
      assert !StartsWith(s[0..], needle);
      assert s[1..][i - 1..] == s[i..];
      forall k | 0 <= k < i - 1 ensures !StartsWith(s[1..][k..], needle) {
        assert s[1..][k..] == s[k + 1..];
      }
      FoundAt(s[1..], needle, i - 1);
    }
  }

  /** The string read is the one after the first key, at i, with only whitespace before it, up to j. */
  lemma ExtractMeaning(input: string, key: string, i: nat, j: nat)
    requires i + |Needle(key)| <= j <= |input| && StartsWith(input[i..], Needle(key))
    requires forall k | 0 <= k < i :: !StartsWith(input[k..], Needle(key))
    requires AllWhitespace(input[i + |Needle(key)|..j]) && (j < |input| ==> !IsWhitespace(input[j]))
    ensures Extract(input, key) == if j < |input| && input[j] == QUOTE then Unquote(input[j + 1..]) else None
  {
    hide Find, Unquote, Needle, TrimWhitespaceStart, AllWhitespace;
    var n := |Needle(key)|;
    FoundAt(input, Needle(key), i);
    var rest := input[i + n..];
    assert rest[..j - i - n] == input[i + n..j] && rest[j - i - n..] == input[j..];
    TrimStartAt(rest, j - i - n);
    assert j < |input| ==> input[j..][0] == input[j] && input[j..][1..] == input[j + 1..];
  }

  /** Without the key nothing is found. */
  lemma MissingKey(input: string, key: string)
    requires forall k | 0 <= k <= |input| :: !StartsWith(input[k..], Needle(key))
    ensures Extract(input, key) == None
  {
    FindIsFirst(input, Needle(key));
  }
}

/** Types and sequence functions shared by every component model. */
module Basics {
  datatype Option<+T> = None | Some(value: T)

  datatype Result<+T, +E> = Ok(value: T) | Err(error: E)

  /** A byte, written as the character with the same code, so that `b','` is `','`. */
  type Byte = c: char | c as int < 256 witness 'a'
  type Bytes = seq<Byte>

  const TWO64: nat := 0x1_0000_0000_0000_0000

  function Min(a: int, b: int): int {
    if a <= b then a else b
  }

  function AbsReal(x: real): real {
    if x < 0.0 then -x else x
  }

  /** The first `n` elements, or all of them when there are fewer. */
  function Take<T>(s: seq<T>, n: nat): seq<T> {
    s[..Min(n, |s|)]
  }

  /** Skip `offset` elements, then take at most `limit`. */
  function Page<T>(s: seq<T>, offset: nat, limit: nat): seq<T> {
    s[Min(offset, |s|)..Min(offset + limit, |s|)]
  }

  lemma SliceGrows<T>(s: seq<T>, from: nat, i: nat)
    requires from <= i < |s|
    ensures s[from..i + 1] == s[from..i] + [s[i]]
  {
  }

  /** Every page of size `limit` from `offset` on, in order. */
  function AllPages<T>(s: seq<T>, offset: nat, limit: nat): seq<T>
    requires 0 < limit
    decreases |s| - offset
  {
    if |s| <= offset then [] else Page(s, offset, limit) + AllPages(s, offset + limit, limit)
  }

  /** Reading page after page visits every element once and in order. */
  lemma {:induction false} AllPagesAreWhole<T>(s: seq<T>, offset: nat, limit: nat)
    requires 0 < limit
    ensures AllPages(s, offset, limit) == s[Min(offset, |s|)..]
    decreases |s| - offset
  {
    if offset < |s| {
      AllPagesAreWhole(s, offset + limit, limit);
    }
  }

  predicate Distinct<T(==)>(s: seq<T>) {
    forall i, j | 0 <= i < j < |s| :: s[i] != s[j]
  }

  lemma {:induction false} SubsetSize<T>(a: set<T>, b: set<T>)
    requires a <= b
    ensures |a| <= |b|
  {
    if a != {} {
      var x :| x in a;
      SubsetSize(a - {x}, b - {x});
    }
  }

  predicate StartsWith(s: string, prefix: string) {
    |prefix| <= |s| && s[..|prefix|] == prefix
  }

  /** The position of the first occurrence of `c`, or the length of `s`. */
  function IndexOf(s: string, c: char): (i: nat)
    ensures i <= |s|
    ensures c !in s[..i]
    ensures i < |s| ==> s[i] == c
    ensures i == |s| <==> c !in s
  {
    if s == [] || s[0] == c then 0 else 1 + IndexOf(s[1..], c)
  }

  /** The segments of `s` between occurrences of `sep`; always at least one. */
  function Split(s: string, sep: char): (parts: seq<string>)
    ensures |parts| >= 1
    ensures forall p | p in parts :: sep !in p
  {
    if sep !in s then [s]
    else
      var i := IndexOf(s, sep);
      [s[..i]] + Split(s[i + 1..], sep)
  }

  /** `i` is the first occurrence of `c` as soon as it holds `c` and nothing before it does. */
  lemma {:induction false} IndexOfAt(s: string, c: char, i: nat)
    requires i <= |s|
    requires forall k | 0 <= k < i :: s[k] != c
    requires i < |s| ==> s[i] == c
    ensures IndexOf(s, c) == i
  {
    var j := IndexOf(s, c);
    assert forall k | 0 <= k < j :: s[k] == s[..j][k];
  }

  lemma SplitPlain(s: string, sep: char)
    requires sep !in s
    ensures Split(s, sep) == [s]
  {
  }

  /** Splitting a text whose first segment is `first`. */
  lemma SplitStep(first: string, sep: char, rest: string)
    requires sep !in first
    ensures Split(first + [sep] + rest, sep) == [first] + Split(rest, sep)
  {
    var s := first + [sep] + rest;
    IndexOfAt(s, sep, |first|);
    assert s[|first|] == sep;
    assert s[..|first|] == first && s[|first| + 1..] == rest;
  }

  /** The parts with one separator between each two. */
  function Join(parts: seq<string>, sep: char): string {
    if parts == [] then ""
    else if |parts| == 1 then parts[0]
    else parts[0] + [sep] + Join(parts[1..], sep)
  }

  /** Splitting is undone by joining; with parts that hold no separator this determines the split. */
  lemma {:induction false} JoinOfSplit(s: string, sep: char)
    ensures Join(Split(s, sep), sep) == s
  {
    hide Split;
    if sep !in s {
      SplitPlain(s, sep);
    } else {
      var i := IndexOf(s, sep);
      var rest := Split(s[i + 1..], sep);
      JoinOfSplit(s[i + 1..], sep);
      assert s == s[..i] + [sep] + s[i + 1..];
      SplitStep(s[..i], sep, s[i + 1..]);
      assert ([s[..i]] + rest)[1..] == rest;
    }
  }

  lemma {:induction false} SplitOfJoin(parts: seq<string>, sep: char)
    requires parts != [] && forall p | p in parts :: sep !in p
    ensures Split(Join(parts, sep), sep) == parts
  {
    hide Split;
    if |parts| == 1 {
      SplitPlain(parts[0], sep);
    } else {
      SplitOfJoin(parts[1..], sep);
      SplitStep(parts[0], sep, Join(parts[1..], sep));
    }
  }

  function DropTrailingCr(s: string): string {
    if s != "" && s[|s| - 1] == '\r' then s[..|s| - 1] else s
  }

  /** The Unicode White_Space property, which `str::trim` uses. */
  predicate IsWhitespace(c: char) {
    var n := c as int;
    || 0x09 <= n <= 0x0D || n == 0x20 || n == 0x85 || n == 0xA0 || n == 0x1680
    || 0x2000 <= n <= 0x200A || n == 0x2028 || n == 0x2029 || n == 0x202F || n == 0x205F || n == 0x3000
  }

  function TrimWhitespaceStart(s: string): string {
    if s != "" && IsWhitespace(s[0]) then TrimWhitespaceStart(s[1..]) else s
  }

  function TrimWhitespaceEnd(s: string): string {
    if s != "" && IsWhitespace(s[|s| - 1]) then TrimWhitespaceEnd(s[..|s| - 1]) else s
  }

  /** `str::trim` */
  function TrimWhitespace(s: string): string {
    TrimWhitespaceEnd(TrimWhitespaceStart(s))
  }

  predicate AllWhitespace(s: string) {
    forall i | 0 <= i < |s| :: IsWhitespace(s[i])
  }

  /** Whitespace before i and from j on. */
  predicate Around(s: string, i: nat, j: nat)
    requires i <= j <= |s|
  {
    AllWhitespace(s[..i]) && AllWhitespace(s[j..])
  }

  predicate NoWhitespaceAtEnds(t: string) {
    t != "" ==> !IsWhitespace(t[0]) && !IsWhitespace(t[|t| - 1])
  }

  /** `t` is `s` without its surrounding whitespace. */
  ghost predicate IsTrimmed(s: string, t: string) {
    NoWhitespaceAtEnds(t) && exists i, j | 0 <= i <= j <= |s| :: Around(s, i, j) && t == s[i..j]
  }

  lemma {:induction false} TrimStartPoint(s: string) returns (i: nat)
    ensures i <= |s| && AllWhitespace(s[..i]) && TrimWhitespaceStart(s) == s[i..]
    ensures i < |s| ==> !IsWhitespace(s[i])
  {
    i := 0;
    if s != "" && IsWhitespace(s[0]) {
      var k := TrimStartPoint(s[1..]);
      i := k + 1;
      assert s[..i] == [s[0]] + s[1..][..k] && s[1..][k..] == s[i..];
    }
  }

  lemma {:induction false} TrimEndPoint(s: string) returns (j: nat)
    ensures j <= |s| && AllWhitespace(s[j..]) && TrimWhitespaceEnd(s) == s[..j]
    ensures 0 < j ==> !IsWhitespace(s[j - 1])
  {
    j := |s|;
    if s != "" && IsWhitespace(s[|s| - 1]) {
      var front := s[..|s| - 1];
      j := TrimEndPoint(front);
      assert s[j..] == front[j..] + [s[|s| - 1]] && front[..j] == s[..j];
    }
  }

  /** Trimming removes the surrounding whitespace and nothing else. */
  lemma TrimWhitespaceMeaning(s: string)
    ensures IsTrimmed(s, TrimWhitespace(s))
  {
    var i := TrimStartPoint(s);
    var rest := s[i..];
    var k := TrimEndPoint(rest);
    var j := i + k;
    assert rest[..k] == s[i..j] && rest[k..] == s[j..];
    assert Around(s, i, j);
  }

  lemma TrimStarts(s: string, i: nat, j: nat, k: nat, l: nat)
    requires i <= j <= |s| && k <= l <= |s| && Around(s, i, j) && Around(s, k, l)
    requires NoWhitespaceAtEnds(s[i..j]) && NoWhitespaceAtEnds(s[k..l]) && i < j
    ensures k < l ==> k <= i && j <= l
    ensures k < l
  {
    assert !IsWhitespace(s[i..j][0]) && s[i..j][0] == s[i];
    assert !IsWhitespace(s[i..j][j - i - 1]) && s[i..j][j - i - 1] == s[j - 1];
    assert forall n | 0 <= n < k :: s[..k][n] == s[n];
    assert forall n | l <= n < |s| :: s[l..][n - l] == s[n];
  }

  lemma TrimIsUnique(s: string, t: string)
    requires IsTrimmed(s, t)
    ensures t == TrimWhitespace(s)
  {
    hide TrimWhitespace;
    var u := TrimWhitespace(s);
    TrimWhitespaceMeaning(s);
    var i, j :| 0 <= i <= j <= |s| && Around(s, i, j) && t == s[i..j];
    var k, l :| 0 <= k <= l <= |s| && Around(s, k, l) && u == s[k..l];
    if i < j {
      TrimStarts(s, i, j, k, l);
    }
    if k < l {
      TrimStarts(s, k, l, i, j);
    }
  }
}

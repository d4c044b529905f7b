/**
 Ordered tables with composite string keys. Keys are compared code by code, which for UTF-8
 text is the byte order the store uses.
 */
module KeyOrder {
  import opened Basics

  /** Strict lexicographic order. */
  predicate Less(a: string, b: string) {
    b != "" && (a == "" || a[0] < b[0] || (a[0] == b[0] && Less(a[1..], b[1..])))
  }

  lemma {:induction false} LessIrreflexive(a: string)
    ensures !Less(a, a)
  {
    if a != "" {
      LessIrreflexive(a[1..]);
    }
  }

  lemma {:induction false} LessTransitive(a: string, b: string, c: string)
    requires Less(a, b) && Less(b, c)
    ensures Less(a, c)
  {
    if a != "" && a[0] == b[0] == c[0] {
      LessTransitive(a[1..], b[1..], c[1..]);
    }
  }

  lemma {:induction false} LessTotal(a: string, b: string)
    ensures a == b || Less(a, b) || Less(b, a)
  {
    if a != "" && b != "" && a[0] == b[0] {
      LessTotal(a[1..], b[1..]);
      assert a == [a[0]] + a[1..] && b == [b[0]] + b[1..];
    }
  }

  /** Fields of equal width compare first, then what follows them. */
  lemma {:induction false} LessByField(a: string, b: string, x: string, y: string)
    requires |a| == |b|
    ensures Less(a + x, b + y) <==> Less(a, b) || (a == b && Less(x, y))
  {
    if a == "" {
      assert a + x == x && b + y == y;
    } else {
      LessByField(a[1..], b[1..], x, y);
      assert (a + x)[1..] == a[1..] + x && (b + y)[1..] == b[1..] + y;
      assert a == [a[0]] + a[1..] && b == [b[0]] + b[1..];
    }
  }

  lemma LessAfterPrefix(p: string, x: string, y: string)
    ensures Less(p + x, p + y) <==> Less(x, y)
  {
    LessByField(p, p, x, y);
    LessIrreflexive(p);
  }

  /** A key with the prefix is not below the prefix itself. */
  lemma {:induction false} PrefixNotAbove(k: string, p: string)
    requires StartsWith(k, p)
    ensures !Less(k, p)
  {
    if p != "" {
      assert k[..|p|][0] == p[0];
      assert k[1..][..|p| - 1] == k[..|p|][1..];
      PrefixNotAbove(k[1..], p[1..]);
    }
  }

  /** The keys with a common prefix form one block, which starts at the prefix. */
  lemma {:induction false} PrefixBlock(p: string, k: string, later: string)
    requires !Less(k, p) && Less(k, later) && StartsWith(later, p)
    ensures StartsWith(k, p)
  {
    if p != "" {
      assert later[..|p|][0] == p[0];
      assert later[1..][..|p| - 1] == later[..|p|][1..];
      assert k != "" && k[0] == p[0];
      PrefixBlock(p[1..], k[1..], later[1..]);
      assert k[..|p|] == [k[0]] + k[1..][..|p| - 1];
      assert p == [p[0]] + p[1..];
    }
  }

  // --------------------------------------------------------- sorted listings

  predicate Sorted(ks: seq<string>) {
    forall i, j | 0 <= i < j < |ks| :: Less(ks[i], ks[j])
  }

  predicate IsLeast(k: string, s: set<string>) {
    k in s && forall j | j in s :: j == k || Less(k, j)
  }

  lemma {:induction false} LeastExists(s: set<string>)
    requires s != {}
    ensures exists k :: IsLeast(k, s)
    decreases |s|
  {
    var x :| x in s;
    var rest := s - {x};
    if rest == {} {
      assert s == {x};
      assert IsLeast(x, s);
    } else {
      LeastExists(rest);
      var k :| IsLeast(k, rest);
      LessTotal(x, k);
      if Less(x, k) {
        forall j | j in s ensures j == x || Less(x, j) {
          if j in rest && j != k {
            LessTransitive(x, k, j);
          }
        }
        assert IsLeast(x, s);
      } else {
        assert IsLeast(k, s);
      }
    }
  }

  lemma LeastIsUnique(s: set<string>, a: string, b: string)
    requires IsLeast(a, s) && IsLeast(b, s)
    ensures a == b
  {
    if a != b {
      LessTransitive(a, b, a);
      LessIrreflexive(a);
    }
  }

  function Least(s: set<string>): (k: string)
    requires s != {}
    ensures IsLeast(k, s)
  {
    LeastExists(s);
    assert forall a, b | IsLeast(a, s) && IsLeast(b, s) :: a == b by {
      forall a, b | IsLeast(a, s) && IsLeast(b, s) ensures a == b { LeastIsUnique(s, a, b); }
    }
    var k :| k in s && IsLeast(k, s);
    k
  }

  /** The keys of a table in the order a scan visits them. */
  function SortedKeys(s: set<string>): (ks: seq<string>)
    ensures Sorted(ks)
    ensures forall k :: k in ks <==> k in s
    decreases |s|
  {
    if s == {} then []
    else
      var k := Least(s);
      var rest := SortedKeys(s - {k});
      assert forall i | 0 <= i < |rest| :: rest[i] in s - {k};
      [k] + rest
  }

  lemma HeadsAgree(a: seq<string>, b: seq<string>)
    requires Sorted(a) && Sorted(b) && a != [] && b != [] && a[0] in b && b[0] in a
    ensures a[0] == b[0]
  {
    if a[0] != b[0] {
      LessTransitive(a[0], b[0], a[0]);
      LessIrreflexive(a[0]);
    }
  }

  lemma TailElements(a: seq<string>, k: string)
    requires Sorted(a) && a != []
    ensures k in a[1..] <==> k in a && k != a[0]
  {
    LessIrreflexive(a[0]);
    assert k in a ==> k == a[0] || k in a[1..];
  }

  /** A sorted listing is determined by its elements. */
  lemma {:induction false} SortedIsUnique(a: seq<string>, b: seq<string>)
    requires Sorted(a) && Sorted(b) && forall k :: k in a <==> k in b
    ensures a == b
  {
    assert a != [] ==> a[0] in a;
    assert b != [] ==> b[0] in b;
    if a != [] && b != [] {
      HeadsAgree(a, b);
      forall k ensures k in a[1..] <==> k in b[1..] {
        TailElements(a, k);
        TailElements(b, k);
      }
      SortedIsUnique(a[1..], b[1..]);
      assert a == [a[0]] + a[1..] && b == [b[0]] + b[1..];
    }
  }

  // ------------------------------------------------------------ prefix scans

  function KeysFrom(s: set<string>, start: string): seq<string> {
    SortedKeys(set k | k in s && !Less(k, start))
  }

  function PrefixKeys(s: set<string>, prefix: string): seq<string> {
    SortedKeys(set k | k in s && StartsWith(k, prefix))
  }

  lemma PrefixKeysElements(s: set<string>, prefix: string)
    ensures forall k :: k in PrefixKeys(s, prefix) <==> k in s && StartsWith(k, prefix)
  {
  }

  lemma PrefixKeysSorted(s: set<string>, prefix: string, i: nat, j: nat)
    requires i < j < |PrefixKeys(s, prefix)|
    ensures Less(PrefixKeys(s, prefix)[i], PrefixKeys(s, prefix)[j])
  {
    hide Less;
  }

  function BlockLength(scan: seq<string>, prefix: string): (n: nat)
    ensures n <= |scan| && forall i | 0 <= i < n :: StartsWith(scan[i], prefix)
    ensures n < |scan| ==> !StartsWith(scan[n], prefix)
  {
    if scan == [] || !StartsWith(scan[0], prefix) then 0 else 1 + BlockLength(scan[1..], prefix)
  }

  /** A range scan from a prefix sees exactly the keys with the prefix, then only others. */
  lemma PrefixScan(s: set<string>, prefix: string)
    ensures
      var scan, block := KeysFrom(s, prefix), PrefixKeys(s, prefix);
      && |block| <= |scan| && scan[..|block|] == block
      && forall i | 0 <= i < |scan| :: StartsWith(scan[i], prefix) <==> i < |block|
  {
    hide SortedKeys;
    var scan, block := KeysFrom(s, prefix), PrefixKeys(s, prefix);
    var n := BlockLength(scan, prefix);
    assert forall i | 0 <= i < n :: scan[..n][i] == scan[i] && scan[i] in scan;
    forall i | n <= i < |scan| ensures !StartsWith(scan[i], prefix) {
      if n < i && StartsWith(scan[i], prefix) {
        assert scan[n] in scan;
        PrefixBlock(prefix, scan[n], scan[i]);
      }
    }
    forall k ensures k in scan[..n] <==> k in block {
      if k in block {
        PrefixNotAbove(k, prefix);
        assert k in scan;
      }
    }
    SortedIsUnique(scan[..n], block);
  }

  // ------------------------------------------------------ reverse-time keys

  const SEPARATOR := '|'

  function HexDigit(d: nat): char
    requires d < 16
  {
    if d < 10 then ('0' as int + d) as char else ('a' as int + d - 10) as char
  }

  /** The last `width` hexadecimal digits of n. */
  function Hex(n: nat, width: nat): (s: string)
    ensures |s| == width
  {
    if width == 0 then "" else Hex(n / 16, width - 1) + [HexDigit(n % 16)]
  }

  function SixteenToThe(n: nat): nat {
    if n == 0 then 1 else 16 * SixteenToThe(n - 1)
  }

  /** Fixed-width hexadecimal preserves order. */
  lemma {:induction false} HexPreservesOrder(m: nat, n: nat, width: nat)
    requires m < n < SixteenToThe(width)
    ensures Less(Hex(m, width), Hex(n, width))
  {
    var a, b := Hex(m / 16, width - 1), Hex(n / 16, width - 1);
    LessByField(a, b, [HexDigit(m % 16)], [HexDigit(n % 16)]);
    if m / 16 < n / 16 {
      HexPreservesOrder(m / 16, n / 16, width - 1);
    }
  }

  const TWO63: int := 0x8000_0000_0000_0000

  predicate IsTimestamp(t: int) {
    -TWO63 <= t < TWO63
  }

  /** `!t as u64` for a 64-bit signed t. */
  function Inverted(t: int): (n: nat)
    requires IsTimestamp(t)
    ensures n < TWO64
  {
    if t >= 0 then TWO64 - 1 - t else -t - 1
  }

  /** Later times get smaller keys exactly among times of one sign: times before 1970 come first. */
  lemma InversionReverses(s: int, t: int)
    requires IsTimestamp(s) && IsTimestamp(t)
    ensures Inverted(s) < Inverted(t) <==> (if s >= 0 <==> t >= 0 then s > t else s < 0)
  {
  }

  function TimeField(t: int): (s: string)
    requires IsTimestamp(t)
    ensures |s| == 16
  {
    Hex(Inverted(t), 16)
  }

  lemma SixteenPower()
    ensures SixteenToThe(16) == TWO64
  {
    assert SixteenToThe(6) == 0x100_0000;
    assert SixteenToThe(12) == 0x1_0000_0000_0000;
  }

  lemma NotBoth(a: string, b: string)
    requires Less(a, b)
    ensures !Less(b, a) && a != b
  {
    LessIrreflexive(a);
    if Less(b, a) {
      LessTransitive(a, b, a);
    }
  }

  lemma TimeFieldOrder(s: int, t: int)
    requires IsTimestamp(s) && IsTimestamp(t)
    ensures Less(TimeField(s), TimeField(t)) <==> Inverted(s) < Inverted(t)
    ensures TimeField(s) == TimeField(t) <==> s == t
  {
    var m, n := Inverted(s), Inverted(t);
    SixteenPower();
    LessIrreflexive(TimeField(s));
    if m < n {
      HexPreservesOrder(m, n, 16);
      NotBoth(TimeField(s), TimeField(t));
    } else if n < m {
      HexPreservesOrder(n, m, 16);
      NotBoth(TimeField(t), TimeField(s));
    }
  }

  /** `{prefix}|{!timestamp:016x}|{suffix}` */
  function TimeKey(prefix: string, t: int, suffix: string): string
    requires IsTimestamp(t)
  {
    prefix + [SEPARATOR] + (TimeField(t) + ([SEPARATOR] + suffix))
  }

  /** Keys with one prefix are ordered by inverted time, then by suffix. */
  lemma TimeKeyOrder(prefix: string, s: int, x: string, t: int, y: string)
    requires IsTimestamp(s) && IsTimestamp(t)
    ensures Less(TimeKey(prefix, s, x), TimeKey(prefix, t, y)) <==>
            Inverted(s) < Inverted(t) || (s == t && Less(x, y))
  {
    hide Less, TimeField;
    LessAfterPrefix(prefix + [SEPARATOR], TimeField(s) + ([SEPARATOR] + x), TimeField(t) + ([SEPARATOR] + y));
    LessByField(TimeField(s), TimeField(t), [SEPARATOR] + x, [SEPARATOR] + y);
    LessAfterPrefix([SEPARATOR], x, y);
    TimeFieldOrder(s, t);
  }

  // -------------------------------------------------------- splitting keys

  /** What follows the last separator; the whole key when there is none. */
  function LastSegment(key: string): string {
    if SEPARATOR !in key then key else LastSegment(key[IndexOf(key, SEPARATOR) + 1..])
  }

  lemma LastSegmentPlain(s: string)
    requires SEPARATOR !in s
    ensures LastSegment(s) == s
  {
  }

  lemma LastSegmentStep(first: string, rest: string)
    requires SEPARATOR !in first
    ensures LastSegment(first + [SEPARATOR] + rest) == LastSegment(rest)
  {
    var key := first + [SEPARATOR] + rest;
    assert key[|first|] == SEPARATOR;
    IndexOfAt(key, SEPARATOR, |first|);
    assert key[|first| + 1..] == rest;
  }

  lemma {:induction false} LastSegmentIs(front: string, last: string)
    requires SEPARATOR !in last
    ensures LastSegment(front + [SEPARATOR] + last) == last
    decreases |front|
  {
    hide LastSegment;
    if SEPARATOR in front {
      var j := IndexOf(front, SEPARATOR);
      LastSegmentIs(front[j + 1..], last);
      LastSegmentStep(front[..j], front[j + 1..] + [SEPARATOR] + last);
      assert front == front[..j] + [SEPARATOR] + front[j + 1..];
      assert front + [SEPARATOR] + last == front[..j] + [SEPARATOR] + (front[j + 1..] + [SEPARATOR] + last);
    } else {
      LastSegmentStep(front, last);
      LastSegmentPlain(last);
    }
  }
}

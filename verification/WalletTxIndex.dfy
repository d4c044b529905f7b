/**
 The byte-keyed wallet transaction index and its cursor paging. A key holds the inverted
 timestamp as eight raw bytes, and the listing decodes each key as UTF-8 (RFC 3629) before
 looking at it.
 */
module WalletTxIndex {
  import opened Basics
  import opened KeyOrder

  // ------------------------------------------------------------------ keys

  /** The last `width` bytes of n, most significant first. */
  function BigEndian(n: nat, width: nat): (s: Bytes)
    ensures |s| == width
  {
    if width == 0 then "" else BigEndian(n / 256, width - 1) + [(n % 256) as char]
  }

  /** `{address}|{!timestamp as 8 bytes}|{signature}` */
  function IndexKey(address: Bytes, t: int, signature: Bytes): Bytes
    requires IsTimestamp(t)
  {
    address + [SEPARATOR] + (BigEndian(Inverted(t), 8) + ([SEPARATOR] + signature))
  }

  function Pow256(n: nat): nat {
    if n == 0 then 1 else 256 * Pow256(n - 1)
  }

  lemma {:induction false} BigEndianPreservesOrder(m: nat, n: nat, width: nat)
    requires m < n < Pow256(width)
    ensures Less(BigEndian(m, width), BigEndian(n, width))
  {
    var a, b := BigEndian(m / 256, width - 1), BigEndian(n / 256, width - 1);
    LessByField(a, b, [(m % 256) as char], [(n % 256) as char]);
    if m / 256 < n / 256 {
      BigEndianPreservesOrder(m / 256, n / 256, width - 1);
    }
  }

  lemma ByteFieldOrder(s: int, t: int)
    requires IsTimestamp(s) && IsTimestamp(t)
    ensures Less(BigEndian(Inverted(s), 8), BigEndian(Inverted(t), 8)) <==> Inverted(s) < Inverted(t)
    ensures BigEndian(Inverted(s), 8) == BigEndian(Inverted(t), 8) <==> s == t
  {
    hide BigEndian;
    var m, n := Inverted(s), Inverted(t);
    assert Pow256(8) == TWO64;
    LessIrreflexive(BigEndian(m, 8));
    if m < n {
      BigEndianPreservesOrder(m, n, 8);
      NotBoth(BigEndian(m, 8), BigEndian(n, 8));
    } else if n < m {
      BigEndianPreservesOrder(n, m, 8);
      NotBoth(BigEndian(n, 8), BigEndian(m, 8));
    }
  }

  /** Keys of one address are ordered by inverted time, then by signature. */
  lemma IndexKeyOrder(address: Bytes, s: int, x: Bytes, t: int, y: Bytes)
    requires IsTimestamp(s) && IsTimestamp(t)
    ensures Less(IndexKey(address, s, x), IndexKey(address, t, y)) <==>
            Inverted(s) < Inverted(t) || (s == t && Less(x, y))
  {
    hide Less, BigEndian;
    var a, b := BigEndian(Inverted(s), 8), BigEndian(Inverted(t), 8);
    LessAfterPrefix(address + [SEPARATOR], a + ([SEPARATOR] + x), b + ([SEPARATOR] + y));
    LessByField(a, b, [SEPARATOR] + x, [SEPARATOR] + y);
    LessAfterPrefix([SEPARATOR], x, y);
    ByteFieldOrder(s, t);
  }

  // ----------------------------------------------------------------- UTF-8

  predicate IsTail(s: string, i: nat) {
    i < |s| && 0x80 <= s[i] as int <= 0xBF
  }

  /** The length of the well-formed UTF-8 sequence at the start, 0 when there is none (RFC 3629, section 4). */
  function FirstCharLength(s: string): (n: nat)
    ensures n <= |s|
  {
    if s == "" then 0 else
    var b := s[0] as int;
    if b <= 0x7F then 1
    else if 0xC2 <= b <= 0xDF && IsTail(s, 1) then 2
    else if 0xE0 <= b <= 0xEF && IsTail(s, 1) && IsTail(s, 2)
            && (b == 0xE0 ==> s[1] as int >= 0xA0) && (b == 0xED ==> s[1] as int <= 0x9F) then 3
    else if 0xF0 <= b <= 0xF4 && IsTail(s, 1) && IsTail(s, 2) && IsTail(s, 3)
            && (b == 0xF0 ==> s[1] as int >= 0x90) && (b == 0xF4 ==> s[1] as int <= 0x8F) then 4
    else 0
  }

  predicate ValidUtf8(s: string) {
    s == "" || (FirstCharLength(s) > 0 && ValidUtf8(s[FirstCharLength(s)..]))
  }

  /** The byte FF occurs in no UTF-8 text. */
  lemma {:induction false} NoFF(s: string, i: nat)
    requires ValidUtf8(s) && i < |s|
    ensures s[i] as int != 0xFF
  {
    var n := FirstCharLength(s);
    if i >= n {
      NoFF(s[n..], i - n);
    }
  }

  lemma FirstCharStays(s: string, c: char, t: string)
    requires s != "" && c as int <= 0x7F
    ensures FirstCharLength(s + [c] + t) == FirstCharLength(s)
  {
    var all := s + [c] + t;
    assert forall i | 0 <= i < |s| :: all[i] == s[i];
    assert all[|s|] == c;
  }

  /** Texts around an ASCII character decode independently. */
  lemma {:induction false} SplitAtAscii(s: string, c: char, t: string)
    requires c as int <= 0x7F
    ensures ValidUtf8(s + [c] + t) <==> ValidUtf8(s) && ValidUtf8(t)
    decreases |s|
  {
    var all := s + [c] + t;
    if s == "" {
      assert all[0] == c && all[1..] == t;
    } else {
      FirstCharStays(s, c, t);
      var n := FirstCharLength(s);
      if n > 0 {
        SplitAtAscii(s[n..], c, t);
        assert all[n..] == s[n..] + [c] + t;
      }
    }
  }

  /** A key decodes exactly when its three fields do. */
  lemma KeyDecodes(address: Bytes, t: int, signature: Bytes)
    requires IsTimestamp(t)
    ensures ValidUtf8(IndexKey(address, t, signature)) <==>
            ValidUtf8(address) && ValidUtf8(BigEndian(Inverted(t), 8)) && ValidUtf8(signature)
  {
    hide ValidUtf8, BigEndian;
    var field := BigEndian(Inverted(t), 8);
    SplitAtAscii(address, SEPARATOR, field + ([SEPARATOR] + signature));
    assert field + ([SEPARATOR] + signature) == field + [SEPARATOR] + signature;
    SplitAtAscii(field, SEPARATOR, signature);
  }

  const TWO56: int := 0x100_0000_0000_0000

  lemma {:induction false} TopByte(n: nat, width: nat)
    requires 0 < width && Pow256(width) - Pow256(width - 1) <= n < Pow256(width)
    ensures BigEndian(n, width)[0] as int == 0xFF
  {
    if width > 1 {
      TopByte(n / 256, width - 1);
    }
  }

  /** From 1970 until the year two billion no key decodes: its first time byte is FF. */
  lemma PresentKeysDoNotDecode(address: Bytes, t: int, signature: Bytes)
    requires 0 <= t < TWO56
    ensures !ValidUtf8(IndexKey(address, t, signature))
  {
    var field := BigEndian(Inverted(t), 8);
    assert Pow256(8) == TWO64 && Pow256(7) == TWO56;
    TopByte(Inverted(t), 8);
    KeyDecodes(address, t, signature);
    if ValidUtf8(field) {
      NoFF(field, 0);
    }
  }

  // ---------------------------------------------------------------- paging

  datatype KeyPage = KeyPage(keys: seq<string>, next: Option<string>)

  /** Walk over scanned keys until one fails to decode or lacks the prefix, or the page is full. */
  function Walk(scan: seq<string>, prefix: string, limit: nat, decodes: string -> bool): KeyPage {
    if scan == [] || !decodes(scan[0]) || !StartsWith(scan[0], prefix) then KeyPage([], None)
    else if limit == 0 then KeyPage([], Some(scan[0]))
    else
      var rest := Walk(scan[1..], prefix, limit - 1, decodes);
      KeyPage([scan[0]] + rest.keys, rest.next)
  }

  function AnyKey(): string -> bool {
    _ => true
  }

  /** One page of a reader that stops at keys it cannot decode. */
  function PageOf(index: set<string>, address: string, start: string, limit: nat, decodes: string -> bool): KeyPage {
    Walk(KeysFrom(index, start), address + [SEPARATOR], limit, decodes)
  }

  /** One page as the code computes it. */
  function PageAsWritten(index: set<string>, address: string, start: string, limit: nat): KeyPage {
    PageOf(index, address, start, limit, ValidUtf8)
  }

  /** How many keys of the block come before the first one that does not decode. */
  function DecodedLength(scan: seq<string>, prefix: string, decodes: string -> bool): (n: nat)
    ensures n <= |scan|
  {
    if scan == [] || !decodes(scan[0]) || !StartsWith(scan[0], prefix) then 0
    else 1 + DecodedLength(scan[1..], prefix, decodes)
  }

  /** A page is the next `limit` decodable keys of the block, and the cursor is the key after them. */
  lemma {:induction false} WalkTakesBlock(scan: seq<string>, prefix: string, limit: nat, decodes: string -> bool)
    ensures
      var n := DecodedLength(scan, prefix, decodes);
      Walk(scan, prefix, limit, decodes) ==
      KeyPage(scan[..Min(limit, n)], if limit < n then Some(scan[limit]) else None)
  {
    if scan != [] && decodes(scan[0]) && StartsWith(scan[0], prefix) && limit > 0 {
      WalkTakesBlock(scan[1..], prefix, limit - 1, decodes);
      var k := Min(limit, DecodedLength(scan, prefix, decodes));
      assert scan[..k] == [scan[0]] + scan[1..][..k - 1];
    }
  }

  lemma NotBelow(scan: seq<string>, j: nat, i: nat)
    requires Sorted(scan) && j <= i < |scan|
    ensures !Less(scan[i], scan[j])
  {
    if j < i {
      NotBoth(scan[j], scan[i]);
    } else {
      LessIrreflexive(scan[j]);
    }
  }

  lemma NotLessTransitive(a: string, b: string, c: string)
    requires !Less(a, b) && !Less(b, c)
    ensures !Less(a, c)
  {
    if Less(a, c) {
      LessTotal(a, b);
      if a != b {
        LessTransitive(b, a, c);
      }
    }
  }

  /** A scan from a scanned key continues the first scan at that key. */
  lemma ScanContinues(s: set<string>, start: string, j: nat)
    requires j < |KeysFrom(s, start)|
    ensures KeysFrom(s, KeysFrom(s, start)[j]) == KeysFrom(s, start)[j..]
  {
    hide SortedKeys;
    var scan := KeysFrom(s, start);
    var rest, again := scan[j..], KeysFrom(s, scan[j]);
    assert scan[j] in scan;
    forall k ensures k in rest <==> k in again {
      if k in rest {
        var i :| 0 <= i < |rest| && rest[i] == k;
        assert scan[i + j] == k && k in scan;
        NotBelow(scan, j, i + j);
      }
      if k in again {
        NotLessTransitive(k, scan[j], start);
        assert k in scan;
        var i :| 0 <= i < |scan| && scan[i] == k;
        assert j <= i;
        assert rest[i - j] == k;
      }
    }
    SortedIsUnique(rest, again);
  }

  lemma CursorAdvances(index: set<string>, address: string, start: string, limit: nat, decodes: string -> bool)
    requires 0 < limit
    ensures
      var next := PageOf(index, address, start, limit, decodes).next;
      next.Some? ==> limit < |KeysFrom(index, start)|
                     && KeysFrom(index, next.value) == KeysFrom(index, start)[limit..]
  {
    hide KeysFrom;
    WalkTakesBlock(KeysFrom(index, start), address + [SEPARATOR], limit, decodes);
    if PageOf(index, address, start, limit, decodes).next.Some? {
      ScanContinues(index, start, limit);
    }
  }

  /** Follow the cursors from `start` until there is none. */
  function ReadAll(index: set<string>, address: string, start: string, limit: nat, decodes: string -> bool): seq<string>
    requires 0 < limit
    decreases |KeysFrom(index, start)|
  {
    var page := PageOf(index, address, start, limit, decodes);
    CursorAdvances(index, address, start, limit, decodes);
    page.keys + if page.next.Some? then ReadAll(index, address, page.next.value, limit, decodes) else []
  }

  lemma {:induction false} DecodedTail(scan: seq<string>, prefix: string, k: nat, decodes: string -> bool)
    requires k <= DecodedLength(scan, prefix, decodes)
    ensures DecodedLength(scan[k..], prefix, decodes) == DecodedLength(scan, prefix, decodes) - k
  {
    if k > 0 {
      DecodedTail(scan[1..], prefix, k - 1, decodes);
      assert scan[1..][k - 1..] == scan[k..];
    } else {
      assert scan[0..] == scan;
    }
  }

  lemma {:induction false} ReadAllFrom(
      index: set<string>, address: string, start: string, limit: nat, decodes: string -> bool)
    requires 0 < limit
    ensures
      var scan := KeysFrom(index, start);
      ReadAll(index, address, start, limit, decodes) == scan[..DecodedLength(scan, address + [SEPARATOR], decodes)]
    decreases |KeysFrom(index, start)|
  {
    hide KeysFrom, Walk, DecodedLength;
    var scan, prefix := KeysFrom(index, start), address + [SEPARATOR];
    var page, n := PageOf(index, address, start, limit, decodes), DecodedLength(scan, prefix, decodes);
    WalkTakesBlock(scan, prefix, limit, decodes);
    CursorAdvances(index, address, start, limit, decodes);
    if page.next.Some? {
      ReadAllFrom(index, address, page.next.value, limit, decodes);
      DecodedTail(scan, prefix, limit, decodes);
      assert scan[..n] == scan[..limit] + scan[limit..][..n - limit];
    }
  }

  lemma {:induction false} DecodedBlock(scan: seq<string>, prefix: string, decodes: string -> bool)
    ensures
      var n, m := DecodedLength(scan, prefix, decodes), BlockLength(scan, prefix);
      n <= m && (n == m <==> forall i | 0 <= i < m :: decodes(scan[i]))
  {
    if scan != [] && StartsWith(scan[0], prefix) {
      DecodedBlock(scan[1..], prefix, decodes);
      assert forall i | 0 <= i < |scan| - 1 :: scan[1..][i] == scan[i + 1];
      assert forall i | 0 < i < |scan| :: scan[i] == scan[1..][i - 1];
    }
  }

  /** The block of an address is the beginning of the scan for it. */
  lemma BlockOfScan(index: set<string>, prefix: string)
    ensures
      var scan := KeysFrom(index, prefix);
      PrefixKeys(index, prefix) == scan[..BlockLength(scan, prefix)]
  {
    hide KeysFrom, PrefixKeys;
    PrefixScan(index, prefix);
    var scan, block := KeysFrom(index, prefix), PrefixKeys(index, prefix);
    var n := BlockLength(scan, prefix);
    assert n < |scan| ==> !StartsWith(scan[n], prefix);
    assert |block| < |scan| ==> !StartsWith(scan[|block|], prefix);
  }

  /**
   Following the cursors visits every entry of an address exactly once and in key order, whatever
   the page size, exactly when every key of the address decodes.
   */
  lemma PagingIsCompleteExactly(index: set<string>, address: string, limit: nat, decodes: string -> bool)
    requires 0 < limit
    ensures
      var block := PrefixKeys(index, address + [SEPARATOR]);
      ReadAll(index, address, address + [SEPARATOR], limit, decodes) == block
      <==> forall i | 0 <= i < |block| :: decodes(block[i])
  {
    hide KeysFrom, PrefixKeys, ReadAll, DecodedLength, BlockLength;
    var prefix := address + [SEPARATOR];
    var scan, block := KeysFrom(index, prefix), PrefixKeys(index, prefix);
    ReadAllFrom(index, address, prefix, limit, decodes);
    BlockOfScan(index, prefix);
    DecodedBlock(scan, prefix, decodes);
    assert forall i | 0 <= i < |block| :: block[i] == scan[i];
  }

  /** Without the decode, paging is complete. */
  lemma IntendedPagingIsComplete(index: set<string>, address: string, limit: nat)
    requires 0 < limit
    ensures ReadAll(index, address, address + [SEPARATOR], limit, AnyKey()) == PrefixKeys(index, address + [SEPARATOR])
  {
    hide PrefixKeys, ReadAll;
    PagingIsCompleteExactly(index, address, limit, AnyKey());
  }

  // ------------------------------------------------------ as it is written

  /** A walk that meets no decodable key of the address first ends at once. */
  lemma EmptyWalk(scan: seq<string>, address: Bytes, limit: nat)
    requires scan != [] && StartsWith(scan[0], address + [SEPARATOR]) ==> !ValidUtf8(scan[0])
    ensures Walk(scan, address + [SEPARATOR], limit, ValidUtf8) == KeyPage([], None)
  {
  }

  /** The first page is empty without a cursor exactly when the address's first key does not decode. */
  lemma FirstPageEmpty(index: set<string>, address: string, limit: nat)
    ensures
      var block := PrefixKeys(index, address + [SEPARATOR]);
      PageAsWritten(index, address, address + [SEPARATOR], limit) == KeyPage([], None)
      <==> block == [] || !ValidUtf8(block[0])
  {
    hide KeysFrom, PrefixKeys, ValidUtf8;
    PrefixScan(index, address + [SEPARATOR]);
    var scan, block := KeysFrom(index, address + [SEPARATOR]), PrefixKeys(index, address + [SEPARATOR]);
    assert block != [] ==> scan[0] == scan[..|block|][0];
  }

  // -------------------------------------------------------------- the store

  datatype Transaction = Transaction(signature: Bytes, createdAt: int, details: string)
  datatype Cursor = Cursor(raw: string, authentic: bool)
  datatype Error = InvalidCursor

  function KeyOf(tx: Transaction, address: Bytes): string
    requires IsTimestamp(tx.createdAt)
  {
    IndexKey(address, tx.createdAt, tx.signature)
  }

  /** The index after the entries of a transaction have been inserted in order. */
  function IndexAfter(index: map<string, string>, tx: Transaction, directions: seq<(Bytes, string)>)
    : map<string, string>
    requires IsTimestamp(tx.createdAt)
  {
    if directions == [] then index
    else
      var last := directions[|directions| - 1];
      IndexAfter(index, tx, directions[..|directions| - 1])[KeyOf(tx, last.0) := last.1]
  }

  lemma KeyOfIsInjective(tx: Transaction, a: Bytes, b: Bytes)
    requires IsTimestamp(tx.createdAt) && KeyOf(tx, a) == KeyOf(tx, b)
    ensures a == b
  {
    hide BigEndian;
    var x, y := KeyOf(tx, a), KeyOf(tx, b);
    assert |a| == |b|;
    assert x[..|a|] == a && y[..|b|] == b;
  }

  /** Each address gets an entry with the last direction given for it. */
  lemma {:induction false} LastDirectionWins(
      index: map<string, string>, tx: Transaction, directions: seq<(Bytes, string)>, i: nat)
    requires IsTimestamp(tx.createdAt) && i < |directions|
    requires forall j | i < j < |directions| :: directions[j].0 != directions[i].0
    ensures
      var key := KeyOf(tx, directions[i].0);
      key in IndexAfter(index, tx, directions) && IndexAfter(index, tx, directions)[key] == directions[i].1
    decreases |directions|
  {
    hide KeyOf;
    var last := |directions| - 1;
    if i < last {
      LastDirectionWins(index, tx, directions[..last], i);
      if KeyOf(tx, directions[last].0) == KeyOf(tx, directions[i].0) {
        KeyOfIsInjective(tx, directions[last].0, directions[i].0);
      }
    }
  }

  /** An entry under no key of the transaction stays as it was. */
  lemma {:induction false} OtherEntriesStay(
      index: map<string, string>, tx: Transaction, directions: seq<(Bytes, string)>, k: string)
    requires IsTimestamp(tx.createdAt)
    requires forall i | 0 <= i < |directions| :: k != KeyOf(tx, directions[i].0)
    ensures k in IndexAfter(index, tx, directions) <==> k in index
    ensures k in index ==> IndexAfter(index, tx, directions)[k] == index[k]
  {
    hide KeyOf;
    if directions != [] {
      OtherEntriesStay(index, tx, directions[..|directions| - 1], k);
    }
  }

  function Prefixed(front: seq<string>, page: KeyPage): KeyPage {
    KeyPage(front + page.keys, page.next)
  }

  /** The transactions and directions behind index keys, where present. */
  function Entries(transactions: map<string, Transaction>, index: map<string, string>, keys: seq<string>)
    : seq<(Transaction, string)>
  {
    if keys == [] then []
    else
      var last := keys[|keys| - 1];
      Entries(transactions, index, keys[..|keys| - 1]) +
      if LastSegment(last) in transactions && last in index
      then [(transactions[LastSegment(last)], index[last])] else []
  }

  lemma NoEntries(transactions: map<string, Transaction>, index: map<string, string>)
    ensures Entries(transactions, index, []) == []
  {
  }

  lemma NothingBefore(page: KeyPage)
    ensures Prefixed([], page) == page
  {
    assert [] + page.keys == page.keys;
  }

  lemma ScanIsIndexed(index: set<string>, start: string)
    ensures forall k | k in KeysFrom(index, start) :: k in index
  {
  }

  lemma WalkEnds(prefix: string, limit: nat)
    ensures Walk([], prefix, limit, ValidUtf8) == KeyPage([], None)
  {
  }

  lemma WalkStep(scan: seq<string>, i: nat, prefix: string, limit: nat)
    requires i < |scan| && i <= limit && prefix != ""
    ensures
      var key := if ValidUtf8(scan[i]) then scan[i] else "";
      Prefixed(scan[..i], Walk(scan[i..], prefix, limit - i, ValidUtf8)) ==
      if !StartsWith(key, prefix) then KeyPage(scan[..i], None)
      else if i == limit then KeyPage(scan[..i], Some(key))
      else Prefixed(scan[..i + 1], Walk(scan[i + 1..], prefix, limit - i - 1, ValidUtf8))
  {
    hide ValidUtf8;
    var rest := scan[i..];
    assert rest[0] == scan[i] && rest[1..] == scan[i + 1..];
    assert scan[..i] + [] == scan[..i];
    if i < limit {
      var more := Walk(scan[i + 1..], prefix, limit - i - 1, ValidUtf8).keys;
      assert scan[..i] + ([scan[i]] + more) == scan[..i + 1] + more;
    }
  }

  lemma EntriesGrow(transactions: map<string, Transaction>, index: map<string, string>, keys: seq<string>, key: string)
    ensures Entries(transactions, index, keys + [key]) ==
            Entries(transactions, index, keys) +
            if LastSegment(key) in transactions && key in index
            then [(transactions[LastSegment(key)], index[key])] else []
  {
    assert (keys + [key])[..|keys|] == keys;
  }

  lemma KeyNamesTransaction(address: Bytes, t: int, signature: Bytes)
    requires IsTimestamp(t) && SEPARATOR !in signature
    ensures LastSegment(IndexKey(address, t, signature)) == signature
  {
    var front := address + [SEPARATOR] + BigEndian(Inverted(t), 8);
    assert IndexKey(address, t, signature) == front + [SEPARATOR] + signature;
    LastSegmentIs(front, signature);
  }

  // ------------------------------------------------------ every run of upserts

  datatype Upsert = Upsert(tx: Transaction, directions: seq<(Bytes, string)>)

  predicate Timed(us: seq<Upsert>) {
    forall n | 0 <= n < |us| :: IsTimestamp(us[n].tx.createdAt)
  }

  predicate PlainDirections(directions: seq<(Bytes, string)>) {
    forall i | 0 <= i < |directions| :: SEPARATOR !in directions[i].0
  }

  /** Addresses hold no separator: they are base58 text. */
  predicate PlainUpserts(us: seq<Upsert>) {
    forall n | 0 <= n < |us| :: PlainDirections(us[n].directions)
  }

  /** Every transaction carries a time from 1970 on that fits 56 bits. */
  predicate PresentUpserts(us: seq<Upsert>) {
    forall n | 0 <= n < |us| :: 0 <= us[n].tx.createdAt < TWO56
  }

  function RunIndex(us: seq<Upsert>): map<string, string>
    requires Timed(us)
  {
    if us == [] then map[]
    else
      var last := us[|us| - 1];
      IndexAfter(RunIndex(us[..|us| - 1]), last.tx, last.directions)
  }

  predicate Names(directions: seq<(Bytes, string)>, address: Bytes) {
    exists i | 0 <= i < |directions| :: directions[i].0 == address
  }

  /** The transaction was upserted for the address. */
  predicate Upserted(us: seq<Upsert>, tx: Transaction, address: Bytes) {
    exists n | 0 <= n < |us| :: us[n].tx == tx && Names(us[n].directions, address)
  }

  lemma {:induction false} NamedIsIndexed(
      index: map<string, string>, tx: Transaction, directions: seq<(Bytes, string)>, k: string)
    requires IsTimestamp(tx.createdAt)
    ensures k in IndexAfter(index, tx, directions) <==>
            k in index || exists i | 0 <= i < |directions| :: k == KeyOf(tx, directions[i].0)
  {
    hide KeyOf;
    if directions != [] {
      var front := directions[..|directions| - 1];
      NamedIsIndexed(index, tx, front, k);
      assert forall i | 0 <= i < |front| :: front[i] == directions[i];
    }
  }

  /** In every run the index holds exactly the keys of what was upserted. */
  lemma {:induction false} IndexedExactly(us: seq<Upsert>, k: string)
    requires Timed(us)
    ensures k in RunIndex(us) <==>
            exists n, i | 0 <= n < |us| && 0 <= i < |us[n].directions| :: k == KeyOf(us[n].tx, us[n].directions[i].0)
  {
    hide KeyOf, IndexAfter;
    if us != [] {
      var front, last := us[..|us| - 1], us[|us| - 1];
      IndexedExactly(front, k);
      NamedIsIndexed(RunIndex(front), last.tx, last.directions, k);
      assert forall n | 0 <= n < |front| :: front[n] == us[n];
    }
  }

  lemma SameAddress(a: Bytes, address: Bytes, t: int, signature: Bytes)
    requires IsTimestamp(t) && SEPARATOR !in a && SEPARATOR !in address
    ensures StartsWith(IndexKey(a, t, signature), address + [SEPARATOR]) <==> a == address
  {
    hide BigEndian;
    var key, prefix := IndexKey(a, t, signature), address + [SEPARATOR];
    assert key[..|a|] == a && key[|a|] == SEPARATOR;
    assert forall i | 0 <= i < |a| :: key[i] == a[i];
    IndexOfAt(key, SEPARATOR, |a|);
    if StartsWith(key, prefix) {
      assert key[..|prefix|] == prefix;
      assert forall i | 0 <= i < |prefix| :: key[i] == prefix[i];
      assert forall i | 0 <= i < |address| :: prefix[i] == address[i];
      assert prefix[|address|] == SEPARATOR;
      IndexOfAt(key, SEPARATOR, |address|);
      assert key[..|address|] == address;
    }
    if a == address {
      assert key[..|prefix|] == prefix;
    }
  }

  /** In every run the block of an address holds exactly the keys of the transactions upserted for it. */
  lemma BlockOfAddress(us: seq<Upsert>, address: Bytes, k: string)
    requires Timed(us) && PlainUpserts(us) && SEPARATOR !in address
    ensures k in RunIndex(us) && StartsWith(k, address + [SEPARATOR]) <==>
            exists n | 0 <= n < |us| :: Names(us[n].directions, address) && k == KeyOf(us[n].tx, address)
  {
    hide IndexKey, RunIndex;
    IndexedExactly(us, k);
    forall n, i | 0 <= n < |us| && 0 <= i < |us[n].directions|
      ensures StartsWith(KeyOf(us[n].tx, us[n].directions[i].0), address + [SEPARATOR]) <==>
              us[n].directions[i].0 == address
    {
      assert PlainDirections(us[n].directions);
      SameAddress(us[n].directions[i].0, address, us[n].tx.createdAt, us[n].tx.signature);
    }
  }

  /** In every run the entries of an address are visited newest first, ties by signature. */
  lemma PagingIsNewestFirst(us: seq<Upsert>, address: Bytes, i: nat, j: nat) returns (a: Transaction, b: Transaction)
    requires Timed(us) && PlainUpserts(us) && SEPARATOR !in address
    requires i < j < |PrefixKeys(RunIndex(us).Keys, address + [SEPARATOR])|
    ensures Upserted(us, a, address) && Upserted(us, b, address)
    ensures IsTimestamp(a.createdAt) && IsTimestamp(b.createdAt)
    ensures
      var block := PrefixKeys(RunIndex(us).Keys, address + [SEPARATOR]);
      block[i] == KeyOf(a, address) && block[j] == KeyOf(b, address)
    ensures (a.createdAt >= 0 <==> b.createdAt >= 0) ==>
              a.createdAt > b.createdAt || (a.createdAt == b.createdAt && Less(a.signature, b.signature))
  {
    hide Less, IndexKey, RunIndex, PrefixKeys;
    var prefix := address + [SEPARATOR];
    var block := PrefixKeys(RunIndex(us).Keys, prefix);
    PrefixKeysElements(RunIndex(us).Keys, prefix);
    assert block[i] in block && block[j] in block;
    BlockOfAddress(us, address, block[i]);
    BlockOfAddress(us, address, block[j]);
    var m :| 0 <= m < |us| && Names(us[m].directions, address) && block[i] == KeyOf(us[m].tx, address);
    var n :| 0 <= n < |us| && Names(us[n].directions, address) && block[j] == KeyOf(us[n].tx, address);
    a, b := us[m].tx, us[n].tx;
    PrefixKeysSorted(RunIndex(us).Keys, prefix, i, j);
    IndexKeyOrder(address, a.createdAt, a.signature, b.createdAt, b.signature);
    InversionReverses(a.createdAt, b.createdAt);
  }

  /**
   In every run of upserts with times from 1970 on, the listing of an address as it is written is
   empty and offers no cursor, wherever it starts.
   */
  lemma ListingIsAlwaysEmpty(us: seq<Upsert>, address: Bytes, start: string, limit: nat)
    requires Timed(us) && PlainUpserts(us) && PresentUpserts(us) && SEPARATOR !in address
    ensures PageAsWritten(RunIndex(us).Keys, address, start, limit) == KeyPage([], None)
  {
    hide ValidUtf8, IndexKey, RunIndex, KeysFrom, Walk;
    var scan := KeysFrom(RunIndex(us).Keys, start);
    ScanIsIndexed(RunIndex(us).Keys, start);
    if scan != [] && StartsWith(scan[0], address + [SEPARATOR]) {
      assert scan[0] in scan;
      BlockOfAddress(us, address, scan[0]);
      var n :| 0 <= n < |us| && Names(us[n].directions, address) && scan[0] == KeyOf(us[n].tx, address);
      PresentKeysDoNotDecode(address, us[n].tx.createdAt, us[n].tx.signature);
    }
    EmptyWalk(scan, address, limit);
  }

  /** The stored transactions after a run of upserts. */
  function RunTransactions(us: seq<Upsert>): map<string, Transaction> {
    if us == [] then map[]
    else
      var tx := us[|us| - 1].tx;
      RunTransactions(us[..|us| - 1])[tx.signature := tx]
  }

  /** The last upsert of a signature is what is stored, and its index keys lead to it. */
  lemma {:induction false} LatestUpsertIsStored(us: seq<Upsert>, n: nat)
    requires n < |us| && forall m | n < m < |us| :: us[m].tx.signature != us[n].tx.signature
    ensures us[n].tx.signature in RunTransactions(us) && RunTransactions(us)[us[n].tx.signature] == us[n].tx
    decreases |us|
  {
    var last := |us| - 1;
    if n < last {
      assert forall m | 0 <= m < last :: us[..last][m] == us[m];
      LatestUpsertIsStored(us[..last], n);
    }
  }

  /** Every listed entry is the transaction its key names, with the direction stored under the key. */
  lemma {:induction false} EntriesMeaning(
      transactions: map<string, Transaction>, index: map<string, string>, keys: seq<string>)
    requires forall k | k in keys :: k in index && LastSegment(k) in transactions
    ensures |Entries(transactions, index, keys)| == |keys|
    ensures forall i | 0 <= i < |keys| ::
              keys[i] in index && LastSegment(keys[i]) in transactions &&
              Entries(transactions, index, keys)[i] == (transactions[LastSegment(keys[i])], index[keys[i]])
  {
    hide LastSegment;
    if keys != [] {
      var front, last := keys[..|keys| - 1], keys[|keys| - 1];
      assert keys == front + [last];
      assert last in keys && forall i | 0 <= i < |front| :: front[i] in keys;
      EntriesMeaning(transactions, index, front);
    }
  }

  class TxStore {
    var transactions: map<string, Transaction>
    var index: map<string, string>
    /** Every upsert so far. */
    ghost var upserts: seq<Upsert>

    /** Both tables are those of the upserts, and every key names a stored transaction. */
    ghost predicate Valid()
      reads this
    {
      && Timed(upserts) && index == RunIndex(upserts) && transactions == RunTransactions(upserts)
      && forall k | k in index :: LastSegment(k) in transactions
    }

    constructor ()
      ensures Valid() && transactions == map[] && index == map[] && upserts == []
    {
      transactions, index, upserts := map[], map[], [];
    }

    method UpsertTransaction(tx: Transaction, directions: seq<(Bytes, string)>)
      requires Valid() && IsTimestamp(tx.createdAt) && SEPARATOR !in tx.signature
      modifies this
      ensures Valid() && transactions == old(transactions)[tx.signature := tx]
      ensures index == IndexAfter(old(index), tx, directions)
      ensures upserts == old(upserts) + [Upsert(tx, directions)]
    {
      hide IndexKey, LastSegment;
      transactions := transactions[tx.signature := tx];
      for i := 0 to |directions|
        invariant upserts == old(upserts) && transactions == old(transactions)[tx.signature := tx]
        invariant forall k | k in index :: LastSegment(k) in transactions
        invariant index == IndexAfter(old(index), tx, directions[..i])
      {
        KeyNamesTransaction(directions[i].0, tx.createdAt, tx.signature);
        assert directions[..i + 1][..i] == directions[..i];
        index := index[KeyOf(tx, directions[i].0) := directions[i].1];
      }
      assert directions[..|directions|] == directions;
      upserts := upserts + [Upsert(tx, directions)];
      assert upserts[..|upserts| - 1] == old(upserts);
    }

    method WalkEntries(scan: seq<string>, prefix: string, limit: nat)
      returns (results: seq<(Transaction, string)>, next: Option<string>)
      requires Valid() && prefix != "" && forall k | k in scan :: k in index
      ensures
        var page := Walk(scan, prefix, limit, ValidUtf8);
        next == page.next && results == Entries(transactions, index, page.keys)
    {
      hide ValidUtf8, LastSegment, Walk, Entries;
      results, next := [], None;
      var i := 0;
      assert scan[0..] == scan && scan[..0] == [];
      NoEntries(transactions, index);
      NothingBefore(Walk(scan, prefix, limit, ValidUtf8));
      while i < |scan|
        invariant 0 <= i <= |scan| && i <= limit && |results| == i && next == None
        invariant Walk(scan, prefix, limit, ValidUtf8) ==
                  Prefixed(scan[..i], Walk(scan[i..], prefix, limit - i, ValidUtf8))
        invariant results == Entries(transactions, index, scan[..i])
      {
        WalkStep(scan, i, prefix, limit);
        var key := if ValidUtf8(scan[i]) then scan[i] else "";
        if !StartsWith(key, prefix) || |results| >= limit {
          next := if StartsWith(key, prefix) then Some(key) else None;
          return;
        }
        assert scan[i] in scan && scan[..i + 1] == scan[..i] + [key];
        EntriesGrow(transactions, index, scan[..i], key);
        var signature := LastSegment(key);
        if signature in transactions {
          results := results + [(transactions[signature], index[key])];
        }
        i := i + 1;
      }
      WalkEnds(prefix, limit - i);
      assert scan[i..] == [] && scan[..i] + [] == scan[..i];
    }

    /** The listing as written; a forged cursor is refused. */
    method ListByWallet(address: Bytes, cursor: Option<Cursor>, limit: nat)
      returns (r: Result<(seq<(Transaction, string)>, Option<string>), Error>)
      requires Valid()
      ensures r.Err? <==> cursor.Some? && !cursor.value.authentic
      ensures r.Ok? ==>
                var start := if cursor.Some? then cursor.value.raw else address + [SEPARATOR];
                var page := PageAsWritten(index.Keys, address, start, limit);
                r.value == (Entries(transactions, index, page.keys), page.next)
      ensures r.Ok? && PlainUpserts(upserts) && PresentUpserts(upserts) && SEPARATOR !in address ==>
                r.value == ([], None)
    {
      hide Walk, KeysFrom, RunIndex, PlainUpserts, PresentUpserts;
      if cursor.Some? && !cursor.value.authentic {
        return Err(InvalidCursor);
      }
      var prefix := address + [SEPARATOR];
      var start := if cursor.Some? then cursor.value.raw else prefix;
      if PlainUpserts(upserts) && PresentUpserts(upserts) && SEPARATOR !in address {
        ListingIsAlwaysEmpty(upserts, address, start, limit);
      }
      ScanIsIndexed(index.Keys, start);
      var results, next := WalkEntries(KeysFrom(index.Keys, start), prefix, limit);
      return Ok((results, next));
    }
  }
}

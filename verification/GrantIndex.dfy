/** The local mirror of DRT grants: a per-pool record store and a per-analyst index of active grants. */
module GrantIndex {
  import opened Basics
  import opened KeyOrder

  datatype Status = Active | Revoked

  datatype GrantRecord = GrantRecord(
    pool: string, analyst: string, drt: string, status: Status,
    revokedAt: Option<int>, revokedSig: Option<string>, details: string)

  datatype Tables = Tables(byPool: map<string, GrantRecord>, byAnalyst: set<string>)

  /** `{a}|{b}|{c}` */
  function Key(a: string, b: string, c: string): string {
    a + [SEPARATOR] + (b + [SEPARATOR] + c)
  }

  /** Which right of which analyst on which pool. */
  datatype GrantId = GrantId(pool: string, analyst: string, drt: string) {
    function PoolKey(): string {
      Key(pool, analyst, drt)
    }

    function AnalystKey(): string {
      Key(analyst, pool, drt)
    }
  }

  function Id(r: GrantRecord): GrantId {
    GrantId(r.pool, r.analyst, r.drt)
  }

  function PoolKey(r: GrantRecord): string {
    Id(r).PoolKey()
  }

  function AnalystKey(r: GrantRecord): string {
    Id(r).AnalystKey()
  }

  /** `upsert_grant`: store the record; index it exactly when it is active. */
  function Upsert(t: Tables, r: GrantRecord): Tables {
    Tables(t.byPool[PoolKey(r) := r],
           if r.status.Active? then t.byAnalyst + {AnalystKey(r)} else t.byAnalyst - {AnalystKey(r)})
  }

  /** `revoke_grant_local`: mark the record, if there is one, and drop the index key in any case. */
  function Revoke(t: Tables, pool: string, analyst: string, drt: string, sig: string, now: int): Tables {
    var key := Key(pool, analyst, drt);
    Tables(if key in t.byPool
           then t.byPool[key := t.byPool[key].(status := Revoked, revokedAt := Some(now), revokedSig := Some(sig))]
           else t.byPool,
           t.byAnalyst - {Key(analyst, pool, drt)})
  }

  datatype Op =
    | Grant(record: GrantRecord)
    | RevokeGrant(pool: string, analyst: string, drt: string, sig: string, now: int)
  {
    function Target(): GrantId {
      match this
      case Grant(r) => Id(r)
      case RevokeGrant(p, a, d, _, _) => GrantId(p, a, d)
    }

    /** Whether the grant is to be active after the operation. */
    predicate Activates() {
      Grant? && record.status.Active?
    }
  }

  predicate Plain(s: string) {
    SEPARATOR !in s
  }

  function Apply(t: Tables, op: Op): Tables {
    match op
    case Grant(r) => Upsert(t, r)
    case RevokeGrant(p, a, d, sig, now) => Revoke(t, p, a, d, sig, now)
  }

  function Run(ops: seq<Op>): Tables {
    if ops == [] then Tables(map[], {}) else Apply(Run(ops[..|ops| - 1]), ops[|ops| - 1])
  }

  // ------------------------------------------------------- key separation

  /** `splitn(3, '|')`: cut at the first two separators. */
  function SplitKey(key: string): Option<(string, string, string)> {
    if Plain(key) then None
    else
      var i := IndexOf(key, SEPARATOR);
      var rest := key[i + 1..];
      if Plain(rest) then None
      else
        var j := IndexOf(rest, SEPARATOR);
        Some((key[..i], rest[..j], rest[j + 1..]))
  }

  lemma CutAt(a: string, rest: string)
    requires Plain(a)
    ensures
      var key := a + [SEPARATOR] + rest;
      && !Plain(key) && IndexOf(key, SEPARATOR) == |a|
      && key[..|a|] == a && key[|a| + 1..] == rest
  {
    var key := a + [SEPARATOR] + rest;
    assert key[|a|] == SEPARATOR;
    IndexOfAt(key, SEPARATOR, |a|);
  }

  /** Splitting undoes key building when the first two parts hold no separator. */
  lemma SplitUndoesKey(a: string, b: string, c: string)
    requires Plain(a) && Plain(b)
    ensures SplitKey(Key(a, b, c)) == Some((a, b, c))
  {
    CutAt(a, b + [SEPARATOR] + c);
    CutAt(b, c);
  }

  // ------------------------------------------------------------- invariant

  predicate Stored(t: Tables, r: GrantRecord) {
    PoolKey(r) in t.byPool && t.byPool[PoolKey(r)] == r
  }

  /** Each record sits under its own key, and the index holds exactly the keys of the active records. */
  ghost predicate Consistent(t: Tables) {
    && (forall k | k in t.byPool :: k == PoolKey(t.byPool[k]))
    && (forall k | k in t.byPool && t.byPool[k].status.Active? :: AnalystKey(t.byPool[k]) in t.byAnalyst)
    && (forall k | k in t.byAnalyst ::
          exists r :: Stored(t, r) && r.status.Active? && AnalystKey(r) == k)
  }

  /** Two grants with one pool key have one analyst key, and conversely. */
  ghost predicate Unambiguous(ids: iset<GrantId>) {
    forall x, y | x in ids && y in ids :: x.PoolKey() == y.PoolKey() <==> x.AnalystKey() == y.AnalystKey()
  }

  ghost predicate RecordsIn(t: Tables, ids: iset<GrantId>) {
    forall k | k in t.byPool :: Id(t.byPool[k]) in ids
  }

  /** Pool addresses and analyst identifiers without separators; DRT names may hold them. */
  ghost function PlainIds(): iset<GrantId> {
    iset x: GrantId | Plain(x.pool) && Plain(x.analyst)
  }

  ghost predicate GoodTables(t: Tables) {
    Consistent(t) && RecordsIn(t, PlainIds())
  }

  lemma PlainIsUnambiguous()
    ensures Unambiguous(PlainIds())
    ensures forall x, y | x in PlainIds() && y in PlainIds() :: x.AnalystKey() == y.AnalystKey() ==> x == y
  {
    hide Key, SplitKey;
    forall x, y | x in PlainIds() && y in PlainIds()
      ensures x.PoolKey() == y.PoolKey() <==> x == y
      ensures x.AnalystKey() == y.AnalystKey() <==> x == y
    {
      SplitUndoesKey(x.analyst, x.pool, x.drt);
      SplitUndoesKey(y.analyst, y.pool, y.drt);
      SplitUndoesKey(x.pool, x.analyst, x.drt);
      SplitUndoesKey(y.pool, y.analyst, y.drt);
    }
  }

  /** Both operations replace or add one record and adjust the index at that record's key. */
  lemma ReplaceKeepsConsistent(t: Tables, n: Tables, r: GrantRecord)
    requires Consistent(t)
    requires forall s | Stored(t, s) :: PoolKey(s) == PoolKey(r) <==> AnalystKey(s) == AnalystKey(r)
    requires n.byPool == t.byPool[PoolKey(r) := r]
    requires n.byAnalyst == if r.status.Active? then t.byAnalyst + {AnalystKey(r)} else t.byAnalyst - {AnalystKey(r)}
    ensures Consistent(n)
  {
    hide PoolKey, AnalystKey;
    forall k | k in n.byPool && n.byPool[k].status.Active? ensures AnalystKey(n.byPool[k]) in n.byAnalyst {
      if k != PoolKey(r) {
        assert Stored(t, t.byPool[k]);
      }
    }
    forall k | k in n.byAnalyst
      ensures exists s :: Stored(n, s) && s.status.Active? && AnalystKey(s) == k
    {
      if k == AnalystKey(r) {
        assert Stored(n, r);
      } else {
        var s :| Stored(t, s) && s.status.Active? && AnalystKey(s) == k;
        assert Stored(n, s);
      }
    }
  }

  lemma UnknownIsNotIndexed(t: Tables, id: GrantId, ids: iset<GrantId>)
    requires Consistent(t) && Unambiguous(ids) && RecordsIn(t, ids) && id in ids && id.PoolKey() !in t.byPool
    ensures id.AnalystKey() !in t.byAnalyst
  {
    hide Key;
    assert forall r | Stored(t, r) :: Id(r) in ids;
  }

  lemma ApplyKeepsConsistent(t: Tables, op: Op, ids: iset<GrantId>)
    requires Consistent(t) && Unambiguous(ids) && RecordsIn(t, ids) && op.Target() in ids
    ensures Consistent(Apply(t, op)) && RecordsIn(Apply(t, op), ids)
  {
    hide Key;
    var id, n := op.Target(), Apply(t, op);
    assert forall s | Stored(t, s) :: Id(s) in ids;
    if op.Grant? {
      ReplaceKeepsConsistent(t, n, op.record);
    } else if id.PoolKey() in t.byPool {
      var r := t.byPool[id.PoolKey()];
      assert Stored(t, r);
      ReplaceKeepsConsistent(t, n, n.byPool[id.PoolKey()]);
    } else {
      UnknownIsNotIndexed(t, id, ids);
      assert n == t;
    }
  }

  ghost predicate RunsIn(ops: seq<Op>, ids: iset<GrantId>) {
    forall i | 0 <= i < |ops| :: ops[i].Target() in ids
  }

  lemma {:induction false} EveryRunIsConsistent(ops: seq<Op>, ids: iset<GrantId>)
    requires Unambiguous(ids) && RunsIn(ops, ids)
    ensures Consistent(Run(ops)) && RecordsIn(Run(ops), ids)
  {
    hide Unambiguous;
    if ops != [] {
      EveryRunIsConsistent(ops[..|ops| - 1], ids);
      ApplyKeepsConsistent(Run(ops[..|ops| - 1]), ops[|ops| - 1], ids);
    }
  }

  // ------------------------------------------------- index against record

  predicate RecordActive(t: Tables, id: GrantId) {
    id.PoolKey() in t.byPool && t.byPool[id.PoolKey()].status.Active?
  }

  predicate IndexActive(t: Tables, id: GrantId) {
    id.AnalystKey() in t.byAnalyst
  }

  /** The index answers "has an active grant" as the record does. */
  predicate AgreesAt(t: Tables, id: GrantId) {
    IndexActive(t, id) <==> RecordActive(t, id)
  }

  lemma ActiveIsIndexed(t: Tables, id: GrantId, ids: iset<GrantId>)
    requires Consistent(t) && Unambiguous(ids) && RecordsIn(t, ids) && id in ids
    ensures AgreesAt(t, id)
  {
    hide Key;
    if RecordActive(t, id) {
      assert Stored(t, t.byPool[id.PoolKey()]);
    }
    if IndexActive(t, id) {
      var r :| Stored(t, r) && r.status.Active? && AnalystKey(r) == id.AnalystKey();
      assert Id(r) in ids;
    }
  }

  /** In every run over separator-free pools and analysts the index answers as the record does, for any DRT name. */
  lemma IndexAgreesWithRecord(ops: seq<Op>, id: GrantId)
    requires RunsIn(ops, PlainIds()) && id in PlainIds()
    ensures AgreesAt(Run(ops), id)
  {
    hide Run, AgreesAt, Unambiguous, PlainIds;
    PlainIsUnambiguous();
    EveryRunIsConsistent(ops, PlainIds());
    ActiveIsIndexed(Run(ops), id, PlainIds());
  }

  /** What an operation makes the two lookups answer for any grant. */
  lemma AnswersAfter(t: Tables, op: Op, id: GrantId)
    ensures RecordActive(Apply(t, op), id) <==>
            if id.PoolKey() == op.Target().PoolKey() then op.Activates() else RecordActive(t, id)
    ensures IndexActive(Apply(t, op), id) <==>
            if id.AnalystKey() == op.Target().AnalystKey() then op.Activates() else IndexActive(t, id)
  {
    hide Key;
  }

  lemma OneGrantRun(r: GrantRecord, id: GrantId)
    requires r.status.Active?
    ensures RecordActive(Run([Grant(r)]), id) <==> id.PoolKey() == PoolKey(r)
    ensures IndexActive(Run([Grant(r)]), id) <==> id.AnalystKey() == AnalystKey(r)
  {
    hide Key;
    assert Run([Grant(r)][..0]) == Run([]);
    AnswersAfter(Run([]), Grant(r), id);
  }

  /**
   For any set of grants: index and record agree on all of them in every run over them exactly
   when no two of them share one of their two keys and not the other.
   */
  lemma AgreementExactly(ids: iset<GrantId>)
    ensures (forall ops, id | RunsIn(ops, ids) && id in ids :: AgreesAt(Run(ops), id)) <==> Unambiguous(ids)
  {
    hide Run;
    if Unambiguous(ids) {
      forall ops, id | RunsIn(ops, ids) && id in ids ensures AgreesAt(Run(ops), id) {
        EveryRunIsConsistent(ops, ids);
        ActiveIsIndexed(Run(ops), id, ids);
      }
    }
    if forall ops, id | RunsIn(ops, ids) && id in ids :: AgreesAt(Run(ops), id) {
      forall x, y | x in ids && y in ids ensures x.PoolKey() == y.PoolKey() <==> x.AnalystKey() == y.AnalystKey() {
        var r := GrantRecord(x.pool, x.analyst, x.drt, Active, None, None, "");
        assert RunsIn([Grant(r)], ids);
        OneGrantRun(r, y);
      }
    }
  }

  /** Index and record agree on every grant there could be. */
  ghost predicate Agrees(t: Tables) {
    forall id :: AgreesAt(t, id)
  }

  /** Whoever shares exactly one key with the operation's grant already has the answer the operation gives. */
  ghost predicate KeepsAnswers(t: Tables, op: Op) {
    forall id: GrantId :: (id.PoolKey() == op.Target().PoolKey()) != (id.AnalystKey() == op.Target().AnalystKey()) ==>
      (IndexActive(t, id) <==> op.Activates())
  }

  /** Agreement survives an operation exactly when it changes no answer through one key alone. */
  lemma AgreementSurvivesExactly(t: Tables, op: Op)
    requires Agrees(t)
    ensures Agrees(Apply(t, op)) <==> KeepsAnswers(t, op)
  {
    hide IndexActive, RecordActive, Apply, Key;
    forall id ensures AgreesAt(Apply(t, op), id) <==>
                      ((id.PoolKey() == op.Target().PoolKey()) != (id.AnalystKey() == op.Target().AnalystKey()) ==>
                       (IndexActive(t, id) <==> op.Activates()))
    {
      assert AgreesAt(t, id);
      AnswersAfter(t, op, id);
    }
  }

  lemma RunStep(ops: seq<Op>, k: nat)
    requires k < |ops|
    ensures Run(ops[..k + 1]) == Apply(Run(ops[..k]), ops[k])
  {
    hide Apply;
    assert ops[..k + 1][..k] == ops[..k];
  }

  lemma {:induction false} AgreesUpTo(ops: seq<Op>, n: nat)
    requires n <= |ops| && forall k | 0 <= k < |ops| :: KeepsAnswers(Run(ops[..k]), ops[k])
    ensures Agrees(Run(ops[..n]))
  {
    hide KeepsAnswers;
    if n > 0 {
      AgreesUpTo(ops, n - 1);
      RunStep(ops, n - 1);
      AgreementSurvivesExactly(Run(ops[..n - 1]), ops[n - 1]);
    }
  }

  /** Agreement holds all through a run exactly when it survives each operation. */
  lemma {:induction false} AgreementOverRuns(ops: seq<Op>)
    ensures (forall n | 0 <= n <= |ops| :: Agrees(Run(ops[..n]))) <==>
            (forall k | 0 <= k < |ops| :: KeepsAnswers(Run(ops[..k]), ops[k]))
  {
    hide Agrees, KeepsAnswers, Run;
    if forall n | 0 <= n <= |ops| :: Agrees(Run(ops[..n])) {
      forall k | 0 <= k < |ops| ensures KeepsAnswers(Run(ops[..k]), ops[k]) {
        RunStep(ops, k);
        assert Agrees(Run(ops[..k])) && Agrees(Run(ops[..k + 1]));
        AgreementSurvivesExactly(Run(ops[..k]), ops[k]);
      }
    }
    if forall k | 0 <= k < |ops| :: KeepsAnswers(Run(ops[..k]), ops[k]) {
      forall n | 0 <= n <= |ops| ensures Agrees(Run(ops[..n])) {
        AgreesUpTo(ops, n);
      }
    }
  }

  lemma PoolsDiffer(p: string, a: string, d: string, q: string, b: string, e: string)
    requires Plain(p) && Plain(q) && p != q
    ensures Key(p, a, d) != Key(q, b, e)
  {
    CutAt(p, a + [SEPARATOR] + d);
    CutAt(q, b + [SEPARATOR] + e);
  }

  /** An operation on a grant with another pool key leaves a record alone. */
  lemma {:induction false} RecordStays(ops: seq<Op>, k: nat, key: string)
    requires k <= |ops| && key in Run(ops[..k]).byPool
    requires forall j | k <= j < |ops| :: ops[j].Target().PoolKey() != key
    ensures key in Run(ops).byPool && Run(ops).byPool[key] == Run(ops[..k]).byPool[key]
    decreases |ops|
  {
    hide Key;
    if k == |ops| {
      assert ops[..k] == ops;
    } else {
      var front := ops[..|ops| - 1];
      assert front[..k] == ops[..k];
      RecordStays(front, k, key);
    }
  }

  /** A granted record is stored as given until an operation on its key. */
  lemma GrantIsStored(ops: seq<Op>, k: nat)
    requires k < |ops| && ops[k].Grant?
    requires forall j | k < j < |ops| :: ops[j].Target().PoolKey() != PoolKey(ops[k].record)
    ensures Stored(Run(ops), ops[k].record)
  {
    hide Run, Key;
    RunStep(ops, k);
    RecordStays(ops, k + 1, PoolKey(ops[k].record));
  }

  /** A revocation keeps the record of its key, with the status, time and signature of the revocation. */
  lemma RevocationIsRecorded(ops: seq<Op>, k: nat)
    requires k < |ops| && ops[k].RevokeGrant? && ops[k].Target().PoolKey() in Run(ops[..k]).byPool
    requires forall j | k < j < |ops| :: ops[j].Target().PoolKey() != ops[k].Target().PoolKey()
    ensures
      var key := ops[k].Target().PoolKey();
      && key in Run(ops).byPool
      && Run(ops).byPool[key] == Run(ops[..k]).byPool[key].(
           status := Revoked, revokedAt := Some(ops[k].now), revokedSig := Some(ops[k].sig))
  {
    hide Run, Key;
    RunStep(ops, k);
    RecordStays(ops, k + 1, ops[k].Target().PoolKey());
  }

  /**
   With a separator in an analyst identifier and in a DRT name, grants on two pools can share an
   index key: revoking one leaves the other active in its record but not in the index.
   */
  lemma SeparatorsBreakTheIndex(a: string, p: string, q: string, d: string)
    requires Plain(p) && Plain(q) && p != q
    ensures
      var r := GrantRecord(q, a + [SEPARATOR] + p, d, Active, None, None, "");
      var s := GrantRecord(p, a, q + [SEPARATOR] + d, Active, None, None, "");
      var t := Run([Grant(r), Grant(s), RevokeGrant(s.pool, s.analyst, s.drt, "sig", 0)]);
      RecordActive(t, Id(r)) && !IndexActive(t, Id(r))
  {
    var r := GrantRecord(q, a + [SEPARATOR] + p, d, Active, None, None, "");
    var s := GrantRecord(p, a, q + [SEPARATOR] + d, Active, None, None, "");
    var ops := [Grant(r), Grant(s), RevokeGrant(s.pool, s.analyst, s.drt, "sig", 0)];
    assert AnalystKey(r) == AnalystKey(s);
    PoolsDiffer(q, a + [SEPARATOR] + p, d, p, a, q + [SEPARATOR] + d);
    hide Key, Run, Apply, RecordActive, IndexActive;
    RunStep(ops, 0);
    RunStep(ops, 1);
    RunStep(ops, 2);
    assert ops[..3] == ops;
    AnswersAfter(Run(ops[..0]), ops[0], Id(r));
    AnswersAfter(Run(ops[..1]), ops[1], Id(r));
    AnswersAfter(Run(ops[..2]), ops[2], Id(r));
  }

  // -------------------------------------------------------------- listings

  const LAST_CHAR := '\U{10FFFF}'

  /** The half-open range `prefix .. prefix + U+10FFFF` holds the keys with the prefix, one case apart. */
  lemma RangeOfPrefix(k: string, prefix: string)
    ensures !Less(k, prefix) && Less(k, prefix + [LAST_CHAR]) <==>
            StartsWith(k, prefix) && (|k| == |prefix| || k[|prefix|] != LAST_CHAR)
  {
    var end := prefix + [LAST_CHAR];
    assert end[..|prefix|] == prefix;
    if !Less(k, prefix) && Less(k, end) {
      PrefixBlock(prefix, k, end);
    }
    if StartsWith(k, prefix) {
      PrefixNotAbove(k, prefix);
      var rest := k[|prefix|..];
      assert k == prefix + rest;
      LessAfterPrefix(prefix, rest, [LAST_CHAR]);
      assert rest != "" ==> rest[0] == k[|prefix|];
    }
  }

  function KeysBetween(s: set<string>, prefix: string): (ks: seq<string>)
    ensures Sorted(ks)
  {
    SortedKeys(set k | k in s && !Less(k, prefix) && Less(k, prefix + [LAST_CHAR]))
  }

  predicate Reachable(part: string) {
    part == "" || part[0] != LAST_CHAR
  }

  /** A scan for a separator-free first part meets exactly the keys with that part. */
  lemma KeyInRange(first: string, a: string, b: string, c: string)
    requires Plain(first) && Plain(a) && Plain(b)
    ensures
      var k, prefix := Key(a, b, c), first + [SEPARATOR];
      !Less(k, prefix) && Less(k, prefix + [LAST_CHAR]) <==> a == first && Reachable(b)
  {
    var k, prefix := Key(a, b, c), first + [SEPARATOR];
    hide Less;
    RangeOfPrefix(k, prefix);
    CutAt(a, b + [SEPARATOR] + c);
    if StartsWith(k, prefix) {
      assert k == first + [SEPARATOR] + k[|prefix|..];
      CutAt(first, k[|prefix|..]);
    }
    if a == first {
      assert k[..|prefix|] == prefix;
      assert k[|prefix|] == if b != "" then b[0] else SEPARATOR;
    }
  }

  predicate IsActiveOf(t: Tables, r: GrantRecord, analyst: string) {
    Stored(t, r) && r.analyst == analyst && r.status.Active?
  }

  /** An active grant of the analyst on a pool the scanned range reaches. */
  predicate IsGrantOf(t: Tables, r: GrantRecord, analyst: string) {
    IsActiveOf(t, r, analyst) && Reachable(r.pool)
  }

  /** The i-th scanned key leads to an active grant of the analyst. */
  lemma IndexedGrant(t: Tables, keys: seq<string>, i: nat, analyst: string)
    requires GoodTables(t) && Plain(analyst)
    requires keys == KeysBetween(t.byAnalyst, analyst + [SEPARATOR]) && i < |keys|
    ensures
      var parts := SplitKey(keys[i]);
      && parts.Some?
      && var key := Key(parts.value.1, analyst, parts.value.2);
      && key in t.byPool && IsGrantOf(t, t.byPool[key], analyst) && AnalystKey(t.byPool[key]) == keys[i]
  {
    hide Key, SplitKey, Less;
    var k := keys[i];
    assert k in keys;
    var r :| Stored(t, r) && r.status.Active? && AnalystKey(r) == k;
    assert Id(r) in PlainIds();
    KeyInRange(analyst, r.analyst, r.pool, r.drt);
    SplitUndoesKey(r.analyst, r.pool, r.drt);
  }

  lemma GrantIsListed(t: Tables, r: GrantRecord, analyst: string)
    requires GoodTables(t) && Plain(analyst) && IsGrantOf(t, r, analyst)
    ensures AnalystKey(r) in KeysBetween(t.byAnalyst, analyst + [SEPARATOR])
  {
    hide Key, Less;
    assert Id(r) in PlainIds();
    KeyInRange(analyst, r.analyst, r.pool, r.drt);
  }

  /** The active record an index key leads to, if any. */
  function Found(t: Tables, analyst: string, key: string): seq<GrantRecord> {
    match SplitKey(key)
    case None => []
    case Some((_, pool, drt)) =>
      var poolKey := Key(pool, analyst, drt);
      if poolKey in t.byPool && t.byPool[poolKey].status.Active? then [t.byPool[poolKey]] else []
  }

  function FoundAll(t: Tables, analyst: string, keys: seq<string>): seq<GrantRecord> {
    if keys == [] then []
    else FoundAll(t, analyst, keys[..|keys| - 1]) + Found(t, analyst, keys[|keys| - 1])
  }

  /** `out` holds exactly the stored active grants of the analyst, each once, in key order. */
  ghost predicate ListsGrantsOf(t: Tables, out: seq<GrantRecord>, analyst: string) {
    && (forall r :: r in out <==> IsGrantOf(t, r, analyst))
    && Sorted(seq(|out|, i requires 0 <= i < |out| => AnalystKey(out[i])))
  }

  lemma FoundOne(t: Tables, keys: seq<string>, i: nat, analyst: string) returns (r: GrantRecord)
    requires GoodTables(t) && Plain(analyst)
    requires keys == KeysBetween(t.byAnalyst, analyst + [SEPARATOR]) && i < |keys|
    ensures Found(t, analyst, keys[i]) == [r] && IsGrantOf(t, r, analyst) && AnalystKey(r) == keys[i]
  {
    hide Key, SplitKey, KeysBetween, GoodTables, AnalystKey;
    IndexedGrant(t, keys, i, analyst);
    var parts := SplitKey(keys[i]);
    r := t.byPool[Key(parts.value.1, analyst, parts.value.2)];
  }

  lemma {:induction false} FoundInOrder(t: Tables, analyst: string, n: nat)
    requires GoodTables(t) && Plain(analyst)
    requires n <= |KeysBetween(t.byAnalyst, analyst + [SEPARATOR])|
    ensures
      var keys := KeysBetween(t.byAnalyst, analyst + [SEPARATOR]);
      var out := FoundAll(t, analyst, keys[..n]);
      && |out| == n
      && (forall j | 0 <= j < n :: IsGrantOf(t, out[j], analyst) && AnalystKey(out[j]) == keys[j])
  {
    hide Key, Found, KeysBetween, GoodTables, IsGrantOf, AnalystKey;
    var keys := KeysBetween(t.byAnalyst, analyst + [SEPARATOR]);
    if n > 0 {
      FoundInOrder(t, analyst, n - 1);
      assert keys[..n][..n - 1] == keys[..n - 1];
      var r := FoundOne(t, keys, n - 1, analyst);
    }
  }

  /** The scan of the index finds exactly the analyst's active grants. */
  lemma FoundAreGrants(t: Tables, analyst: string)
    requires GoodTables(t) && Plain(analyst)
    ensures ListsGrantsOf(t, FoundAll(t, analyst, KeysBetween(t.byAnalyst, analyst + [SEPARATOR])), analyst)
  {
    hide Key, SplitKey, Less, FoundAll;
    var keys := KeysBetween(t.byAnalyst, analyst + [SEPARATOR]);
    assert keys[..|keys|] == keys;
    FoundInOrder(t, analyst, |keys|);
    var out := FoundAll(t, analyst, keys);
    forall r | IsGrantOf(t, r, analyst) ensures r in out {
      GrantIsListed(t, r, analyst);
      var j :| 0 <= j < |keys| && keys[j] == AnalystKey(r);
      assert Id(out[j]) in PlainIds() && Id(r) in PlainIds();
      PlainIsUnambiguous();
    }
  }

  /** Whatever the tables hold, only active records of keys that name the analyst are listed. */
  lemma {:induction false} FoundAreActive(t: Tables, analyst: string, keys: seq<string>, r: GrantRecord)
    requires r in FoundAll(t, analyst, keys)
    ensures r.status.Active?
    ensures exists pool, drt :: Key(pool, analyst, drt) in t.byPool && t.byPool[Key(pool, analyst, drt)] == r
  {
    hide Key, SplitKey;
    if r !in Found(t, analyst, keys[|keys| - 1]) {
      FoundAreActive(t, analyst, keys[..|keys| - 1], r);
    }
  }

  /** The scan finds all active grants of the analyst exactly when none of their pools starts with U+10FFFF. */
  lemma ListingIsCompleteExactly(t: Tables, analyst: string)
    requires GoodTables(t) && Plain(analyst)
    ensures
      var out := FoundAll(t, analyst, KeysBetween(t.byAnalyst, analyst + [SEPARATOR]));
      (forall r | IsActiveOf(t, r, analyst) :: r in out) <==> forall r | IsActiveOf(t, r, analyst) :: Reachable(r.pool)
  {
    hide FoundAll, KeysBetween, GoodTables;
    FoundAreGrants(t, analyst);
    assert forall r :: IsGrantOf(t, r, analyst) <==> IsActiveOf(t, r, analyst) && Reachable(r.pool);
  }

  class GrantStore {
    var byPool: map<string, GrantRecord>
    var byAnalyst: set<string>

    ghost function View(): Tables
      reads this
    {
      Tables(byPool, byAnalyst)
    }

    ghost predicate Valid()
      reads this
    {
      GoodTables(View())
    }

    constructor ()
      ensures Valid() && View() == Run([])
    {
      byPool, byAnalyst := map[], {};
    }

    method UpsertGrant(record: GrantRecord)
      modifies this
      ensures View() == Upsert(old(View()), record)
      ensures old(Valid()) && Plain(record.pool) && Plain(record.analyst) ==> Valid()
    {
      hide Key;
      ghost var op := Grant(record);
      if Valid() && Plain(record.pool) && Plain(record.analyst) {
        PlainIsUnambiguous();
        ApplyKeepsConsistent(View(), op, PlainIds());
      }
      byPool := byPool[PoolKey(record) := record];
      if record.status.Active? {
        byAnalyst := byAnalyst + {AnalystKey(record)};
      } else {
        byAnalyst := byAnalyst - {AnalystKey(record)};
      }
    }

    method RevokeGrantLocal(pool: string, analyst: string, drt: string, sig: string, now: int) returns (updated: bool)
      modifies this
      ensures View() == Revoke(old(View()), pool, analyst, drt, sig, now)
      ensures updated <==> Key(pool, analyst, drt) in old(byPool)
      ensures old(Valid()) && Plain(pool) && Plain(analyst) ==> Valid()
    {
      hide Key;
      ghost var op := RevokeGrant(pool, analyst, drt, sig, now);
      if Valid() && Plain(pool) && Plain(analyst) {
        PlainIsUnambiguous();
        ApplyKeepsConsistent(View(), op, PlainIds());
      }
      var key := Key(pool, analyst, drt);
      updated := key in byPool;
      if updated {
        byPool := byPool[key := byPool[key].(status := Revoked, revokedAt := Some(now), revokedSig := Some(sig))];
      }
      byAnalyst := byAnalyst - {Key(analyst, pool, drt)};
    }

    /** The analyst's active grants over all pools, in key order. */
    method ListGrantsByAnalyst(analyst: string) returns (out: seq<GrantRecord>)
      ensures out == FoundAll(View(), analyst, KeysBetween(byAnalyst, analyst + [SEPARATOR]))
      ensures Valid() && Plain(analyst) ==> ListsGrantsOf(View(), out, analyst)
    {
      hide Key, SplitKey, KeysBetween, Consistent, ListsGrantsOf, GoodTables;
      var keys := KeysBetween(byAnalyst, analyst + [SEPARATOR]);
      if Valid() && Plain(analyst) {
        FoundAreGrants(View(), analyst);
      }
      out := [];
      for i := 0 to |keys|
        invariant out == FoundAll(View(), analyst, keys[..i])
      {
        assert keys[..i + 1][..i] == keys[..i];
        var parts := SplitKey(keys[i]);
        if parts.Some? {
          var poolKey := Key(parts.value.1, analyst, parts.value.2);
          if poolKey in byPool && byPool[poolKey].status.Active? {
            out := out + [byPool[poolKey]];
          }
        }
      }
      assert keys[..|keys|] == keys;
    }

    method IsGrantActive(analyst: string, pool: string, drt: string) returns (active: bool)
      ensures active <==> Key(analyst, pool, drt) in byAnalyst
      ensures Valid() && Plain(analyst) && Plain(pool) ==>
                var key := Key(pool, analyst, drt);
                (active <==> key in byPool && byPool[key].status.Active?)
    {
      hide Key;
      var key := Key(analyst, pool, drt);
      active := key in byAnalyst;
      if Valid() && Plain(analyst) && Plain(pool) {
        PlainIsUnambiguous();
        ActiveIsIndexed(View(), GrantId(pool, analyst, drt), PlainIds());
      }
    }
  }
}

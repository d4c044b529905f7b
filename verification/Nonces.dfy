/** Nonce replay protection: `record_nonce` and `purge_expired_nonces` over any run of the two. */
module Nonces {
  import opened Basics
  import opened KeyOrder

  /** Nonces and the time each was recorded. */
  type Table = map<string, int>

  /** Every operation carries the clock reading it sees. */
  datatype Op =
    | Record(nonce: string, now: int)
    | Purge(maxAge: int, now: int)
  {
    /** Entries recorded before this time are dropped by a purge. */
    function Cutoff(): int
      requires Purge?
    {
      now - maxAge
    }
  }

  function Purged(t: Table, cutoff: int): Table {
    map n | n in t && t[n] >= cutoff :: t[n]
  }

  function Apply(t: Table, op: Op): Table {
    match op
    case Record(nonce, now) => if nonce in t then t else t[nonce := now]
    case Purge(_, _) => Purged(t, op.Cutoff())
  }

  function Run(ops: seq<Op>): Table {
    if ops == [] then map[] else Apply(Run(ops[..|ops| - 1]), ops[|ops| - 1])
  }

  /** The i-th operation records `nonce` and is told it is new. */
  predicate Accepted(ops: seq<Op>, i: nat, nonce: string) {
    i < |ops| && ops[i].Record? && ops[i].nonce == nonce && nonce !in Run(ops[..i])
  }

  /** Some purge strictly between i and j drops what was recorded at time t. */
  predicate PurgedBetween(ops: seq<Op>, t: int, i: nat, j: nat) {
    exists p | i < p < Min(j, |ops|) :: ops[p].Purge? && t < ops[p].Cutoff()
  }

  lemma RunStep(ops: seq<Op>, k: nat)
    requires k < |ops|
    ensures Run(ops[..k + 1]) == Apply(Run(ops[..k]), ops[k])
  {
    assert ops[..k + 1][..k] == ops[..k];
  }

  /** Until a purge reaches it, an accepted nonce stays recorded with its time. */
  lemma {:induction false} StaysUntilPurged(ops: seq<Op>, i: nat, k: nat, nonce: string)
    requires Accepted(ops, i, nonce) && i < k <= |ops|
    ensures
      || PurgedBetween(ops, ops[i].now, i, k)
      || (nonce in Run(ops[..k]) && Run(ops[..k])[nonce] == ops[i].now)
    decreases k
  {
    hide Run;
    RunStep(ops, k - 1);
    if k > i + 1 {
      StaysUntilPurged(ops, i, k - 1, nonce);
      if PurgedBetween(ops, ops[i].now, i, k - 1) {
        var p :| i < p < k - 1 && ops[p].Purge? && ops[i].now < ops[p].Cutoff();
        assert PurgedBetween(ops, ops[i].now, i, k);
      } else if ops[k - 1].Purge? && ops[i].now < ops[k - 1].Cutoff() {
        assert PurgedBetween(ops, ops[i].now, i, k);
      }
    }
  }

  /** After the last acceptance before k, an entry recorded at k can only be that acceptance's. */
  lemma {:induction false} GoneAfterPurge(ops: seq<Op>, i: nat, k: nat, nonce: string)
    requires Accepted(ops, i, nonce) && i < k <= |ops| && PurgedBetween(ops, ops[i].now, i, k)
    requires forall m | i < m < k :: !Accepted(ops, m, nonce)
    ensures nonce !in Run(ops[..k])
    decreases k
  {
    hide Run;
    RunStep(ops, k - 1);
    if PurgedBetween(ops, ops[i].now, i, k - 1) {
      GoneAfterPurge(ops, i, k - 1, nonce);
      assert !Accepted(ops, k - 1, nonce);
    } else {
      StaysUntilPurged(ops, i, k - 1, nonce);
    }
  }

  /**
   Between an acceptance and the next purge that reaches it every repeat is refused, and
   after that purge the next repeat is accepted.
   */
  lemma RepeatAcceptedExactlyAfterPurge(ops: seq<Op>, i: nat, j: nat, nonce: string)
    requires Accepted(ops, i, nonce) && i < j < |ops| && ops[j] == Record(nonce, ops[j].now)
    requires forall m | i < m < j :: !Accepted(ops, m, nonce)
    ensures Accepted(ops, j, nonce) <==> PurgedBetween(ops, ops[i].now, i, j)
  {
    hide Run, PurgedBetween;
    StaysUntilPurged(ops, i, j, nonce);
    if PurgedBetween(ops, ops[i].now, i, j) {
      GoneAfterPurge(ops, i, j, nonce);
    }
  }

  predicate ClockNeverGoesBack(ops: seq<Op>) {
    forall i, j | 0 <= i < j < |ops| :: ops[i].now <= ops[j].now
  }

  /** Two acceptances of one nonce are more than A seconds apart when no purge uses a smaller age. */
  lemma AcceptancesAreSpaced(ops: seq<Op>, i: nat, j: nat, nonce: string, age: int)
    requires ClockNeverGoesBack(ops)
    requires forall p | 0 <= p < |ops| && ops[p].Purge? :: ops[p].maxAge >= age
    requires i < j && Accepted(ops, i, nonce) && Accepted(ops, j, nonce)
    ensures ops[j].now - ops[i].now > age
  {
    hide Run;
    StaysUntilPurged(ops, i, j, nonce);
    var p :| i < p < j && ops[p].Purge? && ops[i].now < ops[p].Cutoff();
    assert ops[p].now <= ops[j].now;
  }

  // --------------------------------------------------------------- the table

  lemma RunAppend(ops: seq<Op>, op: Op)
    ensures Run(ops + [op]) == Apply(Run(ops), op) && (ops + [op])[..|ops|] == ops
  {
    assert (ops + [op])[..|ops|] == ops;
  }

  function Expired(keys: seq<string>, t: Table, cutoff: int): seq<string> {
    if keys == [] then []
    else
      var last := keys[|keys| - 1];
      Expired(keys[..|keys| - 1], t, cutoff) + if last in t && t[last] < cutoff then [last] else []
  }

  lemma {:induction false} ExpiredElements(keys: seq<string>, t: Table, cutoff: int)
    ensures forall k :: k in Expired(keys, t, cutoff) <==> k in keys && k in t && t[k] < cutoff
  {
    if keys != [] {
      var front := keys[..|keys| - 1];
      ExpiredElements(front, t, cutoff);
      assert keys == front + [keys[|keys| - 1]];
    }
  }

  lemma {:induction false} ExpiredSorted(keys: seq<string>, t: Table, cutoff: int)
    requires Sorted(keys)
    ensures Sorted(Expired(keys, t, cutoff))
  {
    hide Less;
    if keys != [] {
      var front := keys[..|keys| - 1];
      ExpiredSorted(front, t, cutoff);
      ExpiredElements(front, t, cutoff);
      var earlier := Expired(front, t, cutoff);
      assert forall a | 0 <= a < |earlier| :: earlier[a] in front;
    }
  }

  /** The nonces recorded before the cutoff, in table order. */
  method CollectExpired(t: Table, cutoff: int) returns (expired: seq<string>)
    ensures Sorted(expired)
    ensures forall k :: k in expired <==> k in t && t[k] < cutoff
  {
    hide Less, SortedKeys;
    var keys := SortedKeys(t.Keys);
    expired := [];
    for i := 0 to |keys|
      invariant expired == Expired(keys[..i], t, cutoff)
    {
      assert keys[..i + 1][..i] == keys[..i] && keys[i] in keys;
      if t[keys[i]] < cutoff {
        expired := expired + [keys[i]];
      }
    }
    assert keys[..|keys|] == keys;
    ExpiredElements(keys, t, cutoff);
    ExpiredSorted(keys, t, cutoff);
  }

  function Without(t: Table, ks: seq<string>): Table {
    map n | n in t && n !in ks :: t[n]
  }

  lemma WithoutNothing(t: Table)
    ensures Without(t, []) == t
  {
  }

  lemma WithoutExpired(t: Table, expired: seq<string>, cutoff: int)
    requires forall k :: k in expired <==> k in t && t[k] < cutoff
    ensures Without(t, expired) == Purged(t, cutoff)
  {
  }

  lemma Removed(before: Table, toRemove: seq<string>, i: nat)
    requires Sorted(toRemove) && i < |toRemove| && forall k | k in toRemove :: k in before
    ensures Without(before, toRemove[..i + 1]) == Without(before, toRemove[..i]) - {toRemove[i]}
    ensures |Without(before, toRemove[..i + 1])| == |Without(before, toRemove[..i])| - 1
  {
    var k := toRemove[i];
    assert k in toRemove;
    LessIrreflexive(k);
    assert toRemove[..i + 1] == toRemove[..i] + [k];
    var m := Without(before, toRemove[..i]);
    assert (m - {k}).Keys == m.Keys - {k};
  }

  class NonceStore {
    var nonces: Table
    /** The operations performed so far. */
    ghost var ops: seq<Op>

    ghost predicate Valid()
      reads this
    {
      nonces == Run(ops)
    }

    constructor ()
      ensures Valid() && ops == []
    {
      nonces, ops := map[], [];
    }

    method RecordNonce(nonce: string, now: int) returns (isNew: bool)
      requires Valid()
      modifies this
      ensures Valid() && ops == old(ops) + [Record(nonce, now)]
      ensures isNew <==> Accepted(ops, |ops| - 1, nonce)
    {
      hide Run;
      RunAppend(ops, Record(nonce, now));
      isNew := nonce !in nonces;
      if isNew {
        nonces := nonces[nonce := now];
      }
      ops := ops + [Record(nonce, now)];
    }

    /** Collect the expired nonces, then remove them one by one. */
    method PurgeExpiredNonces(maxAge: int, now: int) returns (removed: nat)
      requires Valid()
      modifies this
      ensures Valid() && ops == old(ops) + [Purge(maxAge, now)]
      ensures removed == |old(nonces)| - |nonces|
    {
      hide Run, Less, Without;
      RunAppend(ops, Purge(maxAge, now));
      var toRemove := CollectExpired(nonces, now - maxAge);
      removed := 0;
      ghost var before := nonces;
      WithoutNothing(before);
      for i := 0 to |toRemove|
        invariant removed == i && |nonces| == |before| - i && ops == old(ops)
        invariant nonces == Without(before, toRemove[..i])
      {
        Removed(before, toRemove, i);
        nonces := nonces - {toRemove[i]};
        removed := removed + 1;
      }
      assert toRemove[..|toRemove|] == toRemove;
      WithoutExpired(before, toRemove, now - maxAge);
      ops := ops + [Purge(maxAge, now)];
    }
  }
}

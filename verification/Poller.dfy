/** The checkpointed signature sync of one address (`poll_address`), over any run of polls. */
module Poller {
  import opened Basics

  /** How many signatures one request returns at most. */
  const FETCH_LIMIT: nat := 50

  /** What the indexer knows about an address. Stored transactions are shared with other addresses. */
  datatype State = State(checkpoint: Option<string>, stored: set<string>, indexed: set<string>)

  /**
   One poll: the length of the address's history at that moment, the signatures whose details
   could not be fetched or stored, and the transactions other addresses have stored meanwhile.
   A poll that a database error ends early has handled only the first `stop` signatures.
   */
  datatype Poll = Poll(seen: nat, lost: set<string>, others: set<string>, stop: Option<nat>)

  function Reverse(s: seq<string>): (r: seq<string>)
    ensures |r| == |s| && forall i | 0 <= i < |s| :: r[i] == s[|s| - 1 - i]
  {
    seq(|s|, i requires 0 <= i < |s| => s[|s| - 1 - i])
  }

  function Position(history: seq<string>, sig: string): (i: nat)
    requires sig in history
    ensures i < |history| && history[i] == sig
  {
    if history[0] == sig then 0 else 1 + Position(history[1..], sig)
  }

  /** `getSignaturesForAddress`: newest first, down to but excluding `until`, at most 50. */
  function Fetch(history: seq<string>, until: Option<string>): seq<string> {
    var beyond := if until.Some? && until.value in history
                 then history[Position(history, until.value) + 1..] else history;
    var skip := if |beyond| > FETCH_LIMIT then |beyond| - FETCH_LIMIT else 0;
    Reverse(beyond[skip..])
  }

  /** The fetched signatures that get recorded: not stored yet and not lost. */
  function Recorded(sigs: seq<string>, stored: set<string>, lost: set<string>): set<string> {
    set s | s in sigs && s !in stored && s !in lost
  }

  /** The fetched signatures a poll gets to. */
  function Handled(sigs: seq<string>, stop: Option<nat>): seq<string> {
    match stop
    case None => sigs
    case Some(n) => Take(sigs, n)
  }

  function PollOnce(st: State, history: seq<string>, poll: Poll): State {
    var stored := st.stored + poll.others;
    var sigs := Fetch(history, st.checkpoint);
    var recorded := Recorded(Handled(sigs, poll.stop), stored, poll.lost);
    State(if sigs == [] || poll.stop.Some? then st.checkpoint else Some(sigs[0]),
          stored + recorded, st.indexed + recorded)
  }

  lemma NothingRecorded(stored: set<string>, lost: set<string>)
    ensures Recorded([], stored, lost) == {}
  {
  }

  lemma RecordedStep(sigs: seq<string>, i: nat, stored: set<string>, lost: set<string>)
    requires i < |sigs|
    ensures Recorded(sigs[..i + 1], stored, lost) ==
            Recorded(sigs[..i], stored, lost) + if sigs[i] !in stored && sigs[i] !in lost then {sigs[i]} else {}
    ensures sigs[i] in Recorded(sigs[..i], stored, lost) ==> sigs[i] !in lost
  {
    assert sigs[..i + 1] == sigs[..i] + [sigs[i]];
  }

  /** The tables of the store that a poll changes. */
  class Indexer {
    var checkpoint: Option<string>
    var stored: set<string>
    var indexed: set<string>

    ghost function View(): State
      reads this
    {
      State(checkpoint, stored, indexed)
    }

    constructor ()
      ensures View() == State(None, {}, {})
    {
      checkpoint, stored, indexed := None, {}, {};
    }

    method PollAddress(history: seq<string>, poll: Poll)
      modifies this
      ensures View() == PollOnce(old(View()), history, poll)
    {
      hide Fetch, Recorded;
      stored := stored + poll.others;
      var sigs := Fetch(history, checkpoint);
      ghost var before := stored;
      NothingRecorded(before, poll.lost);
      if sigs == [] {
        assert Handled(sigs, poll.stop) == [];
        return;
      }
      var newest: Option<string> := None;
      for i := 0 to |sigs|
        invariant poll.stop.Some? ==> i <= poll.stop.value
        invariant newest == if i == 0 then None else Some(sigs[0])
        invariant stored == before + Recorded(sigs[..i], before, poll.lost)
        invariant indexed == old(indexed) + Recorded(sigs[..i], before, poll.lost)
        invariant checkpoint == old(checkpoint)
      {
        var sig := sigs[i];
        if newest.None? {
          newest := Some(sig);
        }
        if poll.stop == Some(i) {
          assert Handled(sigs, poll.stop) == sigs[..i];
          return;
        }
        RecordedStep(sigs, i, before, poll.lost);
        if sig in stored {
          continue;
        }
        if sig !in poll.lost {
          stored, indexed := stored + {sig}, indexed + {sig};
        }
      }
      assert sigs[..|sigs|] == sigs == Handled(sigs, poll.stop);
      if poll.stop.None? {
        checkpoint := newest;
      }
    }
  }

  // --------------------------------------------------------------- all runs

  /** The history only grows, and polls see it in order. */
  predicate GoodPolls(chain: seq<string>, polls: seq<Poll>) {
    && (forall i | 0 <= i < |polls| :: polls[i].seen <= |chain|)
    && (forall i, j | 0 <= i < j < |polls| :: polls[i].seen <= polls[j].seen)
  }

  function Run(chain: seq<string>, polls: seq<Poll>): State
    requires GoodPolls(chain, polls)
  {
    if polls == [] then State(None, {}, {})
    else
      var last := polls[|polls| - 1];
      PollOnce(Run(chain, polls[..|polls| - 1]), chain[..last.seen], last)
  }

  /** How much of the history the checkpoint covers: what the last completed poll saw. */
  function Covered(polls: seq<Poll>): nat {
    if polls == [] then 0
    else if polls[|polls| - 1].stop.None? then polls[|polls| - 1].seen
    else Covered(polls[..|polls| - 1])
  }

  function CheckpointAt(chain: seq<string>, n: nat): Option<string>
    requires n <= |chain|
  {
    if n == 0 then None else Some(chain[n - 1])
  }

  function WindowStart(covered: nat, seen: nat): nat {
    if covered + FETCH_LIMIT < seen then seen - FETCH_LIMIT else covered
  }

  lemma {:induction false} PositionIs(history: seq<string>, i: nat)
    requires Distinct(history) && i < |history|
    ensures Position(history, history[i]) == i
  {
    if i > 0 {
      assert history[1..][i - 1] == history[i];
      PositionIs(history[1..], i - 1);
    }
  }

  lemma WindowOf(chain: seq<string>, covered: nat, seen: nat)
    requires covered <= seen <= |chain|
    ensures
      var beyond := chain[..seen][covered..];
      var skip := if |beyond| > FETCH_LIMIT then |beyond| - FETCH_LIMIT else 0;
      beyond[skip..] == chain[WindowStart(covered, seen)..seen]
  {
  }

  /** A poll fetches the newest part of what lies beyond the checkpoint. */
  lemma FetchWindow(chain: seq<string>, covered: nat, seen: nat)
    requires Distinct(chain) && covered <= seen <= |chain|
    ensures Fetch(chain[..seen], CheckpointAt(chain, covered)) == Reverse(chain[WindowStart(covered, seen)..seen])
  {
    hide Reverse, Position;
    var history := chain[..seen];
    if covered > 0 {
      assert history[covered - 1] == chain[covered - 1];
      PositionIs(history, covered - 1);
    }
    WindowOf(chain, covered, seen);
  }

  lemma {:induction false} CoveredIsSeen(chain: seq<string>, polls: seq<Poll>)
    requires GoodPolls(chain, polls)
    ensures Covered(polls) <= |chain| && (polls != [] ==> Covered(polls) <= polls[|polls| - 1].seen)
  {
    if polls != [] {
      var front := polls[..|polls| - 1];
      CoveredIsSeen(chain, front);
      assert front != [] ==> polls[|front| - 1].seen <= polls[|polls| - 1].seen;
    }
  }

  lemma FrontPolls(chain: seq<string>, polls: seq<Poll>)
    requires GoodPolls(chain, polls) && polls != []
    ensures
      var front, last := polls[..|polls| - 1], polls[|polls| - 1];
      && GoodPolls(chain, front)
      && Covered(front) <= last.seen <= |chain|
      && Covered(polls) == if last.stop.None? then last.seen else Covered(front)
  {
    var front := polls[..|polls| - 1];
    CoveredIsSeen(chain, front);
    assert front != [] ==> polls[|front| - 1].seen <= polls[|polls| - 1].seen;
  }

  lemma {:induction false} CoveredGrows(chain: seq<string>, polls: seq<Poll>, i: nat, j: nat)
    requires GoodPolls(chain, polls) && i <= j <= |polls|
    ensures GoodPolls(chain, polls[..j]) && Covered(polls[..i]) <= Covered(polls[..j])
    decreases j
  {
    if i < j {
      CoveredGrows(chain, polls, i, j - 1);
      FrontPolls(chain, polls[..j]);
      assert polls[..j][..j - 1] == polls[..j - 1];
    }
  }

  /** In every run the checkpoint is the newest signature that a completed poll has seen. */
  lemma {:induction false} CheckpointIsNewest(chain: seq<string>, polls: seq<Poll>)
    requires Distinct(chain) && GoodPolls(chain, polls)
    ensures Covered(polls) <= |chain| && Run(chain, polls).checkpoint == CheckpointAt(chain, Covered(polls))
  {
    hide Fetch;
    if polls != [] {
      var front, last := polls[..|polls| - 1], polls[|polls| - 1];
      FrontPolls(chain, polls);
      CheckpointIsNewest(chain, front);
      FetchWindow(chain, Covered(front), last.seen);
    }
  }

  /** Poll j fetches entry x, beyond the checkpoint and among the 50 newest, gets to it, and does not lose it. */
  predicate TakenBy(chain: seq<string>, polls: seq<Poll>, j: nat, x: nat)
    requires x < |chain| && j < |polls|
  {
    && Covered(polls[..j]) <= x < polls[j].seen <= x + FETCH_LIMIT && chain[x] !in polls[j].lost
    && (polls[j].stop.Some? ==> polls[j].seen <= x + polls[j].stop.value)
  }

  /** The transactions other addresses stored before or at poll j. */
  function OthersUpTo(polls: seq<Poll>, j: nat): set<string>
    requires j <= |polls|
  {
    if j == 0 then {} else OthersUpTo(polls, j - 1) + polls[j - 1].others
  }

  lemma WindowMembers(chain: seq<string>, covered: nat, seen: nat, x: nat, stop: Option<nat>)
    requires Distinct(chain) && covered <= seen <= |chain| && x < |chain|
    ensures
      var sigs := Reverse(chain[WindowStart(covered, seen)..seen]);
      chain[x] in Handled(sigs, stop) <==>
      covered <= x < seen <= x + FETCH_LIMIT && (stop.Some? ==> seen <= x + stop.value)
  {
    var start := WindowStart(covered, seen);
    var window := chain[start..seen];
    var sigs := Reverse(window);
    var handled := Handled(sigs, stop);
    assert forall i | 0 <= i < |sigs| :: sigs[i] == chain[seen - 1 - i];
    assert forall i | 0 <= i < |handled| :: handled[i] == sigs[i];
    if covered <= x < seen <= x + FETCH_LIMIT && (stop.Some? ==> seen <= x + stop.value) {
      assert handled[seen - 1 - x] == chain[x];
    }
  }

  /** What one more poll records, by position. */
  lemma PollRecords(chain: seq<string>, polls: seq<Poll>, x: nat)
    requires Distinct(chain) && GoodPolls(chain, polls) && polls != [] && x < |chain|
    ensures GoodPolls(chain, polls[..|polls| - 1])
    ensures
      var last := |polls| - 1;
      var before, after := Run(chain, polls[..last]), Run(chain, polls);
      && (chain[x] in after.stored <==>
          chain[x] in before.stored || chain[x] in polls[last].others || TakenBy(chain, polls, last, x))
      && (chain[x] in after.indexed <==>
          chain[x] in before.indexed ||
          (TakenBy(chain, polls, last, x) && chain[x] !in before.stored && chain[x] !in polls[last].others))
  {
    hide Fetch;
    var last := |polls| - 1;
    var front, poll := polls[..last], polls[last];
    FrontPolls(chain, polls);
    CheckpointIsNewest(chain, front);
    FetchWindow(chain, Covered(front), poll.seen);
    WindowMembers(chain, Covered(front), poll.seen, x, poll.stop);
  }

  lemma NoPolls(chain: seq<string>)
    ensures Run(chain, []) == State(None, {}, {})
  {
  }

  lemma {:induction false} OthersOfFront(polls: seq<Poll>, j: nat)
    requires j < |polls|
    ensures OthersUpTo(polls[..|polls| - 1], j) == OthersUpTo(polls, j)
    decreases j
  {
    if j > 0 {
      OthersOfFront(polls, j - 1);
    }
  }

  lemma TakenByFront(chain: seq<string>, polls: seq<Poll>, j: nat, x: nat)
    requires j < |polls| - 1 && x < |chain|
    ensures TakenBy(chain, polls, j, x) <==> TakenBy(chain, polls[..|polls| - 1], j, x)
  {
    assert polls[..|polls| - 1][..j] == polls[..j];
  }

  /** In every run an entry is stored exactly when another address stored it or some poll took it. */
  lemma {:induction false} StoredExactly(chain: seq<string>, polls: seq<Poll>, x: nat)
    requires Distinct(chain) && GoodPolls(chain, polls) && x < |chain|
    ensures chain[x] in Run(chain, polls).stored <==>
            chain[x] in OthersUpTo(polls, |polls|) || exists j | 0 <= j < |polls| :: TakenBy(chain, polls, j, x)
  {
    hide Run, TakenBy;
    if polls == [] {
      NoPolls(chain);
    } else {
      var last := |polls| - 1;
      var front := polls[..last];
      PollRecords(chain, polls, x);
      StoredExactly(chain, front, x);
      OthersOfFront(polls, last);
      forall j | 0 <= j < last ensures TakenBy(chain, polls, j, x) <==> TakenBy(chain, front, j, x) {
        TakenByFront(chain, polls, j, x);
      }
    }
  }

  lemma {:induction false} OthersGrow(polls: seq<Poll>, i: nat, j: nat)
    requires i <= j <= |polls|
    ensures OthersUpTo(polls, i) <= OthersUpTo(polls, j)
  {
    if i < j {
      OthersGrow(polls, i, j - 1);
    }
  }

  /**
   The address's own listing gets the entry exactly when a poll takes it and no other address
   had stored that transaction by then.
   */
  lemma {:induction false} IndexedExactly(chain: seq<string>, polls: seq<Poll>, x: nat)
    requires Distinct(chain) && GoodPolls(chain, polls) && x < |chain|
    ensures chain[x] in Run(chain, polls).indexed <==>
            exists j | 0 <= j < |polls| ::
              TakenBy(chain, polls, j, x) && chain[x] !in OthersUpTo(polls, j + 1)
  {
    hide Run, TakenBy;
    if polls == [] {
      NoPolls(chain);
    } else {
      var last := |polls| - 1;
      var front := polls[..last];
      PollRecords(chain, polls, x);
      IndexedExactly(chain, front, x);
      StoredExactly(chain, front, x);
      OthersOfFront(polls, last);
      forall j | 0 <= j < last
        ensures TakenBy(chain, polls, j, x) <==> TakenBy(chain, front, j, x)
        ensures OthersUpTo(front, j + 1) == OthersUpTo(polls, j + 1) <= OthersUpTo(polls, last)
      {
        TakenByFront(chain, polls, j, x);
        OthersOfFront(polls, j + 1);
        OthersGrow(polls, j + 1, last);
      }
    }
  }

  /** The completed poll that moves the checkpoint past entry x. */
  lemma {:induction false} PassingPoll(chain: seq<string>, polls: seq<Poll>, x: nat) returns (j: nat)
    requires GoodPolls(chain, polls) && x < Covered(polls)
    ensures j < |polls| && Covered(polls[..j]) <= x < polls[j].seen && polls[j].stop.None?
  {
    var last := |polls| - 1;
    if Covered(polls[..last]) <= x {
      j := last;
    } else {
      j := PassingPoll(chain, polls[..last], x);
      assert polls[..last][..j] == polls[..j];
    }
  }

  /** The first completed poll that found anything. */
  predicate FirstFind(polls: seq<Poll>, f: nat) {
    f < |polls| && Covered(polls[..f]) == 0 < polls[f].seen && polls[f].stop.None?
  }

  /**
   When nothing is lost and every completed poll after the first find meets at most 50 new
   signatures, everything from the oldest entry of that find up to the checkpoint is stored.
   */
  lemma NoGaps(chain: seq<string>, polls: seq<Poll>, f: nat, x: nat)
    requires Distinct(chain) && GoodPolls(chain, polls) && FirstFind(polls, f)
    requires forall j | 0 <= j < |polls| :: polls[j].lost == {}
    requires forall j | f < j < |polls| && polls[j].stop.None? :: polls[j].seen <= Covered(polls[..j]) + FETCH_LIMIT
    requires WindowStart(0, polls[f].seen) <= x < Covered(polls)
    ensures x < |chain| && chain[x] in Run(chain, polls).stored
  {
    hide Run;
    var j := PassingPoll(chain, polls, x);
    assert polls[j].seen <= |chain|;
    assert polls[..j + 1][j] == polls[j];
    if j < f {
      CoveredGrows(chain, polls, j + 1, f);
    }
    assert TakenBy(chain, polls, j, x);
    StoredExactly(chain, polls, x);
  }

  /** An entry that a completed poll passes below its 50 newest, not stored by then, is never stored by later polls. */
  lemma GapIsForever(chain: seq<string>, polls: seq<Poll>, j: nat, x: nat)
    requires Distinct(chain) && GoodPolls(chain, polls) && j < |polls| && polls[j].stop.None?
    requires Covered(polls[..j]) <= x && x + FETCH_LIMIT < polls[j].seen
    requires x < |chain| && chain[x] !in OthersUpTo(polls, |polls|)
    requires GoodPolls(chain, polls[..j]) && chain[x] !in Run(chain, polls[..j]).stored
    ensures chain[x] !in Run(chain, polls).stored
  {
    hide Run;
    StoredExactly(chain, polls, x);
    StoredExactly(chain, polls[..j], x);
    forall k | 0 <= k < |polls| ensures !TakenBy(chain, polls, k, x) {
      if k > j {
        CoveredGrows(chain, polls, j + 1, k);
        assert polls[..j + 1][j] == polls[j];
      } else if k < j {
        assert polls[..j][..k] == polls[..k];
        assert TakenBy(chain, polls, k, x) == TakenBy(chain, polls[..j], k, x);
      }
    }
  }
}

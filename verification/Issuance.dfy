/**
 Pool initialisation and credential issuance, one call at a time, with storage failures: the
 running total of rows against the files actually stored.
 */
module Issuance {
  import opened Basics
  import opened KeyOrder
  import opened RowAccounting

  datatype PoolState = NeedsInit | Ready

  const INITIAL := "initial.csv"

  /** Pool metadata, the CSV files of the dataset directory by name, and the append tokens burned. */
  datatype Pool = Pool(state: PoolState, total: nat, files: map<string, string>, burned: nat)

  /** The step at which a call stops; `Completes` when nothing fails. */
  datatype Ending =
    | Rejected      // validation, ownership or balance refused the request
    | BurnFails     // the append token was not burned
    | BurnUnconfirmed // the burn took effect, but its confirmation failed
    | CsvFails      // the dataset file could not be written
    | MetaFails     // the file is stored, but updating the pool metadata failed (or, on initialise, the anchor)
    | Completes

  /** `name` is the file name `{record_id}.csv` of an issuance. */
  datatype Call =
    | Initialize(csv: string, ending: Ending)
    | Issue(name: string, csv: string, ending: Ending)

  function ApplyInitialize(p: Pool, csv: string, ending: Ending): Pool {
    if !p.state.NeedsInit? || !(ending.MetaFails? || ending.Completes?) then p
    else
      var stored := p.(files := p.files[INITIAL := csv]);
      if ending.MetaFails? then stored else stored.(state := Ready, total := CountRows(csv))
  }

  function ApplyIssue(p: Pool, name: string, csv: string, ending: Ending): Pool {
    if !p.state.Ready? || ending.Rejected? || ending.BurnFails? then p
    else
      var paid := p.(burned := p.burned + 1);
      if ending.BurnUnconfirmed? || ending.CsvFails? then paid
      else
        var stored := paid.(files := p.files[name := csv]);
        if ending.MetaFails? then stored else stored.(total := p.total + CountRows(csv))
  }

  function Apply(p: Pool, call: Call): Pool {
    match call
    case Initialize(csv, ending) => ApplyInitialize(p, csv, ending)
    case Issue(name, csv, ending) => ApplyIssue(p, name, csv, ending)
  }

  const NEW_POOL := Pool(NeedsInit, 0, map[], 0)

  function Run(calls: seq<Call>): Pool {
    if calls == [] then NEW_POOL else Apply(Run(calls[..|calls| - 1]), calls[|calls| - 1])
  }

  /** Record identifiers are new UUIDs. */
  predicate FreshNames(calls: seq<Call>) {
    && (forall i | 0 <= i < |calls| && calls[i].Issue? :: calls[i].name != INITIAL)
    && (forall i, j | 0 <= i < j < |calls| && calls[i].Issue? && calls[j].Issue? :: calls[i].name != calls[j].name)
  }

  /** The orphans, files stored without entering the total, after one more call. */
  function OrphansAfter(p: Pool, orphans: set<string>, call: Call): set<string> {
    match call
    case Initialize(_, ending) =>
      if p.state.NeedsInit? && ending.MetaFails? then orphans + {INITIAL}
      else if p.state.NeedsInit? && ending.Completes? then orphans - {INITIAL}
      else orphans
    case Issue(name, _, ending) =>
      if p.state.Ready? && ending.MetaFails? then orphans + {name} else orphans
  }

  function Orphans(calls: seq<Call>): set<string> {
    if calls == [] then {}
    else OrphansAfter(Run(calls[..|calls| - 1]), Orphans(calls[..|calls| - 1]), calls[|calls| - 1])
  }

  // --------------------------------------------------------- sums over files

  /** The rows of the named files. */
  function RowsIn(names: set<string>, files: map<string, string>): nat
    requires names <= files.Keys
    decreases |names|
  {
    if names == {} then 0
    else
      var k := Least(names);
      CountRows(files[k]) + RowsIn(names - {k}, files)
  }

  lemma {:induction false} RowsInRemove(names: set<string>, k: string, files: map<string, string>)
    requires names <= files.Keys && k in names
    ensures RowsIn(names, files) == CountRows(files[k]) + RowsIn(names - {k}, files)
    decreases |names|
  {
    hide CountRows, Less;
    var first := Least(names);
    if first != k {
      RowsInRemove(names - {first}, k, files);
      RowsInRemove(names - {k}, first, files);
      assert names - {first} - {k} == names - {k} - {first};
    }
  }

  lemma RowsInAdd(names: set<string>, k: string, files: map<string, string>)
    requires names <= files.Keys && k in files && k !in names
    ensures RowsIn(names + {k}, files) == CountRows(files[k]) + RowsIn(names, files)
  {
    hide CountRows, RowsIn;
    RowsInRemove(names + {k}, k, files);
    assert names + {k} - {k} == names;
  }

  lemma {:induction false} RowsInFrame(names: set<string>, a: map<string, string>, b: map<string, string>)
    requires names <= a.Keys && names <= b.Keys && forall k | k in names :: a[k] == b[k]
    ensures RowsIn(names, a) == RowsIn(names, b)
    decreases |names|
  {
    hide CountRows, Less;
    if names != {} {
      RowsInFrame(names - {Least(names)}, a, b);
    }
  }

  lemma {:induction false} RowsInSplit(whole: set<string>, part: set<string>, files: map<string, string>)
    requires part <= whole <= files.Keys
    ensures RowsIn(whole, files) == RowsIn(part, files) + RowsIn(whole - part, files)
    decreases |part|
  {
    hide CountRows, Less;
    if part == {} {
      assert whole - part == whole;
    } else {
      var k := Least(part);
      RowsInSplit(whole - {k}, part - {k}, files);
      RowsInRemove(whole, k, files);
      assert whole - {k} - (part - {k}) == whole - part;
    }
  }

  /** The contents of the named files in path order. */
  function InOrder(names: seq<string>, files: map<string, string>): seq<string>
    requires forall n | n in names :: n in files
  {
    seq(|names|, i requires 0 <= i < |names| => (assert names[i] in names; files[names[i]]))
  }

  function Dataset(files: map<string, string>): seq<string> {
    InOrder(SortedKeys(files.Keys), files)
  }

  lemma InOrderStep(k: string, rest: seq<string>, files: map<string, string>)
    requires k in files && forall n | n in rest :: n in files
    ensures SumRows(InOrder([k] + rest, files)) == CountRows(files[k]) + SumRows(InOrder(rest, files))
  {
    hide CountRows;
    var all := InOrder([k] + rest, files);
    assert all[1..] == InOrder(rest, files);
  }

  lemma {:induction false} RowsInOrder(names: set<string>, files: map<string, string>)
    requires names <= files.Keys
    ensures SumRows(InOrder(SortedKeys(names), files)) == RowsIn(names, files)
    decreases |names|
  {
    hide CountRows, Less, IsLeast, Sorted;
    if names != {} {
      var k := Least(names);
      RowsInOrder(names - {k}, files);
      InOrderStep(k, SortedKeys(names - {k}), files);
    }
  }

  // -------------------------------------------------------------- conservation

  /** What every serial run keeps. */
  ghost predicate Balanced(p: Pool, orphans: set<string>) {
    && orphans <= p.files.Keys
    && p.total == RowsIn(p.files.Keys - orphans, p.files)
    && (p.state.NeedsInit? ==> p.files.Keys == orphans && orphans <= {INITIAL})
    && |p.files.Keys - {INITIAL}| <= p.burned
  }

  lemma NothingIn(files: map<string, string>)
    ensures RowsIn({}, files) == 0
  {
  }

  /** The rows of a dataset that consists of the initial file. */
  lemma InitialRows(files: map<string, string>)
    requires files.Keys == {INITIAL}
    ensures RowsIn({INITIAL}, files) == CountRows(files[INITIAL])
  {
    hide CountRows, RowsIn;
    NothingIn(files);
    RowsInAdd({}, INITIAL, files);
    assert {} + {INITIAL} == {INITIAL};
  }

  lemma InitializeKeepsBalance(p: Pool, orphans: set<string>, csv: string, ending: Ending)
    requires Balanced(p, orphans)
    ensures Balanced(ApplyInitialize(p, csv, ending), OrphansAfter(p, orphans, Initialize(csv, ending)))
  {
    hide CountRows, RowsIn;
    if p.state.NeedsInit? && (ending.MetaFails? || ending.Completes?) {
      var files := p.files[INITIAL := csv];
      assert files.Keys == {INITIAL};
      NothingIn(p.files);
      NothingIn(files);
      InitialRows(files);
      assert p.files.Keys - orphans == {};
      assert files.Keys - {INITIAL} == {};
      assert orphans - {INITIAL} == {} && orphans + {INITIAL} == {INITIAL};
      assert files.Keys - {} == {INITIAL};
    }
  }

  lemma NewFileRows(before: map<string, string>, counted: set<string>, name: string, csv: string)
    requires counted <= before.Keys && name !in before
    ensures
      var files := before[name := csv];
      && RowsIn(counted, files) == RowsIn(counted, before)
      && RowsIn(counted + {name}, files) == RowsIn(counted, before) + CountRows(csv)
  {
    hide CountRows, RowsIn;
    var files := before[name := csv];
    RowsInFrame(counted, before, files);
    RowsInAdd(counted, name, files);
  }

  lemma NewFileNames(names: set<string>, newNames: set<string>, orphans: set<string>, name: string)
    requires orphans <= names && name !in names && name != INITIAL && newNames == names + {name}
    ensures newNames - (orphans + {name}) == names - orphans
    ensures newNames - orphans == (names - orphans) + {name}
    ensures |newNames - {INITIAL}| == |names - {INITIAL}| + 1
  {
    assert newNames - {INITIAL} == (names - {INITIAL}) + {name};
  }

  /** A new file is either counted or one more orphan. */
  lemma NewFile(before: map<string, string>, orphans: set<string>, name: string, csv: string)
    requires orphans <= before.Keys && name !in before && name != INITIAL
    ensures
      var files := before[name := csv];
      && RowsIn(files.Keys - (orphans + {name}), files) == RowsIn(before.Keys - orphans, before)
      && RowsIn(files.Keys - orphans, files) == RowsIn(before.Keys - orphans, before) + CountRows(csv)
      && |files.Keys - {INITIAL}| == |before.Keys - {INITIAL}| + 1
  {
    hide CountRows, RowsIn;
    var names, newNames := before.Keys, before[name := csv].Keys;
    assert newNames == names + {name};
    NewFileNames(names, newNames, orphans, name);
    NewFileRows(before, names - orphans, name, csv);
  }

  lemma BurnKeepsBalance(p: Pool, orphans: set<string>)
    requires Balanced(p, orphans)
    ensures Balanced(p.(burned := p.burned + 1), orphans)
  {
    hide RowsIn;
  }

  lemma StoredKeepsBalance(p: Pool, orphans: set<string>, name: string, csv: string, counted: bool)
    requires Balanced(p, orphans) && p.state.Ready? && name !in p.files && name != INITIAL
    ensures
      var stored := p.(burned := p.burned + 1, files := p.files[name := csv]);
      if counted then Balanced(stored.(total := p.total + CountRows(csv)), orphans)
      else Balanced(stored, orphans + {name})
  {
    hide CountRows, RowsIn;
    NewFile(p.files, orphans, name, csv);
  }

  lemma IssueKeepsBalance(p: Pool, orphans: set<string>, name: string, csv: string, ending: Ending)
    requires Balanced(p, orphans) && name !in p.files && name != INITIAL
    ensures Balanced(ApplyIssue(p, name, csv, ending), OrphansAfter(p, orphans, Issue(name, csv, ending)))
  {
    hide CountRows, Balanced;
    BurnKeepsBalance(p, orphans);
    if p.state.Ready? && (ending.MetaFails? || ending.Completes?) {
      StoredKeepsBalance(p, orphans, name, csv, ending.Completes?);
    }
  }

  predicate Issued(calls: seq<Call>, name: string) {
    exists i | 0 <= i < |calls| :: calls[i].Issue? && calls[i].name == name
  }

  /** Only the initial dataset and issued records are ever stored. */
  lemma {:induction false} StoredNames(calls: seq<Call>)
    ensures forall n | n in Run(calls).files :: n == INITIAL || Issued(calls, n)
  {
    hide CountRows;
    if calls != [] {
      var front, last := calls[..|calls| - 1], |calls| - 1;
      StoredNames(front);
      forall n | n in Run(calls).files ensures n == INITIAL || Issued(calls, n) {
        if n in Run(front).files && n != INITIAL {
          var i :| 0 <= i < |front| && front[i].Issue? && front[i].name == n;
          assert calls[i] == front[i];
        } else if n != INITIAL {
          assert calls[last].Issue? && calls[last].name == n;
        }
      }
    }
  }

  lemma NextNameIsNew(calls: seq<Call>)
    requires FreshNames(calls) && calls != [] && calls[|calls| - 1].Issue?
    ensures calls[|calls| - 1].name !in Run(calls[..|calls| - 1]).files
    ensures calls[|calls| - 1].name != INITIAL
  {
    hide Run;
    var front, name := calls[..|calls| - 1], calls[|calls| - 1].name;
    StoredNames(front);
    assert forall i | 0 <= i < |front| :: front[i] == calls[i];
  }

  lemma NewPoolIsBalanced()
    ensures Balanced(NEW_POOL, {})
  {
    assert NEW_POOL.files.Keys - {} == {} && NEW_POOL.files.Keys - {INITIAL} == {};
  }

  lemma {:induction false} EveryRunIsBalanced(calls: seq<Call>)
    requires FreshNames(calls)
    ensures Balanced(Run(calls), Orphans(calls))
  {
    hide CountRows, RowsIn, Balanced;
    if calls == [] {
      NewPoolIsBalanced();
    } else {
      var front := calls[..|calls| - 1];
      EveryRunIsBalanced(front);
      match calls[|calls| - 1] {
        case Initialize(csv, ending) => InitializeKeepsBalance(Run(front), Orphans(front), csv, ending);
        case Issue(name, csv, ending) =>
          NextNameIsNew(calls);
          IssueKeepsBalance(Run(front), Orphans(front), name, csv, ending);
      }
    }
  }

  /** In every serial run the total falls short of the stored rows by exactly the rows of the orphans. */
  lemma TotalPlusOrphans(calls: seq<Call>)
    requires FreshNames(calls)
    ensures Orphans(calls) <= Run(calls).files.Keys
    ensures Run(calls).total + RowsIn(Orphans(calls), Run(calls).files) == SumRows(Dataset(Run(calls).files))
  {
    hide CountRows, RowsIn, Run, Orphans, SortedKeys;
    EveryRunIsBalanced(calls);
    var p := Run(calls);
    RowsInSplit(p.files.Keys, Orphans(calls), p.files);
    RowsInOrder(p.files.Keys, p.files);
  }

  lemma {:induction false} NoOrphans(calls: seq<Call>)
    requires forall i | 0 <= i < |calls| :: !calls[i].ending.MetaFails?
    ensures Orphans(calls) == {}
  {
    if calls != [] {
      NoOrphans(calls[..|calls| - 1]);
    }
  }

  /** The total never exceeds the stored rows, and equals them when no metadata write failed. */
  lemma TotalAgainstFiles(calls: seq<Call>)
    requires FreshNames(calls)
    ensures Run(calls).total <= SumRows(Dataset(Run(calls).files))
    ensures (forall i | 0 <= i < |calls| :: !calls[i].ending.MetaFails?) ==>
              Run(calls).total == SumRows(Dataset(Run(calls).files))
  {
    hide CountRows, RowsIn, Run, Orphans, Dataset;
    TotalPlusOrphans(calls);
    if forall i | 0 <= i < |calls| :: !calls[i].ending.MetaFails? {
      NoOrphans(calls);
      NothingIn(Run(calls).files);
    }
  }

  /**
   In every serial run the total and the rows of the orphans together are the rows of the
   concatenation given to the script exactly when the number of files that hide rows under a
   blank first line is 1, if the first non-empty file starts with a blank line and any file
   has a row, and 0 otherwise.
   */
  lemma TotalAgainstConcatenation(calls: seq<Call>)
    requires FreshNames(calls)
    ensures
      var dataset := Dataset(Run(calls).files);
      && Orphans(calls) <= Run(calls).files.Keys
      && (Run(calls).total + RowsIn(Orphans(calls), Run(calls).files) == CountRows(Concat(dataset)) <==>
          MisheadedFiles(dataset) == if FirstHeaderBlank(dataset) && SumBodyRows(dataset) > 0 then 1 else 0)
  {
    hide CountRows, Concat, Run, Orphans, RowsIn, SumRows, Dataset, MisheadedFiles, FirstHeaderBlank, SumBodyRows;
    TotalPlusOrphans(calls);
    RowsAgreeExactly(Dataset(Run(calls).files));
  }

  /** No more records are stored than append tokens were burned, the initial dataset apart. */
  lemma StoredAtMostBurned(calls: seq<Call>)
    requires FreshNames(calls)
    ensures |Run(calls).files.Keys - {INITIAL}| <= Run(calls).burned
  {
    hide Run;
    EveryRunIsBalanced(calls);
  }

  // ------------------------------------------------ what a run leaves, from its calls

  predicate Stores(ending: Ending) {
    ending.MetaFails? || ending.Completes?
  }

  /** Some earlier initialisation completed. */
  predicate ReadyAt(calls: seq<Call>, k: nat) {
    exists j | 0 <= j < Min(k, |calls|) :: calls[j].Initialize? && calls[j].ending.Completes?
  }

  /** Call k writes its CSV: an initialisation before one completed, or an issuance after it. */
  predicate StoredAt(calls: seq<Call>, k: nat) {
    && k < |calls| && Stores(calls[k].ending)
    && (calls[k].Initialize? <==> !ReadyAt(calls, k))
  }

  predicate CompletedAt(calls: seq<Call>, k: nat) {
    StoredAt(calls, k) && calls[k].ending.Completes?
  }

  /** Call k burns an append token. */
  predicate BurnedAt(calls: seq<Call>, k: nat) {
    && k < |calls| && calls[k].Issue? && ReadyAt(calls, k)
    && !calls[k].ending.Rejected? && !calls[k].ending.BurnFails?
  }

  function NameOf(call: Call): string {
    if call.Initialize? then INITIAL else call.name
  }

  /** The rows of the calls that completed. */
  function CompletedRows(calls: seq<Call>): nat {
    if calls == [] then 0
    else
      var last := |calls| - 1;
      CompletedRows(calls[..last]) + if CompletedAt(calls, last) then CountRows(calls[last].csv) else 0
  }

  lemma ReadyStep(calls: seq<Call>)
    requires calls != []
    ensures
      var last := |calls| - 1;
      && ReadyAt(calls[..last], last) == ReadyAt(calls, last)
      && (ReadyAt(calls, |calls|) <==>
          ReadyAt(calls, last) || (calls[last].Initialize? && calls[last].ending.Completes?))
  {
    var last := |calls| - 1;
    assert forall j | 0 <= j < last :: calls[..last][j] == calls[j];
  }

  lemma {:induction false} ReadyIsReached(calls: seq<Call>)
    ensures Run(calls).state.Ready? <==> ReadyAt(calls, |calls|)
  {
    hide CountRows;
    if calls != [] {
      ReadyIsReached(calls[..|calls| - 1]);
      ReadyStep(calls);
    }
  }

  /** In every run the total is the rows of the calls that completed, computed from their CSVs. */
  lemma {:induction false} TotalIsCompletedRows(calls: seq<Call>)
    ensures Run(calls).total == CompletedRows(calls)
    ensures Run(calls).state.NeedsInit? ==> Run(calls).total == 0
  {
    hide CountRows, ReadyAt;
    if calls != [] {
      var last := |calls| - 1;
      TotalIsCompletedRows(calls[..last]);
      ReadyIsReached(calls[..last]);
      ReadyStep(calls);
    }
  }

  function BurnedCalls(calls: seq<Call>): set<nat> {
    set k | 0 <= k < |calls| && BurnedAt(calls, k)
  }

  lemma PrefixBurns(calls: seq<Call>, k: nat)
    requires calls != [] && k < |calls| - 1
    ensures BurnedAt(calls[..|calls| - 1], k) == BurnedAt(calls, k)
  {
    var front := calls[..|calls| - 1];
    assert forall j | 0 <= j < |front| :: front[j] == calls[j];
  }

  lemma BurnedCallsStep(calls: seq<Call>)
    requires calls != []
    ensures
      var last := |calls| - 1;
      |BurnedCalls(calls)| == |BurnedCalls(calls[..last])| + if BurnedAt(calls, last) then 1 else 0
  {
    hide BurnedAt;
    var last := |calls| - 1;
    forall k | 0 <= k < last ensures BurnedAt(calls[..last], k) == BurnedAt(calls, k) {
      PrefixBurns(calls, k);
    }
    assert BurnedCalls(calls) == BurnedCalls(calls[..last]) + if BurnedAt(calls, last) then {last} else {};
  }

  /** In every run the number of burned tokens is the number of calls that burned one. */
  lemma {:induction false} BurnsAreCounted(calls: seq<Call>)
    ensures Run(calls).burned == |BurnedCalls(calls)|
  {
    hide CountRows, ReadyAt;
    if calls == [] {
      assert BurnedCalls(calls) == {};
    } else {
      var last := |calls| - 1;
      var front := calls[..last];
      BurnsAreCounted(front);
      ReadyIsReached(front);
      ReadyStep(calls);
      BurnedCallsStep(calls);
    }
  }

  /** No later call stores under the name of call k. */
  predicate LastUnderName(calls: seq<Call>, k: nat)
    requires k < |calls|
  {
    forall j | k < j < |calls| && NameOf(calls[j]) == NameOf(calls[k]) :: !StoredAt(calls, j)
  }

  lemma StoredStep(calls: seq<Call>)
    requires calls != []
    ensures
      var last := |calls| - 1;
      Run(calls).files ==
      if StoredAt(calls, last) then Run(calls[..last]).files[NameOf(calls[last]) := calls[last].csv]
      else Run(calls[..last]).files
  {
    hide CountRows, ReadyAt;
    ReadyIsReached(calls[..|calls| - 1]);
    ReadyStep(calls);
  }

  lemma StoredInPrefix(calls: seq<Call>, k: nat)
    requires calls != [] && k < |calls| - 1
    ensures StoredAt(calls[..|calls| - 1], k) == StoredAt(calls, k)
  {
    var front := calls[..|calls| - 1];
    assert forall j | 0 <= j < |front| :: front[j] == calls[j];
  }

  lemma StoredCallExists(calls: seq<Call>, k: nat)
    requires StoredAt(calls, k)
    ensures k < |calls|
  {
  }

  /** In every run the CSV of the last call that stored under a name is what the file holds. */
  lemma {:induction false} StoredFileStays(calls: seq<Call>, k: nat)
    requires StoredAt(calls, k) && LastUnderName(calls, k)
    ensures NameOf(calls[k]) in Run(calls).files && Run(calls).files[NameOf(calls[k])] == calls[k].csv
    decreases |calls|
  {
    hide Run, StoredAt;
    StoredCallExists(calls, k);
    var last := |calls| - 1;
    StoredStep(calls);
    if k < last {
      var front := calls[..last];
      StoredInPrefix(calls, k);
      forall j | k < j < |front| && NameOf(front[j]) == NameOf(front[k]) ensures !StoredAt(front, j) {
        StoredInPrefix(calls, j);
      }
      StoredFileStays(front, k);
    }
  }

  /** With new record names every stored issuance keeps its CSV for good. */
  lemma IssuedFileStays(calls: seq<Call>, k: nat)
    requires FreshNames(calls) && k < |calls| && calls[k].Issue? && ReadyAt(calls, k) && Stores(calls[k].ending)
    ensures calls[k].name in Run(calls).files && Run(calls).files[calls[k].name] == calls[k].csv
  {
    hide Run, ReadyAt;
    StoredFileStays(calls, k);
  }

  lemma NewPoolHasNoFiles()
    ensures Run([]).files == map[]
  {
  }

  /** In every run a file exists exactly when some call stored under its name. */
  lemma {:induction false} FilesComeFromCalls(calls: seq<Call>, name: string)
    ensures name in Run(calls).files <==>
            exists k | 0 <= k < |calls| :: StoredAt(calls, k) && NameOf(calls[k]) == name
  {
    hide Run, StoredAt;
    if calls == [] {
      NewPoolHasNoFiles();
    } else {
      var last := |calls| - 1;
      var front := calls[..last];
      FilesComeFromCalls(front, name);
      StoredStep(calls);
      forall k | 0 <= k < last ensures StoredAt(front, k) == StoredAt(calls, k) && front[k] == calls[k] {
        StoredInPrefix(calls, k);
      }
    }
  }

  // ------------------------------------------------------------- the handlers

  class PoolStore {
    var state: PoolState
    var total: nat
    var files: map<string, string>
    var burned: nat

    ghost function View(): Pool
      reads this
    {
      Pool(state, total, files, burned)
    }

    constructor ()
      ensures View() == NEW_POOL
    {
      state, total, files, burned := NeedsInit, 0, map[], 0;
    }

    method InitializePool(csv: string, ending: Ending) returns (ok: bool)
      modifies this
      ensures View() == Apply(old(View()), Initialize(csv, ending))
      ensures ok <==> old(state).NeedsInit? && ending.Completes?
    {
      if !state.NeedsInit? || ending.Rejected? {
        return false;
      }
      var rows := CountRows(csv);
      if !ending.MetaFails? && !ending.Completes? {
        return false;
      }
      files := files[INITIAL := csv];
      if ending.MetaFails? {
        return false;
      }
      state, total := Ready, rows;
      return true;
    }

    method IssueCredentials(name: string, csv: string, ending: Ending) returns (ok: bool)
      modifies this
      ensures View() == Apply(old(View()), Issue(name, csv, ending))
      ensures ok <==> old(state).Ready? && ending.Completes?
    {
      if !state.Ready? || ending.Rejected? {
        return false;
      }
      var rows := CountRows(csv);
      if ending.BurnFails? {
        return false;
      }
      burned := burned + 1;
      if ending.BurnUnconfirmed? || ending.CsvFails? {
        return false;
      }
      files := files[name := csv];
      if ending.MetaFails? {
        return false;
      }
      total := total + rows;
      return true;
    }
  }
}

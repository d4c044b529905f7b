/**
 Any number of issuances on one pool, interleaved step by step. The balance is checked before
 the per-pool lock is taken; everything from the burn to the metadata update happens under it.
 Revocations also update the pool metadata, but take no lock.
 */
module IssuanceLock {
  import opened Basics

  datatype Meta = Meta(total: nat, revoked: nat)

  /** Where an issuance stands. `Leaving` still holds the lock after a failure or after the update. */
  datatype Stage = Idle | Checked | Holding | Burned | Stored | Loaded(copy: Meta) | Leaving | Finished

  /** `credited` once its rows have been written into the pool metadata. */
  datatype Thread = Thread(rows: nat, stage: Stage, credited: bool)

  datatype RevokeStage = RevokeIdle | RevokeLoaded(copy: Meta) | RevokeDone
  datatype Revoker = Revoker(count: nat, stage: RevokeStage)

  /** The record of issuance i, its file and its burn receipt, are all named by i: record ids are new UUIDs. */
  datatype State = State(
    balance: nat, meta: Meta, lock: Option<nat>,
    burns: set<nat>, files: set<nat>,
    threads: seq<Thread>, revokers: seq<Revoker>)

  /** An unconfirmed burn has taken effect on the chain, but the request takes it for a failure. */
  datatype BurnOutcome = NotBurned | Unconfirmed | Confirmed

  /** One atomic step; `ok` says whether the chain or the storage carries it out. */
  datatype Action =
    | CheckBalance(i: nat)
    | Acquire(i: nat)
    | Burn(i: nat, outcome: BurnOutcome)
    | Store(i: nat, ok: bool)
    | Load(i: nat, ok: bool)
    | Save(i: nat, ok: bool)
    | Release(i: nat)
    | RevokeLoad(k: nat)
    | RevokeSave(k: nat)

  function SetStage(s: State, i: nat, stage: Stage): State
    requires i < |s.threads|
  {
    s.(threads := s.threads[i := s.threads[i].(stage := stage)])
  }

  /** The chain burns a token only while the balance lasts. */
  function DoBurn(s: State, i: nat, outcome: BurnOutcome): State
    requires i < |s.threads|
  {
    if outcome.NotBurned? || s.balance < 1 then SetStage(s, i, Leaving)
    else SetStage(s.(balance := s.balance - 1, burns := s.burns + {i}), i,
                  if outcome.Confirmed? then Burned else Leaving)
  }

  /** The metadata is replaced by the loaded copy with the rows added. */
  function DoSave(s: State, i: nat, ok: bool, copy: Meta): State
    requires i < |s.threads|
  {
    if ok then
      var t := s.threads[i];
      s.(meta := copy.(total := copy.total + t.rows), threads := s.threads[i := Thread(t.rows, Leaving, true)])
    else SetStage(s, i, Leaving)
  }

  function IssueStep(s: State, a: Action, i: nat): State
    requires i < |s.threads|
  {
    match (a, s.threads[i].stage)
    case (CheckBalance(_), Idle) => SetStage(s, i, if s.balance >= 1 then Checked else Finished)
    case (Acquire(_), Checked) => if s.lock.None? then SetStage(s.(lock := Some(i)), i, Holding) else s
    case (Burn(_, outcome), Holding) => DoBurn(s, i, outcome)
    case (Store(_, ok), Burned) =>
      if ok then SetStage(s.(files := s.files + {i}), i, Stored) else SetStage(s, i, Leaving)
    case (Load(_, ok), Stored) => SetStage(s, i, if ok then Loaded(s.meta) else Leaving)
    case (Save(_, ok), Loaded(copy)) => DoSave(s, i, ok, copy)
    case (Release(_), Leaving) => SetStage(s.(lock := None), i, Finished)
    case _ => s
  }

  function RevokeStep(s: State, a: Action, k: nat): State
    requires k < |s.revokers|
  {
    match (a, s.revokers[k].stage)
    case (RevokeLoad(_), RevokeIdle) =>
      s.(revokers := s.revokers[k := s.revokers[k].(stage := RevokeLoaded(s.meta))])
    case (RevokeSave(_), RevokeLoaded(copy)) =>
      s.(meta := copy.(revoked := copy.revoked + s.revokers[k].count),
         revokers := s.revokers[k := s.revokers[k].(stage := RevokeDone)])
    case _ => s
  }

  predicate IsRevoke(a: Action) {
    a.RevokeLoad? || a.RevokeSave?
  }

  /** A step that is not enabled changes nothing, so every sequence of actions is an interleaving. */
  function Step(s: State, a: Action): State {
    if IsRevoke(a) then if a.k < |s.revokers| then RevokeStep(s, a, a.k) else s
    else if a.i < |s.threads| then IssueStep(s, a, a.i) else s
  }

  function Run(s: State, actions: seq<Action>): State {
    if actions == [] then s else Step(Run(s, actions[..|actions| - 1]), actions[|actions| - 1])
  }

  // -------------------------------------------------------------- invariant

  predicate InSection(stage: Stage) {
    stage.Holding? || stage.Burned? || stage.Stored? || stage.Loaded? || stage.Leaving?
  }

  /** The rows of the threads that have updated the metadata. */
  function CreditedRows(threads: seq<Thread>): nat {
    if threads == [] then 0
    else CreditedRows(threads[..|threads| - 1])
         + if threads[|threads| - 1].credited then threads[|threads| - 1].rows else 0
  }

  /** What a thread's stage says about the lock, its burn, its file and its credit. */
  predicate ThreadSafe(s: State, i: nat)
    requires i < |s.threads|
  {
    var t := s.threads[i];
    && (s.lock == Some(i) <==> InSection(t.stage))
    && (t.stage.Idle? || t.stage.Checked? || t.stage.Holding? ==> i !in s.burns)
    && (t.stage.Burned? ==> i in s.burns && i !in s.files)
    && (t.stage.Stored? || t.stage.Loaded? ==> i in s.files && !t.credited)
    && (i in s.files ==> i in s.burns)
    && (t.credited ==> i in s.files)
  }

  /** Holds in every interleaving, revocations included. */
  predicate Safe(s: State, supply: nat) {
    && (forall i | 0 <= i < |s.threads| :: ThreadSafe(s, i))
    && (forall i | i in s.burns :: i < |s.threads|) && (forall i | i in s.files :: i < |s.threads|)
    && |s.burns| + s.balance == supply
  }

  /** The total accounts for every issuance that saved. */
  predicate Accounted(s: State, base: nat) {
    s.meta.total == base + CreditedRows(s.threads)
  }

  lemma {:induction false} CreditedUpdate(threads: seq<Thread>, i: nat, t: Thread)
    requires i < |threads| && t.rows == threads[i].rows
    ensures CreditedRows(threads[i := t]) + (if threads[i].credited then t.rows else 0)
            == CreditedRows(threads) + if t.credited then t.rows else 0
  {
    var last := |threads| - 1;
    if i == last {
      assert threads[i := t][..last] == threads[..last];
    } else {
      CreditedUpdate(threads[..last], i, t);
      assert threads[i := t][..last] == threads[..last][i := t];
    }
  }

  /** Another thread stays safe while thread i, the only one in the section, moves. */
  lemma OthersStaySafe(s: State, n: State, i: nat)
    requires |n.threads| == |s.threads| && i < |s.threads|
    requires forall j | 0 <= j < |s.threads| :: ThreadSafe(s, j)
    requires forall j | 0 <= j < |s.threads| && j != i :: n.threads[j] == s.threads[j]
    requires forall j | j != i :: (j in n.burns <==> j in s.burns) && (j in n.files <==> j in s.files)
    requires n.lock == s.lock || (s.lock == None && n.lock == Some(i)) || (s.lock == Some(i) && n.lock == None)
    ensures forall j | 0 <= j < |s.threads| && j != i :: ThreadSafe(n, j)
  {
    forall j | 0 <= j < |s.threads| && j != i ensures ThreadSafe(n, j) {
      assert ThreadSafe(s, j);
    }
  }

  /** What a step of thread i leaves alone. */
  lemma IssueStepFrame(s: State, a: Action, i: nat)
    requires i < |s.threads| && ThreadSafe(s, i)
    ensures
      var n := IssueStep(s, a, i);
      && |n.threads| == |s.threads|
      && (forall j | 0 <= j < |s.threads| && j != i :: n.threads[j] == s.threads[j])
      && (n.burns == s.burns || n.burns == s.burns + {i}) && (n.files == s.files || n.files == s.files + {i})
      && (n.lock == s.lock || (s.lock == None && n.lock == Some(i)) || (s.lock == Some(i) && n.lock == None))
  {
  }

  lemma IssueStepThread(s: State, a: Action, i: nat)
    requires i < |s.threads| && ThreadSafe(s, i)
    ensures i < |IssueStep(s, a, i).threads| && ThreadSafe(IssueStep(s, a, i), i)
  {
  }

  lemma IssueStepTokens(s: State, a: Action, i: nat)
    requires i < |s.threads| && ThreadSafe(s, i)
    ensures
      var n := IssueStep(s, a, i);
      |n.burns| + n.balance == |s.burns| + s.balance
  {
    var n := IssueStep(s, a, i);
    if n.burns != s.burns {
      assert |s.burns + {i}| == |s.burns| + 1;
    }
  }

  lemma IssueStepIsSafe(s: State, a: Action, i: nat, supply: nat)
    requires Safe(s, supply) && i < |s.threads|
    ensures Safe(IssueStep(s, a, i), supply)
  {
    hide IssueStep, ThreadSafe;
    var n := IssueStep(s, a, i);
    assert ThreadSafe(s, i);
    IssueStepFrame(s, a, i);
    IssueStepThread(s, a, i);
    IssueStepTokens(s, a, i);
    OthersStaySafe(s, n, i);
  }

  lemma StepIsSafe(s: State, a: Action, supply: nat)
    requires Safe(s, supply)
    ensures Safe(Step(s, a), supply)
  {
    hide IssueStep;
    if IsRevoke(a) {
      var n := Step(s, a);
      assert n.threads == s.threads;
      forall i | 0 <= i < |n.threads| ensures ThreadSafe(n, i) {
        assert ThreadSafe(s, i);
      }
    } else if a.i < |s.threads| {
      IssueStepIsSafe(s, a, a.i, supply);
    }
  }

  lemma {:induction false} EveryInterleavingIsSafe(s: State, actions: seq<Action>, supply: nat)
    requires Safe(s, supply)
    ensures Safe(Run(s, actions), supply)
  {
    hide Safe, Step;
    if actions != [] {
      EveryInterleavingIsSafe(s, actions[..|actions| - 1], supply);
      StepIsSafe(Run(s, actions[..|actions| - 1]), actions[|actions| - 1], supply);
    }
  }

  /** Every copy of the metadata an issuance holds is the current metadata. */
  predicate CopiesCurrent(s: State) {
    forall i | 0 <= i < |s.threads| && s.threads[i].stage.Loaded? :: s.threads[i].stage.copy == s.meta
  }

  /** A pool before any of the given issuances has started. */
  predicate Start(s: State) {
    && s.lock == None && s.burns == {} && s.files == {}
    && forall i | 0 <= i < |s.threads| :: s.threads[i].stage == Idle && !s.threads[i].credited
  }

  lemma {:induction false} NothingCredited(threads: seq<Thread>)
    requires forall i | 0 <= i < |threads| :: !threads[i].credited
    ensures CreditedRows(threads) == 0
  {
    if threads != [] {
      NothingCredited(threads[..|threads| - 1]);
    }
  }

  lemma StartIsGood(s: State)
    requires Start(s)
    ensures Safe(s, s.balance) && Accounted(s, s.meta.total) && CopiesCurrent(s)
  {
    NothingCredited(s.threads);
  }

  lemma EmptyRun(s: State)
    ensures Run(s, []) == s
  {
  }

  lemma RunStep(s: State, actions: seq<Action>, k: nat)
    requires k < |actions|
    ensures Run(s, actions[..k + 1]) == Step(Run(s, actions[..k]), actions[k])
  {
    assert actions[..k + 1][..k] == actions[..k];
  }

  /** If the action writes the metadata, the copy it writes back still shows the current total. */
  predicate FreshWrite(s: State, a: Action) {
    match a
    case Save(i, ok) =>
      ok && i < |s.threads| && s.threads[i].stage.Loaded? ==> s.threads[i].stage.copy.total == s.meta.total
    case RevokeSave(k) =>
      k < |s.revokers| && s.revokers[k].stage.RevokeLoaded? ==> s.revokers[k].stage.copy.total == s.meta.total
    case _ => true
  }

  /** A step keeps the accounts exactly when its write is not stale. */
  lemma AccountsSurviveExactly(s: State, a: Action, supply: nat, base: nat)
    requires Safe(s, supply) && Accounted(s, base)
    ensures Accounted(Step(s, a), base) <==> FreshWrite(s, a)
  {
    hide CreditedRows;
    if !IsRevoke(a) && a.i < |s.threads| {
      var i, n := a.i, IssueStep(s, a, a.i);
      assert ThreadSafe(s, i);
      assert n.threads == s.threads[i := n.threads[i]];
      CreditedUpdate(s.threads, i, n.threads[i]);
    }
  }

  predicate AllWritesFresh(s: State, actions: seq<Action>) {
    forall k | 0 <= k < |actions| :: FreshWrite(Run(s, actions[..k]), actions[k])
  }

  predicate AccountedThrough(s: State, actions: seq<Action>) {
    forall n | 0 <= n <= |actions| :: Accounted(Run(s, actions[..n]), s.meta.total)
  }

  lemma {:induction false} FreshWritesKeepAccounts(s: State, actions: seq<Action>)
    requires Start(s) && AllWritesFresh(s, actions)
    ensures Accounted(Run(s, actions), s.meta.total)
  {
    hide Step, Safe, Accounted, FreshWrite;
    StartIsGood(s);
    if actions != [] {
      var front, last := actions[..|actions| - 1], |actions| - 1;
      assert forall k | 0 <= k < last :: front[..k] == actions[..k];
      FreshWritesKeepAccounts(s, front);
      EveryInterleavingIsSafe(s, front, s.balance);
      assert FreshWrite(Run(s, actions[..last]), actions[last]);
      AccountsSurviveExactly(Run(s, front), actions[last], s.balance, s.meta.total);
    }
  }

  /** All through an interleaving, revocations included, the total is right exactly when no write is stale. */
  lemma AccountedExactlyWhenFresh(s: State, actions: seq<Action>)
    requires Start(s)
    ensures AccountedThrough(s, actions) <==> AllWritesFresh(s, actions)
  {
    hide Run, Safe, Accounted, FreshWrite, Step;
    if AllWritesFresh(s, actions) {
      forall n | 0 <= n <= |actions| ensures Accounted(Run(s, actions[..n]), s.meta.total) {
        assert forall k | 0 <= k < n :: actions[..n][..k] == actions[..k];
        FreshWritesKeepAccounts(s, actions[..n]);
      }
    }
    if AccountedThrough(s, actions) {
      forall k | 0 <= k < |actions| ensures FreshWrite(Run(s, actions[..k]), actions[k]) {
        RunStep(s, actions, k);
        StartIsGood(s);
        EveryInterleavingIsSafe(s, actions[..k], s.balance);
        assert Accounted(Run(s, actions[..k]), s.meta.total) && Accounted(Run(s, actions[..k + 1]), s.meta.total);
        AccountsSurviveExactly(Run(s, actions[..k]), actions[k], s.balance, s.meta.total);
      }
    }
  }

  // --------------------------------------------- issuances alone, under the lock

  predicate NoRevocations(actions: seq<Action>) {
    forall k | 0 <= k < |actions| :: !IsRevoke(actions[k])
  }

  lemma IssueStepKeepsCopies(s: State, a: Action, supply: nat)
    requires Safe(s, supply) && CopiesCurrent(s) && !IsRevoke(a)
    ensures CopiesCurrent(Step(s, a)) && FreshWrite(s, a)
  {
    if a.i < |s.threads| {
      var i, n := a.i, Step(s, a);
      forall j | 0 <= j < |n.threads| && n.threads[j].stage.Loaded? ensures n.threads[j].stage.copy == n.meta {
        assert ThreadSafe(s, i) && ThreadSafe(s, j);
      }
    }
  }

  lemma {:induction false} LockKeepsCopiesCurrent(s: State, actions: seq<Action>)
    requires Start(s) && NoRevocations(actions)
    ensures CopiesCurrent(Run(s, actions)) && AllWritesFresh(s, actions)
  {
    hide Step, Safe, CopiesCurrent, FreshWrite;
    StartIsGood(s);
    if actions != [] {
      var front, last := actions[..|actions| - 1], |actions| - 1;
      LockKeepsCopiesCurrent(s, front);
      EveryInterleavingIsSafe(s, front, s.balance);
      IssueStepKeepsCopies(Run(s, front), actions[last], s.balance);
      forall k | 0 <= k < |actions| ensures FreshWrite(Run(s, actions[..k]), actions[k]) {
        assert k < last ==> front[..k] == actions[..k] && FreshWrite(Run(s, front[..k]), front[k]);
      }
    }
  }

  /**
   Issuances alone never lose an update: whatever the interleaving and the failures, the total
   is the initial total plus the rows of every issuance that saved.
   */
  lemma NoUpdateIsLost(s: State, actions: seq<Action>)
    requires Start(s) && NoRevocations(actions)
    ensures Run(s, actions).meta.total == s.meta.total + CreditedRows(Run(s, actions).threads)
  {
    hide Run;
    LockKeepsCopiesCurrent(s, actions);
    FreshWritesKeepAccounts(s, actions);
  }

  /** In every interleaving each stored record has its own burn, and records, burns and supply are ordered. */
  lemma StoredBurnedSupply(s: State, actions: seq<Action>)
    requires Start(s)
    ensures
      var n := Run(s, actions);
      && n.files <= n.burns && |n.files| <= |n.burns| <= s.balance && |n.burns| + n.balance == s.balance
      && (forall i | 0 <= i < |n.threads| && n.threads[i].credited :: i in n.files)
  {
    hide Run;
    StartIsGood(s);
    EveryInterleavingIsSafe(s, actions, s.balance);
    var n := Run(s, actions);
    forall i | i in n.files ensures i in n.burns {
      assert ThreadSafe(n, i);
    }
    SubsetSize(n.files, n.burns);
    forall i | 0 <= i < |n.threads| && n.threads[i].credited ensures i in n.files {
      assert ThreadSafe(n, i);
    }
  }

  /** At most one issuance is between acquiring and releasing the lock. */
  lemma MutualExclusion(s: State, actions: seq<Action>, i: nat, j: nat)
    requires Start(s)
    requires
      var n := Run(s, actions);
      i < |n.threads| && j < |n.threads| && InSection(n.threads[i].stage) && InSection(n.threads[j].stage)
    ensures i == j
  {
    hide Run;
    StartIsGood(s);
    EveryInterleavingIsSafe(s, actions, s.balance);
    assert ThreadSafe(Run(s, actions), i) && ThreadSafe(Run(s, actions), j);
  }

  /** A file appears only after its token was burned. */
  lemma BurnComesFirst(s: State, actions: seq<Action>, a: Action, i: nat)
    requires Start(s)
    requires i !in Run(s, actions).files && i in Step(Run(s, actions), a).files
    ensures i in Run(s, actions).burns
  {
    hide Run;
    StartIsGood(s);
    EveryInterleavingIsSafe(s, actions, s.balance);
    assert ThreadSafe(Run(s, actions), i);
  }

  // ------------------------------------------------------------- progress

  lemma {:induction false} RunPrepend(s: State, a: Action, rest: seq<Action>)
    ensures Run(s, [a] + rest) == Run(Step(s, a), rest)
  {
    hide Step;
    var all := [a] + rest;
    if rest == [] {
      assert all[..0] == [];
      EmptyRun(s);
      EmptyRun(Step(s, a));
    } else {
      var front := rest[..|rest| - 1];
      assert all[..|all| - 1] == [a] + front;
      RunPrepend(s, a, front);
    }
  }

  lemma OneStep(s: State, a: Action)
    ensures Run(s, [a]) == Step(s, a)
  {
    hide Step;
    assert [a] == [a] + [];
    RunPrepend(s, a, []);
    EmptyRun(Step(s, a));
  }

  lemma TwoSteps(s: State, a: Action, b: Action)
    ensures Run(s, [a, b]) == Step(Step(s, a), b)
  {
    hide Step;
    assert [a, b] == [a] + [b];
    RunPrepend(s, a, [b]);
    OneStep(Step(s, a), b);
  }

  /** The way out of the section for a thread whose next operation fails: that operation, then the release. */
  function WayOut(i: nat, stage: Stage): seq<Action>
    requires InSection(stage)
  {
    match stage
    case Holding => [Burn(i, NotBurned), Release(i)]
    case Burned => [Store(i, false), Release(i)]
    case Stored => [Load(i, false), Release(i)]
    case Loaded(_) => [Save(i, false), Release(i)]
    case Leaving => [Release(i)]
  }

  lemma LeavingStep(s: State, i: nat)
    requires i < |s.threads| && InSection(s.threads[i].stage) && !s.threads[i].stage.Leaving?
    ensures Step(s, WayOut(i, s.threads[i].stage)[0]) == SetStage(s, i, Leaving)
    ensures WayOut(i, s.threads[i].stage) == [WayOut(i, s.threads[i].stage)[0], Release(i)]
  {
  }

  lemma ReleaseStep(s: State, i: nat)
    requires i < |s.threads| && s.threads[i].stage.Leaving?
    ensures Step(s, Release(i)) == s.(lock := None, threads := s.threads[i := s.threads[i].(stage := Finished)])
  {
  }

  lemma WayOutWorks(s: State, i: nat)
    requires i < |s.threads| && InSection(s.threads[i].stage)
    ensures Run(s, WayOut(i, s.threads[i].stage)) ==
            s.(lock := None, threads := s.threads[i := s.threads[i].(stage := Finished)])
  {
    var stage := s.threads[i].stage;
    if stage.Leaving? {
      ReleaseStep(s, i);
      OneStep(s, Release(i));
    } else {
      hide Run, Step, WayOut;
      var left := SetStage(s, i, Leaving);
      LeavingStep(s, i);
      ReleaseStep(left, i);
      TwoSteps(s, WayOut(i, stage)[0], Release(i));
      assert left.threads[i := left.threads[i].(stage := Finished)] ==
             s.threads[i := s.threads[i].(stage := Finished)];
    }
  }

  /**
   In every reachable state the thread that holds the lock can finish by its own steps alone, which
   frees the lock and changes nothing else, and then any thread that waits for the lock gets it.
   */
  lemma LockIsGivenBack(s: State, actions: seq<Action>, i: nat)
    requires Start(s) && i < |Run(s, actions).threads| && Run(s, actions).lock == Some(i)
    ensures
      var n := Run(s, actions);
      && InSection(n.threads[i].stage)
      && var m := Run(n, WayOut(i, n.threads[i].stage));
      && m == n.(lock := None, threads := n.threads[i := n.threads[i].(stage := Finished)])
      && forall j | 0 <= j < |m.threads| && m.threads[j].stage.Checked? ::
           var got := Step(m, Acquire(j));
           got.lock == Some(j) && |got.threads| == |m.threads| && got.threads[j].stage == Holding
  {
    hide Run;
    StartIsGood(s);
    EveryInterleavingIsSafe(s, actions, s.balance);
    assert ThreadSafe(Run(s, actions), i);
    WayOutWorks(Run(s, actions), i);
  }

  /** While another thread holds the lock, acquiring changes nothing. */
  lemma HeldLockIsAwaited(s: State, i: nat)
    requires s.lock.Some?
    ensures Step(s, Acquire(i)) == s
  {
  }

  /** The operation at which an attempt fails, if any. */
  datatype StopPoint = AtBurn | AtConfirmation | AtStore | AtLoad | AtSave | Nowhere

  /** What an issuance does under the lock. */
  function Section(i: nat, p: StopPoint): seq<Action> {
    match p
    case AtBurn => [Burn(i, NotBurned), Release(i)]
    case AtConfirmation => [Burn(i, Unconfirmed), Release(i)]
    case AtStore => [Burn(i, Confirmed), Store(i, false), Release(i)]
    case AtLoad => [Burn(i, Confirmed), Store(i, true), Load(i, false), Release(i)]
    case AtSave => [Burn(i, Confirmed), Store(i, true), Load(i, true), Save(i, false), Release(i)]
    case Nowhere => [Burn(i, Confirmed), Store(i, true), Load(i, true), Save(i, true), Release(i)]
  }

  /** The steps of one issuance that finds a balance and a free lock. */
  function Attempt(i: nat, p: StopPoint): seq<Action> {
    [CheckBalance(i), Acquire(i)] + Section(i, p)
  }

  /** What an undisturbed attempt leaves behind: the token, the file, the rows and the free lock. */
  function AttemptLeaves(s: State, i: nat, p: StopPoint): State
    requires i < |s.threads| && s.balance >= 1
  {
    var t := s.threads[i];
    var burned, stored, saved := !p.AtBurn?, p.AtLoad? || p.AtSave? || p.Nowhere?, p.Nowhere?;
    State(if burned then s.balance - 1 else s.balance,
          if saved then s.meta.(total := s.meta.total + t.rows) else s.meta,
          None,
          if burned then s.burns + {i} else s.burns,
          if stored then s.files + {i} else s.files,
          s.threads[i := Thread(t.rows, Finished, saved || t.credited)],
          s.revokers)
  }

  /** The state `s` with thread i and the shared fields as given. */
  function With(s: State, i: nat, stage: Stage, credited: bool, balance: nat, meta: Meta, lock: Option<nat>,
                burns: set<nat>, files: set<nat>): State
    requires i < |s.threads|
  {
    State(balance, meta, lock, burns, files, s.threads[i := Thread(s.threads[i].rows, stage, credited)], s.revokers)
  }

  lemma StageStep(s: State, i: nat, a: Action, stage: Stage, next: Stage, c: bool, balance: nat, meta: Meta,
                  lock: Option<nat>, burns: set<nat>, files: set<nat>)
    requires i < |s.threads|
    requires
      || (a == CheckBalance(i) && stage == Idle && balance >= 1 && next == Checked)
      || (a == Burn(i, NotBurned) && stage == Holding && next == Leaving)
      || (a == Store(i, false) && stage == Burned && next == Leaving)
      || (a == Load(i, false) && stage == Stored && next == Leaving)
      || (a == Load(i, true) && stage == Stored && next == Loaded(meta))
      || (a == Save(i, false) && stage.Loaded? && next == Leaving)
    ensures Step(With(s, i, stage, c, balance, meta, lock, burns, files), a) ==
            With(s, i, next, c, balance, meta, lock, burns, files)
  {
    var t := s.threads[i := Thread(s.threads[i].rows, stage, c)];
    assert t[i := t[i].(stage := next)] == s.threads[i := Thread(s.threads[i].rows, next, c)];
  }

  lemma LockSteps(s: State, i: nat, c: bool, balance: nat, meta: Meta, burns: set<nat>, files: set<nat>)
    requires i < |s.threads|
    ensures Step(With(s, i, Checked, c, balance, meta, None, burns, files), Acquire(i)) ==
            With(s, i, Holding, c, balance, meta, Some(i), burns, files)
    ensures Step(With(s, i, Leaving, c, balance, meta, Some(i), burns, files), Release(i)) ==
            With(s, i, Finished, c, balance, meta, None, burns, files)
  {
    var t := s.threads[i := Thread(s.threads[i].rows, Checked, c)];
    var u := s.threads[i := Thread(s.threads[i].rows, Leaving, c)];
    assert t[i := t[i].(stage := Holding)] == s.threads[i := Thread(s.threads[i].rows, Holding, c)];
    assert u[i := u[i].(stage := Finished)] == s.threads[i := Thread(s.threads[i].rows, Finished, c)];
  }

  lemma BurnStep(s: State, i: nat, outcome: BurnOutcome, c: bool, balance: nat, meta: Meta, lock: Option<nat>,
                 burns: set<nat>, files: set<nat>)
    requires i < |s.threads| && balance >= 1 && !outcome.NotBurned?
    ensures Step(With(s, i, Holding, c, balance, meta, lock, burns, files), Burn(i, outcome)) ==
            With(s, i, if outcome.Confirmed? then Burned else Leaving, c, balance - 1, meta, lock, burns + {i}, files)
  {
    var t := s.threads[i := Thread(s.threads[i].rows, Holding, c)];
    var next := if outcome.Confirmed? then Burned else Leaving;
    assert t[i := t[i].(stage := next)] == s.threads[i := Thread(s.threads[i].rows, next, c)];
  }

  lemma StoreStep(s: State, i: nat, c: bool, balance: nat, meta: Meta, lock: Option<nat>, burns: set<nat>,
                  files: set<nat>)
    requires i < |s.threads|
    ensures Step(With(s, i, Burned, c, balance, meta, lock, burns, files), Store(i, true)) ==
            With(s, i, Stored, c, balance, meta, lock, burns, files + {i})
  {
    var t := s.threads[i := Thread(s.threads[i].rows, Burned, c)];
    assert t[i := t[i].(stage := Stored)] == s.threads[i := Thread(s.threads[i].rows, Stored, c)];
  }

  lemma SaveStep(s: State, i: nat, c: bool, balance: nat, meta: Meta, lock: Option<nat>, burns: set<nat>,
                 files: set<nat>)
    requires i < |s.threads|
    ensures Step(With(s, i, Loaded(meta), c, balance, meta, lock, burns, files), Save(i, true)) ==
            With(s, i, Leaving, true, balance, meta.(total := meta.total + s.threads[i].rows), lock, burns, files)
  {
    var t := s.threads[i := Thread(s.threads[i].rows, Loaded(meta), c)];
    var next := Thread(s.threads[i].rows, Leaving, true);
    assert t[i := next] == s.threads[i := next];
  }

  /** From the section on: the first operation, then the rest. */
  lemma SectionSteps(i: nat, p: StopPoint)
    ensures Attempt(i, p) == [CheckBalance(i)] + ([Acquire(i)] + Section(i, p))
    ensures
      match p
      case AtBurn => Section(i, p) == [Burn(i, NotBurned)] + [Release(i)]
      case AtConfirmation => Section(i, p) == [Burn(i, Unconfirmed)] + [Release(i)]
      case AtStore => Section(i, p) == [Burn(i, Confirmed)] + ([Store(i, false)] + [Release(i)])
      case _ => Section(i, p) == [Burn(i, Confirmed)] + ([Store(i, true)] + Section(i, p)[2..])
  {
  }

  lemma SavingSteps(i: nat, p: StopPoint)
    requires p.AtLoad? || p.AtSave? || p.Nowhere?
    ensures |Section(i, p)| >= 2
    ensures
      match p
      case AtLoad => Section(i, p)[2..] == [Load(i, false)] + [Release(i)]
      case AtSave => Section(i, p)[2..] == [Load(i, true)] + ([Save(i, false)] + [Release(i)])
      case _ => Section(i, p)[2..] == [Load(i, true)] + ([Save(i, true)] + [Release(i)])
  {
  }

  lemma WithItself(s: State, i: nat)
    requires i < |s.threads|
    ensures With(s, i, s.threads[i].stage, s.threads[i].credited, s.balance, s.meta, s.lock, s.burns, s.files) == s
  {
    assert s.threads[i := s.threads[i]] == s.threads;
  }

  lemma Released(s: State, i: nat, c: bool, b: nat, m: Meta, u: set<nat>, f: set<nat>)
    requires i < |s.threads|
    ensures Run(With(s, i, Leaving, c, b, m, Some(i), u, f), [Release(i)]) == With(s, i, Finished, c, b, m, None, u, f)
  {
    hide Run, Step, With;
    LockSteps(s, i, c, b, m, u, f);
    OneStep(With(s, i, Leaving, c, b, m, Some(i), u, f), Release(i));
  }

  lemma StoredLeaves(s: State, i: nat, p: StopPoint, b: nat, u: set<nat>, f: set<nat>)
    requires i < |s.threads| && (p.AtLoad? || p.AtSave? || p.Nowhere?)
    ensures |Section(i, p)| >= 2
    ensures
      var t := s.threads[i];
      Run(With(s, i, Stored, t.credited, b, s.meta, Some(i), u, f), Section(i, p)[2..]) ==
      With(s, i, Finished, p.Nowhere? || t.credited, b,
           if p.Nowhere? then s.meta.(total := s.meta.total + t.rows) else s.meta, None, u, f)
  {
    hide Run, Attempt, Step, Section, With;
    var c, m := s.threads[i].credited, s.meta;
    var stored, loaded := With(s, i, Stored, c, b, m, Some(i), u, f), With(s, i, Loaded(m), c, b, m, Some(i), u, f);
    SavingSteps(i, p);
    if p.AtLoad? {
      StageStep(s, i, Load(i, false), Stored, Leaving, c, b, m, Some(i), u, f);
      RunPrepend(stored, Load(i, false), [Release(i)]);
      Released(s, i, c, b, m, u, f);
    } else {
      var save := Save(i, p.Nowhere?);
      StageStep(s, i, Load(i, true), Stored, Loaded(m), c, b, m, Some(i), u, f);
      RunPrepend(stored, Load(i, true), [save] + [Release(i)]);
      RunPrepend(loaded, save, [Release(i)]);
      if p.AtSave? {
        StageStep(s, i, save, Loaded(m), Leaving, c, b, m, Some(i), u, f);
        Released(s, i, c, b, m, u, f);
      } else {
        SaveStep(s, i, c, b, m, Some(i), u, f);
        Released(s, i, true, b, m.(total := m.total + s.threads[i].rows), u, f);
      }
    }
  }

  lemma PaidLeaves(s: State, i: nat, p: StopPoint)
    requires i < |s.threads| && s.balance >= 1 && !p.AtBurn? && !p.AtConfirmation?
    ensures |Section(i, p)| >= 2
    ensures Run(With(s, i, Burned, s.threads[i].credited, s.balance - 1, s.meta, Some(i), s.burns + {i}, s.files),
                Section(i, p)[1..]) == AttemptLeaves(s, i, p)
  {
    hide Run, Attempt, Step, Section;
    var c, b, m, u, f := s.threads[i].credited, s.balance - 1, s.meta, s.burns + {i}, s.files;
    var paid := With(s, i, Burned, c, b, m, Some(i), u, f);
    SectionSteps(i, p);
    if p.AtStore? {
      assert Section(i, p)[1..] == [Store(i, false)] + [Release(i)];
      StageStep(s, i, Store(i, false), Burned, Leaving, c, b, m, Some(i), u, f);
      RunPrepend(paid, Store(i, false), [Release(i)]);
      Released(s, i, c, b, m, u, f);
    } else {
      SavingSteps(i, p);
      assert Section(i, p)[1..] == [Store(i, true)] + Section(i, p)[2..];
      StoreStep(s, i, c, b, m, Some(i), u, f);
      RunPrepend(paid, Store(i, true), Section(i, p)[2..]);
      StoredLeaves(s, i, p, b, u, f + {i});
    }
  }

  lemma SectionLeaves(s: State, i: nat, p: StopPoint)
    requires i < |s.threads| && s.balance >= 1
    ensures Run(With(s, i, Holding, s.threads[i].credited, s.balance, s.meta, Some(i), s.burns, s.files),
                Section(i, p)) == AttemptLeaves(s, i, p)
  {
    hide Run, Attempt, Step, Section;
    var c, b, m, u, f := s.threads[i].credited, s.balance, s.meta, s.burns, s.files;
    var held := With(s, i, Holding, c, b, m, Some(i), u, f);
    SectionSteps(i, p);
    if p.AtBurn? {
      StageStep(s, i, Burn(i, NotBurned), Holding, Leaving, c, b, m, Some(i), u, f);
      RunPrepend(held, Burn(i, NotBurned), [Release(i)]);
      Released(s, i, c, b, m, u, f);
    } else if p.AtConfirmation? {
      BurnStep(s, i, Unconfirmed, c, b, m, Some(i), u, f);
      RunPrepend(held, Burn(i, Unconfirmed), [Release(i)]);
      Released(s, i, c, b - 1, m, u + {i}, f);
    } else {
      BurnStep(s, i, Confirmed, c, b, m, Some(i), u, f);
      RunPrepend(held, Burn(i, Confirmed), Section(i, p)[1..]);
      assert Section(i, p) == [Burn(i, Confirmed)] + Section(i, p)[1..];
      PaidLeaves(s, i, p);
    }
  }

  /**
   An undisturbed attempt that finds a balance and a free lock burns, stores and credits exactly
   what comes before the operation that fails, and always ends finished with the lock free.
   */
  lemma UndisturbedAttempt(s: State, i: nat, p: StopPoint)
    requires i < |s.threads| && s.threads[i].stage.Idle? && s.lock.None? && s.balance >= 1
    ensures Run(s, Attempt(i, p)) == AttemptLeaves(s, i, p)
  {
    hide Run, Attempt, Step, With, Section;
    var c, b, m, u, f := s.threads[i].credited, s.balance, s.meta, s.burns, s.files;
    SectionSteps(i, p);
    WithItself(s, i);
    StageStep(s, i, CheckBalance(i), Idle, Checked, c, b, m, None, u, f);
    LockSteps(s, i, c, b, m, u, f);
    RunPrepend(s, CheckBalance(i), [Acquire(i)] + Section(i, p));
    RunPrepend(With(s, i, Checked, c, b, m, None, u, f), Acquire(i), Section(i, p));
    SectionLeaves(s, i, p);
  }

  /** Without a balance an attempt ends before it asks for the lock. */
  lemma NoBalanceNoAttempt(s: State, i: nat)
    requires i < |s.threads| && s.threads[i].stage.Idle? && s.balance == 0
    ensures Step(s, CheckBalance(i)) == s.(threads := s.threads[i := s.threads[i].(stage := Finished)])
  {
  }

  /** An undisturbed revocation adds its count and keeps the total. */
  lemma UndisturbedRevocation(s: State, k: nat)
    requires k < |s.revokers| && s.revokers[k].stage.RevokeIdle?
    ensures Run(s, [RevokeLoad(k), RevokeSave(k)]) ==
            s.(meta := s.meta.(revoked := s.meta.revoked + s.revokers[k].count),
               revokers := s.revokers[k := Revoker(s.revokers[k].count, RevokeDone)])
  {
    hide Run;
    TwoSteps(s, RevokeLoad(k), RevokeSave(k));
    var loaded := s.revokers[k := s.revokers[k].(stage := RevokeLoaded(s.meta))];
    assert loaded[k := loaded[k].(stage := RevokeDone)] == s.revokers[k := Revoker(s.revokers[k].count, RevokeDone)];
  }

  // --------------------------------------- which schedules keep the total right

  /** At this point revocation k reads the metadata. */
  predicate RevocationLoads(s: State, actions: seq<Action>, t: nat, k: nat) {
    && t < |actions| && actions[t] == RevokeLoad(k)
    && var n := Run(s, actions[..t]);
       k < |n.revokers| && n.revokers[k].stage.RevokeIdle?
  }

  /** At this point revocation k writes back what it has read. */
  predicate RevocationSaves(s: State, actions: seq<Action>, t: nat, k: nat) {
    && t < |actions| && actions[t] == RevokeSave(k)
    && var n := Run(s, actions[..t]);
       k < |n.revokers| && n.revokers[k].stage.RevokeLoaded?
  }

  predicate Credits(s: State, a: Action) {
    && a.Save? && a.ok && a.i < |s.threads| && s.threads[a.i].stage.Loaded? && s.threads[a.i].rows > 0
  }

  /** At this point an issuance adds at least one row to the total. */
  predicate IssuanceCredits(s: State, actions: seq<Action>, t: nat) {
    t < |actions| && Credits(Run(s, actions[..t]), actions[t])
  }

  /** Revocation k saves at w, and an issuance was credited since it loaded. */
  predicate Overtaken(s: State, actions: seq<Action>, w: nat, k: nat) {
    && RevocationSaves(s, actions, w, k)
    && exists l, c | 0 <= l < c < w :: RevocationLoads(s, actions, l, k) && IssuanceCredits(s, actions, c)
  }

  predicate RevokersIdle(s: State) {
    forall k | 0 <= k < |s.revokers| :: s.revokers[k].stage.RevokeIdle?
  }

  lemma CreditStep(s: State, a: Action, supply: nat)
    requires Safe(s, supply)
    ensures CreditedRows(Step(s, a).threads) ==
            CreditedRows(s.threads) + if Credits(s, a) then s.threads[a.i].rows else 0
  {
    hide CreditedRows;
    if !IsRevoke(a) && a.i < |s.threads| {
      var i, n := a.i, IssueStep(s, a, a.i);
      assert ThreadSafe(s, i);
      assert n.threads == s.threads[i := n.threads[i]];
      CreditedUpdate(s.threads, i, n.threads[i]);
    }
  }

  function CreditedAt(s: State, actions: seq<Action>, n: nat): nat
    requires n <= |actions|
  {
    CreditedRows(Run(s, actions[..n]).threads)
  }

  lemma CreditHasRows(s: State, a: Action)
    ensures Credits(s, a) ==> a.i < |s.threads| && s.threads[a.i].rows > 0
  {
  }

  /** The credited rows grow exactly when an issuance is credited. */
  lemma {:induction false} CreditedGrows(s: State, actions: seq<Action>, l: nat, n: nat)
    requires Start(s) && l <= n <= |actions|
    ensures CreditedAt(s, actions, l) <= CreditedAt(s, actions, n)
    ensures CreditedAt(s, actions, l) == CreditedAt(s, actions, n) <==>
            forall c | l <= c < n :: !IssuanceCredits(s, actions, c)
    decreases n
  {
    hide Run, Step, Safe, CreditedRows, Credits;
    if l < n {
      CreditedGrows(s, actions, l, n - 1);
      StartIsGood(s);
      EveryInterleavingIsSafe(s, actions[..n - 1], s.balance);
      RunStep(s, actions, n - 1);
      CreditStep(Run(s, actions[..n - 1]), actions[n - 1], s.balance);
      CreditHasRows(Run(s, actions[..n - 1]), actions[n - 1]);
      assert IssuanceCredits(s, actions, n - 1) <==> CreditedAt(s, actions, n - 1) < CreditedAt(s, actions, n);
      assert (forall c | l <= c < n :: !IssuanceCredits(s, actions, c)) <==>
             (forall c | l <= c < n - 1 :: !IssuanceCredits(s, actions, c)) && !IssuanceCredits(s, actions, n - 1);
    }
  }

  /** What one step does to a revocation. */
  lemma RevokerStep(s: State, a: Action, k: nat)
    requires k < |s.revokers|
    ensures
      var n := Step(s, a);
      && |n.revokers| == |s.revokers|
      && n.revokers[k].stage ==
         match s.revokers[k].stage
         case RevokeIdle => if a == RevokeLoad(k) then RevokeLoaded(s.meta) else RevokeIdle
         case RevokeLoaded(copy) => if a == RevokeSave(k) then RevokeDone else RevokeLoaded(copy)
         case RevokeDone => RevokeDone
  {
  }

  lemma RevokerCount(s: State, a: Action)
    ensures |Step(s, a).revokers| == |s.revokers|
  {
  }

  lemma {:induction false} SameRevokers(s: State, actions: seq<Action>)
    ensures |Run(s, actions).revokers| == |s.revokers|
  {
    hide Step;
    if actions != [] {
      var front := Run(s, actions[..|actions| - 1]);
      SameRevokers(s, actions[..|actions| - 1]);
      RevokerCount(front, actions[|actions| - 1]);
    }
  }

  /** After its load at l, a revocation holds the metadata of that moment until it saves. */
  lemma {:induction false} CopyIsOfLoad(s: State, actions: seq<Action>, l: nat, n: nat, k: nat)
    requires RevocationLoads(s, actions, l, k) && l < n <= |actions|
    ensures
      var m := Run(s, actions[..n]);
      && k < |m.revokers|
      && (m.revokers[k].stage == RevokeLoaded(Run(s, actions[..l]).meta) || m.revokers[k].stage == RevokeDone)
    decreases n
  {
    hide Run, Step;
    RunStep(s, actions, n - 1);
    if n - 1 > l {
      CopyIsOfLoad(s, actions, l, n - 1, k);
    }
    RevokerStep(Run(s, actions[..n - 1]), actions[n - 1], k);
  }

  /** A revocation that holds a copy has loaded it. */
  lemma {:induction false} LoadOf(s: State, actions: seq<Action>, n: nat, k: nat) returns (l: nat)
    requires RevokersIdle(s) && n <= |actions| && k < |s.revokers|
    requires
      var m := Run(s, actions[..n]);
      k < |m.revokers| && m.revokers[k].stage.RevokeLoaded?
    ensures l < n && RevocationLoads(s, actions, l, k)
  {
    hide Step;
    RunStep(s, actions, n - 1);
    SameRevokers(s, actions[..n - 1]);
    var m := Run(s, actions[..n - 1]);
    RevokerStep(m, actions[n - 1], k);
    if m.revokers[k].stage.RevokeIdle? {
      l := n - 1;
    } else {
      l := LoadOf(s, actions, n - 1, k);
    }
  }

  /** Every copy an issuance holds shows the current total. */
  predicate TotalsCurrent(s: State) {
    forall i | 0 <= i < |s.threads| && s.threads[i].stage.Loaded? :: s.threads[i].stage.copy.total == s.meta.total
  }

  /** Under the lock only a stale write of a revocation makes an issuance's copy stale. */
  lemma StepKeepsTotals(s: State, a: Action, supply: nat)
    requires Safe(s, supply) && TotalsCurrent(s) && FreshWrite(s, a)
    ensures TotalsCurrent(Step(s, a))
  {
    var n := Step(s, a);
    if !IsRevoke(a) && a.i < |s.threads| {
      forall j | 0 <= j < |n.threads| && n.threads[j].stage.Loaded?
        ensures n.threads[j].stage.copy.total == n.meta.total
      {
        assert ThreadSafe(s, a.i) && ThreadSafe(s, j);
      }
    }
  }

  lemma FreshUnlessOvertaken(s: State, actions: seq<Action>, n: nat)
    requires Start(s) && RevokersIdle(s) && n < |actions|
    requires forall m | 0 <= m <= n :: Accounted(Run(s, actions[..m]), s.meta.total)
    requires TotalsCurrent(Run(s, actions[..n])) && forall k :: !Overtaken(s, actions, n, k)
    ensures FreshWrite(Run(s, actions[..n]), actions[n])
  {
    hide Run, Step, CreditedRows;
    var a, m := actions[n], Run(s, actions[..n]);
    SameRevokers(s, actions[..n]);
    if a.RevokeSave? && a.k < |m.revokers| && m.revokers[a.k].stage.RevokeLoaded? {
      var l := LoadOf(s, actions, n, a.k);
      CopyIsOfLoad(s, actions, l, n, a.k);
      assert !Overtaken(s, actions, n, a.k);
      CreditedGrows(s, actions, l, n);
      assert Accounted(Run(s, actions[..l]), s.meta.total) && Accounted(m, s.meta.total);
    }
  }

  lemma StartHasCurrentTotals(s: State)
    requires Start(s)
    ensures TotalsCurrent(s)
  {
  }

  lemma {:induction false} NotOvertakenIsAccounted(s: State, actions: seq<Action>, n: nat)
    requires Start(s) && RevokersIdle(s) && n <= |actions|
    requires forall w, k | 0 <= w < n :: !Overtaken(s, actions, w, k)
    ensures forall m | 0 <= m <= n :: Accounted(Run(s, actions[..m]), s.meta.total)
    ensures TotalsCurrent(Run(s, actions[..n]))
  {
    hide Run, Step, Safe, Accounted, FreshWrite, Overtaken, TotalsCurrent;
    StartIsGood(s);
    if n == 0 {
      assert actions[..0] == [];
      EmptyRun(s);
      StartHasCurrentTotals(s);
    } else {
      NotOvertakenIsAccounted(s, actions, n - 1);
      FreshUnlessOvertaken(s, actions, n - 1);
      EveryInterleavingIsSafe(s, actions[..n - 1], s.balance);
      RunStep(s, actions, n - 1);
      AccountsSurviveExactly(Run(s, actions[..n - 1]), actions[n - 1], s.balance, s.meta.total);
      StepKeepsTotals(Run(s, actions[..n - 1]), actions[n - 1], s.balance);
    }
  }

  lemma OvertakenLosesRows(s: State, actions: seq<Action>, w: nat, k: nat)
    requires Start(s) && Overtaken(s, actions, w, k)
    requires forall m | 0 <= m <= w :: Accounted(Run(s, actions[..m]), s.meta.total)
    ensures w < |actions| && !Accounted(Run(s, actions[..w + 1]), s.meta.total)
  {
    hide Run, Step, Safe, CreditedRows, Credits;
    var l, c :| 0 <= l < c < w && RevocationLoads(s, actions, l, k) && IssuanceCredits(s, actions, c);
    CopyIsOfLoad(s, actions, l, w, k);
    CreditedGrows(s, actions, l, w);
    assert Accounted(Run(s, actions[..l]), s.meta.total) && Accounted(Run(s, actions[..w]), s.meta.total);
    StartIsGood(s);
    EveryInterleavingIsSafe(s, actions[..w], s.balance);
    RunStep(s, actions, w);
    AccountsSurviveExactly(Run(s, actions[..w]), actions[w], s.balance, s.meta.total);
  }

  /**
   In every interleaving of issuances and revocations the total is right at every point exactly
   when no revocation saves after an issuance was credited since that revocation loaded.
   */
  lemma AccountedExactlyWhenNotOvertaken(s: State, actions: seq<Action>)
    requires Start(s) && RevokersIdle(s)
    ensures AccountedThrough(s, actions) <==> forall w, k | 0 <= w < |actions| :: !Overtaken(s, actions, w, k)
  {
    hide Run, Accounted, Overtaken;
    if forall w, k | 0 <= w < |actions| :: !Overtaken(s, actions, w, k) {
      NotOvertakenIsAccounted(s, actions, |actions|);
    }
    if AccountedThrough(s, actions) {
      forall w, k | 0 <= w < |actions| ensures !Overtaken(s, actions, w, k) {
        if Overtaken(s, actions, w, k) {
          OvertakenLosesRows(s, actions, w, k);
        }
      }
    }
  }

  // ------------------------------------------------- revocation takes no lock

  /** An issuance of `rows` rows and a revocation that reads before and writes after it. */
  const OVERLAP: seq<Action> := [
    CheckBalance(0), Acquire(0), Burn(0, Confirmed), Store(0, true), RevokeLoad(0),
    Load(0, true), Save(0, true), RevokeSave(0)
  ]

  /** The state of that run after k actions. */
  function Overlapped(k: nat, rows: nat, base: nat): State {
    State(if k < 3 then 1 else 0,
          if k < 7 then Meta(base, 0) else if k == 7 then Meta(base + rows, 0) else Meta(base, 1),
          if k < 2 then None else Some(0),
          if k < 3 then {} else {0},
          if k < 4 then {} else {0},
          [Thread(rows, if k == 0 then Idle else if k == 1 then Checked else if k == 2 then Holding
                        else if k == 3 then Burned else if k < 6 then Stored
                        else if k == 6 then Loaded(Meta(base, 0)) else Leaving, k >= 7)],
          [Revoker(1, if k < 5 then RevokeIdle else if k < 8 then RevokeLoaded(Meta(base, 0)) else RevokeDone)])
  }

  lemma OverlapStep(k: nat, rows: nat, base: nat)
    requires k < |OVERLAP|
    ensures Step(Overlapped(k, rows, base), OVERLAP[k]) == Overlapped(k + 1, rows, base)
  {
  }

  lemma {:induction false} OverlapRun(k: nat, rows: nat, base: nat)
    requires k <= |OVERLAP|
    ensures Run(Overlapped(0, rows, base), OVERLAP[..k]) == Overlapped(k, rows, base)
  {
    hide Run;
    if k == 0 {
      EmptyRun(Overlapped(0, rows, base));
    } else {
      OverlapRun(k - 1, rows, base);
      RunStep(Overlapped(0, rows, base), OVERLAP, k - 1);
      OverlapStep(k - 1, rows, base);
    }
  }

  /** In that run the issued rows vanish from the total although the record is stored and paid for. */
  lemma RevocationLosesUpdate(rows: nat, base: nat)
    requires rows > 0
    ensures
      var s := State(1, Meta(base, 0), None, {}, {}, [Thread(rows, Idle, false)], [Revoker(1, RevokeIdle)]);
      var n := Run(s, OVERLAP);
      && n.files == n.burns == {0} && n.threads == [Thread(rows, Leaving, true)]
      && n.meta == Meta(base, 1) && n.meta.total != s.meta.total + CreditedRows(n.threads)
  {
    hide Run;
    OverlapRun(8, rows, base);
    assert OVERLAP[..8] == OVERLAP;
    var t := Thread(rows, Leaving, true);
    assert CreditedRows([t]) == rows by {
      assert [t][..0] == [];
    }
  }
}

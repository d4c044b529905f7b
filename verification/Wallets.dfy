/**
 The wallet life cycle: creation, soft deletion, suspension and activation over the stored
 wallet files, the owner index and the address map, in serial runs without storage failures.
 */
module Wallets {
  import opened Basics

  const MAX_LABEL: nat := 64

  datatype Status = Active | Suspended | Deleted
  datatype Wallet = Wallet(owner: string, address: string, status: Status)

  datatype State = State(wallets: map<string, Wallet>, byOwner: map<string, string>, addresses: map<string, string>)

  datatype Op =
    | Create(user: string, id: string, address: string, labelLength: nat)
    | Delete(user: string, id: string)
    | Suspend(id: string)
    | Activate(id: string)

  datatype Outcome =
    | Done | LabelTooLong | AlreadyExists | DuplicateWallet(existing: string) | NotFound | Forbidden | IsDeleted

  function SetStatus(st: State, id: string, status: Status): State
    requires id in st.wallets
  {
    st.(wallets := st.wallets[id := st.wallets[id].(status := status)])
  }

  /** The wallet is stored and its address registered before the owner's slot is looked at. */
  function ApplyCreate(st: State, user: string, id: string, address: string, labelLength: nat): (State, Outcome) {
    if labelLength > MAX_LABEL then (st, LabelTooLong)
    else if id in st.wallets then (st, AlreadyExists)
    else
      var stored := st.(wallets := st.wallets[id := Wallet(user, address, Active)],
                        addresses := st.addresses[address := id]);
      if user in st.byOwner then (stored, DuplicateWallet(st.byOwner[user]))
      else (stored.(byOwner := st.byOwner[user := id]), Done)
  }

  /** Any wallet of the caller may be deleted, a deleted one too; the owner's slot is freed in any case. */
  function ApplyDelete(st: State, user: string, id: string): (State, Outcome) {
    if id !in st.wallets then (st, NotFound)
    else if st.wallets[id].owner != user then (st, Forbidden)
    else (SetStatus(st, id, Deleted).(byOwner := st.byOwner - {user}), Done)
  }

  function ApplyStatus(st: State, id: string, status: Status): (State, Outcome) {
    if id !in st.wallets then (st, NotFound)
    else if st.wallets[id].status.Deleted? then (st, IsDeleted)
    else (SetStatus(st, id, status), Done)
  }

  function Apply(st: State, op: Op): (State, Outcome) {
    match op
    case Create(user, id, address, labelLength) => ApplyCreate(st, user, id, address, labelLength)
    case Delete(user, id) => ApplyDelete(st, user, id)
    case Suspend(id) => ApplyStatus(st, id, Suspended)
    case Activate(id) => ApplyStatus(st, id, Active)
  }

  function Run(ops: seq<Op>): State {
    if ops == [] then State(map[], map[], map[]) else Apply(Run(ops[..|ops| - 1]), ops[|ops| - 1]).0
  }

  // -------------------------------------------------------------- invariants

  predicate Live(st: State, id: string) {
    id in st.wallets && !st.wallets[id].status.Deleted?
  }

  /** The owner index leads each user to a live wallet of that user; the address map to existing wallets. */
  predicate Sound(st: State) {
    && (forall u | u in st.byOwner :: Live(st, st.byOwner[u]) && st.wallets[st.byOwner[u]].owner == u)
    && (forall a | a in st.addresses ::
          st.addresses[a] in st.wallets && st.wallets[st.addresses[a]].address == a)
  }

  lemma StatusKeepsSound(st: State, id: string, status: Status)
    requires Sound(st) && !status.Deleted?
    ensures Sound(ApplyStatus(st, id, status).0)
  {
  }

  lemma CreateKeepsSound(st: State, user: string, id: string, address: string, labelLength: nat)
    requires Sound(st)
    ensures Sound(ApplyCreate(st, user, id, address, labelLength).0)
  {
  }

  lemma DeleteKeepsSound(st: State, user: string, id: string)
    requires Sound(st)
    ensures Sound(ApplyDelete(st, user, id).0)
  {
  }

  lemma ApplyKeepsSound(st: State, op: Op)
    requires Sound(st)
    ensures Sound(Apply(st, op).0)
  {
    hide Sound, ApplyCreate, ApplyDelete, ApplyStatus;
    match op {
      case Create(user, id, address, labelLength) => CreateKeepsSound(st, user, id, address, labelLength);
      case Delete(user, id) => DeleteKeepsSound(st, user, id);
      case Suspend(id) => StatusKeepsSound(st, id, Suspended);
      case Activate(id) => StatusKeepsSound(st, id, Active);
    }
  }

  /** In every run the owner index is sound. */
  lemma {:induction false} EveryRunIsSound(ops: seq<Op>)
    ensures Sound(Run(ops))
  {
    if ops != [] {
      EveryRunIsSound(ops[..|ops| - 1]);
      ApplyKeepsSound(Run(ops[..|ops| - 1]), ops[|ops| - 1]);
    }
  }

  /** Wallets are never removed nor handed over, and a deleted wallet stays deleted. */
  lemma {:induction false} DeletedIsTerminal(ops: seq<Op>, k: nat, id: string)
    requires k <= |ops| && id in Run(ops[..k]).wallets
    ensures
      var before, after := Run(ops[..k]), Run(ops);
      && id in after.wallets && after.wallets[id].owner == before.wallets[id].owner
      && (before.wallets[id].status.Deleted? ==> after.wallets[id].status.Deleted?)
    decreases |ops|
  {
    if k < |ops| {
      var front := ops[..|ops| - 1];
      assert front[..k] == ops[..k];
      DeletedIsTerminal(front, k, id);
    } else {
      assert ops[..k] == ops;
    }
  }

  /** At most one live wallet per user, and it is the one in the owner's slot. */
  ghost predicate OneWalletPerUser(st: State) {
    forall id | Live(st, id) ::
      st.wallets[id].owner in st.byOwner && st.byOwner[st.wallets[id].owner] == id
  }

  /** A create that stores a wallet although the user's slot is taken, or a delete of a wallet outside the slot. */
  predicate BreaksUniqueness(st: State, op: Op) {
    match op
    case Create(user, id, _, labelLength) => labelLength <= MAX_LABEL && id !in st.wallets && user in st.byOwner
    case Delete(user, id) =>
      && id in st.wallets && st.wallets[id].owner == user
      && user in st.byOwner && st.byOwner[user] != id
    case _ => false
  }

  /** The one-wallet-per-user rule survives an operation exactly when it is not one of the two above. */
  lemma UniquenessSurvivesExactly(st: State, op: Op)
    requires Sound(st) && OneWalletPerUser(st)
    ensures OneWalletPerUser(Apply(st, op).0) <==> !BreaksUniqueness(st, op)
  {
    var next := Apply(st, op).0;
    match op {
      case Create(user, id, _, _) =>
        if BreaksUniqueness(st, op) {
          assert Live(next, id) && next.byOwner[user] != id;
        } else {
          assert forall w | Live(next, w) :: w == id || Live(st, w);
        }
      case Delete(user, id) =>
        if BreaksUniqueness(st, op) {
          assert Live(next, st.byOwner[user]);
        } else {
          assert forall w | Live(next, w) :: (w != id && Live(st, w)) || next == st;
        }
      case Suspend(id) => assert forall w | Live(next, w) :: Live(st, w);
      case Activate(id) => assert forall w | Live(next, w) :: Live(st, w);
    }
  }

  /** The rule holds through a run in which no operation is one of the two. */
  lemma {:induction false} UniquenessOverRuns(ops: seq<Op>)
    requires forall k | 0 <= k < |ops| :: !BreaksUniqueness(Run(ops[..k]), ops[k])
    ensures OneWalletPerUser(Run(ops))
  {
    if ops != [] {
      var front := ops[..|ops| - 1];
      assert forall k | 0 <= k < |front| :: front[..k] == ops[..k];
      UniquenessOverRuns(front);
      EveryRunIsSound(front);
      UniquenessSurvivesExactly(Run(front), ops[|ops| - 1]);
    }
  }

  /** A refused creation still leaves the user with a second live wallet. */
  lemma RefusedCreateLeavesWallet(user: string, first: string, second: string, a: string, b: string)
    requires first != second
    ensures
      var ops := [Create(user, first, a, 0), Create(user, second, b, 0)];
      && Apply(Run(ops[..1]), ops[1]).1 == DuplicateWallet(first)
      && Live(Run(ops), first) && Live(Run(ops), second) && Run(ops).wallets[second].owner == user
  {
    var ops := [Create(user, first, a, 0), Create(user, second, b, 0)];
    assert ops[..1] == [ops[0]] && ops[..1][..0] == [];
    assert Run(ops[..1]) == Apply(Run([]), ops[0]).0;
  }

  /** Deleting an old wallet once more frees the slot of the new one, and a third creation is accepted beside it. */
  lemma RepeatedDeleteFreesSlot(user: string, first: string, second: string, third: string, a: string)
    requires first != second && first != third && second != third
    ensures
      var st := Run([Create(user, first, a, 0), Delete(user, first), Create(user, second, a, 0), Delete(user, first)]);
      && Live(st, second) && user !in st.byOwner
      && Apply(st, Create(user, third, a, 0)).1 == Done
      && Live(Apply(st, Create(user, third, a, 0)).0, second)
  {
    var ops := [Create(user, first, a, 0), Delete(user, first), Create(user, second, a, 0), Delete(user, first)];
    assert ops[..3][..2] == ops[..2] && ops[..2][..1] == ops[..1] && ops[..1][..0] == [];
    assert Run(ops[..1]) == Apply(Run([]), ops[0]).0;
    assert Run(ops[..2]) == Apply(Run(ops[..1]), ops[1]).0;
    assert Run(ops[..3]) == Apply(Run(ops[..2]), ops[2]).0;
  }

  // ---------------------------------------------------- what operations leave for good

  lemma RunStep(ops: seq<Op>, k: nat)
    requires k < |ops|
    ensures Run(ops[..k + 1]) == Apply(Run(ops[..k]), ops[k]).0
  {
    hide Apply;
    assert ops[..k + 1][..k] == ops[..k];
  }

  /** The outcome tells exactly why an operation is refused, and only a duplicate creation then changes anything. */
  lemma OutcomeMeaning(st: State, op: Op)
    ensures
      var (n, r) := Apply(st, op);
      match op
      case Create(user, id, address, labelLength) =>
        && (r == LabelTooLong <==> labelLength > MAX_LABEL)
        && (r == AlreadyExists <==> labelLength <= MAX_LABEL && id in st.wallets)
        && (r.DuplicateWallet? <==> labelLength <= MAX_LABEL && id !in st.wallets && user in st.byOwner)
        && (r.DuplicateWallet? ==> r.existing == st.byOwner[user])
        && (r == Done <==> labelLength <= MAX_LABEL && id !in st.wallets && user !in st.byOwner)
      case Delete(user, id) =>
        && (r == NotFound <==> id !in st.wallets)
        && (r == Forbidden <==> id in st.wallets && st.wallets[id].owner != user)
        && (r == Done <==> id in st.wallets && st.wallets[id].owner == user)
      case Suspend(id) =>
        && (r == NotFound <==> id !in st.wallets) && (r == Done <==> Live(st, id))
        && (r == IsDeleted <==> id in st.wallets && !Live(st, id))
      case Activate(id) =>
        && (r == NotFound <==> id !in st.wallets) && (r == Done <==> Live(st, id))
        && (r == IsDeleted <==> id in st.wallets && !Live(st, id))
    ensures
      var (n, r) := Apply(st, op);
      r in {LabelTooLong, AlreadyExists, NotFound, Forbidden, IsDeleted} ==> n == st
  {
  }

  /** The operation may change the status of the wallet. */
  predicate Touches(op: Op, id: string) {
    match op
    case Delete(_, i) => i == id
    case Suspend(i) => i == id
    case Activate(i) => i == id
    case Create(_, _, _, _) => false
  }

  lemma UntouchedStep(st: State, op: Op, id: string)
    requires id in st.wallets
    ensures id in Apply(st, op).0.wallets
    ensures Apply(st, op).0.wallets[id].address == st.wallets[id].address
    ensures Apply(st, op).0.wallets[id].owner == st.wallets[id].owner
    ensures !Touches(op, id) ==> Apply(st, op).0.wallets[id] == st.wallets[id]
  {
  }

  /** A wallet changes only through operations that name it. */
  lemma {:induction false} UntouchedStays(ops: seq<Op>, k: nat, id: string)
    requires k <= |ops| && id in Run(ops[..k]).wallets
    requires forall j | k <= j < |ops| :: !Touches(ops[j], id)
    ensures id in Run(ops).wallets && Run(ops).wallets[id] == Run(ops[..k]).wallets[id]
    decreases |ops|
  {
    hide Apply;
    if k == |ops| {
      assert ops[..k] == ops;
    } else {
      var front := ops[..|ops| - 1];
      assert front[..k] == ops[..k];
      UntouchedStays(front, k, id);
      UntouchedStep(Run(front), ops[|ops| - 1], id);
    }
  }

  /** The last suspension, activation or deletion that went through decides a wallet's status. */
  lemma LastStatusWins(ops: seq<Op>, k: nat, id: string)
    requires k < |ops| && Touches(ops[k], id) && Apply(Run(ops[..k]), ops[k]).1 == Done
    requires forall j | k < j < |ops| :: !Touches(ops[j], id)
    ensures id in Run(ops).wallets
    ensures Run(ops).wallets[id].status ==
            match ops[k] case Delete(_, _) => Deleted case Suspend(_) => Suspended case _ => Active
  {
    hide Run;
    RunStep(ops, k);
    UntouchedStays(ops, k + 1, id);
  }

  /** An accepted creation stores the wallet for good, active until an operation names it, even if it is a duplicate. */
  lemma CreatedIsStored(ops: seq<Op>, k: nat)
    requires k < |ops| && ops[k].Create? && ops[k].labelLength <= MAX_LABEL && ops[k].id !in Run(ops[..k]).wallets
    ensures ops[k].id in Run(ops[..k + 1]).wallets
    ensures Run(ops[..k + 1]).wallets[ops[k].id] == Wallet(ops[k].user, ops[k].address, Active)
    ensures (forall j | k < j < |ops| :: !Touches(ops[j], ops[k].id)) ==>
              ops[k].id in Run(ops).wallets &&
              Run(ops).wallets[ops[k].id] == Wallet(ops[k].user, ops[k].address, Active)
  {
    hide Run;
    RunStep(ops, k);
    if forall j | k < j < |ops| :: !Touches(ops[j], ops[k].id) {
      UntouchedStays(ops, k + 1, ops[k].id);
    }
  }

  predicate Registers(op: Op, address: string) {
    op.Create? && op.address == address
  }

  lemma {:induction false} AddressStays(ops: seq<Op>, k: nat, address: string)
    requires k <= |ops| && address in Run(ops[..k]).addresses
    requires forall j | k <= j < |ops| :: !Registers(ops[j], address)
    ensures address in Run(ops).addresses && Run(ops).addresses[address] == Run(ops[..k]).addresses[address]
    decreases |ops|
  {
    if k == |ops| {
      assert ops[..k] == ops;
    } else {
      var front := ops[..|ops| - 1];
      assert front[..k] == ops[..k];
      AddressStays(front, k, address);
    }
  }

  /** The address of an accepted creation leads to its wallet until another creation registers it. */
  lemma AddressIsRegistered(ops: seq<Op>, k: nat)
    requires k < |ops| && ops[k].Create? && ops[k].labelLength <= MAX_LABEL && ops[k].id !in Run(ops[..k]).wallets
    requires forall j | k < j < |ops| :: !Registers(ops[j], ops[k].address)
    ensures ops[k].address in Run(ops).addresses && Run(ops).addresses[ops[k].address] == ops[k].id
  {
    hide Run;
    RunStep(ops, k);
    AddressStays(ops, k + 1, ops[k].address);
  }

  predicate Frees(op: Op, user: string) {
    op.Delete? && op.user == user
  }

  lemma {:induction false} SlotStays(ops: seq<Op>, k: nat, user: string)
    requires k <= |ops| && user in Run(ops[..k]).byOwner
    requires forall j | k <= j < |ops| :: !Frees(ops[j], user)
    ensures user in Run(ops).byOwner && Run(ops).byOwner[user] == Run(ops[..k]).byOwner[user]
    decreases |ops|
  {
    if k == |ops| {
      assert ops[..k] == ops;
    } else {
      var front := ops[..|ops| - 1];
      assert front[..k] == ops[..k];
      SlotStays(front, k, user);
    }
  }

  /** A creation that went through takes the user's slot until the user deletes; a deletion frees it. */
  lemma SlotIsTakenAndFreed(ops: seq<Op>, k: nat)
    requires k < |ops| && Apply(Run(ops[..k]), ops[k]).1 == Done
    ensures ops[k].Create? && (forall j | k < j < |ops| :: !Frees(ops[j], ops[k].user)) ==>
              ops[k].user in Run(ops).byOwner && Run(ops).byOwner[ops[k].user] == ops[k].id
    ensures ops[k].Delete? ==> ops[k].user !in Run(ops[..k + 1]).byOwner
  {
    hide Run;
    RunStep(ops, k);
    if ops[k].Create? && forall j | k < j < |ops| :: !Frees(ops[j], ops[k].user) {
      SlotStays(ops, k + 1, ops[k].user);
    }
  }

  // ------------------------------------------------------------ the handlers

  class WalletService {
    var wallets: map<string, Wallet>
    var byOwner: map<string, string>
    var addresses: map<string, string>

    ghost function View(): State
      reads this
    {
      State(wallets, byOwner, addresses)
    }

    constructor ()
      ensures View() == Run([])
    {
      wallets, byOwner, addresses := map[], map[], map[];
    }

    method RegisterWalletOwner(user: string, id: string) returns (r: Outcome)
      modifies this`byOwner
      ensures user in old(byOwner) ==> r == DuplicateWallet(old(byOwner)[user]) && byOwner == old(byOwner)
      ensures user !in old(byOwner) ==> r == Done && byOwner == old(byOwner)[user := id]
    {
      if user in byOwner {
        return DuplicateWallet(byOwner[user]);
      }
      byOwner := byOwner[user := id];
      return Done;
    }

    method CreateWallet(user: string, id: string, address: string, labelLength: nat) returns (r: Outcome)
      modifies this
      ensures (View(), r) == Apply(old(View()), Create(user, id, address, labelLength))
      ensures old(Sound(View())) ==> Sound(View())
    {
      if labelLength > MAX_LABEL {
        return LabelTooLong;
      }
      if id in wallets {
        return AlreadyExists;
      }
      wallets := wallets[id := Wallet(user, address, Active)];
      addresses := addresses[address := id];
      r := RegisterWalletOwner(user, id);
    }

    method DeleteWallet(user: string, id: string) returns (r: Outcome)
      modifies this
      ensures (View(), r) == Apply(old(View()), Delete(user, id))
      ensures old(Sound(View())) ==> Sound(View())
    {
      if id !in wallets {
        return NotFound;
      }
      if wallets[id].owner != user {
        return Forbidden;
      }
      wallets := wallets[id := wallets[id].(status := Deleted)];
      byOwner := byOwner - {user};
      return Done;
    }

    method ChangeStatus(id: string, status: Status) returns (r: Outcome)
      requires !status.Deleted?
      modifies this`wallets
      ensures (View(), r) == ApplyStatus(old(View()), id, status)
    {
      if id !in wallets {
        return NotFound;
      }
      if wallets[id].status.Deleted? {
        return IsDeleted;
      }
      wallets := wallets[id := wallets[id].(status := status)];
      return Done;
    }

    method SuspendWallet(id: string) returns (r: Outcome)
      modifies this`wallets
      ensures (View(), r) == Apply(old(View()), Suspend(id))
      ensures old(Sound(View())) ==> Sound(View())
    {
      r := ChangeStatus(id, Suspended);
    }

    method ActivateWallet(id: string) returns (r: Outcome)
      modifies this`wallets
      ensures (View(), r) == Apply(old(View()), Activate(id))
      ensures old(Sound(View())) ==> Sound(View())
    {
      r := ChangeStatus(id, Active);
    }
  }
}

/**
 Publishing a file by writing a temporary one and renaming it, with concurrent writers. The
 file system is modelled by inodes: opening an existing name truncates and shares its inode, and
 a rename moves the inode while other writers may still hold it.
 */
module AtomicPublish {
  import opened Basics

  /** `Writing` counts the bytes written so far. */
  datatype Stage = Ready | Writing(inode: nat, done: nat) | Gone

  datatype Writer = Writer(tmp: nat, payload: string, stage: Stage)

  /** File contents by inode, temporary names, and the inode published at the target path. */
  datatype Fs = Fs(inodes: seq<string>, names: map<nat, nat>, target: Option<nat>, writers: seq<Writer>)

  datatype Action =
    | Open(w: nat)
    | Write(w: nat, count: nat)
    | Rename(w: nat, ok: bool, removed: bool)

  function SetWriter(fs: Fs, w: nat, stage: Stage): Fs
    requires w < |fs.writers|
  {
    fs.(writers := fs.writers[w := fs.writers[w].(stage := stage)])
  }

  /** Create the temporary file, or truncate the one that has the name. */
  function DoOpen(fs: Fs, w: nat): Fs
    requires w < |fs.writers|
  {
    var tmp := fs.writers[w].tmp;
    if tmp in fs.names && fs.names[tmp] < |fs.inodes| then
      var inode := fs.names[tmp];
      SetWriter(fs.(inodes := fs.inodes[inode := ""]), w, Writing(inode, 0))
    else
      var inode := |fs.inodes|;
      SetWriter(fs.(inodes := fs.inodes + [""], names := fs.names[tmp := inode]), w, Writing(inode, 0))
  }

  /** Bytes written at `offset`; a hole left by truncation reads as zero bytes. */
  function Overwrite(content: string, offset: nat, data: string): string {
    var padded := if |content| < offset then content + seq(offset - |content|, _ => '\0') else content;
    padded[..offset] + data + if offset + |data| < |padded| then padded[offset + |data|..] else ""
  }

  /** Write the next bytes of the payload at the writer's position in its inode. */
  function DoWrite(fs: Fs, w: nat, inode: nat, done: nat, count: nat): Fs
    requires w < |fs.writers|
  {
    var payload := fs.writers[w].payload;
    if inode < |fs.inodes| && done + count <= |payload| then
      SetWriter(fs.(inodes := fs.inodes[inode := Overwrite(fs.inodes[inode], done, payload[done..done + count])]),
                w, Writing(inode, done + count))
    else fs
  }

  /** Publish once everything is written; when the rename fails the temporary file is removed, or stays behind. */
  function DoRename(fs: Fs, w: nat, ok: bool, removed: bool): Fs
    requires w < |fs.writers|
  {
    var tmp := fs.writers[w].tmp;
    if ok && tmp in fs.names
    then SetWriter(fs.(target := Some(fs.names[tmp]), names := fs.names - {tmp}), w, Gone)
    else SetWriter(if removed then fs.(names := fs.names - {tmp}) else fs, w, Gone)
  }

  /** A step that is not enabled changes nothing; a crash is a writer that takes no further step. */
  function Step(fs: Fs, a: Action): Fs {
    if a.w >= |fs.writers| then fs
    else match (a, fs.writers[a.w].stage)
      case (Open(w), Ready) => DoOpen(fs, w)
      case (Write(w, count), Writing(inode, done)) => DoWrite(fs, w, inode, done, count)
      case (Rename(w, ok, removed), Writing(_, done)) =>
        if done == |fs.writers[w].payload| then DoRename(fs, w, ok, removed) else fs
      case _ => fs
  }

  function Run(fs: Fs, actions: seq<Action>): Fs {
    if actions == [] then fs else Step(Run(fs, actions[..|actions| - 1]), actions[|actions| - 1])
  }

  lemma EmptyRun(fs: Fs)
    ensures Run(fs, []) == fs
  {
  }

  lemma RunStep(fs: Fs, actions: seq<Action>, k: nat)
    requires k < |actions|
    ensures Run(fs, actions[..k + 1]) == Step(Run(fs, actions[..k]), actions[k])
  {
    assert actions[..k + 1][..k] == actions[..k];
  }

  /** What a reader of the target path sees. */
  function Published(fs: Fs): Option<string> {
    if fs.target.Some? && fs.target.value < |fs.inodes| then Some(fs.inodes[fs.target.value]) else None
  }

  predicate IsPayload(fs: Fs, content: string) {
    exists w | 0 <= w < |fs.writers| :: fs.writers[w].payload == content
  }

  /** Temporary names lead to existing files, each to its own, and to none that is published. */
  predicate GoodNames(fs: Fs) {
    && (forall a | a in fs.names :: fs.names[a] < |fs.inodes| && fs.target != Some(fs.names[a]))
    && (forall a, b | a in fs.names && b in fs.names && a != b :: fs.names[a] != fs.names[b])
    && (fs.target.Some? ==> fs.target.value < |fs.inodes|)
  }

  /** Writers that have not started; there may be a published file, and temporary files left by earlier crashes. */
  predicate Start(fs: Fs) {
    GoodNames(fs) && forall w | 0 <= w < |fs.writers| :: fs.writers[w].stage.Ready?
  }

  predicate UniqueNames(fs: Fs) {
    forall v, w | 0 <= v < w < |fs.writers| :: fs.writers[v].tmp != fs.writers[w].tmp
  }

  // -------------------------------------------------------------- invariant

  /** An active writer's temporary name leads to its inode, which holds what it has written so far. */
  predicate WriterInv(fs: Fs, w: nat)
    requires w < |fs.writers|
  {
    var x := fs.writers[w];
    x.stage.Writing? ==>
      && x.stage.inode < |fs.inodes| && x.stage.done <= |x.payload|
      && fs.inodes[x.stage.inode] == x.payload[..x.stage.done]
      && x.tmp in fs.names && fs.names[x.tmp] == x.stage.inode
  }

  predicate Inv(fs: Fs, initial: Option<string>) {
    && UniqueNames(fs) && GoodNames(fs)
    && (forall w | 0 <= w < |fs.writers| :: WriterInv(fs, w))
    && (Published(fs) == initial || (Published(fs).Some? && IsPayload(fs, Published(fs).value)))
  }

  lemma SamePayloads(fs: Fs, n: Fs)
    requires |n.writers| == |fs.writers|
    requires forall w | 0 <= w < |fs.writers| :: n.writers[w].payload == fs.writers[w].payload
    ensures forall c :: IsPayload(n, c) <==> IsPayload(fs, c)
  {
    forall c ensures IsPayload(n, c) <==> IsPayload(fs, c) {
      if IsPayload(fs, c) {
        var w :| 0 <= w < |fs.writers| && fs.writers[w].payload == c;
        assert n.writers[w].payload == c;
      }
      if IsPayload(n, c) {
        var w :| 0 <= w < |n.writers| && n.writers[w].payload == c;
        assert fs.writers[w].payload == c;
      }
    }
  }

  lemma DifferentNames(fs: Fs, v: nat, w: nat)
    requires UniqueNames(fs) && v < |fs.writers| && w < |fs.writers| && v != w
    ensures fs.writers[v].tmp != fs.writers[w].tmp
  {
    assert v < w || w < v;
  }

  lemma OpenKeepsInv(fs: Fs, w: nat, initial: Option<string>)
    requires Inv(fs, initial) && w < |fs.writers| && fs.writers[w].stage.Ready?
    ensures Inv(DoOpen(fs, w), initial)
  {
    hide IsPayload;
    var n := DoOpen(fs, w);
    forall v | 0 <= v < |n.writers| ensures WriterInv(n, v) {
      assert WriterInv(fs, v);
      if v != w {
        DifferentNames(fs, v, w);
      }
    }
    SamePayloads(fs, n);
  }

  lemma WriteKeepsInv(fs: Fs, w: nat, count: nat, initial: Option<string>)
    requires Inv(fs, initial) && w < |fs.writers| && fs.writers[w].stage.Writing?
    ensures Inv(DoWrite(fs, w, fs.writers[w].stage.inode, fs.writers[w].stage.done, count), initial)
  {
    hide IsPayload;
    var x := fs.writers[w];
    var inode, done := x.stage.inode, x.stage.done;
    var n := DoWrite(fs, w, inode, done, count);
    assert WriterInv(fs, w);
    if done + count <= |x.payload| {
      assert n.inodes[inode] == x.payload[..done + count];
    }
    forall v | 0 <= v < |n.writers| ensures WriterInv(n, v) {
      assert WriterInv(fs, v);
      if v != w {
        DifferentNames(fs, v, w);
      }
    }
    SamePayloads(fs, n);
  }

  lemma RenameKeepsInv(fs: Fs, w: nat, ok: bool, removed: bool, initial: Option<string>)
    requires Inv(fs, initial) && w < |fs.writers| && fs.writers[w].stage.Writing?
    requires fs.writers[w].stage.done == |fs.writers[w].payload|
    ensures Inv(DoRename(fs, w, ok, removed), initial)
  {
    var x, n := fs.writers[w], DoRename(fs, w, ok, removed);
    assert WriterInv(fs, w);
    assert x.payload[..|x.payload|] == x.payload;
    assert n.writers[w].payload == x.payload;
    forall v | 0 <= v < |n.writers| ensures WriterInv(n, v) {
      assert WriterInv(fs, v);
      if v != w {
        DifferentNames(fs, v, w);
      }
    }
    SamePayloads(fs, n);
  }

  lemma StepKeepsInv(fs: Fs, a: Action, initial: Option<string>)
    requires Inv(fs, initial)
    ensures Inv(Step(fs, a), initial)
  {
    hide Inv, DoOpen, DoWrite, DoRename;
    if a.w < |fs.writers| {
      match (a, fs.writers[a.w].stage) {
        case (Open(w), Ready) => OpenKeepsInv(fs, w, initial);
        case (Write(w, count), Writing(_, _)) => WriteKeepsInv(fs, w, count, initial);
        case (Rename(w, ok, removed), Writing(_, done)) =>
          if done == |fs.writers[w].payload| {
            RenameKeepsInv(fs, w, ok, removed, initial);
          }
        case _ =>
      }
    }
  }

  lemma StartHasInv(fs: Fs)
    requires Start(fs) && UniqueNames(fs)
    ensures Inv(fs, Published(fs))
  {
  }

  lemma StepKeepsPayloads(fs: Fs, a: Action)
    ensures |Step(fs, a).writers| == |fs.writers|
    ensures forall c :: IsPayload(Step(fs, a), c) <==> IsPayload(fs, c)
  {
    hide IsPayload;
    SamePayloads(fs, Step(fs, a));
  }

  lemma {:induction false} EveryRunKeepsInv(fs: Fs, actions: seq<Action>)
    requires Start(fs) && UniqueNames(fs)
    ensures Inv(Run(fs, actions), Published(fs)) && |Run(fs, actions).writers| == |fs.writers|
    ensures forall c :: IsPayload(Run(fs, actions), c) <==> IsPayload(fs, c)
  {
    hide Inv, Step, IsPayload;
    if actions == [] {
      StartHasInv(fs);
    } else {
      var front := actions[..|actions| - 1];
      EveryRunKeepsInv(fs, front);
      StepKeepsInv(Run(fs, front), actions[|actions| - 1], Published(fs));
      StepKeepsPayloads(Run(fs, front), actions[|actions| - 1]);
    }
  }

  /**
   In every interleaving of writers with unique temporary names, failures and crashes included,
   the target holds its initial content or one complete payload.
   */
  lemma NeverTorn(fs: Fs, actions: seq<Action>)
    requires Start(fs) && UniqueNames(fs)
    ensures
      var seen := Published(Run(fs, actions));
      seen == Published(fs) || (seen.Some? && IsPayload(fs, seen.value))
  {
    hide Run;
    EveryRunKeepsInv(fs, actions);
  }

  /** Writer i completes its file; j, using the same name, truncates it; i publishes the empty rest. */
  function TearingRun(fs: Fs, i: nat, j: nat): seq<Action>
    requires i < |fs.writers|
  {
    [Open(i), Write(i, |fs.writers[i].payload|), Open(j), Rename(i, true, true)]
  }

  lemma TearingSteps(fs: Fs, i: nat, j: nat)
    requires Start(fs) && i < |fs.writers| && j < |fs.writers| && i != j
    requires fs.writers[i].tmp == fs.writers[j].tmp
    ensures
      var a := TearingRun(fs, i, j);
      Published(Step(Step(Step(Step(fs, a[0]), a[1]), a[2]), a[3])) == Some("")
  {
    hide Overwrite;
    var payload, tmp := fs.writers[i].payload, fs.writers[i].tmp;
    var f1 := Step(fs, Open(i));
    assert tmp in f1.names && f1.names[tmp] < |f1.inodes|;
    var inode := f1.names[tmp];
    assert f1.writers == fs.writers[i := Writer(tmp, payload, Writing(inode, 0))];
    var f2 := Step(f1, Write(i, |payload|));
    assert f2.names == f1.names && |f2.inodes| == |f1.inodes|;
    assert f2.writers == fs.writers[i := Writer(tmp, payload, Writing(inode, |payload|))];
    var f3 := Step(f2, Open(j));
    assert f3.names == f1.names && f3.inodes == f2.inodes[inode := ""] && f3.writers[i] == f2.writers[i];
  }

  /** Two writers sharing a temporary name can publish a file that is neither's payload. */
  lemma SharedNameTears(fs: Fs, i: nat, j: nat)
    requires Start(fs) && i < |fs.writers| && j < |fs.writers| && i != j
    requires fs.writers[i].tmp == fs.writers[j].tmp
    ensures Published(Run(fs, TearingRun(fs, i, j))) == Some("")
  {
    hide Run, Step;
    var a := TearingRun(fs, i, j);
    assert a[..4] == a && a[..0] == [];
    EmptyRun(fs);
    RunStep(fs, a, 0);
    RunStep(fs, a, 1);
    RunStep(fs, a, 2);
    RunStep(fs, a, 3);
    TearingSteps(fs, i, j);
  }

  /** No interleaving tears the file exactly when the temporary names are unique. */
  lemma TornExactlyWhenShared(fs: Fs)
    requires Start(fs) && Published(fs) != Some("") && !IsPayload(fs, "")
    ensures UniqueNames(fs) <==>
            forall actions ::
              var seen := Published(Run(fs, actions));
              seen == Published(fs) || (seen.Some? && IsPayload(fs, seen.value))
  {
    hide Run, IsPayload;
    if UniqueNames(fs) {
      forall actions
        ensures
          var seen := Published(Run(fs, actions));
          seen == Published(fs) || (seen.Some? && IsPayload(fs, seen.value))
      {
        NeverTorn(fs, actions);
      }
    } else {
      var v, w :| 0 <= v < w < |fs.writers| && fs.writers[v].tmp == fs.writers[w].tmp;
      SharedNameTears(fs, v, w);
      assert Published(Run(fs, TearingRun(fs, v, w))) == Some("");
    }
  }

  // ------------------------------------------------------------ what is published

  /** The action is a rename that goes through: its writer has written everything. */
  predicate Publishes(fs: Fs, a: Action) {
    && a.Rename? && a.ok && a.w < |fs.writers|
    && fs.writers[a.w].stage.Writing? && fs.writers[a.w].stage.done == |fs.writers[a.w].payload|
  }

  /** A step publishes the whole payload of its writer if it is such a rename, and otherwise leaves the target alone. */
  lemma StepPublishes(fs: Fs, a: Action, initial: Option<string>)
    requires Inv(fs, initial)
    ensures Published(Step(fs, a)) ==
            if Publishes(fs, a) then Some(fs.writers[a.w].payload) else Published(fs)
  {
    hide IsPayload, Overwrite, UniqueNames;
    if a.w < |fs.writers| {
      assert WriterInv(fs, a.w);
      var x := fs.writers[a.w];
      assert x.payload[..|x.payload|] == x.payload;
    }
  }

  lemma {:induction false} SamePayload(fs: Fs, actions: seq<Action>, w: nat)
    requires w < |fs.writers|
    ensures |Run(fs, actions).writers| == |fs.writers| && Run(fs, actions).writers[w].payload == fs.writers[w].payload
  {
    hide Overwrite;
    if actions != [] {
      SamePayload(fs, actions[..|actions| - 1], w);
    }
  }

  /** In every interleaving with unique names the last rename that went through decides what readers see. */
  lemma {:induction false} LastRenameWins(fs: Fs, actions: seq<Action>, k: nat)
    requires Start(fs) && UniqueNames(fs) && k < |actions| && Publishes(Run(fs, actions[..k]), actions[k])
    requires forall j | k < j < |actions| :: !Publishes(Run(fs, actions[..j]), actions[j])
    ensures actions[k].w < |fs.writers| && Published(Run(fs, actions)) == Some(fs.writers[actions[k].w].payload)
    decreases |actions|
  {
    hide Run, Step, Inv, Published;
    var last := |actions| - 1;
    var front := actions[..last];
    EveryRunKeepsInv(fs, front);
    assert actions[..last + 1] == actions;
    RunStep(fs, actions, last);
    StepPublishes(Run(fs, front), actions[last], Published(fs));
    if k == last {
      SamePayload(fs, front, actions[k].w);
    } else {
      assert forall j | 0 <= j < last :: front[..j] == actions[..j] && front[j] == actions[j];
      LastRenameWins(fs, front, k);
    }
  }

  /** In every interleaving without such a rename readers see the initial content. */
  lemma {:induction false} NoRenameNoChange(fs: Fs, actions: seq<Action>)
    requires Start(fs) && UniqueNames(fs)
    requires forall j | 0 <= j < |actions| :: !Publishes(Run(fs, actions[..j]), actions[j])
    ensures Published(Run(fs, actions)) == Published(fs)
  {
    hide Run, Step, Inv, Published;
    if actions == [] {
      EmptyRun(fs);
    } else {
      var last := |actions| - 1;
      var front := actions[..last];
      EveryRunKeepsInv(fs, front);
      assert actions[..last + 1] == actions;
      RunStep(fs, actions, last);
      StepPublishes(Run(fs, front), actions[last], Published(fs));
      assert forall j | 0 <= j < last :: front[..j] == actions[..j] && front[j] == actions[j];
      NoRenameNoChange(fs, front);
    }
  }

  lemma ActiveInode(fs: Fs, w: nat, initial: Option<string>)
    requires Inv(fs, initial) && w < |fs.writers| && fs.writers[w].stage.Writing?
    ensures fs.writers[w].stage.inode < |fs.inodes|
  {
    assert WriterInv(fs, w);
  }

  /** From every reachable state a writer that has not started can publish its payload by its own three steps. */
  lemma WriterCanPublish(fs: Fs, initial: Option<string>, w: nat)
    requires Inv(fs, initial) && w < |fs.writers| && fs.writers[w].stage.Ready?
    ensures
      var started := Step(fs, Open(w));
      var written := Step(started, Write(w, |fs.writers[w].payload|));
      Published(Step(written, Rename(w, true, true))) == Some(fs.writers[w].payload)
  {
    hide Inv, Overwrite;
    var payload := fs.writers[w].payload;
    var started := Step(fs, Open(w));
    StepKeepsInv(fs, Open(w), initial);
    assert started.writers[w].stage.Writing? && started.writers[w].stage.done == 0;
    assert started.writers[w].payload == payload;
    ActiveInode(started, w, initial);
    var written := Step(started, Write(w, |payload|));
    assert written.writers[w].stage.Writing? && written.writers[w].stage.done == |payload|;
    StepKeepsInv(started, Write(w, |payload|), initial);
    StepPublishes(written, Rename(w, true, true), initial);
  }
}

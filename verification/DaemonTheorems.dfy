/** What holds in every run of the daemon, whatever the interleaving. */
module DaemonTheorems {
  import opened Bytes
  import opened Vaults
  import opened VaultFile
  import opened Daemon
  import opened DaemonInvariants
  import opened DaemonSteps
  import Sessions

  // ----- No update is lost -----

  /** The vault after the logged writes, applied in order. */
  function Replay(v: Vault, log: seq<Entry>): Vault {
    if log == [] then v
    else
      var e := log[|log| - 1];
      var before := Replay(v, log[..|log| - 1]);
      match Modify(e.change, before, e.now)
      case Ok(after) => after
      case Err(_) => before
  }

  lemma {:induction false} CommitsAreReplays(s: State, i: nat)
    requires HistoryOk(s) && i <= |s.log|
    ensures s.commits[i] == Replay(s.commits[0], s.log[..i])
  {
    if i > 0 {
      CommitsAreReplays(s, i - 1);
      assert s.log[..i][..i - 1] == s.log[..i - 1];
      assert EntryOk(s, i - 1);
    }
  }

  lemma {:induction false} CommitsGrow(s: State, run: seq<Action>)
    requires s.commits != []
    ensures s.commits <= After(s, run).commits
    decreases |run|
  {
    if run != [] {
      NextCommits(s, run[0]);
      CommitsGrow(Next(s, run[0]), run[1..]);
    }
  }

  /** The current version of the vault, in place or, while a writer is between
      its renames or after the second one failed, in the backup. */
  function Current(s: State): Option<SealedFile> {
    if s.vault.Some? then s.vault else s.bak
  }

  /** In every run the current vault is the initial one with the logged writes
      applied in the order of their turns at writeMu, still sealed to the
      original key; a write that reported success is in the log, at a place
      after its arrival. */
  lemma NoUpdateLost(s0: State, run: seq<Action>, k: Key)
    requires Initial(s0, k)
    ensures var s := After(s0, run);
            && Current(s) == Some(SealedFile(k, Replay(s0.vault.value.vault, s.log)))
            && (forall i, j :: 0 <= i < j < |s.log| ==> s.log[i].ticket < s.log[j].ticket && s.log[i].t != s.log[j].t)
            && (forall t :: 0 <= t < |s.threads| && s.threads[t].req.Write? && s.threads[t].pc == Finished(Success) ==>
                  exists i :: s.threads[t].start <= i < |s.log| && s.log[i].t == t && s.log[i].change == s.threads[t].req.change)
  {
    hide Modify, Sessions.Consistent, Typed, LocksOk, SessionOk, ReadsOk, EntryOk, Replay;
    InitialInv(s0, k);
    AfterInv(s0, run, k);
    var s := After(s0, run);
    CommitsGrow(s0, run);
    assert s.commits[0] == s0.commits[0];
    CommitsAreReplays(s, |s.log|);
    assert s.log[..|s.log|] == s.log;
    LogDistinct(s);
    forall t | 0 <= t < |s.threads| && s.threads[t].req.Write? && s.threads[t].pc == Finished(Success)
      ensures exists i :: s.threads[t].start <= i < |s.log| && s.log[i].t == t && s.log[i].change == s.threads[t].req.change
    {
      var i := SuccessLogged(s, t);
    }
  }

  lemma LogDistinct(s: State)
    requires HistoryOk(s)
    ensures forall i, j :: 0 <= i < j < |s.log| ==> s.log[i].ticket < s.log[j].ticket && s.log[i].t != s.log[j].t
  {
    hide Modify, Committed;
    forall i, j | 0 <= i < j < |s.log| ensures s.log[i].t != s.log[j].t {
      assert EntryOk(s, i) && EntryOk(s, j);
    }
  }

  lemma SuccessLogged(s: State, t: nat) returns (i: nat)
    requires HistoryOk(s) && t < |s.threads| && s.threads[t].req.Write? && s.threads[t].pc == Finished(Success)
    ensures s.threads[t].start <= i < |s.log| && s.log[i].t == t && s.log[i].change == s.threads[t].req.change
  {
    assert InLog(s, t);
    i :| 0 <= i < |s.log| && s.log[i].t == t;
    assert EntryOk(s, i);
  }

  /** Conversely the log holds nothing else: each entry is a write that
      arrived, was accepted, and reported success or failed only to sync the
      directory, unless it is still under way. A write that reported any other
      failure changed nothing. */
  lemma OnlySuccessesLogged(s0: State, run: seq<Action>, k: Key, t: nat)
    requires Initial(s0, k)
    requires t < |After(s0, run).threads|
    ensures var s := After(s0, run);
            var th := s.threads[t];
            th.pc.Finished? ==> (InLog(s, t) <==> th.req.Write? && (th.pc.out == Success || th.pc.out == Unsynced))
  {
    hide Sessions.Consistent, SessionOk, LocksOk, FilesOk, ReadsOk, Modify;
    InitialInv(s0, k);
    AfterInv(s0, run, k);
    var s := After(s0, run);
    forall i | 0 <= i < |s.log| && s.log[i].t == t
      ensures s.threads[t].req.Write? && Committed(s.threads[t].pc)
    {
      assert EntryOk(s, i);
    }
  }

  /** In every run every version that is ever in place holds valid secrets
      only, if the first one does. */
  lemma StoredSecretsValid(s0: State, run: seq<Action>, k: Key, i: nat)
    requires Initial(s0, k) && AllValid(s0.vault.value.vault)
    requires i < |After(s0, run).commits|
    ensures AllValid(After(s0, run).commits[i])
  {
    InitialInv(s0, k);
    AfterInv(s0, run, k);
    CommitsGrow(s0, run);
    assert After(s0, run).commits[0] == s0.commits[0];
    VersionsValid(After(s0, run), i);
  }

  lemma {:induction false} VersionsValid(s: State, i: nat)
    requires HistoryOk(s) && i < |s.commits| && AllValid(s.commits[0])
    ensures AllValid(s.commits[i])
  {
    hide Modify, Committed, AllValid;
    if i > 0 {
      VersionsValid(s, i - 1);
      assert EntryOk(s, i - 1);
      ModifyRefinesMap(s.log[i - 1].change, s.commits[i - 1], s.log[i - 1].now);
    }
  }

  // ----- Reads -----

  /** At the step that ends a read, its answer is the one given by a version
      that was current at some moment since the request arrived: `i` counts
      versions from the one current at arrival up to the one current now. */
  lemma ReadsSeeCommittedVersions(s0: State, run: seq<Action>, k: Key, t: nat, c: Choice)
    requires Initial(s0, k)
    requires Enabled(After(s0, run), t)
    requires var s := After(s0, run); s.threads[t].req.Read? && Step(s, t, c).threads[t].pc.Finished?
    ensures var s := After(s0, run);
            var th := s.threads[t];
            match Step(s, t, c).threads[t].pc.out
            case Answered(a) => exists i :: th.start <= i < |s.commits| && Ask(th.req.query, s.commits[i]) == Ok(a)
            case Failed(NotFound) => exists i :: th.start <= i < |s.commits| && Ask(th.req.query, s.commits[i]) == Err(NotFound)
            case _ => true
  {
    hide Sessions.Consistent, SessionOk, FilesOk, Ask;
    InitialInv(s0, k);
    AfterInv(s0, run, k);
    var s := After(s0, run);
    assert Typed(s.threads[t]) && AnswerOk(s, s.threads[t]);
    EndsByLeaving(s, t, c);
  }

  lemma EndsByLeaving(s: State, t: nat, c: Choice)
    requires s.commits != [] && Enabled(s, t) && s.threads[t].req.Read? && Typed(s.threads[t])
    requires Step(s, t, c).threads[t].pc.Finished?
    ensures s.threads[t].pc == Leaving(Step(s, t, c).threads[t].pc.out)
  {
    if s.threads[t].pc.Holding? {
      InsideGoesOn(s, t, c);
    }
  }

  lemma InsideGoesOn(s: State, t: nat, c: Choice)
    requires s.commits != [] && Enabled(s, t) && s.threads[t].req.Read? && s.threads[t].pc.Holding?
    ensures Step(s, t, c).threads[t].pc.Leaving?
  {
  }

  /** At the step that ends a delete with "not found", the name was absent from
      a version that was current at some moment since the request arrived. */
  lemma DeletesSeeCommittedVersions(s0: State, run: seq<Action>, k: Key, t: nat, c: Choice)
    requires Initial(s0, k)
    requires Enabled(After(s0, run), t)
    requires var s := After(s0, run);
             s.threads[t].req.Write? && Step(s, t, c).threads[t].pc == Finished(Failed(NotFound))
    ensures var s := After(s0, run);
            var th := s.threads[t];
            && th.req.change.Remove?
            && exists i :: th.start <= i < |s.commits| && th.req.change.name !in s.commits[i]
  {
    hide Sessions.Consistent, SessionOk, FilesOk, HistoryOk, LocksOk;
    InitialInv(s0, k);
    AfterInv(s0, run, k);
    var s := After(s0, run);
    TypedThread(s, t);
    assert AnswerOk(s, s.threads[t]);
    EndsByReleasing(s, t, c);
  }

  lemma EndsByReleasing(s: State, t: nat, c: Choice)
    requires s.commits != [] && Enabled(s, t) && s.threads[t].req.Write? && Typed(s.threads[t])
    requires Step(s, t, c).threads[t].pc.Finished?
    ensures s.threads[t].pc == HoldingMu(Step(s, t, c).threads[t].pc.out)
  {
    hide ReadOutcome, Begun;
  }

  /** "The vault does not exist" is found only while a writer is between its
      two renames, or after a final rename has failed. */
  lemma MissingOnlyBetweenRenames(s0: State, run: seq<Action>, k: Key, t: nat, c: Choice)
    requires Initial(s0, k)
    requires Enabled(After(s0, run), t)
    requires var s := After(s0, run);
             s.threads[t].pc.Holding? && Step(s, t, c).threads[t].pc == Leaving(Failed(NoVault))
    ensures var s := After(s0, run);
            && s.vault.None?
            && (s.lost || exists u :: 0 <= u < |s.threads| && u != t && s.threads[u].pc.Moved?)
  {
    hide Sessions.Consistent, SessionOk, HistoryOk, ReadsOk;
    InitialInv(s0, k);
    AfterInv(s0, run, k);
    var s := After(s0, run);
    assert Typed(s.threads[t]);
    FindsNoVault(s, t, c);
    if !s.lost {
      assert s.threads[s.mu.value].pc.Moved?;
    }
  }

  /** It does happen: in any fresh daemon, for any change the vault accepts and
      any query, some run leaves a read with that answer though no rename has
      failed. */
  lemma ReadFindsNoVault(s0: State, k: Key, change: Change, q: Query, now: int) returns (run: seq<Action>)
    requires Initial(s0, k) && ValidQuery(q) && Modify(change, s0.vault.value.vault, now).Ok?
    ensures var s := After(s0, run);
            && !s.lost && |s.threads| == 3
            && s.threads[2].req == Read(q) && s.threads[2].pc == Leaving(Failed(NoVault))
  {
    hide ValidQuery, Modify;
    var s;
    run, s := UnlockDaemon(s0, k);
    run, s := MoveVault(s0, run, s, k, change, now);
    run, s := LookForVault(s0, run, s, k, q);
  }

  lemma Extend(s0: State, run: seq<Action>, s: State, a: Action) returns (run': seq<Action>, s': State)
    requires s0.commits != [] && s == After(s0, run)
    ensures s.commits != [] && s' == Next(s, a) == After(s0, run') && run' == run + [a]
  {
    run', s' := run + [a], Next(s, a);
    AfterSnoc(s0, run, a);
  }

  lemma {:induction false} AfterSnoc(s: State, run: seq<Action>, a: Action)
    requires s.commits != []
    ensures After(s, run + [a]) == Next(After(s, run), a)
    decreases |run|
  {
    hide Step, Spawn;
    if run == [] {
      NextCommits(s, a);
      assert [] + [a] == [a] && [a][1..] == [];
    } else {
      NextCommits(s, run[0]);
      assert (run + [a])[1..] == run[1..] + [a];
      AfterSnoc(Next(s, run[0]), run[1..], a);
    }
  }

  /** A daemon with the key held and nothing else going on. */
  ghost predicate Idle(s: State, k: Key) {
    && s.session.id == Some(k) && s.writer == None && s.readers == {} && s.mu == None
    && s.vault.Some? && s.vault.value.recipient == k && !s.lost && s.commits != []
  }

  lemma UnlockDaemon(s0: State, k: Key) returns (run: seq<Action>, s: State)
    requires Initial(s0, k)
    ensures s == After(s0, run) && Idle(s, k) && |s.threads| == 1 && s.vault == s0.vault && s.log == s0.log
  {
    run, s := LockForUnlock(s0, k);
    run, s := InstallKey(s0, run, s, k);
  }

  /** The write lock is held, for the unlock that will install k. */
  ghost predicate AboutToDrop(s: State, k: Key) {
    && s.session == Sessions.Allocate(Sessions.LOCKED, k)
    && |s.threads| == 1 && s.threads[0].req == Unlock(Some(k), 0) && s.threads[0].buf == 0 && s.threads[0].pc == Dropping
    && s.writer == Some(0) && s.readers == {} && s.mu == None && !s.lost && s.commits != []
  }

  lemma LockForUnlock(s0: State, k: Key) returns (run: seq<Action>, s: State)
    requires Initial(s0, k)
    ensures s == After(s0, run) && AboutToDrop(s, k) && s.vault == s0.vault && s.log == s0.log
  {
    hide ReadOutcome, Begun, Sessions.Drop, Sessions.Install;
    var go := Run(0, Choice(false, 0));
    run, s := MakeBuffer(s0, k);
    run, s := Extend(s0, run, s, go);
    run, s := Extend(s0, run, s, go);
    assert s.threads[0].pc == Exclusive;
    run, s := Extend(s0, run, s, go);
  }

  lemma MakeBuffer(s0: State, k: Key) returns (run: seq<Action>, s: State)
    requires Initial(s0, k)
    ensures s == After(s0, run)
    ensures s == s0.(session := Sessions.Allocate(Sessions.LOCKED, k),
                     threads := [Thread(Unlock(Some(k), 0), WantWrite, 0, 0, 0, 0)])
  {
    hide ReadOutcome, Begun, Sessions.Drop, Sessions.Install;
    run, s := Extend(s0, [], s0, Arrive(Unlock(Some(k), 0)));
    run, s := Extend(s0, run, s, Run(0, Choice(false, 0)));
  }

  lemma InstallKey(s0: State, run: seq<Action>, s: State, k: Key) returns (run': seq<Action>, s': State)
    requires s0.commits != [] && s == After(s0, run) && AboutToDrop(s, k)
    requires s.vault.Some? && s.vault.value.recipient == k
    ensures s' == After(s0, run') && Idle(s', k) && |s'.threads| == 1 && s'.vault == s.vault && s'.log == s.log
  {
    hide ReadOutcome, Begun;
    var go := Run(0, Choice(false, 0));
    run', s' := Extend(s0, run, s, go);
    assert s'.session.buffers[0].key == k && s'.threads[0].buf == 0;
    run', s' := Extend(s0, run', s', go);
    run', s' := Extend(s0, run', s', go);
  }

  /** So does the other way to it: the second rename fails, and the vault from
      before is in its backup alone. */
  lemma RenameFails(s0: State, k: Key, change: Change, now: int) returns (run: seq<Action>)
    requires Initial(s0, k) && Modify(change, s0.vault.value.vault, now).Ok?
    ensures var s := After(s0, run);
            && s.lost && s.vault == None && s.bak == s0.vault && s.log == []
            && |s.threads| == 2 && s.threads[1].req == Write(change) && s.threads[1].pc == Leaving(Failed(Broken))
  {
    hide Modify;
    var s;
    run, s := UnlockDaemon(s0, k);
    run, s := MoveVault(s0, run, s, k, change, now);
    run, s := FailRename(s0, run, s);
  }

  lemma FailRename(s0: State, run: seq<Action>, s: State) returns (run': seq<Action>, s': State)
    requires s0.commits != [] && s == After(s0, run) && s.commits != [] && |s.threads| == 2 && s.threads[1].pc.Moved?
    ensures s' == After(s0, run') && s' == Goto(s, 1, Leaving(Failed(Broken))).(lost := true)
  {
    run', s' := Extend(s0, run, s, Run(1, Choice(true, 0)));
  }

  /** And a write can report a failure although it has taken effect: its
      directory sync fails. */
  lemma SyncFails(s0: State, k: Key, change: Change, now: int) returns (run: seq<Action>)
    requires Initial(s0, k) && Modify(change, s0.vault.value.vault, now).Ok?
    ensures var s := After(s0, run);
            && s.vault == Some(SealedFile(k, Modify(change, s0.vault.value.vault, now).value)) && !s.lost
            && |s.threads| == 2 && s.threads[1].req == Write(change) && s.threads[1].pc == Leaving(Unsynced)
  {
    hide Modify;
    var s;
    run, s := UnlockDaemon(s0, k);
    run, s := MoveVault(s0, run, s, k, change, now);
    run, s := FailSync(s0, run, s);
  }

  lemma FailSync(s0: State, run: seq<Action>, s: State) returns (run': seq<Action>, s': State)
    requires s0.commits != [] && s == After(s0, run) && s.commits != [] && |s.threads| == 2
    requires s.threads[1].pc.Moved? && s.threads[1].req.Write?
    ensures s' == After(s0, run') && s'.lost == s.lost && |s'.threads| == 2
    ensures s'.vault == Some(SealedFile(s.threads[1].pc.id, s.threads[1].pc.next))
    ensures s'.threads[1] == s.threads[1].(pc := Leaving(Unsynced))
  {
    hide ReadOutcome, Begun;
    run', s' := Extend(s0, run, s, Run(1, Choice(false, 0)));
    run', s' := Extend(s0, run', s', Run(1, Choice(true, 0)));
  }

  /** A writer has moved the old vault aside and not yet the new one in. */
  ghost predicate Between(s: State, k: Key) {
    s.session.id == Some(k) && s.writer == None && s.vault == None && !s.lost && s.commits != []
  }

  lemma MoveVault(s0: State, run: seq<Action>, s: State, k: Key, change: Change, now: int)
    returns (run': seq<Action>, s': State)
    requires s0.commits != [] && s == After(s0, run) && Idle(s, k) && |s.threads| == 1
    requires Modify(change, s.vault.value.vault, now).Ok?
    ensures s' == After(s0, run') && Between(s', k) && |s'.threads| == 2
    ensures s'.bak == s.vault && s'.log == s.log && s'.threads[1].req == Write(change)
    ensures s'.threads[1].pc == Moved(k, s.vault.value.vault, Modify(change, s.vault.value.vault, now).value, now)
  {
    hide ReadOutcome, Sessions.Drop, Sessions.Install, Sessions.Allocate;
    hide Modify;
    var go := Run(1, Choice(false, now));
    run', s' := Extend(s0, run, s, Arrive(Write(change)));
    run', s' := Extend(s0, run', s', go);
    run', s' := Extend(s0, run', s', go);
    run', s' := Extend(s0, run', s', go);
    assert s'.threads[1].pc == Holding(k);
    run', s' := Extend(s0, run', s', go);
    assert s'.threads[1].pc.Staged?;
    run', s' := Extend(s0, run', s', go);
  }

  lemma LookForVault(s0: State, run: seq<Action>, s: State, k: Key, q: Query) returns (run': seq<Action>, s': State)
    requires s0.commits != [] && s == After(s0, run) && Between(s, k) && |s.threads| == 2 && ValidQuery(q)
    ensures s' == After(s0, run') && |s'.threads| == 3 && !s'.lost
    ensures s'.threads[2].req == Read(q) && s'.threads[2].pc == Leaving(Failed(NoVault))
  {
    hide Begun, Sessions.Drop, Sessions.Install, Sessions.Allocate;
    hide ValidQuery;
    var go := Run(2, Choice(false, 0));
    run', s' := Extend(s0, run, s, Arrive(Read(q)));
    run', s' := Extend(s0, run', s', go);
    run', s' := Extend(s0, run', s', go);
    run', s' := Extend(s0, run', s', go);
  }

  lemma FindsNoVault(s: State, t: nat, c: Choice)
    requires s.commits != [] && Enabled(s, t) && s.threads[t].pc.Holding? && Typed(s.threads[t])
    requires Step(s, t, c).threads[t].pc == Leaving(Failed(NoVault))
    ensures s.vault.None?
  {
    var th := s.threads[t];
    if th.req.Read? {
      assert ValidQuery(th.req.query);
    }
  }

  /** And a final rename has failed only if the disk failed one. */
  lemma LostOnlyByFailedRename(s: State, a: Action)
    requires s.commits != [] && !s.lost && Next(s, a).lost
    ensures a.Run? && a.choice.fail && a.t < |s.threads| && s.threads[a.t].pc.Moved?
  {
    if Possible(s, a) && a.Run? && !s.threads[a.t].pc.Moved? {
      KeepsLost(s, a.t, a.choice);
    }
  }

  lemma KeepsLost(s: State, t: nat, c: Choice)
    requires s.commits != [] && Enabled(s, t) && !s.threads[t].pc.Moved?
    ensures Step(s, t, c).lost == s.lost
  {
  }

  // ----- Keys -----

  /** Under any mix of requests, unlocks with other identities among them, the
      vault and its backup stay sealed to the original key. */
  lemma KeyNeverChanges(s0: State, run: seq<Action>, k: Key)
    requires Initial(s0, k)
    ensures var s := After(s0, run);
            && (s.vault.Some? ==> s.vault.value.recipient == k)
            && (s.bak.Some? ==> s.bak.value.recipient == k)
  {
    InitialInv(s0, k);
    AfterInv(s0, run, k);
  }

  /** An operation under another identity fails and changes no file. */
  lemma WrongIdentityFails(s0: State, run: seq<Action>, k: Key, t: nat, c: Choice)
    requires Initial(s0, k)
    requires Enabled(After(s0, run), t)
    requires var pc := After(s0, run).threads[t].pc; pc.Holding? && pc.id != k
    ensures var s := After(s0, run);
            var r := Step(s, t, c);
            && r.vault == s.vault && r.bak == s.bak && r.commits == s.commits
            && r.threads[t].pc.Leaving? && r.threads[t].pc.out.Failed?
  {
    InitialInv(s0, k);
    AfterInv(s0, run, k);
    var s := After(s0, run);
    assert Typed(s.threads[t]);
    OpensNothing(s, t, c);
  }

  lemma OpensNothing(s: State, t: nat, c: Choice)
    requires s.commits != [] && Enabled(s, t) && s.threads[t].pc.Holding? && Typed(s.threads[t])
    requires s.vault.Some? ==> s.vault.value.recipient != s.threads[t].pc.id
    ensures var r := Step(s, t, c);
            && r.vault == s.vault && r.bak == s.bak && r.commits == s.commits
            && r.threads[t].pc.Leaving? && r.threads[t].pc.out.Failed?
  {
  }

  // ----- The session -----

  /** In every run the session is consistent: one buffer alive at most, every
      other one it ever had destroyed exactly once, deadline and timer
      together, one callback per generation. */
  lemma SessionAlwaysConsistent(s0: State, run: seq<Action>, k: Key)
    requires Initial(s0, k)
    ensures Sessions.Consistent(After(s0, run).session)
  {
    InitialInv(s0, k);
    AfterInv(s0, run, k);
  }

  /** While any request is inside With, nothing that happens touches the
      identity it was given: the session stays, its buffer stays alive. */
  lemma WithKeepsIdentity(s: State, k: Key, a: Action, t: nat)
    requires Inv(s, k) && t < |s.threads| && InRead(s.threads[t].pc)
    ensures var r := Next(s, a);
            && r.session.id == s.session.id && r.session.buf == s.session.buf
            && r.session.gen == s.session.gen && r.session.timer == s.session.timer
            && (s.session.buf.Some? ==>
                  && s.session.buf.value < |r.session.buffers|
                  && r.session.buffers[s.session.buf.value] == s.session.buffers[s.session.buf.value]
                  && r.session.buffers[s.session.buf.value].destroyed == 0)
  {
    if a.Run? && Possible(s, a) {
      if s.threads[a.t].pc.Dropping? || s.threads[a.t].pc.Installing? {
        Alone(s, a.t);
      } else {
        SessionMoves(s, a.t, a.choice);
      }
    }
  }

  /** Only the critical sections and Unlock's allocation touch the session. */
  lemma SessionMoves(s: State, t: nat, c: Choice)
    requires s.commits != [] && Enabled(s, t)
    requires !s.threads[t].pc.Dropping? && !s.threads[t].pc.Installing?
    ensures var r := Step(s, t, c);
            r.session == s.session || (s.threads[t].req.Unlock? && s.threads[t].req.key.Some? &&
              r.session == Sessions.Allocate(s.session, s.threads[t].req.key.value))
  {
  }

  /** The session is touched only by an Unlock, by a Lock while unlocked, and by
      the callback armed for its own generation, but for a timer that is noted
      to have fired. A callback that comes late, to a locked session or to one
      of another generation, leaves all of it alone. */
  lemma OnlyOwnCallbackEnds(s: State, k: Key, a: Action)
    requires Inv(s, k) && Next(s, a).session != s.session
    ensures match a
            case Arrive(_) => false
            case Fire(i) =>
              && i < |s.session.timers|
              && Next(s, a).session ==
                 s.session.(timers := s.session.timers[i := s.session.timers[i].(state := Sessions.Fired)])
            case Run(t, _) =>
              t < |s.threads| &&
              match s.threads[t].req
              case Lock => s.session.buf.Some?
              case Unlock(_, _) => true
              case AutoLock(g) => s.session.buf.Some? && g == s.session.gen
              case _ => false
  {
    hide ReadsOk, HistoryOk, LocksOk, Sessions.Consistent, Sessions.Drop, Sessions.Install, Step, Spawn;
    if a.Run? && Enabled(s, a.t) {
      var th := s.threads[a.t];
      TypedThread(s, a.t);
      if !th.pc.Dropping? && !th.pc.Installing? {
        SessionMoves(s, a.t, a.choice);
      }
    } else {
      SpawnKeeps(s, a);
    }
  }

  lemma TypedThread(s: State, t: nat)
    requires LocksOk(s) && t < |s.threads|
    ensures Typed(s.threads[t])
  {
  }

  lemma SpawnKeeps(s: State, a: Action)
    requires s.commits != [] && !(a.Run? && Enabled(s, a.t))
    ensures Next(s, a).session == s.session ||
            (a.Fire? && a.timer < |s.session.timers| && Next(s, a).session ==
               s.session.(timers := s.session.timers[a.timer := s.session.timers[a.timer].(state := Sessions.Fired)]))
  {
    hide Step;
  }

  // ----- Progress -----

  function Rank(pc: PC): nat {
    match pc
    case WantMu => 9
    case WantRead => 8
    case Entered => 7
    case Holding(_) => 6
    case Staged(_, _, _, _) => 5
    case Moved(_, _, _, _) => 4
    case Renamed => 3
    case Leaving(_) => 2
    case HoldingMu(_) => 1
    case Prepare => 7
    case WantWrite => 6
    case Pending => 5
    case Exclusive => 4
    case Dropping => 3
    case Installing => 2
    case Releasing => 1
    case Finished(_) => 0
  }

  /** The steps all threads together can still take. */
  function Work(threads: seq<Thread>): nat {
    if threads == [] then 0 else Rank(threads[0].pc) + Work(threads[1..])
  }

  lemma {:induction false} WorkUpdate(threads: seq<Thread>, t: nat, th: Thread)
    requires t < |threads|
    ensures Work(threads[t := th]) == Work(threads) - Rank(threads[t].pc) + Rank(th.pc)
    decreases threads
  {
    if t == 0 {
      assert threads[t := th][1..] == threads[1..];
    } else {
      assert threads[t := th][1..] == threads[1..][t - 1 := th];
      WorkUpdate(threads[1..], t - 1, th);
    }
  }

  predicate Lowers(s: State, r: State, t: nat) {
    t < |s.threads| == |r.threads| && Moves(s, r, t, r.threads[t]) && Rank(r.threads[t].pc) < Rank(s.threads[t].pc)
  }

  lemma InsideLowersRank(s: State, t: nat, c: Choice)
    requires s.commits != [] && Enabled(s, t) && Typed(s.threads[t]) && s.threads[t].pc.Holding?
    ensures Lowers(s, Step(s, t, c), t)
  {
    hide ReadOutcome, Begun, Moves;
    StepMoves(s, t, c);
  }

  lemma ReadingLowersRank(s: State, t: nat, c: Choice)
    requires s.commits != [] && Enabled(s, t) && Typed(s.threads[t])
    requires Reading(s.threads[t].pc) && !s.threads[t].pc.Holding?
    requires Moves(s, Step(s, t, c), t, Step(s, t, c).threads[t])
    ensures Lowers(s, Step(s, t, c), t)
  {
    hide Moves;
    hide ReadOutcome, Begun, Sessions.Drop, Sessions.Install, Sessions.Allocate;
  }

  lemma LockingLowersRank(s: State, t: nat, c: Choice)
    requires s.commits != [] && Enabled(s, t) && Typed(s.threads[t]) && Locking(s.threads[t].pc)
    requires s.threads[t].pc.Installing? ==> s.threads[t].buf < |s.session.buffers|
    requires Moves(s, Step(s, t, c), t, Step(s, t, c).threads[t])
    ensures Lowers(s, Step(s, t, c), t)
  {
    hide Moves;
    hide ReadOutcome, Begun, Sessions.Drop, Sessions.Install, Sessions.Allocate;
  }

  lemma StepLowersRank(s: State, t: nat, c: Choice)
    requires s.commits != [] && Enabled(s, t) && Typed(s.threads[t]) && !s.threads[t].pc.Holding?
    requires s.threads[t].pc.Installing? ==> s.threads[t].buf < |s.session.buffers|
    ensures Lowers(s, Step(s, t, c), t)
  {
    hide Step, Lowers;
    StepMoves(s, t, c);
    if Reading(s.threads[t].pc) {
      ReadingLowersRank(s, t, c);
    } else {
      LockingLowersRank(s, t, c);
    }
  }

  /** Every step of a thread is progress. */
  lemma StepLowersWork(s: State, t: nat, c: Choice, k: Key)
    requires Inv(s, k) && Enabled(s, t)
    ensures Work(Step(s, t, c).threads) < Work(s.threads)
  {
    assert Typed(s.threads[t]);
    if s.threads[t].pc.Installing? {
      assert Waiting(s.threads[t]) && HasBuffer(s, s.threads[t]);
    }
    if s.threads[t].pc.Holding? {
      InsideLowersRank(s, t, c);
    } else {
      StepLowersRank(s, t, c);
    }
    WorkUpdate(s.threads, t, Step(s, t, c).threads[t]);
  }

  predicate Unfinished(s: State, t: nat) {
    t < |s.threads| && !s.threads[t].pc.Finished?
  }

  /** A thread that waits for writeMu, the read lock or the write lock. */
  predicate Waits(pc: PC) {
    pc.WantMu? || pc.WantRead? || pc.WantWrite? || pc.Pending?
  }

  /** The locks cannot deadlock: while any thread is unfinished, some thread
      can take a step. */
  lemma NoDeadlock(s: State, k: Key, t: nat) returns (u: nat)
    requires Inv(s, k) && Unfinished(s, t)
    ensures Enabled(s, u)
  {
    hide Sessions.Consistent, SessionOk, FilesOk, HistoryOk, ReadsOk;
    if v :| 0 <= v < |s.threads| && !s.threads[v].pc.Finished? && !Waits(s.threads[v].pc) {
      return v;
    }
    // everybody waits, so nobody is a reader
    assert s.readers == {} by {
      forall r ensures r !in s.readers {}
    }
    if s.writer.Some? {
      return s.writer.value;
    }
    if s.threads[t].pc.WantMu? && s.mu.Some? {
      assert HoldsMu(s.threads[s.mu.value]);
      return s.mu.value;
    }
    return t;
  }

  predicate AllFinished(s: State) {
    forall t :: 0 <= t < |s.threads| ==> s.threads[t].pc.Finished?
  }

  /** The same requests, in the same threads. */
  predicate SameRequests(a: seq<Thread>, b: seq<Thread>) {
    |a| == |b| && forall t :: 0 <= t < |a| ==> b[t].req == a[t].req
  }

  /** From any state a schedule of at most Work steps finishes every thread. */
  lemma {:induction false} Drains(s: State, k: Key) returns (run: seq<Action>)
    requires Inv(s, k)
    ensures |run| <= Work(s.threads)
    ensures forall i :: 0 <= i < |run| ==> run[i].Run?
    ensures SameRequests(s.threads, After(s, run).threads) && AllFinished(After(s, run))
    decreases Work(s.threads)
  {
    hide Inv, Step, Work, Enabled, After;
    HasVersion(s, k);
    if AllFinished(s) {
      NothingRun(s);
      run := [];
    } else {
      var t :| 0 <= t < |s.threads| && !s.threads[t].pc.Finished?;
      var u := NoDeadlock(s, k, t);
      var a := Run(u, Choice(false, 0));
      ProgressStep(s, u, a.choice, k);
      var rest := Drains(Next(s, a), k);
      run := [a] + rest;
      AfterCons(s, a, rest);
    }
  }

  lemma HasVersion(s: State, k: Key)
    requires Inv(s, k)
    ensures s.commits != []
  {
  }

  lemma NothingRun(s: State)
    requires s.commits != []
    ensures After(s, []) == s
  {
  }

  lemma ProgressStep(s: State, u: nat, c: Choice, k: Key)
    requires Inv(s, k) && Enabled(s, u)
    ensures var r := Next(s, Run(u, c));
            Inv(r, k) && Work(r.threads) < Work(s.threads) && SameRequests(s.threads, r.threads)
  {
    hide Step, Work, LocksOk, SessionOk, ReadsOk;
    StepLowersWork(s, u, c, k);
    NextInv(s, Run(u, c), k);
    StepMoves(s, u, c);
  }

  lemma AfterCons(s: State, a: Action, rest: seq<Action>)
    requires s.commits != []
    ensures Next(s, a).commits != [] && After(s, [a] + rest) == After(Next(s, a), rest)
  {
    NextCommits(s, a);
    assert ([a] + rest)[1..] == rest;
  }

  predicate AllEnabled(s: State, run: seq<Action>)
    requires s.commits != []
    decreases |run|
  {
    run == [] || (run[0].Run? && Enabled(s, run[0].t) && AllEnabledRest(s, run))
  }

  predicate AllEnabledRest(s: State, run: seq<Action>)
    requires s.commits != [] && run != []
    decreases |run|, 0
  {
    NextCommits(s, run[0]);
    AllEnabled(Next(s, run[0]), run[1..])
  }

  /** And no schedule goes on for longer: without new arrivals or timers every
      sequence of steps, whichever way it is chosen, ends within Work steps. */
  lemma {:induction false} EveryScheduleEnds(s: State, run: seq<Action>, k: Key)
    requires Inv(s, k) && AllEnabled(s, run)
    ensures |run| <= Work(s.threads)
    decreases |run|
  {
    if run != [] {
      ProgressStep(s, run[0].t, run[0].choice, k);
      EveryScheduleEnds(Next(s, run[0]), run[1..], k);
    }
  }
}

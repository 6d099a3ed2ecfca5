/** Every step of the daemon keeps the invariants, one part at a time. */
module DaemonSteps {
  import opened Bytes
  import opened Vaults
  import opened VaultFile
  import opened Daemon
  import opened DaemonInvariants
  import Sessions

  /** r is s with thread t moved on to th. */
  predicate Moves(s: State, r: State, t: nat, th: Thread) {
    t < |s.threads| && r.threads == s.threads[t := th] && th.req == s.threads[t].req
  }

  /** The places of a request that reads or writes the vault. */
  predicate Reading(pc: PC) {
    pc.WantMu? || pc.WantRead? || InRead(pc) || pc.HoldingMu?
  }

  /** And those of a request that changes the session. */
  predicate Locking(pc: PC) {
    pc.Prepare? || pc.WantWrite? || InWrite(pc)
  }

  lemma StepMovesReading(s: State, t: nat, c: Choice)
    requires s.commits != [] && Enabled(s, t) && Reading(s.threads[t].pc)
    ensures Moves(s, Step(s, t, c), t, Step(s, t, c).threads[t])
  {
    hide ReadOutcome, Begun, Sessions.Drop, Sessions.Install, Sessions.Allocate;
  }

  lemma StepMovesLocking(s: State, t: nat, c: Choice)
    requires s.commits != [] && Enabled(s, t) && Locking(s.threads[t].pc)
    ensures Moves(s, Step(s, t, c), t, Step(s, t, c).threads[t])
  {
    hide ReadOutcome, Begun, Sessions.Drop, Sessions.Install, Sessions.Allocate;
  }

  /** A step changes the thread that takes it and no other. */
  lemma StepMoves(s: State, t: nat, c: Choice)
    requires s.commits != [] && Enabled(s, t)
    ensures Moves(s, Step(s, t, c), t, Step(s, t, c).threads[t])
  {
    if Reading(s.threads[t].pc) {
      StepMovesReading(s, t, c);
    } else {
      StepMovesLocking(s, t, c);
    }
  }

  predicate Entering(pc: PC) {
    pc.WantMu? || pc.WantRead? || pc.Entered?
  }

  predicate Queueing(pc: PC) {
    pc.Prepare? || pc.WantWrite? || pc.Pending?
  }

  // ----- Locks -----

  /** A step that takes or releases no lock. */
  lemma LocksLocal(s: State, r: State, t: nat, th: Thread)
    requires LocksOk(s) && Moves(s, r, t, th) && Typed(th)
    requires r.readers == s.readers && r.writer == s.writer && r.mu == s.mu
    requires InRead(th.pc) == InRead(s.threads[t].pc)
    requires InWrite(th.pc) == InWrite(s.threads[t].pc)
    requires HoldsMu(th) == HoldsMu(s.threads[t])
    requires th.pc.Pending? == s.threads[t].pc.Pending?
    ensures LocksOk(r)
  {
  }

  lemma LocksWantMu(s: State, t: nat, c: Choice)
    requires s.commits != [] && LocksOk(s) && Enabled(s, t) && s.threads[t].pc.WantMu?
    ensures LocksOk(Step(s, t, c))
  {
    hide ReadOutcome, Begun, Sessions.Drop, Sessions.Install, Sessions.Allocate;
  }

  lemma LocksWantRead(s: State, t: nat, c: Choice)
    requires s.commits != [] && LocksOk(s) && Enabled(s, t) && s.threads[t].pc.WantRead?
    ensures LocksOk(Step(s, t, c))
  {
    hide ReadOutcome, Begun, Sessions.Drop, Sessions.Install, Sessions.Allocate;
  }

  lemma LocksLeaving(s: State, t: nat, c: Choice)
    requires s.commits != [] && LocksOk(s) && Enabled(s, t) && s.threads[t].pc.Leaving?
    ensures LocksOk(Step(s, t, c))
  {
    hide ReadOutcome, Begun, Sessions.Drop, Sessions.Install, Sessions.Allocate;
  }

  lemma LocksHoldingMu(s: State, t: nat, c: Choice)
    requires s.commits != [] && LocksOk(s) && Enabled(s, t) && s.threads[t].pc.HoldingMu?
    ensures LocksOk(Step(s, t, c))
  {
    hide ReadOutcome, Begun, Sessions.Drop, Sessions.Install, Sessions.Allocate;
  }

  lemma LocksWantWrite(s: State, t: nat, c: Choice)
    requires s.commits != [] && LocksOk(s) && Enabled(s, t) && s.threads[t].pc.WantWrite?
    ensures LocksOk(Step(s, t, c))
  {
    hide ReadOutcome, Begun, Sessions.Drop, Sessions.Install, Sessions.Allocate;
  }

  lemma LocksPending(s: State, t: nat, c: Choice)
    requires s.commits != [] && LocksOk(s) && Enabled(s, t) && s.threads[t].pc.Pending?
    ensures LocksOk(Step(s, t, c))
  {
    hide ReadOutcome, Begun, Sessions.Drop, Sessions.Install, Sessions.Allocate;
  }

  lemma LocksReleasing(s: State, t: nat, c: Choice)
    requires s.commits != [] && LocksOk(s) && Enabled(s, t) && s.threads[t].pc.Releasing?
    ensures LocksOk(Step(s, t, c))
  {
    hide ReadOutcome, Begun, Sessions.Drop, Sessions.Install, Sessions.Allocate;
  }

  predicate LockStep(pc: PC) {
    pc.WantMu? || pc.WantRead? || pc.Leaving? || pc.HoldingMu? || pc.WantWrite? || pc.Pending? || pc.Releasing?
  }

  predicate SameLocks(s: State, r: State, t: nat)
    requires t < |s.threads|
  {
    && |r.threads| == |s.threads| && Moves(s, r, t, r.threads[t]) && Typed(r.threads[t])
    && r.readers == s.readers && r.writer == s.writer && r.mu == s.mu
    && InRead(r.threads[t].pc) == InRead(s.threads[t].pc)
    && InWrite(r.threads[t].pc) == InWrite(s.threads[t].pc)
    && HoldsMu(r.threads[t]) == HoldsMu(s.threads[t])
    && r.threads[t].pc.Pending? == s.threads[t].pc.Pending?
  }

  lemma LocksInside(s: State, t: nat, c: Choice)
    requires s.commits != [] && Enabled(s, t) && Typed(s.threads[t]) && s.threads[t].pc.Holding?
    ensures SameLocks(s, Step(s, t, c), t)
  {
    hide ReadOutcome, Begun;
  }

  lemma LocksEffectReading(s: State, t: nat, c: Choice)
    requires s.commits != [] && Enabled(s, t) && Typed(s.threads[t])
    requires !LockStep(s.threads[t].pc) && !s.threads[t].pc.Holding?
    requires Reading(s.threads[t].pc)
    ensures SameLocks(s, Step(s, t, c), t)
  {
    hide ReadOutcome, Begun, Sessions.Drop, Sessions.Install, Sessions.Allocate;
  }

  lemma LocksEffectLocking(s: State, t: nat, c: Choice)
    requires s.commits != [] && Enabled(s, t) && Typed(s.threads[t])
    requires !LockStep(s.threads[t].pc) && !s.threads[t].pc.Holding?
    requires Locking(s.threads[t].pc)
    ensures SameLocks(s, Step(s, t, c), t)
  {
    hide ReadOutcome, Begun, Sessions.Drop, Sessions.Install, Sessions.Allocate;
  }

  lemma LocksEffect(s: State, t: nat, c: Choice)
    requires s.commits != [] && Enabled(s, t) && Typed(s.threads[t])
    requires !LockStep(s.threads[t].pc) && !s.threads[t].pc.Holding?
    ensures SameLocks(s, Step(s, t, c), t)
  {
    if Reading(s.threads[t].pc) {
      LocksEffectReading(s, t, c);
    } else {
      LocksEffectLocking(s, t, c);
    }
  }

  lemma StepLocks(s: State, t: nat, c: Choice)
    requires s.commits != [] && LocksOk(s) && Enabled(s, t)
    ensures LocksOk(Step(s, t, c))
  {
    var pc := s.threads[t].pc;
    if pc.WantMu? {
      LocksWantMu(s, t, c);
    } else if pc.WantRead? {
      LocksWantRead(s, t, c);
    } else if pc.Leaving? {
      LocksLeaving(s, t, c);
    } else if pc.HoldingMu? {
      LocksHoldingMu(s, t, c);
    } else if pc.WantWrite? {
      LocksWantWrite(s, t, c);
    } else if pc.Pending? {
      LocksPending(s, t, c);
    } else if pc.Releasing? {
      LocksReleasing(s, t, c);
    } else {
      if pc.Holding? {
        LocksInside(s, t, c);
      } else {
        LocksEffect(s, t, c);
      }
      LocksLocal(s, Step(s, t, c), t, Step(s, t, c).threads[t]);
    }
  }

  // ----- Session -----

  /** A step that leaves the session alone. */
  lemma SessionLocal(s: State, r: State, t: nat, th: Thread)
    requires SessionOk(s) && Moves(s, r, t, th) && r.session == s.session
    requires th.buf == s.threads[t].buf && (Waiting(th) ==> Waiting(s.threads[t]))
    requires th.pc.Dropping? ==> WillDrop(s.session, th.req)
    requires !th.pc.Installing? || s.threads[t].pc.Installing?
    requires HeldId(s, th.pc)
    ensures SessionOk(r)
  {
  }

  lemma SessionPrepare(s: State, t: nat, c: Choice)
    requires s.commits != [] && SessionOk(s) && Enabled(s, t)
    requires s.threads[t].pc.Prepare? && s.threads[t].req.Unlock? && s.threads[t].req.key.Some? && !c.fail
    ensures SessionOk(Step(s, t, c))
  {
    hide ReadOutcome, Begun, Sessions.Drop, Sessions.Install;
    Sessions.AllocateConsistent(s.session, s.threads[t].req.key.value);
  }

  /** While the write lock is held nobody is inside With, and nobody else is
      in a critical section. */
  lemma Alone(s: State, t: nat)
    requires LocksOk(s) && t < |s.threads| && InWrite(s.threads[t].pc) && !s.threads[t].pc.Pending?
    ensures s.readers == {}
    ensures forall u :: 0 <= u < |s.threads| && u != t ==> !InWrite(s.threads[u].pc)
    ensures forall u :: 0 <= u < |s.threads| ==> !InRead(s.threads[u].pc)
  {
  }

  lemma SessionDropping(s: State, t: nat, c: Choice)
    requires s.commits != [] && LocksOk(s) && SessionOk(s) && Enabled(s, t) && s.threads[t].pc.Dropping?
    ensures SessionOk(Step(s, t, c))
  {
    hide ReadOutcome, Begun, Sessions.Install, Sessions.Allocate;
    Alone(s, t);
    Sessions.DropConsistent(s.session);
    var r := Step(s, t, c);
    DroppedOk(s, r, t, r.threads[t]);
  }

  lemma DroppedOk(s: State, r: State, t: nat, th: Thread)
    requires SessionOk(s) && Moves(s, r, t, th) && th == s.threads[t].(pc := th.pc)
    requires (Waiting(th) ==> Waiting(s.threads[t])) && !InRead(th.pc) && !th.pc.Dropping?
    requires r.session == Sessions.Drop(s.session) && Sessions.Consistent(r.session)
    requires forall u :: 0 <= u < |s.threads| && u != t ==> !InWrite(s.threads[u].pc)
    requires forall u :: 0 <= u < |s.threads| ==> !InRead(s.threads[u].pc)
    ensures SessionOk(r)
  {
    forall u | 0 <= u < |r.threads| && Waiting(r.threads[u]) ensures HasBuffer(r, r.threads[u]) {
      assert Waiting(s.threads[u]) && HasBuffer(s, s.threads[u]);
    }
  }

  /** What the last step of an unlock's critical section does. */
  lemma InstallingStep(s: State, t: nat, c: Choice)
    requires s.commits != [] && Enabled(s, t) && s.threads[t].pc.Installing?
    requires s.threads[t].req.Unlock? && s.threads[t].buf < |s.session.buffers|
    ensures var th, r := s.threads[t], Step(s, t, c);
            && r.session == Sessions.Install(s.session, th.buf, th.req.d, c.now)
            && r.threads == s.threads[t := th.(pc := Releasing)]
  {
    hide Sessions.Install;
  }

  lemma SessionInstalling(s: State, t: nat, c: Choice)
    requires s.commits != [] && LocksOk(s) && SessionOk(s) && Enabled(s, t) && s.threads[t].pc.Installing?
    ensures SessionOk(Step(s, t, c))
  {
    hide Step, Sessions.Install, Sessions.Consistent;
    var th := s.threads[t];
    assert Typed(th);
    Alone(s, t);
    assert Waiting(th) && HasBuffer(s, th);
    InstallingStep(s, t, c);
    Sessions.InstallConsistent(s.session, th.buf, th.req.d, c.now);
    InstalledOk(s, Step(s, t, c), t, th.buf, c.now);
  }

  lemma InstalledOk(s: State, r: State, t: nat, b: nat, now: int)
    requires SessionOk(s) && t < |s.threads| && Waiting(s.threads[t]) && b == s.threads[t].buf
    requires b < |s.session.buffers|
    requires r.session == Sessions.Install(s.session, b, s.threads[t].req.d, now) && Sessions.Consistent(r.session)
    requires r.threads == s.threads[t := s.threads[t].(pc := Releasing)]
    requires forall u :: 0 <= u < |s.threads| && u != t ==> !InWrite(s.threads[u].pc)
    requires forall u :: 0 <= u < |s.threads| ==> !InRead(s.threads[u].pc)
    ensures SessionOk(r)
  {
    assert forall i :: 0 <= i < |s.session.buffers| && i != b ==> r.session.buffers[i] == s.session.buffers[i];
    forall u | 0 <= u < |r.threads| && Waiting(r.threads[u]) ensures HasBuffer(r, r.threads[u]) {
      assert HasBuffer(s, s.threads[u]);
    }
  }

  /** A step of thread t that leaves the session alone, and is no way into its
      critical section but as the session allows. */
  predicate SameSession(s: State, r: State, t: nat)
    requires t < |s.threads|
  {
    && |r.threads| == |s.threads| && r.session == s.session
    && r.threads[t].buf == s.threads[t].buf && (Waiting(r.threads[t]) ==> Waiting(s.threads[t]))
    && (r.threads[t].pc.Dropping? ==> WillDrop(s.session, s.threads[t].req))
    && !r.threads[t].pc.Installing? && HeldId(s, r.threads[t].pc)
  }

  /** Every step does but Unlock's allocation and those in the critical
      section. */
  lemma SessionEffectHolding(s: State, t: nat, c: Choice)
    requires s.commits != [] && Enabled(s, t) && Typed(s.threads[t]) && HeldId(s, s.threads[t].pc)
    requires s.threads[t].pc.Holding?
    requires Moves(s, Step(s, t, c), t, Step(s, t, c).threads[t])
    ensures SameSession(s, Step(s, t, c), t)
  {
    hide ReadOutcome, Begun, Sessions.Drop, Sessions.Install, Sessions.Allocate;
  }

  lemma SessionEffectEntering(s: State, t: nat, c: Choice)
    requires s.commits != [] && Enabled(s, t) && Typed(s.threads[t]) && HeldId(s, s.threads[t].pc)
    requires Entering(s.threads[t].pc)
    requires Moves(s, Step(s, t, c), t, Step(s, t, c).threads[t])
    ensures SameSession(s, Step(s, t, c), t)
  {
    hide ReadOutcome, Begun, Sessions.Drop, Sessions.Install, Sessions.Allocate;
  }

  lemma SessionEffectReading(s: State, t: nat, c: Choice)
    requires s.commits != [] && Enabled(s, t) && Typed(s.threads[t]) && HeldId(s, s.threads[t].pc)
    requires Reading(s.threads[t].pc) && !Entering(s.threads[t].pc) && !s.threads[t].pc.Holding?
    requires Moves(s, Step(s, t, c), t, Step(s, t, c).threads[t])
    ensures SameSession(s, Step(s, t, c), t)
  {
    hide ReadOutcome, Begun, Sessions.Drop, Sessions.Install, Sessions.Allocate;
  }

  lemma SessionEffectQueueing(s: State, t: nat, c: Choice)
    requires s.commits != [] && Enabled(s, t) && Typed(s.threads[t]) && HeldId(s, s.threads[t].pc)
    requires s.threads[t].pc.Prepare? ==> c.fail || !s.threads[t].req.Unlock? || s.threads[t].req.key.None?
    requires Queueing(s.threads[t].pc)
    requires Moves(s, Step(s, t, c), t, Step(s, t, c).threads[t])
    ensures SameSession(s, Step(s, t, c), t)
  {
    hide ReadOutcome, Begun, Sessions.Drop, Sessions.Install, Sessions.Allocate;
  }

  lemma SessionEffectLocking(s: State, t: nat, c: Choice)
    requires s.commits != [] && Enabled(s, t) && Typed(s.threads[t]) && HeldId(s, s.threads[t].pc)
    requires !s.threads[t].pc.Dropping? && !s.threads[t].pc.Installing?
    requires Locking(s.threads[t].pc) && !Queueing(s.threads[t].pc)
    requires Moves(s, Step(s, t, c), t, Step(s, t, c).threads[t])
    ensures SameSession(s, Step(s, t, c), t)
  {
    hide ReadOutcome, Begun, Sessions.Drop, Sessions.Install, Sessions.Allocate;
  }

  lemma SessionEffect(s: State, t: nat, c: Choice)
    requires s.commits != [] && Enabled(s, t) && Typed(s.threads[t]) && HeldId(s, s.threads[t].pc)
    requires !s.threads[t].pc.Dropping? && !s.threads[t].pc.Installing?
    requires s.threads[t].pc.Prepare? ==> c.fail || !s.threads[t].req.Unlock? || s.threads[t].req.key.None?
    ensures Moves(s, Step(s, t, c), t, Step(s, t, c).threads[t])
    ensures SameSession(s, Step(s, t, c), t)
  {
    StepMoves(s, t, c);
    if s.threads[t].pc.Holding? {
      SessionEffectHolding(s, t, c);
    } else if Entering(s.threads[t].pc) {
      SessionEffectEntering(s, t, c);
    } else if Reading(s.threads[t].pc) {
      SessionEffectReading(s, t, c);
    } else if Queueing(s.threads[t].pc) {
      SessionEffectQueueing(s, t, c);
    } else {
      SessionEffectLocking(s, t, c);
    }
  }

  lemma StepSession(s: State, t: nat, c: Choice)
    requires s.commits != [] && LocksOk(s) && SessionOk(s) && Enabled(s, t)
    ensures SessionOk(Step(s, t, c))
  {
    var th := s.threads[t];
    if th.pc.Dropping? {
      SessionDropping(s, t, c);
    } else if th.pc.Installing? {
      SessionInstalling(s, t, c);
    } else if th.pc.Prepare? && th.req.Unlock? && th.req.key.Some? && !c.fail {
      SessionPrepare(s, t, c);
    } else {
      SessionEffect(s, t, c);
      SessionLocal(s, Step(s, t, c), t, Step(s, t, c).threads[t]);
    }
  }

  // ----- Files -----

  /** A step that touches no file. */
  lemma FilesLocal(s: State, r: State, t: nat, th: Thread, k: Key)
    requires FilesOk(s, k) && Moves(s, r, t, th)
    requires r.vault == s.vault && r.bak == s.bak && r.lost == s.lost && r.commits == s.commits
    requires !s.threads[t].pc.Moved? && (r.mu == s.mu || s.mu == None || s.mu == Some(t))
    requires WriterOk(s, th, k)
    ensures FilesOk(r, k)
  {
  }

  /** Only the thread that holds writeMu is between the file steps. */
  lemma OnlyWriter(s: State, t: nat)
    requires LocksOk(s) && t < |s.threads| && HoldsMu(s.threads[t])
    ensures forall u :: 0 <= u < |s.threads| && u != t ==>
              !s.threads[u].pc.Staged? && !s.threads[u].pc.Moved? && !s.threads[u].pc.Renamed?
  {
    forall u | 0 <= u < |s.threads| && u != t
      ensures !s.threads[u].pc.Staged? && !s.threads[u].pc.Moved? && !s.threads[u].pc.Renamed?
    {
      assert Typed(s.threads[u]);
    }
  }

  lemma FilesStaged(s: State, t: nat, c: Choice, k: Key)
    requires LocksOk(s) && FilesOk(s, k) && Enabled(s, t) && s.threads[t].pc.Staged? && !c.fail
    ensures FilesOk(Step(s, t, c), k)
  {
    assert Typed(s.threads[t]) && WriterOk(s, s.threads[t], k);
    OnlyWriter(s, t);
  }

  lemma FilesMoved(s: State, t: nat, c: Choice, k: Key)
    requires LocksOk(s) && FilesOk(s, k) && Enabled(s, t) && s.threads[t].pc.Moved?
    ensures FilesOk(Step(s, t, c), k)
  {
    assert Typed(s.threads[t]) && WriterOk(s, s.threads[t], k);
    OnlyWriter(s, t);
  }

  predicate SameFiles(s: State, r: State, t: nat, k: Key)
    requires t < |s.threads| && s.commits != []
  {
    && |r.threads| == |s.threads| && Moves(s, r, t, r.threads[t])
    && r.vault == s.vault && r.bak == s.bak && r.lost == s.lost && r.commits == s.commits
    && (r.mu == s.mu || s.mu == None || s.mu == Some(t))
    && WriterOk(s, r.threads[t], k)
  }

  lemma FilesInsideRead(s: State, t: nat, c: Choice, k: Key)
    requires s.commits != [] && Enabled(s, t) && s.threads[t].req.Read? && s.threads[t].pc.Holding?
    ensures SameFiles(s, Step(s, t, c), t, k)
  {
    hide ReadOutcome;
  }

  lemma FilesInsideWrite(s: State, t: nat, c: Choice, k: Key)
    requires s.commits != [] && Enabled(s, t) && s.threads[t].req.Write? && s.threads[t].pc.Holding?
    requires s.vault.Some? ==> s.vault.value == SealedFile(k, Last(s.commits))
    ensures SameFiles(s, Step(s, t, c), t, k)
  {
    assert Step(s, t, c).threads[t].pc == Begun(s, s.threads[t].req.change, s.threads[t].pc.id, c);
  }

  lemma FilesEffectReading(s: State, t: nat, c: Choice, k: Key)
    requires s.commits != [] && Enabled(s, t) && Typed(s.threads[t]) && WriterOk(s, s.threads[t], k)
    requires !s.threads[t].pc.Moved? && !s.threads[t].pc.Holding? && (s.threads[t].pc.Staged? ==> c.fail)
    requires s.threads[t].pc.HoldingMu? ==> s.mu == Some(t)
    requires Reading(s.threads[t].pc)
    requires Moves(s, Step(s, t, c), t, Step(s, t, c).threads[t])
    ensures SameFiles(s, Step(s, t, c), t, k)
  {
    hide Moves;
    hide ReadOutcome, Begun, Sessions.Drop, Sessions.Install, Sessions.Allocate;
  }

  lemma FilesEffectQueueing(s: State, t: nat, c: Choice, k: Key)
    requires s.commits != [] && Enabled(s, t) && Typed(s.threads[t]) && WriterOk(s, s.threads[t], k)
    requires !s.threads[t].pc.Moved? && !s.threads[t].pc.Holding? && (s.threads[t].pc.Staged? ==> c.fail)
    requires s.threads[t].pc.HoldingMu? ==> s.mu == Some(t)
    requires Queueing(s.threads[t].pc)
    requires Moves(s, Step(s, t, c), t, Step(s, t, c).threads[t])
    ensures SameFiles(s, Step(s, t, c), t, k)
  {
    hide Moves;
    hide ReadOutcome, Begun, Sessions.Drop, Sessions.Install, Sessions.Allocate;
  }

  lemma FilesEffectLocking(s: State, t: nat, c: Choice, k: Key)
    requires s.commits != [] && Enabled(s, t) && Typed(s.threads[t]) && WriterOk(s, s.threads[t], k)
    requires !s.threads[t].pc.Moved? && !s.threads[t].pc.Holding? && (s.threads[t].pc.Staged? ==> c.fail)
    requires s.threads[t].pc.HoldingMu? ==> s.mu == Some(t)
    requires Locking(s.threads[t].pc) && !Queueing(s.threads[t].pc)
    requires Moves(s, Step(s, t, c), t, Step(s, t, c).threads[t])
    ensures SameFiles(s, Step(s, t, c), t, k)
  {
    hide Moves;
    hide ReadOutcome, Begun, Sessions.Drop, Sessions.Install, Sessions.Allocate;
  }

  lemma FilesEffect(s: State, t: nat, c: Choice, k: Key)
    requires s.commits != [] && Enabled(s, t) && Typed(s.threads[t]) && WriterOk(s, s.threads[t], k)
    requires !s.threads[t].pc.Moved? && !s.threads[t].pc.Holding? && (s.threads[t].pc.Staged? ==> c.fail)
    requires s.threads[t].pc.HoldingMu? ==> s.mu == Some(t)
    ensures SameFiles(s, Step(s, t, c), t, k)
  {
    StepMoves(s, t, c);
    if Reading(s.threads[t].pc) {
      FilesEffectReading(s, t, c, k);
    } else if Queueing(s.threads[t].pc) {
      FilesEffectQueueing(s, t, c, k);
    } else {
      FilesEffectLocking(s, t, c, k);
    }
  }

  lemma StepFiles(s: State, t: nat, c: Choice, k: Key)
    requires LocksOk(s) && SessionOk(s) && FilesOk(s, k) && Enabled(s, t)
    ensures FilesOk(Step(s, t, c), k)
  {
    var th := s.threads[t];
    if th.pc.Staged? && !c.fail {
      FilesStaged(s, t, c, k);
    } else if th.pc.Moved? {
      FilesMoved(s, t, c, k);
    } else {
      assert Typed(th) && WriterOk(s, th, k);
      if th.pc.Holding? {
        if th.req.Read? {
          FilesInsideRead(s, t, c, k);
        } else {
          FilesInsideWrite(s, t, c, k);
        }
      } else {
        FilesEffect(s, t, c, k);
      }
      FilesLocal(s, Step(s, t, c), t, Step(s, t, c).threads[t], k);
    }
  }

  // ----- History -----

  /** A step that commits nothing. */
  lemma HistoryLocal(s: State, r: State, t: nat, th: Thread)
    requires HistoryOk(s) && Moves(s, r, t, th)
    requires r.commits == s.commits && r.log == s.log && r.tickets == s.tickets
    requires th.start == s.threads[t].start && th.ticket == s.threads[t].ticket
    requires th.req.Write? ==> Committed(th.pc) == Committed(s.threads[t].pc)
    requires HoldsMu(th) ==> HoldsMu(s.threads[t])
    ensures HistoryOk(r)
  {
    forall i | 0 <= i < |r.log| ensures EntryOk(r, i) { assert EntryOk(s, i); }
    forall u | 0 <= u < |r.threads| && r.threads[u].req.Write? && Committed(r.threads[u].pc) ensures InLog(r, u) {
      assert InLog(s, u);
    }
  }

  lemma HistoryTicket(s: State, t: nat, c: Choice)
    requires LocksOk(s) && HistoryOk(s) && s.commits != [] && Enabled(s, t) && s.threads[t].pc.WantMu?
    ensures HistoryOk(Step(s, t, c))
  {
    var r := Step(s, t, c);
    assert Typed(s.threads[t]);
    forall i | 0 <= i < |r.log| ensures EntryOk(r, i) { assert EntryOk(s, i); }
    forall i | 0 <= i < |r.log| ensures r.log[i].ticket < s.tickets { assert EntryOk(s, i); }
    forall u | 0 <= u < |r.threads| && r.threads[u].req.Write? && Committed(r.threads[u].pc) ensures InLog(r, u) {
      assert InLog(s, u);
    }
  }

  lemma HistoryCommit(s: State, t: nat, c: Choice, k: Key)
    requires LocksOk(s) && FilesOk(s, k) && HistoryOk(s) && Enabled(s, t) && s.threads[t].pc.Moved? && !c.fail
    ensures HistoryOk(Step(s, t, c))
  {
    hide ReadOutcome, Begun, Sessions.Drop, Sessions.Install, Sessions.Allocate, Modify;
    var th, r := s.threads[t], Step(s, t, c);
    assert Typed(th) && WriterOk(s, th, k) && HoldsMu(th);
    var n := |s.log|;
    forall i | 0 <= i < |r.log| ensures EntryOk(r, i) {
      if i < n { assert EntryOk(s, i); }
    }
    assert r.log[n].t == t;
    forall u | 0 <= u < |r.threads| && r.threads[u].req.Write? && Committed(r.threads[u].pc) ensures InLog(r, u) {
      if u != t {
        var i :| 0 <= i < n && s.log[i].t == u;
        assert r.log[i].t == u;
      }
    }
  }

  /** A step of thread t that commits nothing. */
  predicate SameHistory(s: State, r: State, t: nat)
    requires t < |s.threads|
  {
    && |r.threads| == |s.threads| && r.commits == s.commits && r.log == s.log && r.tickets == s.tickets
    && r.threads[t].start == s.threads[t].start && r.threads[t].ticket == s.threads[t].ticket
    && (s.threads[t].req.Write? ==> Committed(r.threads[t].pc) == Committed(s.threads[t].pc))
    && (HoldsMu(r.threads[t]) ==> HoldsMu(s.threads[t]))
  }

  lemma HistoryEffectReading(s: State, t: nat, c: Choice)
    requires s.commits != [] && Enabled(s, t) && Typed(s.threads[t])
    requires !s.threads[t].pc.WantMu? && (s.threads[t].pc.Moved? ==> c.fail)
    requires Reading(s.threads[t].pc)
    requires Moves(s, Step(s, t, c), t, Step(s, t, c).threads[t])
    ensures SameHistory(s, Step(s, t, c), t)
  {
    hide ReadOutcome, Begun, Sessions.Drop, Sessions.Install, Sessions.Allocate;
  }

  lemma HistoryEffectLocking(s: State, t: nat, c: Choice)
    requires s.commits != [] && Enabled(s, t) && Typed(s.threads[t])
    requires Locking(s.threads[t].pc)
    requires Moves(s, Step(s, t, c), t, Step(s, t, c).threads[t])
    ensures SameHistory(s, Step(s, t, c), t)
  {
    hide ReadOutcome, Begun, Sessions.Drop, Sessions.Install, Sessions.Allocate;
  }

  lemma HistoryEffect(s: State, t: nat, c: Choice)
    requires s.commits != [] && Enabled(s, t) && Typed(s.threads[t])
    requires !s.threads[t].pc.WantMu? && (s.threads[t].pc.Moved? ==> c.fail)
    ensures Moves(s, Step(s, t, c), t, Step(s, t, c).threads[t])
    ensures SameHistory(s, Step(s, t, c), t)
  {
    StepMoves(s, t, c);
    if Reading(s.threads[t].pc) {
      HistoryEffectReading(s, t, c);
    } else {
      HistoryEffectLocking(s, t, c);
    }
  }

  lemma StepHistory(s: State, t: nat, c: Choice, k: Key)
    requires LocksOk(s) && FilesOk(s, k) && HistoryOk(s) && Enabled(s, t)
    ensures HistoryOk(Step(s, t, c))
  {
    var th := s.threads[t];
    if th.pc.WantMu? {
      HistoryTicket(s, t, c);
    } else if th.pc.Moved? && !c.fail {
      HistoryCommit(s, t, c, k);
    } else {
      HistoryEffect(s, t, c);
      HistoryLocal(s, Step(s, t, c), t, Step(s, t, c).threads[t]);
    }
  }

  // ----- Answers -----

  /** Versions are only ever added, so what a thread has found stays true. */
  lemma AnswerStays(s: State, r: State, th: Thread)
    requires AnswerOk(s, th) && s.commits <= r.commits
    ensures AnswerOk(r, th)
  {
    assert forall i :: 0 <= i < |s.commits| ==> r.commits[i] == s.commits[i];
  }

  /** What is found comes from the last version. */
  lemma OutcomeFrom(s: State, q: Query, id: Key, c: Choice)
    requires s.commits != [] && (s.vault.Some? ==> s.vault.value.vault == Last(s.commits))
    ensures match ReadOutcome(s, q, id, c)
            case Answered(a) => Ask(q, Last(s.commits)) == Ok(a)
            case Failed(NotFound) => Ask(q, Last(s.commits)) == Err(NotFound)
            case _ => true
  {
  }

  lemma BegunFrom(s: State, change: Change, id: Key, c: Choice)
    requires s.commits != [] && (s.vault.Some? ==> s.vault.value.vault == Last(s.commits))
    ensures Begun(s, change, id, c) == Leaving(Failed(NotFound)) ==> change.Remove? && change.name !in Last(s.commits)
  {
  }

  lemma InsideRead(s: State, t: nat, c: Choice)
    requires HistoryOk(s) && Enabled(s, t) && s.threads[t].pc.Holding? && s.threads[t].req.Read?
    requires s.vault.Some? ==> s.vault.value.vault == Last(s.commits)
    ensures AnswerOk(s, Step(s, t, c).threads[t])
    ensures Moves(s, Step(s, t, c), t, Step(s, t, c).threads[t]) && Step(s, t, c).commits == s.commits
  {
    hide ValidQuery, Ask;
    var th := s.threads[t];
    assert th.start < |s.commits|;
    OutcomeFrom(s, th.req.query, th.pc.id, c);
  }

  lemma InsideWrite(s: State, t: nat, c: Choice)
    requires HistoryOk(s) && Enabled(s, t) && s.threads[t].pc.Holding? && s.threads[t].req.Write?
    requires s.vault.Some? ==> s.vault.value.vault == Last(s.commits)
    ensures AnswerOk(s, Step(s, t, c).threads[t])
    ensures Moves(s, Step(s, t, c), t, Step(s, t, c).threads[t]) && Step(s, t, c).commits == s.commits
  {
    var th := s.threads[t];
    assert th.start < |s.commits|;
    BegunFrom(s, th.req.change, th.pc.id, c);
  }

  lemma ReadsEffectReading(s: State, t: nat, c: Choice)
    requires s.commits != [] && Enabled(s, t) && Typed(s.threads[t]) && AnswerOk(s, s.threads[t])
    requires !s.threads[t].pc.Holding?
    requires Reading(s.threads[t].pc)
    requires Moves(s, Step(s, t, c), t, Step(s, t, c).threads[t])
    ensures var r := Step(s, t, c);
            s.commits <= r.commits && AnswerOk(s, r.threads[t])
  {
    hide ReadOutcome, Begun, Sessions.Drop, Sessions.Install, Sessions.Allocate;
  }

  lemma ReadsEffectQueueing(s: State, t: nat, c: Choice)
    requires s.commits != [] && Enabled(s, t) && Typed(s.threads[t]) && AnswerOk(s, s.threads[t])
    requires !s.threads[t].pc.Holding?
    requires Queueing(s.threads[t].pc)
    requires Moves(s, Step(s, t, c), t, Step(s, t, c).threads[t])
    ensures var r := Step(s, t, c);
            s.commits <= r.commits && AnswerOk(s, r.threads[t])
  {
    hide ReadOutcome, Begun, Sessions.Drop, Sessions.Install, Sessions.Allocate;
  }

  lemma ReadsEffectLocking(s: State, t: nat, c: Choice)
    requires s.commits != [] && Enabled(s, t) && Typed(s.threads[t]) && AnswerOk(s, s.threads[t])
    requires !s.threads[t].pc.Holding?
    requires Locking(s.threads[t].pc) && !Queueing(s.threads[t].pc)
    requires Moves(s, Step(s, t, c), t, Step(s, t, c).threads[t])
    ensures var r := Step(s, t, c);
            s.commits <= r.commits && AnswerOk(s, r.threads[t])
  {
    hide ReadOutcome, Begun, Sessions.Drop, Sessions.Install, Sessions.Allocate;
  }

  lemma ReadsEffect(s: State, t: nat, c: Choice)
    requires s.commits != [] && Enabled(s, t) && Typed(s.threads[t]) && AnswerOk(s, s.threads[t])
    requires !s.threads[t].pc.Holding?
    ensures Moves(s, Step(s, t, c), t, Step(s, t, c).threads[t])
    ensures var r := Step(s, t, c);
            s.commits <= r.commits && AnswerOk(s, r.threads[t])
  {
    StepMoves(s, t, c);
    if Reading(s.threads[t].pc) {
      ReadsEffectReading(s, t, c);
    } else if Queueing(s.threads[t].pc) {
      ReadsEffectQueueing(s, t, c);
    } else {
      ReadsEffectLocking(s, t, c);
    }
  }

  lemma StepReads(s: State, t: nat, c: Choice, k: Key)
    requires LocksOk(s) && FilesOk(s, k) && HistoryOk(s) && ReadsOk(s) && Enabled(s, t)
    ensures ReadsOk(Step(s, t, c))
  {
    var th, r := s.threads[t], Step(s, t, c);
    assert AnswerOk(s, th);
    assert Typed(th);
    if th.pc.Holding? {
      if th.req.Read? {
        InsideRead(s, t, c);
      } else {
        InsideWrite(s, t, c);
      }
    } else {
      ReadsEffect(s, t, c);
    }
    ReadsLocal(s, r, t, r.threads[t]);
  }

  lemma ReadsLocal(s: State, r: State, t: nat, th: Thread)
    requires ReadsOk(s) && Moves(s, r, t, th) && s.commits <= r.commits && AnswerOk(s, th)
    ensures ReadsOk(r)
  {
    forall u | 0 <= u < |r.threads| ensures AnswerOk(r, r.threads[u]) {
      assert u != t ==> AnswerOk(s, s.threads[u]);
      AnswerStays(s, r, r.threads[u]);
    }
  }

  // ----- Arrivals and timers -----

  /** A new thread that holds nothing and has found nothing. */
  predicate Fresh(s: State, th: Thread) {
    && !InRead(th.pc) && !InWrite(th.pc) && !HoldsMu(th) && Typed(th) && !Waiting(th)
    && !Committed(th.pc) && !th.pc.Finished? && !th.pc.HoldingMu? && !th.pc.Renamed?
    && th.start < |s.commits| && th.seen < |s.commits|
  }

  lemma JoinLocks(s: State, r: State, th: Thread)
    requires LocksOk(s) && Fresh(s, th) && r == s.(threads := s.threads + [th])
    ensures LocksOk(r)
  {
  }

  lemma JoinSession(s: State, r: State, th: Thread)
    requires SessionOk(s) && Fresh(s, th) && r == s.(threads := s.threads + [th])
    ensures SessionOk(r)
  {
  }

  lemma JoinFiles(s: State, r: State, th: Thread, k: Key)
    requires FilesOk(s, k) && Fresh(s, th) && r == s.(threads := s.threads + [th])
    ensures FilesOk(r, k)
  {
  }

  lemma JoinHistory(s: State, r: State, th: Thread)
    requires HistoryOk(s) && ReadsOk(s) && Fresh(s, th) && r == s.(threads := s.threads + [th])
    ensures HistoryOk(r) && ReadsOk(r)
  {
    forall i | 0 <= i < |r.log| ensures EntryOk(r, i) { assert EntryOk(s, i); }
    forall u | 0 <= u < |r.threads| && r.threads[u].req.Write? && Committed(r.threads[u].pc) ensures InLog(r, u) {
      assert InLog(s, u);
    }
    forall u | 0 <= u < |r.threads| ensures AnswerOk(r, r.threads[u]) {
      assert u < |s.threads| ==> AnswerOk(s, s.threads[u]);
    }
  }

  lemma SpawnFresh(s: State, req: Request)
    requires s.commits != []
    ensures var th := Spawn(s, req).threads[|s.threads|];
            Fresh(s, th) && Spawn(s, req) == s.(threads := s.threads + [th])
  {
  }

  lemma SpawnInv(s: State, req: Request, k: Key)
    requires Inv(s, k)
    ensures Inv(Spawn(s, req), k)
  {
    hide Fresh, LocksOk, SessionOk, ReadsOk, HistoryOk;
    var r := Spawn(s, req);
    var th := r.threads[|s.threads|];
    SpawnFresh(s, req);
    JoinLocks(s, r, th);
    JoinSession(s, r, th);
    JoinFiles(s, r, th, k);
    JoinHistory(s, r, th);
  }

  function Fired(s: State, i: nat): State
    requires i < |s.session.timers|
  {
    s.(session := s.session.(timers := s.session.timers[i := s.session.timers[i].(state := Sessions.Fired)]))
  }

  lemma FireSession(s: State, i: nat)
    requires SessionOk(s) && i < |s.session.timers| && s.session.timers[i].state == Sessions.Armed
    ensures SessionOk(Fired(s, i))
  {
    forall u | 0 <= u < |s.threads| && Waiting(s.threads[u]) ensures HasBuffer(Fired(s, i), s.threads[u]) {
      assert HasBuffer(s, s.threads[u]);
    }
  }

  lemma FireInv(s: State, i: nat, k: Key)
    requires Inv(s, k) && i < |s.session.timers| && s.session.timers[i].state == Sessions.Armed
    ensures Inv(Fired(s, i), k)
  {
    FireSession(s, i);
    FireRest(s, Fired(s, i), k);
  }

  /** Nothing but the session part looks at the session. */
  lemma FireRest(s: State, r: State, k: Key)
    requires LocksOk(s) && FilesOk(s, k) && HistoryOk(s) && ReadsOk(s) && r == s.(session := r.session)
    ensures LocksOk(r) && FilesOk(r, k) && HistoryOk(r) && ReadsOk(r)
  {
    forall j | 0 <= j < |r.log| ensures EntryOk(r, j) { assert EntryOk(s, j); }
    forall u | 0 <= u < |r.threads| && r.threads[u].req.Write? && Committed(r.threads[u].pc) ensures InLog(r, u) {
      assert InLog(s, u);
    }
    forall u | 0 <= u < |s.threads| ensures WriterOk(r, r.threads[u], k) { assert WriterOk(s, s.threads[u], k); }
    forall u | 0 <= u < |s.threads| ensures AnswerOk(r, r.threads[u]) { assert AnswerOk(s, s.threads[u]); }
  }

  /** Whatever happens next, the invariants hold again. */
  lemma NextInv(s: State, a: Action, k: Key)
    requires Inv(s, k)
    ensures Inv(Next(s, a), k)
  {
    if Possible(s, a) {
      match a
      case Arrive(req) => SpawnInv(s, req, k);
      case Fire(i) =>
        FireInv(s, i, k);
        SpawnInv(Fired(s, i), AutoLock(s.session.timers[i].gen), k);
      case Run(t, c) =>
        StepLocks(s, t, c);
        StepSession(s, t, c);
        StepFiles(s, t, c, k);
        StepHistory(s, t, c, k);
        StepReads(s, t, c, k);
    }
  }

  lemma {:induction false} AfterInv(s: State, run: seq<Action>, k: Key)
    requires Inv(s, k)
    ensures Inv(After(s, run), k)
    decreases |run|
  {
    if run != [] {
      NextInv(s, run[0], k);
      AfterInv(Next(s, run[0]), run[1..], k);
    }
  }
}

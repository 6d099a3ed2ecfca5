/** What every step of the daemon keeps. */
module DaemonInvariants {
  import opened Bytes
  import opened Vaults
  import opened VaultFile
  import opened Daemon
  import Sessions

  // ----- The locks -----

  predicate InRead(pc: PC) {
    pc.Entered? || pc.Holding? || pc.Staged? || pc.Moved? || pc.Renamed? || pc.Leaving?
  }

  predicate InWrite(pc: PC) {
    pc.Pending? || pc.Exclusive? || pc.Dropping? || pc.Installing? || pc.Releasing?
  }

  predicate HoldsMu(th: Thread) {
    th.req.Write? && (InRead(th.pc) || th.pc.WantRead? || th.pc.HoldingMu?)
  }

  /** Which places a kind of request visits. */
  predicate Typed(th: Thread) {
    match th.pc
    case WantMu => th.req.Write?
    case WantRead => th.req.Read? || th.req.Write?
    case Entered => th.req.Read? || th.req.Write?
    case Holding(_) => th.req.Read? || th.req.Write?
    case Staged(_, _, _, _) => th.req.Write?
    case Moved(_, _, _, _) => th.req.Write?
    case Renamed => th.req.Write?
    case Leaving(_) => th.req.Read? || th.req.Write?
    case HoldingMu(_) => th.req.Write?
    case Prepare => th.req.Unlock?
    case WantWrite => th.req.Unlock? || th.req.Lock? || th.req.AutoLock?
    case Pending => th.req.Unlock? || th.req.Lock? || th.req.AutoLock?
    case Exclusive => th.req.Unlock? || th.req.Lock? || th.req.AutoLock?
    case Dropping => th.req.Unlock? || th.req.Lock? || th.req.AutoLock?
    case Installing => th.req.Unlock?
    case Releasing => th.req.Unlock? || th.req.Lock? || th.req.AutoLock?
    case Finished(_) => true
  }

  /** The lock words say who holds what; a held write lock excludes readers. */
  ghost predicate LocksOk(s: State) {
    && (forall t :: 0 <= t < |s.threads| ==> Typed(s.threads[t]))
    && (forall t :: t in s.readers ==> t < |s.threads| && InRead(s.threads[t].pc))
    && (forall t :: 0 <= t < |s.threads| && InRead(s.threads[t].pc) ==> t in s.readers)
    && (s.writer.Some? ==> s.writer.value < |s.threads| && InWrite(s.threads[s.writer.value].pc))
    && (forall t :: 0 <= t < |s.threads| && InWrite(s.threads[t].pc) ==> s.writer == Some(t))
    && (s.writer.Some? && !s.threads[s.writer.value].pc.Pending? ==> s.readers == {})
    && (s.mu.Some? ==> s.mu.value < |s.threads| && HoldsMu(s.threads[s.mu.value]))
    && (forall t :: 0 <= t < |s.threads| && HoldsMu(s.threads[t]) ==> s.mu == Some(t))
  }

  // ----- The session -----

  /** An unlocking thread that has made its buffer but not installed it. */
  predicate Waiting(th: Thread) {
    && th.req.Unlock?
    && (th.pc.WantWrite? || th.pc.Pending? || th.pc.Exclusive? || th.pc.Dropping? || th.pc.Installing?)
  }

  /** Its buffer is alive and not yet used. */
  predicate HasBuffer(s: State, th: Thread)
    requires th.req.Unlock?
  {
    && th.buf < |s.session.buffers|
    && th.req.key.Some?
    && s.session.buffers[th.buf] == Sessions.Buffer(th.req.key.value, false, 0)
  }

  ghost predicate SessionOk(s: State) {
    && Sessions.Consistent(s.session)
    && (forall t :: 0 <= t < |s.threads| && Waiting(s.threads[t]) ==>
          HasBuffer(s, s.threads[t]))
    && (forall t, u :: 0 <= t < u < |s.threads| && Waiting(s.threads[t]) && Waiting(s.threads[u]) ==>
          s.threads[t].buf != s.threads[u].buf)
    && (forall t :: 0 <= t < |s.threads| && s.threads[t].pc.Dropping? ==>
          WillDrop(s.session, s.threads[t].req))
    && (forall t :: 0 <= t < |s.threads| && s.threads[t].pc.Installing? ==> s.session.buf == None)
    && (forall t :: 0 <= t < |s.threads| ==> HeldId(s, s.threads[t].pc))
  }

  /** Inside With the identity passed to the function is the session's. */
  predicate HeldId(s: State, pc: PC) {
    match pc
    case Holding(id) => s.session.id == Some(id)
    case Staged(id, _, _, _) => s.session.id == Some(id)
    case Moved(id, _, _, _) => s.session.id == Some(id)
    case _ => true
  }

  // ----- The files -----

  predicate WriterOk(s: State, th: Thread, k: Key)
    requires s.commits != []
  {
    match th.pc
    case Staged(id, base, next, now) =>
      && id == k && base == Last(s.commits) && s.vault.Some?
      && th.req.Write? && Modify(th.req.change, base, now) == Ok(next)
    case Moved(id, base, next, now) =>
      && id == k && base == Last(s.commits) && s.vault.None? && !s.lost
      && th.req.Write? && Modify(th.req.change, base, now) == Ok(next)
    case Renamed => s.vault.Some?
    case _ => true
  }

  /** The vault in place is the last committed version; while it is out of
      place, between a writer's renames or after the second one failed, the
      backup is that version. Both are sealed to the original key. */
  ghost predicate FilesOk(s: State, k: Key) {
    && s.commits != []
    && (s.vault.Some? ==> s.vault.value == SealedFile(k, Last(s.commits)) && !s.lost)
    && (s.bak.Some? ==> s.bak.value.recipient == k)
    && (s.vault.None? ==>
          && s.bak == Some(SealedFile(k, Last(s.commits)))
          && (s.lost || (s.mu.Some? && s.mu.value < |s.threads| && s.threads[s.mu.value].pc.Moved?)))
    && (forall t :: 0 <= t < |s.threads| ==> WriterOk(s, s.threads[t], k))
  }

  // ----- The history -----

  predicate Committed(pc: PC) {
    match pc
    case Renamed => true
    case Leaving(out) => out.Success? || out.Unsynced?
    case HoldingMu(out) => out.Success? || out.Unsynced?
    case Finished(out) => out.Success? || out.Unsynced?
    case _ => false
  }

  predicate EntryOk(s: State, i: nat)
    requires i < |s.log| && |s.commits| == |s.log| + 1
  {
    var e := s.log[i];
    && e.t < |s.threads| && e.ticket < s.tickets
    && s.threads[e.t].req == Write(e.change)
    && s.threads[e.t].ticket == e.ticket
    && Committed(s.threads[e.t].pc)
    && s.threads[e.t].start <= i
    && Modify(e.change, s.commits[i], e.now) == Ok(s.commits[i + 1])
  }

  predicate InLog(s: State, t: nat) {
    exists i :: 0 <= i < |s.log| && s.log[i].t == t
  }

  /** Each version comes from the one before by one accepted write, in the
      order of turns at writeMu; the writes in the log are exactly those that
      succeeded or failed only in syncing the directory, each once. */
  ghost predicate HistoryOk(s: State) {
    && |s.commits| == |s.log| + 1
    && (forall i :: 0 <= i < |s.log| ==> EntryOk(s, i))
    && (forall i, j :: 0 <= i < j < |s.log| ==> s.log[i].ticket < s.log[j].ticket)
    && (forall t :: 0 <= t < |s.threads| && s.threads[t].req.Write? && Committed(s.threads[t].pc) ==> InLog(s, t))
    && (forall t :: 0 <= t < |s.threads| && HoldsMu(s.threads[t]) ==> s.threads[t].ticket < s.tickets)
    && (forall t, i :: 0 <= t < |s.threads| && HoldsMu(s.threads[t]) && !Committed(s.threads[t].pc) && 0 <= i < |s.log| ==>
          s.log[i].ticket < s.threads[t].ticket)
    && (forall t :: 0 <= t < |s.threads| ==> s.threads[t].start < |s.commits|)
  }

  /** An answer comes from a version committed between the request's arrival
      and its answer; so does "not found". */
  predicate FromVersion(s: State, th: Thread, out: Outcome) {
    match out
    case Answered(a) =>
      && th.req.Read? && th.start <= th.seen < |s.commits|
      && Ask(th.req.query, s.commits[th.seen]) == Ok(a)
    case Failed(NotFound) =>
      && th.start <= th.seen < |s.commits|
      && (match th.req
          case Read(q) => Ask(q, s.commits[th.seen]) == Err(NotFound)
          case Write(c) => c.Remove? && c.name !in s.commits[th.seen]
          case _ => false)
    case _ => true
  }

  predicate AnswerOk(s: State, th: Thread) {
    && th.seen < |s.commits|
    && match th.pc
       case Leaving(out) => FromVersion(s, th, out)
       case HoldingMu(out) => FromVersion(s, th, out)
       case Finished(out) => FromVersion(s, th, out)
       case _ => true
  }

  ghost predicate ReadsOk(s: State) {
    forall t :: 0 <= t < |s.threads| ==> AnswerOk(s, s.threads[t])
  }

  ghost predicate Inv(s: State, k: Key) {
    LocksOk(s) && SessionOk(s) && FilesOk(s, k) && HistoryOk(s) && ReadsOk(s)
  }

  lemma InitialInv(s: State, k: Key)
    requires Initial(s, k)
    ensures Inv(s, k)
  {
  }
}

/** What a request of the daemon has brought about by the time it is answered,
    in every run. */
module DaemonEffects {
  import opened Bytes
  import Disks
  import opened Vaults
  import opened VaultFile
  import opened Daemon
  import opened DaemonInvariants
  import opened DaemonSteps
  import opened DaemonTheorems
  import opened Stores
  import Sessions

  // ----- Locking and unlocking -----

  /** What a critical section has achieved when only its lock is left to
      release; a timer callback's achievement is final, because no later
      session has its generation. */
  predicate Achieved(s: Sessions.State, th: Thread) {
    match th.req
    case Lock => th.pc.Releasing? ==> s.buf == None && s.id == None
    case Unlock(key, d) =>
      th.pc.Releasing? ==> key.Some? && s.id == key && (s.locksAt.Some? <==> d > 0) && (s.timer.Some? <==> d > 0)
    case AutoLock(g) =>
      g <= s.gen && (th.pc.Releasing? || th.pc.Finished? ==> s.buf == None || g < s.gen)
    case _ => true
  }

  ghost predicate AllAchieved(s: State) {
    forall t :: 0 <= t < |s.threads| ==> Achieved(s.session, s.threads[t])
  }

  predicate Called(threads: seq<Thread>, g: nat) {
    exists t :: 0 <= t < |threads| && threads[t].req == AutoLock(g)
  }

  /** Every timer that has fired has its callback among the threads. */
  ghost predicate AllCalled(s: State) {
    forall i :: 0 <= i < |s.session.timers| && s.session.timers[i].state == Sessions.Fired ==>
      Called(s.threads, s.session.timers[i].gen)
  }

  /** What of the session a finished request depends on. */
  predicate SameHold(s: Sessions.State, r: Sessions.State) {
    r.buf == s.buf && r.id == s.id && r.gen == s.gen && r.locksAt == s.locksAt && r.timer == s.timer
  }

  lemma AchievedLocal(s: State, r: State, t: nat, th: Thread)
    requires AllAchieved(s) && Moves(s, r, t, th) && SameHold(s.session, r.session) && Achieved(r.session, th)
    ensures AllAchieved(r)
  {
    forall u | 0 <= u < |r.threads| ensures Achieved(r.session, r.threads[u]) {
      assert Achieved(s.session, s.threads[u]);
    }
  }

  /** A change of the session by the only thread in a critical section. */
  lemma AchievedAlone(s: State, r: State, t: nat, th: Thread)
    requires AllAchieved(s) && Moves(s, r, t, th) && Achieved(r.session, th)
    requires r.session.gen >= s.session.gen && (r.session.buf == None || r.session.gen > s.session.gen)
    requires forall u :: 0 <= u < |s.threads| && u != t ==> !InWrite(s.threads[u].pc)
    ensures AllAchieved(r)
  {
    forall u | 0 <= u < |r.threads| ensures Achieved(r.session, r.threads[u]) {
      assert Achieved(s.session, s.threads[u]);
    }
  }

  /** How a thread outside the critical section's changes gets to its end. */
  lemma ReachesRelease(s: State, t: nat, c: Choice)
    requires s.commits != [] && Enabled(s, t) && Typed(s.threads[t])
    requires !s.threads[t].pc.Dropping? && !s.threads[t].pc.Installing?
    requires s.threads[t].req.Lock? || s.threads[t].req.Unlock? || s.threads[t].req.AutoLock?
    ensures var pc := Step(s, t, c).threads[t].pc;
            && (pc.Releasing? ==> s.threads[t].pc.Exclusive? && !WillDrop(s.session, s.threads[t].req))
            && (pc.Finished? && !s.threads[t].req.Unlock? ==> s.threads[t].pc.Releasing?)
  {
    hide ReadOutcome, Begun, Sessions.Drop, Sessions.Install, Sessions.Allocate;
  }

  lemma StepOutside(s: State, t: nat, c: Choice, k: Key)
    requires Inv(s, k) && AllAchieved(s) && Enabled(s, t)
    requires !s.threads[t].pc.Dropping? && !s.threads[t].pc.Installing?
    ensures AllAchieved(Step(s, t, c))
  {
    hide Step, Sessions.Consistent, LocksOk, SessionOk, HistoryOk, ReadsOk;
    var th, r := s.threads[t], Step(s, t, c);
    TypedThread(s, t);
    HeldTogether(s);
    StepMoves(s, t, c);
    SessionMoves(s, t, c);
    assert Achieved(s.session, th);
    if th.req.Lock? || th.req.Unlock? || th.req.AutoLock? {
      ReachesRelease(s, t, c);
    }
    AchievedLocal(s, r, t, r.threads[t]);
  }

  lemma HeldTogether(s: State)
    requires SessionOk(s)
    ensures s.session.buf == None <==> s.session.id == None
  {
  }

  lemma StepDropping(s: State, t: nat, c: Choice)
    requires LocksOk(s) && SessionOk(s) && s.commits != [] && AllAchieved(s) && Enabled(s, t) && s.threads[t].pc.Dropping?
    ensures AllAchieved(Step(s, t, c))
  {
    hide ReadOutcome, Begun, Sessions.Install, Sessions.Allocate, Sessions.Consistent, SessionOk;
    TypedThread(s, t);
    Alone(s, t);
    assert Achieved(s.session, s.threads[t]);
    AchievedAlone(s, Step(s, t, c), t, Step(s, t, c).threads[t]);
  }

  lemma StepInstalling(s: State, t: nat, c: Choice)
    requires LocksOk(s) && SessionOk(s) && s.commits != [] && AllAchieved(s) && Enabled(s, t) && s.threads[t].pc.Installing?
    ensures AllAchieved(Step(s, t, c))
  {
    hide Step, Sessions.Drop, Sessions.Allocate;
    var th := s.threads[t];
    TypedThread(s, t);
    Alone(s, t);
    assert Waiting(th) && HasBuffer(s, th);
    InstallingStep(s, t, c);
    AchievedAlone(s, Step(s, t, c), t, Step(s, t, c).threads[t]);
  }

  lemma StepAchieved(s: State, t: nat, c: Choice, k: Key)
    requires Inv(s, k) && AllAchieved(s) && Enabled(s, t)
    ensures AllAchieved(Step(s, t, c))
  {
    hide Step, LocksOk, SessionOk, HistoryOk, ReadsOk;
    if s.threads[t].pc.Dropping? {
      StepDropping(s, t, c);
    } else if s.threads[t].pc.Installing? {
      StepInstalling(s, t, c);
    } else {
      StepOutside(s, t, c, k);
    }
  }

  /** No step of a thread fires a timer. */
  lemma StepCalled(s: State, t: nat, c: Choice)
    requires s.commits != [] && AllCalled(s) && Enabled(s, t)
    ensures AllCalled(Step(s, t, c))
  {
    hide Step, AllCalled;
    var r := Step(s, t, c);
    StepMoves(s, t, c);
    StepTimers(s, t, c);
    CalledStays(s, r, t, r.threads[t]);
  }

  lemma StepTimers(s: State, t: nat, c: Choice)
    requires s.commits != [] && Enabled(s, t)
    ensures var a, b := s.session.timers, Step(s, t, c).session.timers;
            && |a| <= |b|
            && forall i :: 0 <= i < |b| && b[i].state == Sessions.Fired ==> i < |a| && a[i] == b[i]
  {
    hide ReadOutcome, Begun;
  }

  lemma CalledStays(s: State, r: State, t: nat, th: Thread)
    requires AllCalled(s) && Moves(s, r, t, th)
    requires forall i :: 0 <= i < |r.session.timers| && r.session.timers[i].state == Sessions.Fired ==>
               i < |s.session.timers| && s.session.timers[i] == r.session.timers[i]
    ensures AllCalled(r)
  {
    forall i | 0 <= i < |r.session.timers| && r.session.timers[i].state == Sessions.Fired
      ensures Called(r.threads, r.session.timers[i].gen)
    {
      var u :| 0 <= u < |s.threads| && s.threads[u].req == AutoLock(s.session.timers[i].gen);
      assert r.threads[u].req == s.threads[u].req;
    }
  }

  lemma NextEffects(s: State, a: Action, k: Key)
    requires Inv(s, k) && AllAchieved(s) && AllCalled(s)
    ensures AllAchieved(Next(s, a)) && AllCalled(Next(s, a))
  {
    if Possible(s, a) {
      match a
      case Arrive(req) => ArriveEffects(s, req);
      case Fire(i) => FireEffects(s, i);
      case Run(t, c) =>
        StepAchieved(s, t, c, k);
        StepCalled(s, t, c);
    }
  }

  lemma ArriveEffects(s: State, req: Request)
    requires s.commits != [] && AllAchieved(s) && AllCalled(s) && !req.AutoLock?
    ensures AllAchieved(Spawn(s, req)) && AllCalled(Spawn(s, req))
  {
    MoreCalled(s.threads, Spawn(s, req).threads);
  }

  lemma MoreCalled(threads: seq<Thread>, more: seq<Thread>)
    requires threads <= more
    ensures forall g :: Called(threads, g) ==> Called(more, g)
  {
    forall g | Called(threads, g) ensures Called(more, g) {
      var t :| 0 <= t < |threads| && threads[t].req == AutoLock(g);
      assert more[t].req == AutoLock(g);
    }
  }

  lemma FireEffects(s: State, i: nat)
    requires s.commits != [] && SessionOk(s) && AllAchieved(s) && AllCalled(s)
    requires i < |s.session.timers| && s.session.timers[i].state == Sessions.Armed
    ensures AllAchieved(Next(s, Fire(i))) && AllCalled(Next(s, Fire(i)))
  {
    var r, g := Next(s, Fire(i)), s.session.timers[i].gen;
    assert r.threads[|s.threads|].req == AutoLock(g);
    MoreCalled(s.threads, r.threads);
    assert Called(r.threads, g);
    forall u | 0 <= u < |s.threads| ensures Achieved(r.session, r.threads[u]) {
      assert Achieved(s.session, s.threads[u]);
    }
  }

  lemma {:induction false} AfterEffects(s: State, run: seq<Action>, k: Key)
    requires Inv(s, k) && AllAchieved(s) && AllCalled(s)
    ensures AllAchieved(After(s, run)) && AllCalled(After(s, run))
    decreases |run|
  {
    hide Inv, AllAchieved, AllCalled;
    HasVersion(s, k);
    if run != [] {
      NextInv(s, run[0], k);
      NextEffects(s, run[0], k);
      AfterEffects(Next(s, run[0]), run[1..], k);
    }
  }

  /** A lock locks, an unlock unlocks: in every run, at the step that finishes
      a Lock the session has neither identity nor buffer; at the one that
      finishes a timer callback the session it was armed for is over; at the
      one that finishes an Unlock with success the session holds its key, with
      a deadline and a timer exactly for a positive duration. */
  lemma FinishedHasEffect(s0: State, run: seq<Action>, k: Key, t: nat, c: Choice)
    requires Initial(s0, k)
    requires Enabled(After(s0, run), t) && Step(After(s0, run), t, c).threads[t].pc == Finished(Success)
    ensures var r := Step(After(s0, run), t, c);
            match r.threads[t].req
            case Lock => r.session.buf == None && r.session.id == None
            case AutoLock(g) => r.session.buf == None || r.session.gen != g
            case Unlock(key, d) =>
              && key.Some? && r.session.id == key
              && (r.session.locksAt.Some? <==> d > 0) && (r.session.timer.Some? <==> d > 0)
            case _ => true
  {
    hide Sessions.Consistent, SessionOk, FilesOk, HistoryOk, ReadsOk, LocksOk;
    InitialInv(s0, k);
    AfterInv(s0, run, k);
    AfterEffects(s0, run, k);
    var s := After(s0, run);
    TypedThread(s, t);
    assert Achieved(s.session, s.threads[t]);
    if s.threads[t].req.Lock? || s.threads[t].req.Unlock? || s.threads[t].req.AutoLock? {
      FinishStep(s, t, c);
    }
    StepMoves(s, t, c);
  }

  lemma FinishStep(s: State, t: nat, c: Choice)
    requires s.commits != [] && Enabled(s, t) && Typed(s.threads[t]) && Step(s, t, c).threads[t].pc == Finished(Success)
    requires s.threads[t].req.Lock? || s.threads[t].req.Unlock? || s.threads[t].req.AutoLock?
    ensures s.threads[t].pc.Releasing? && Step(s, t, c).session == s.session
    ensures Step(s, t, c).threads[t].req == s.threads[t].req
  {
    hide ReadOutcome, Begun, Sessions.Drop, Sessions.Install, Sessions.Allocate;
  }

  /** Auto-lock takes place: in every run a timer that has fired has its
      callback, and once that is finished the timer's session is over for
      good, whatever has been unlocked since. */
  lemma FiredTimerLocks(s0: State, run: seq<Action>, k: Key, i: nat) returns (t: nat)
    requires Initial(s0, k)
    requires var s := After(s0, run).session; i < |s.timers| && s.timers[i].state == Sessions.Fired
    ensures var s := After(s0, run);
            var g := s.session.timers[i].gen;
            && t < |s.threads| && s.threads[t].req == AutoLock(g)
            && (s.threads[t].pc.Finished? ==> s.session.buf == None || s.session.gen > g)
  {
    hide Sessions.Consistent, SessionOk, FilesOk, HistoryOk, ReadsOk, LocksOk;
    InitialInv(s0, k);
    AfterInv(s0, run, k);
    AfterEffects(s0, run, k);
    var s := After(s0, run);
    t :| 0 <= t < |s.threads| && s.threads[t].req == AutoLock(s.session.timers[i].gen);
    assert Achieved(s.session, s.threads[t]);
  }

  /** And the armed timer of a session can always go off: in every run some
      further actions, no arrival among them, end its session. */
  lemma ArmedTimerEnds(s0: State, run: seq<Action>, k: Key, i: nat) returns (more: seq<Action>)
    requires Initial(s0, k)
    requires var s := After(s0, run).session; s.timer == Some(i) && i < |s.timers| && s.timers[i].state == Sessions.Armed
    ensures forall j :: 0 <= j < |more| ==> !more[j].Arrive?
    ensures After(s0, run).commits != []
    ensures var s, r := After(s0, run), After(After(s0, run), more);
            r.session.buf == None || r.session.gen > s.session.gen
  {
    hide Inv, AllAchieved, AllCalled, Achieved;
    HasVersion(s0, k);
    InitialInv(s0, k);
    AllFresh(s0, k);
    AfterInv(s0, run, k);
    AfterEffects(s0, run, k);
    var s := After(s0, run);
    var fired := Next(s, Fire(i));
    FiresCallback(s, k, i);
    NextInv(s, Fire(i), k);
    NextEffects(s, Fire(i), k);
    var rest := Drains(fired, k);
    more := [Fire(i)] + rest;
    AfterCons(s, Fire(i), rest);
    AfterEffects(fired, rest, k);
    EndedBy(fired, rest, |s.threads|, s.session.gen);
  }

  lemma AllFresh(s0: State, k: Key)
    requires Initial(s0, k)
    ensures AllAchieved(s0) && AllCalled(s0)
  {
  }

  lemma EndedBy(s: State, run: seq<Action>, t: nat, g: nat)
    requires s.commits != [] && t < |s.threads| && s.threads[t].req == AutoLock(g)
    requires SameRequests(s.threads, After(s, run).threads) && AllFinished(After(s, run)) && AllAchieved(After(s, run))
    ensures var r := After(s, run); r.session.buf == None || r.session.gen > g
  {
    var r := After(s, run);
    assert Achieved(r.session, r.threads[t]) && r.threads[t].pc.Finished?;
  }

  lemma FiresCallback(s: State, k: Key, i: nat)
    requires Inv(s, k) && s.session.timer == Some(i) && i < |s.session.timers| && s.session.timers[i].state == Sessions.Armed
    ensures var r := Next(s, Fire(i));
            |r.threads| == |s.threads| + 1 && r.threads[|s.threads|].req == AutoLock(s.session.gen)
  {
  }

  // ----- Reading and writing -----

  /** The data directory as the vault file's reader sees it. */
  function FilesOf(s: State): Dir {
    if s.vault.None? then map[]
    else map[Disks.Main(Disks.VaultAge) := Disks.Whole(Sealed(s.vault.value.recipient, s.vault.value.vault), true)]
  }

  /** In any run of any daemon, a read that has an identity in hand finds what
      the vault in place gives it, when the disk works: its answer, or why
      there is none. */
  lemma ReadAnswers(s0: State, run: seq<Action>, k: Key, t: nat, now: int)
    requires Initial(s0, k)
    requires Enabled(After(s0, run), t) && After(s0, run).threads[t].pc == Holding(k)
    requires After(s0, run).threads[t].req.Read? && After(s0, run).vault.Some?
    ensures var s := After(s0, run);
            var q := s.threads[t].req.query;
            var pc := Step(s, t, Choice(false, now)).threads[t].pc;
            pc == Leaving(if !ValidQuery(q) then Failed(Invalid) else OutcomeOf(Ask(q, Last(s.commits))))
  {
    hide Sessions.Consistent, SessionOk, HistoryOk, ReadsOk, LocksOk, ValidQuery, Ask;
    InitialInv(s0, k);
    AfterInv(s0, run, k);
  }

  /** The same thread takes its steps one after the other. */
  ghost predicate OnlyRuns(run: seq<Action>, t: nat, now: int) {
    forall i :: 0 <= i < |run| ==> run[i] == Run(t, Choice(false, now))
  }

  /** What a read or a write that has entered With knows of the session. */
  predicate InsideWith(s: State, t: nat, req: Request) {
    && t < |s.threads| && s.threads[t].req == req && s.commits != []
    && s.threads[t].pc == if s.session.id.None? then Leaving(Failed(Locked)) else Holding(s.session.id.value)
  }

  predicate SameDaemon(s: State, r: State) {
    r.session == s.session && r.vault == s.vault && r.bak == s.bak && r.commits == s.commits && r.writer == s.writer
  }

  lemma GoesInside(s: State, t: nat, now: int) returns (run: seq<Action>, r: State)
    requires s.commits != [] && t < |s.threads| && s.threads[t].pc == WantRead && s.writer == None
    ensures OnlyRuns(run, t, now) && r == After(s, run) && InsideWith(r, t, s.threads[t].req) && SameDaemon(s, r)
  {
    hide ReadOutcome, Begun;
    var go := Run(t, Choice(false, now));
    run, r := Extend(s, [], s, go);
    run, r := Extend(s, run, r, go);
  }

  /** How the machine reports what the store answers. */
  function OutcomeOf(r: Result<Answer, Error>): Outcome {
    match r
    case Ok(a) => Answered(a)
    case Err(e) => Failed(e)
  }

  /** A read that is not disturbed answers as the store does. */
  lemma ReadAlone(s: State, t: nat, q: Query, now: int) returns (run: seq<Action>)
    requires s.commits != [] && t < |s.threads| && s.threads[t].pc == WantRead && s.threads[t].req == Read(q)
    requires s.writer == None
    ensures OnlyRuns(run, t, now) && SameDaemon(s, After(s, run)) && t < |After(s, run).threads|
    ensures After(s, run).threads[t].pc == Finished(OutcomeOf(Answering(s.session.id, FilesOf(s), q)))
  {
    hide ValidQuery, Ask, ReadOutcome, Begun, Answering;
    var go := Run(t, Choice(false, now));
    var r;
    run, r := GoesInside(s, t, now);
    if s.session.id.Some? {
      ReadAsStore(r, q, s.session.id.value, go.choice);
      run, r := Extend(s, run, r, go);
    } else {
      LockedAsStore(s, q);
    }
    run, r := Extend(s, run, r, go);
  }

  lemma ReadAsStore(s: State, q: Query, id: Key, c: Choice)
    requires !c.fail
    ensures ReadOutcome(s, q, id, c) == OutcomeOf(Answering(Some(id), FilesOf(s), q))
  {
  }

  lemma LockedAsStore(s: State, q: Query)
    ensures Answering(None, FilesOf(s), q) == Err(Locked)
  {
  }

  /** So does a write, and leaves the vault that the store's would, with the
      old one as its backup, or no file changed. */
  lemma WriteAlone(s: State, t: nat, change: Change, now: int) returns (run: seq<Action>)
    requires s.commits != [] && t < |s.threads| && s.threads[t].pc == WantMu && s.threads[t].req == Write(change)
    requires s.writer == None && s.mu == None
    ensures OnlyRuns(run, t, now) && t < |After(s, run).threads| && After(s, run).session == s.session
    ensures var r := After(s, run);
            var w := Writing(s.session.id, FilesOf(s), change, now);
            if w.Ok? then
              && r.threads[t].pc == Finished(Success) && r.bak == s.vault
              && r.vault == Some(SealedFile(s.session.id.value, w.value)) && r.commits == s.commits + [w.value]
            else r.threads[t].pc == Finished(Failed(w.error)) && SameDaemon(s, r)
  {
    hide Step, Spawn, Writing, FilesOf;
    var r;
    run, r := EntersWrite(s, t, now);
    WriteAsStore(r, change, s.session.id, Choice(false, now));
    SameFilesOf(s, r);
    if Writing(s.session.id, FilesOf(s), change, now).Ok? {
      run, r := BeginsWrite(s, run, r, t, now);
      run, r := PutsInPlace(s, run, r, t, now);
    } else if s.session.id.Some? {
      run, r := BeginsWrite(s, run, r, t, now);
    }
    run, r := LeavesWrite(s, run, r, t, now);
  }

  lemma SameFilesOf(s: State, r: State)
    requires r.vault == s.vault
    ensures FilesOf(r) == FilesOf(s)
  {
  }

  lemma EntersWrite(s: State, t: nat, now: int) returns (run: seq<Action>, r: State)
    requires s.commits != [] && t < |s.threads| && s.threads[t].pc == WantMu && s.writer == None && s.mu == None
    ensures OnlyRuns(run, t, now) && r == After(s, run) && InsideWith(r, t, s.threads[t].req) && SameDaemon(s, r)
  {
    hide ReadOutcome, Begun;
    var go := Run(t, Choice(false, now));
    var first, inner;
    first, r := Extend(s, [], s, go);
    inner, r := GoesInside(r, t, now);
    run := first + inner;
    AfterCons(s, go, inner);
    assert first == [go];
  }

  lemma BeginsWrite(s: State, run: seq<Action>, r: State, t: nat, now: int) returns (run': seq<Action>, r': State)
    requires s.commits != [] && r == After(s, run) && OnlyRuns(run, t, now) && r.commits != []
    requires t < |r.threads| && r.threads[t].pc.Holding? && r.threads[t].req.Write?
    ensures OnlyRuns(run', t, now) && r' == After(s, run') && SameDaemon(r, r') && t < |r'.threads|
    ensures r'.threads[t].req == r.threads[t].req
    ensures r'.threads[t].pc == Begun(r, r.threads[t].req.change, r.threads[t].pc.id, Choice(false, now))
  {
    hide ReadOutcome, Begun;
    run', r' := Extend(s, run, r, Run(t, Choice(false, now)));
  }

  lemma LeavesWrite(s: State, run: seq<Action>, r: State, t: nat, now: int) returns (run': seq<Action>, r': State)
    requires s.commits != [] && r == After(s, run) && OnlyRuns(run, t, now) && r.commits != []
    requires t < |r.threads| && r.threads[t].pc.Leaving? && r.threads[t].req.Write?
    ensures OnlyRuns(run', t, now) && r' == After(s, run') && SameDaemon(r, r') && t < |r'.threads|
    ensures r'.threads[t].pc == Finished(r.threads[t].pc.out)
  {
    hide ReadOutcome, Begun;
    var go := Run(t, Choice(false, now));
    run', r' := Extend(s, run, r, go);
    run', r' := Extend(s, run', r', go);
  }

  lemma WriteAsStore(s: State, change: Change, held: Option<Key>, c: Choice)
    requires !c.fail
    ensures var w := Writing(held, FilesOf(s), change, c.now);
            if held.None? then w == Err(Locked)
            else if w.Err? then Begun(s, change, held.value, c) == Leaving(Failed(w.error))
            else s.vault.Some? && Begun(s, change, held.value, c) == Staged(held.value, s.vault.value.vault, w.value, c.now)
  {
  }

  lemma PutsInPlace(s: State, run: seq<Action>, r: State, t: nat, now: int) returns (run': seq<Action>, r': State)
    requires s.commits != [] && r == After(s, run) && OnlyRuns(run, t, now)
    requires t < |r.threads| && r.threads[t].pc.Staged? && r.threads[t].req.Write? && r.vault.Some?
    ensures OnlyRuns(run', t, now) && r' == After(s, run') && t < |r'.threads| && r'.threads[t].req == r.threads[t].req
    ensures r'.threads[t].pc == Leaving(Success) && r'.session == r.session && r'.bak == r.vault
    ensures r'.vault == Some(SealedFile(r.threads[t].pc.id, r.threads[t].pc.next)) && r'.commits == r.commits + [r.threads[t].pc.next]
  {
    hide ReadOutcome, Begun;
    var go := Run(t, Choice(false, now));
    run', r' := Extend(s, run, r, go);
    run', r' := Extend(s, run', r', go);
    run', r' := Extend(s, run', r', go);
  }
}

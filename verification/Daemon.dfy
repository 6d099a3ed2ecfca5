/** The running daemon as a step machine: request threads and timer callbacks
    interleave between the lock operations, the file operations and the
    session's critical sections. Any step may be delayed for ever, any disk
    operation may fail, and any request may arrive at any time. */
module Daemon {
  import opened Bytes
  import opened Vaults
  import opened VaultFile
  import Sessions

  datatype Request =
    | Read(query: Query)                // Get, List
    | Write(change: Change)             // Store, Delete
    | Unlock(key: Option<Key>, d: int)  // None: the identity does not parse
    | Lock
    | AutoLock(gen: nat)                // a timer callback

  datatype Outcome =
    | Success
    | Answered(answer: Answer)
    | Failed(error: Error)
    | Unsynced  // the file is in place, but syncing the directory failed

  /** Where a thread is. */
  datatype PC =
    // Store and Delete before the session's read lock
    | WantMu
    // With: waiting for the read lock, holding it, inside the function
    | WantRead
    | Entered
    | Holding(id: Key)
    // a write's file steps: temporary file written, old file moved to .bak,
    // new file in place
    | Staged(id: Key, base: Vault, next: Vault, now: int)
    | Moved(id: Key, base: Vault, next: Vault, now: int)
    | Renamed
    | Leaving(out: Outcome)
    | HoldingMu(out: Outcome)
    // Unlock before the write lock
    | Prepare
    // the write lock: wanted; announced, so that no new reader enters; held
    | WantWrite
    | Pending
    | Exclusive
    | Dropping
    | Installing
    | Releasing
    | Finished(out: Outcome)

  /** A thread's request and place; which version was current when it started
      and when it read; its turn at writeMu; the buffer it made. */
  datatype Thread = Thread(req: Request, pc: PC, start: nat, seen: nat, ticket: nat, buf: nat)

  datatype SealedFile = SealedFile(recipient: Key, vault: Vault)

  /** One committed write. */
  datatype Entry = Entry(t: nat, change: Change, now: int, ticket: nat)

  datatype State = State(
    session: Sessions.State,
    writer: Option<nat>,       // who announced or holds the write lock
    readers: set<nat>,         // who holds a read lock
    mu: Option<nat>,           // who holds writeMu
    tickets: nat,              // turns at writeMu given out
    vault: Option<SealedFile>, // vault.age
    bak: Option<SealedFile>,   // vault.age.bak
    lost: bool,                // a final rename has failed
    threads: seq<Thread>,
    commits: seq<Vault>,       // every version that was ever in place
    log: seq<Entry>)           // the writes that put them there

  datatype Choice = Choice(fail: bool, now: int)

  datatype Action =
    | Arrive(req: Request)
    | Fire(timer: nat)
    | Run(t: nat, choice: Choice)

  predicate Initial(s: State, k: Key) {
    && s.session == Sessions.LOCKED
    && s.writer == None && s.readers == {} && s.mu == None && s.tickets == 0
    && s.vault.Some? && s.vault.value.recipient == k
    && (s.bak.Some? ==> s.bak.value.recipient == k)
    && !s.lost && s.threads == [] && s.commits == [s.vault.value.vault] && s.log == []
  }

  function Last(commits: seq<Vault>): Vault
    requires commits != []
  {
    commits[|commits| - 1]
  }

  /** A thread waits only for one of the three locks. */
  predicate Enabled(s: State, t: nat) {
    t < |s.threads| &&
    match s.threads[t].pc
    case WantMu => s.mu == None
    case WantRead => s.writer == None
    case WantWrite => s.writer == None
    case Pending => s.readers == {}
    case Finished(_) => false
    case _ => true
  }

  function Goto(s: State, t: nat, pc: PC): State
    requires t < |s.threads|
  {
    s.(threads := s.threads[t := s.threads[t].(pc := pc)])
  }

  /** Reading the file and answering from it, or modifying it. */
  function Opened(s: State, id: Key, c: Choice): Result<Vault, Error> {
    if s.vault.None? then Err(NoVault)
    else if c.fail then Err(Broken)
    else if s.vault.value.recipient != id then Err(WrongIdentity)
    else Ok(s.vault.value.vault)
  }

  function Looked(s: State, t: nat, pc: PC): State
    requires t < |s.threads| && s.commits != []
  {
    s.(threads := s.threads[t := s.threads[t].(pc := pc, seen := |s.commits| - 1)])
  }

  /** What a read finds. */
  function ReadOutcome(s: State, q: Query, id: Key, c: Choice): (out: Outcome)
    ensures out.Answered? || out.Failed?
  {
    if !ValidQuery(q) then Failed(Invalid)
    else
      match Opened(s, id, c)
      case Err(e) => Failed(e)
      case Ok(v) =>
        match Ask(q, v)
        case Err(e) => Failed(e)
        case Ok(a) => Answered(a)
  }

  /** How a write goes on: with its file steps, or out. */
  function Begun(s: State, change: Change, id: Key, c: Choice): (pc: PC)
    ensures pc.Staged? || (pc.Leaving? && pc.out.Failed?)
    ensures pc.Staged? ==> pc.id == id
  {
    match Opened(s, id, c)
    case Err(e) => Leaving(Failed(e))
    case Ok(v) =>
      match Modify(change, v, c.now)
      case Err(e) => Leaving(Failed(e))
      case Ok(w) => Staged(id, v, w, c.now)
  }

  /** The function a request runs inside With, up to its first change. */
  function Inside(s: State, t: nat, id: Key, c: Choice): State
    requires t < |s.threads| && s.commits != []
  {
    match s.threads[t].req
    case Read(q) => Looked(s, t, Leaving(ReadOutcome(s, q, id, c)))
    case Write(change) => Looked(s, t, Begun(s, change, id, c))
    case _ => s
  }

  /** The final rename of a write. */
  function Commit(s: State, t: nat, id: Key, next: Vault, now: int): State
    requires t < |s.threads| && s.threads[t].req.Write?
  {
    Goto(s, t, Renamed).(
      vault := Some(SealedFile(id, next)),
      commits := s.commits + [next],
      log := s.log + [Entry(t, s.threads[t].req.change, now, s.threads[t].ticket)])
  }

  /** Whether a thread that got the write lock goes on to drop the session. */
  predicate WillDrop(s: Sessions.State, req: Request) {
    match req
    case Lock => s.buf.Some?
    case AutoLock(g) => s.buf.Some? && s.gen == g
    case _ => true
  }

  /** One step of thread t. */
  function Step(s: State, t: nat, c: Choice): State
    requires Enabled(s, t) && s.commits != []
  {
    var th := s.threads[t];
    match th.pc
    case WantMu =>
      s.(mu := Some(t), tickets := s.tickets + 1,
         threads := s.threads[t := th.(pc := WantRead, ticket := s.tickets)])
    case WantRead => Goto(s, t, Entered).(readers := s.readers + {t})
    case Entered =>
      if s.session.id.None? then Goto(s, t, Leaving(Failed(Locked)))
      else Goto(s, t, Holding(s.session.id.value))
    case Holding(id) => Inside(s, t, id, c)
    case Staged(id, base, next, now) =>
      if c.fail then Goto(s, t, Leaving(Failed(Broken)))
      else Goto(s, t, Moved(id, base, next, now)).(vault := None, bak := if s.vault.Some? then s.vault else s.bak)
    case Moved(id, base, next, now) =>
      if c.fail then Goto(s, t, Leaving(Failed(Broken))).(lost := true)
      else if th.req.Write? then Commit(s, t, id, next, now)
      else s
    case Renamed => Goto(s, t, Leaving(if c.fail then Unsynced else Success))
    case Leaving(out) =>
      Goto(s, t, if th.req.Write? then HoldingMu(out) else Finished(out)).(readers := s.readers - {t})
    case HoldingMu(out) => Goto(s, t, Finished(out)).(mu := None)
    case Prepare =>
      if !th.req.Unlock? || th.req.key.None? then Goto(s, t, Finished(Failed(Malformed)))
      else if c.fail then Goto(s, t, Finished(Failed(Broken)))
      else
        s.(session := Sessions.Allocate(s.session, th.req.key.value),
           threads := s.threads[t := th.(pc := WantWrite, buf := |s.session.buffers|)])
    case WantWrite => Goto(s, t, Pending).(writer := Some(t))
    case Pending => Goto(s, t, Exclusive)
    case Exclusive => Goto(s, t, if WillDrop(s.session, th.req) then Dropping else Releasing)
    case Dropping =>
      Goto(s, t, if th.req.Unlock? then Installing else Releasing).(session := Sessions.Drop(s.session))
    case Installing =>
      if th.req.Unlock? && th.buf < |s.session.buffers| then
        Goto(s, t, Releasing).(session := Sessions.Install(s.session, th.buf, th.req.d, c.now))
      else s
    case Releasing => Goto(s, t, Finished(Success)).(writer := None)
    case Finished(_) => s
  }

  function Spawn(s: State, req: Request): State
    requires s.commits != []
  {
    var pc := match req
      case Read(_) => WantRead
      case Write(_) => WantMu
      case Unlock(_, _) => Prepare
      case _ => WantWrite;
    s.(threads := s.threads + [Thread(req, pc, |s.commits| - 1, |s.commits| - 1, 0, 0)])
  }

  predicate Possible(s: State, a: Action) {
    match a
    case Arrive(req) => !req.AutoLock?
    case Fire(i) => i < |s.session.timers| && s.session.timers[i].state == Sessions.Armed
    case Run(t, _) => Enabled(s, t)
  }

  /** One action; one that is not possible changes nothing. */
  function Next(s: State, a: Action): State
    requires s.commits != []
  {
    if !Possible(s, a) then s
    else
      match a
      case Arrive(req) => Spawn(s, req)
      case Fire(i) =>
        var tm := s.session.timers[i];
        Spawn(s.(session := s.session.(timers := s.session.timers[i := tm.(state := Sessions.Fired)])), AutoLock(tm.gen))
      case Run(t, c) => Step(s, t, c)
  }

  lemma NextCommits(s: State, a: Action)
    requires s.commits != []
    ensures Next(s, a).commits != []
    ensures s.commits <= Next(s, a).commits
  {
  }

  /** The state after a run. */
  function After(s: State, run: seq<Action>): (r: State)
    requires s.commits != []
    ensures r.commits != []
    decreases |run|
  {
    if run == [] then s
    else
      NextCommits(s, run[0]);
      After(Next(s, run[0]), run[1..])
  }
}

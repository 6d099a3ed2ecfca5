/** One connection of the daemon: requests in order, one response each. */
module Server {
  import opened Bytes
  import opened Vaults
  import opened VaultFile
  import opened Disks
  import opened Stores
  import opened Durations
  import Framing
  import Sessions

  datatype Code = PROTOCOL | INVALID_ARGUMENT | NOT_FOUND | LOCKED | INTERNAL

  /** A request line that is valid JSON, its params still undecoded. */
  datatype Message = Message(id: bytes, verb: string, params: bytes)

  /** The params of every method; absent ones are empty. */
  datatype Args = Args(
    name: bytes, kind: bytes, prefix: bytes, attributes: map<bytes, bytes>,
    value: bytes, identity: bytes, seconds: Option<int64>)

  datatype Reply =
    | StatusReply(locked: bool, locksAt: Option<int>)
    | EmptyReply
    | SecretReply(name: bytes, secret: Secret)
    | ListReply(infos: seq<Info>)

  /** A response: the id it echoes, null when there was none, and a reply or
      an error. */
  datatype Response = Response(id: Option<bytes>, body: Result<Reply, Code>)

  /** What ReadRequest makes of a line. */
  datatype Parsed = Good(m: Message) | Bad(id: Option<bytes>)

  const METHODS: set<string> := {"get", "store", "delete", "list", "unlock", "lock", "status"}
  const NULL: bytes := [0x6E, 0x75, 0x6C, 0x6C]

  /** toError. */
  function ToCode(e: Error): Code {
    match e
    case Locked => LOCKED
    case NotFound => NOT_FOUND
    case Invalid => INVALID_ARGUMENT
    case Malformed => INVALID_ARGUMENT
    case WrongIdentity => INVALID_ARGUMENT
    case NoVault => INTERNAL
    case Broken => INTERNAL
    case Protocol => PROTOCOL
  }

  /** Which code stands for which error. */
  lemma CodesMean(e: Error)
    ensures ToCode(e) == LOCKED <==> e == Locked
    ensures ToCode(e) == NOT_FOUND <==> e == NotFound
    ensures ToCode(e) == INVALID_ARGUMENT <==> e == Invalid || e == Malformed || e == WrongIdentity
    ensures ToCode(e) == INTERNAL <==> e == NoVault || e == Broken
  {
  }

  /** What a request can see and change: the session, the files, and how many
      faults the machine has had. */
  datatype Moment = Moment(session: Sessions.State, files: Dir, faults: nat)

  /** Either what is due, or INTERNAL after a fault. */
  predicate Either(due: bool, r: Result<Reply, Code>, pre: Moment, post: Moment) {
    due || (r == Err(INTERNAL) && post.faults > pre.faults)
  }

  /** A get or list gives what the session's key finds in the vault file, or
      the reason why there is nothing to give; nothing changes. */
  ghost predicate Reads(q: Query, pre: Moment, post: Moment, r: Result<Reply, Code>) {
    && post.session == pre.session && post.files == pre.files && post.faults >= pre.faults
    && Either(
         match Answering(pre.session.id, pre.files, q)
         case Ok(Found(s)) => q.One? && r == Ok(SecretReply(q.name, s))
         case Ok(Listing(found)) => r.Ok? && r.value.ListReply? && IsListing(r.value.infos, found)
         case Err(e) => r == Err(ToCode(e)),
         r, pre, post)
  }

  /** A store or delete that is accepted leaves exactly the changed vault, and
      after a fault that, the old one, or the old one in its backup; one that
      is refused changes no file. */
  predicate Writes(c: Change, now: int, pre: Moment, post: Moment, r: Result<Reply, Code>) {
    && post.session == pre.session && post.faults >= pre.faults
    && match Writing(pre.session.id, pre.files, c, now)
       case Err(e) => post.files == pre.files && Either(r == Err(ToCode(e)), r, pre, post)
       case Ok(w) =>
         var key := pre.session.id.value;
         && Either(r == Ok(EmptyReply) && Open(post.files, key) == Ok(w), r, pre, post)
         && (|| Open(post.files, key) == Ok(w)
             || Open(post.files, key) == Open(pre.files, key)
             || (&& Open(post.files, key) == Err(NoVault)
                 && Main(VaultAge) in pre.files && Bak(VaultAge) in post.files
                 && post.files[Bak(VaultAge)] == pre.files[Main(VaultAge)]))
  }

  /** An unlock with success leaves a session that holds the key, which opens
      the vault, and ends after d, or never for d <= 0. A key that does not
      parse, or for which there is no locked memory, leaves the session as it
      was; any other failure leaves it locked. No file changes. */
  predicate Unlocks(key: Option<Key>, d: int, now: int, mapped: bool, pre: Moment, post: Moment, r: Result<Reply, Code>) {
    && post.files == pre.files && post.faults >= pre.faults
    && if key == None then post.session == pre.session && r == Err(INVALID_ARGUMENT)
       else if !mapped then post.session == pre.session && r == Err(INTERNAL)
       else
         match r
         case Ok(reply) =>
           && reply == EmptyReply && post.session.id == key && Open(post.files, key.value).Ok?
           && post.session.locksAt == (if d > 0 then Some(now + d) else None)
         case Err(code) =>
           && post.session.id == None
           && Either(Open(post.files, key.value).Err? && code == ToCode(Open(post.files, key.value).error), r, pre, post)
  }

  class Connection {
    const session: Sessions.Session
    const store: Store
    const reader: Framing.Reader
    const json: bytes -> Option<Message>
    const bind: (string, bytes) -> Option<Args>
    /** Whether the connection takes the k-th response. */
    const link: nat -> bool
    /** The responses written, and the requests dispatched. */
    var out: seq<Response>
    var served: seq<Message>
    /** How things stood at first and after each line. */
    ghost var trail: seq<Moment>

    ghost function Here(): Moment
      reads session, store.disk
    {
      Moment(session.View(), store.disk.files, store.disk.faults)
    }

    /** The last noted moment is this one. */
    ghost predicate Current()
      reads this`trail, session, store.disk
    {
      trail != [] && trail[|trail| - 1] == Here()
    }

    ghost predicate Valid()
      reads this, session, store.disk, reader, reader.src, reader.buf, reader.outgrown
    {
      && store.session == session
      && session.Valid() && store.disk.Valid() && reader.Valid()
    }

    constructor (session: Sessions.Session, store: Store, reader: Framing.Reader,
                 json: bytes -> Option<Message>, bind: (string, bytes) -> Option<Args>, link: nat -> bool)
      requires store.session == session && session.Valid() && store.disk.Valid() && reader.Valid()
      ensures Valid() && out == [] && served == []
      ensures this.reader == reader && this.json == json && this.bind == bind && this.link == link
      ensures this.session == session && this.store == store
    {
      this.session, this.store, this.reader := session, store, reader;
      this.json, this.bind, this.link := json, bind, link;
      out, served, trail := [], [], [];
    }

    /** ReadRequest's judgement of a line, a function of the line alone. */
    function Judge(line: bytes): Parsed {
      match json(line)
      case None => Bad(None)
      case Some(m) =>
        if m.id == [] || m.id == NULL then Bad(None)
        else if m.verb !in METHODS then Bad(Some(m.id))
        else Good(m)
    }

    /** What the reply to a request has to be, and what it changes. */
    ghost predicate Replies(m: Message, now: int, mapped: bool, pre: Moment, post: Moment, r: Result<Reply, Code>) {
      if m.verb == "status" then
        post == pre && r == Ok(StatusReply(pre.session.id == None, pre.session.locksAt))
      else if m.verb == "lock" then
        && post == pre.(session := post.session) && r == Ok(EmptyReply)
        && post.session == if pre.session.id == None then pre.session else Sessions.Drop(pre.session)
      else if m.verb !in METHODS then post == pre && r == Err(PROTOCOL)
      else
        match bind(m.verb, m.params)
        case None => post == pre && r == Err(INVALID_ARGUMENT)
        case Some(p) =>
          if m.verb == "unlock" then
            Unlocks(session.parse(p.identity), if p.seconds.Some? then FromSeconds(p.seconds.value) else session.defaultFor,
                    now, mapped, pre, post, r)
          else if m.verb == "get" then Reads(One(p.name), pre, post, r)
          else if m.verb == "list" then Reads(Many(Filter(p.kind, p.prefix, p.attributes)), pre, post, r)
          else if m.verb == "store" then Writes(Put(p.name, p.kind, p.attributes, p.value), now, pre, post, r)
          else Writes(Remove(p.name), now, pre, post, r)
    }

    /** A line that is no request gets PROTOCOL and changes nothing; a request
        gets the reply that is due at this moment. */
    ghost predicate Took(line: bytes, pre: Moment, post: Moment, r: Response) {
      match Judge(line)
      case Bad(id) => post == pre && r == Response(id, Err(PROTOCOL))
      case Good(m) => r.id == Some(m.id) && exists now, mapped :: Replies(m, now, mapped, pre, post, r.body)
    }

    /** A line was dealt with, whatever became of its response. */
    ghost predicate Carried(line: bytes, pre: Moment, post: Moment) {
      exists r :: Took(line, pre, post, r)
    }

    /** Exactly the messages with an id and a known method are requests; one
        with an unknown method is answered under its id, any other line under
        none. */
    lemma JudgeMeans(line: bytes)
      ensures NULL == Ascii("null")
      ensures match Judge(line)
              case Good(m) =>
                && json(line) == Some(m) && |m.id| > 0 && m.id != NULL
                && (|| m.verb == "get" || m.verb == "store" || m.verb == "delete" || m.verb == "list"
                    || m.verb == "unlock" || m.verb == "lock" || m.verb == "status")
              case Bad(Some(id)) => json(line).Some? && json(line).value.id == id != NULL && |id| > 0
              case Bad(None) => json(line) == None || json(line).value.id == [] || json(line).value.id == NULL
    {
    }

    /** A stored secret is what the next get on the connection answers: for two
        lines in a row, when the machine has no fault. */
    lemma StoredIsRead(m: Message, n: Message, p: Args, q: Args, a: Moment, b: Moment, c: Moment,
                       r: Result<Reply, Code>, x: Result<Reply, Code>, now: int, later: int, mapped: bool)
      requires m.verb == "store" && n.verb == "get" && c.faults == a.faults
      requires bind(m.verb, m.params) == Some(p) && bind(n.verb, n.params) == Some(q) && q.name == p.name
      requires Replies(m, now, mapped, a, b, r) && Replies(n, later, mapped, b, c, x) && r.Ok?
      ensures x.Ok? && x.value.SecretReply? && x.value.name == p.name
      ensures var s := x.value.secret;
              s.kind == p.kind && s.value == p.value && s.attributes == p.attributes && s.updated == now
    {
      hide Open, ValidText, IsSlug, ValidAttributes;
    }

    /** After a lock, every request for secrets is refused as locked until an
        unlock. */
    lemma LockRefuses(m: Message, n: Message, q: Args, a: Moment, b: Moment, c: Moment,
                      r: Result<Reply, Code>, x: Result<Reply, Code>, now: int, later: int, mapped: bool)
      requires m.verb == "lock" && (n.verb == "get" || n.verb == "list" || n.verb == "store" || n.verb == "delete")
      requires bind(n.verb, n.params) == Some(q)
      requires Replies(m, now, mapped, a, b, r) && Replies(n, later, mapped, b, c, x) && c.faults == b.faults
      ensures r == Ok(EmptyReply) && x == Err(LOCKED) && c.files == a.files
    {
    }

    /** The requests among the lines, in order. */
    function Requests(lines: seq<bytes>): seq<Message> {
      if lines == [] then []
      else
        var before := Requests(lines[..|lines| - 1]);
        match Judge(lines[|lines| - 1])
        case Good(m) => before + [m]
        case Bad(_) => before
    }

    /** verifyIdentity. */
    method Verify() returns (r: Option<Error>)
      requires store.session == session
      modifies store.disk`faults
      ensures store.disk.faults >= old(store.disk.faults)
      ensures r == None ==>
                session.id.Some? && Open(store.disk.files, session.id.value).Ok?
      ensures r.Some? ==>
                || (r.value == Broken && store.disk.faults > old(store.disk.faults))
                || session.id == None
                || Open(store.disk.files, session.id.value) == Err(r.value)
    {
      var l := store.List(Filter([], [], map[]));
      return if l.Ok? then None else Some(l.error);
    }

    /** The unlock request. When nothing comes between its three critical
        sections: success means the session holds the parsed key and that key
        opens the vault. A key that does not parse, or for which there is no
        locked memory, leaves the session as it was; any other failure leaves
        it locked. No file changes. */
    method CallUnlock(identity: bytes, seconds: Option<int64>, now: int, mapped: bool) returns (r: Option<Error>)
      requires store.session == session && session.Valid()
      modifies session, store.disk`faults
      ensures session.Valid() && store.disk.faults >= old(store.disk.faults)
      ensures session.parse(identity) == None ==> r == Some(Malformed)
      ensures session.parse(identity).Some? && !mapped ==> r == Some(Broken)
      ensures session.parse(identity) == None || !mapped ==> session.View() == old(session.View())
      ensures r == None ==>
                && session.id == session.parse(identity)
                && session.id.Some? && Open(store.disk.files, session.id.value).Ok?
      ensures r.Some? && session.parse(identity).Some? && mapped ==>
                && session.id == None
                && (|| Open(store.disk.files, session.parse(identity).value) == Err(r.value)
                    || (r.value == Broken && store.disk.faults > old(store.disk.faults)))
      ensures r == None ==>
                var d := if seconds.Some? then FromSeconds(seconds.value) else session.defaultFor;
                session.locksAt == if d > 0 then Some(now + d) else None
    {
      hide Sessions.Consistent, Open;
      var encoded := new byte[|identity|](i requires 0 <= i < |identity| => identity[i]);
      assert encoded[..] == identity;
      var d: Option<int> := None;
      if seconds.Some? {
        d := Some(FromSeconds(seconds.value));
      }
      r := session.Unlock(encoded, d, now, mapped);
      if r.Some? {
        return;
      }
      r := Verify();
      if r.Some? {
        session.Lock();
      }
    }

    /** call: one request against the session and the store. */
    method Call(m: Message, now: int, mapped: bool) returns (r: Result<Reply, Code>)
      requires store.session == session && session.Valid() && store.disk.Valid()
      modifies session, store.disk
      ensures session.Valid() && store.disk.Valid()
      ensures Replies(m, now, mapped, old(Here()), Here(), r)
    {
      hide Sessions.Consistent, Reads, Writes, Unlocks, FromSeconds, Sessions.Drop;
      if m.verb == "status" {
        var locked, at := session.Status();
        return Ok(StatusReply(locked, at));
      }
      if m.verb == "lock" {
        Sessions.HeldTogether(session.View());
        session.Lock();
        return Ok(EmptyReply);
      }
      if m.verb !in METHODS {
        return Err(PROTOCOL);
      }
      var p := bind(m.verb, m.params);
      if p.None? {
        return Err(INVALID_ARGUMENT);
      }
      if m.verb == "unlock" {
        r := CallUnlocking(p.value, now, mapped);
      } else if m.verb == "get" {
        r := CallGet(p.value.name);
      } else if m.verb == "list" {
        r := CallList(Filter(p.value.kind, p.value.prefix, p.value.attributes));
      } else if m.verb == "store" {
        r := CallWrite(Put(p.value.name, p.value.kind, p.value.attributes, p.value.value), now);
      } else {
        r := CallWrite(Remove(p.value.name), now);
      }
    }

    method CallUnlocking(p: Args, now: int, mapped: bool) returns (r: Result<Reply, Code>)
      requires store.session == session && session.Valid()
      modifies session, store.disk`faults
      ensures session.Valid()
      ensures Unlocks(session.parse(p.identity), if p.seconds.Some? then FromSeconds(p.seconds.value) else session.defaultFor,
                      now, mapped, old(Here()), Here(), r)
    {
      hide Sessions.Consistent, Open, FromSeconds;
      var e := CallUnlock(p.identity, p.seconds, now, mapped);
      return if e.Some? then Err(ToCode(e.value)) else Ok(EmptyReply);
    }

    method CallGet(name: bytes) returns (r: Result<Reply, Code>)
      requires store.session == session
      modifies store.disk`faults
      ensures Reads(One(name), old(Here()), Here(), r)
    {
      hide Sessions.Consistent, Answering;
      var s := store.Get(name);
      return if s.Err? then Err(ToCode(s.error)) else Ok(SecretReply(name, s.value));
    }

    method CallList(f: Filter) returns (r: Result<Reply, Code>)
      requires store.session == session
      modifies store.disk`faults
      ensures Reads(Many(f), old(Here()), Here(), r)
    {
      hide Sessions.Consistent, Answering, IsListing;
      var l := store.List(f);
      return if l.Err? then Err(ToCode(l.error)) else Ok(ListReply(l.value));
    }

    method CallWrite(c: Change, now: int) returns (r: Result<Reply, Code>)
      requires store.session == session && store.disk.Valid()
      modifies store.disk
      ensures store.disk.Valid()
      ensures Writes(c, now, old(Here()), Here(), r)
    {
      hide Sessions.Consistent, Writing, Open;
      var e := store.Write(c, now);
      return if e.Some? then Err(ToCode(e.value)) else Ok(EmptyReply);
    }

    /** Writing a response; false when the connection does not take it. */
    method Respond(r: Response) returns (ok: bool)
      modifies this`out
      ensures ok == link(|old(out)|)
      ensures out == if ok then old(out) + [r] else old(out)
    {
      ok := link(|out|);
      if ok {
        out := out + [r];
      }
    }

    /** handle. Each complete line of the stream gets one response, in order:
        a request is carried out and gets the reply that is due just then; a
        line that is no request gets a PROTOCOL error and the connection goes
        on; an over-long line gets one last PROTOCOL error without id, and
        nothing after it is looked at. `complete` says that the connection
        took all responses; if not, everything stops at the first it did not
        take. */
    method Handle() returns (complete: bool)
      requires Valid() && out == [] && served == []
      modifies this`out, this`served, this`trail, session, store.disk, reader, reader.src, reader.buf
      ensures session.Valid() && store.disk.Valid()
      ensures Current() && trail[0] == old(Here())
      ensures Handled(out, served, trail, old(reader.Unread()), reader.src.end, complete)
    {
      ghost var end := reader.src.end;
      ghost var all := Framing.Lines(reader.Unread(), end);
      ghost var rest := Framing.Rest(reader.Unread(), end);
      ghost var done: seq<bytes> := [];
      ghost var buf0 := reader.buf;
      trail := [Here()];
      var more := true;
      complete := true;
      while more
        invariant session.Valid() && store.disk.Valid()
        invariant Current() && trail[0] == old(Here())
        invariant more ==> Valid() && (reader.buf == buf0 || fresh(reader.buf))
        invariant more ==> InStep(done, reader.Unread(), all, rest, end) && Answered(out, trail, done) && served == Requests(done)
        invariant !more ==> Settled(out, served, trail, all, Framing.NextLine(rest, end), complete)
        decreases more, if more then |reader.Unread()| else 0
      {
        more, complete, done := Turn(done, all, rest);
      }
    }

    /** One turn of the loop: read a line, judge and answer it, go on; or stop
        for good. */
    method Turn(ghost done: seq<bytes>, ghost all: seq<bytes>, ghost rest: bytes)
      returns (more: bool, complete: bool, ghost done': seq<bytes>)
      requires Valid() && Current()
      requires InStep(done, reader.Unread(), all, rest, reader.src.end)
      requires Answered(out, trail, done) && served == Requests(done)
      modifies this`out, this`served, this`trail, session, store.disk, reader, reader.src, reader.buf
      ensures session.Valid() && store.disk.Valid()
      ensures Current() && trail[0] == old(trail)[0]
      ensures more ==> Valid() && (reader.buf == old(reader.buf) || fresh(reader.buf))
      ensures more ==> |reader.Unread()| < |old(reader.Unread())|
      ensures more ==>
                && InStep(done', reader.Unread(), all, rest, reader.src.end)
                && Answered(out, trail, done') && served == Requests(done')
      ensures !more ==> Settled(out, served, trail, all, Framing.NextLine(rest, reader.src.end), complete)
    {
      hide Framing.Lines, Framing.Rest, Framing.NextLine, Sessions.Consistent, Requests, Settled, Answered, InStep, Took, Carried;
      hide Disk.Valid, Sessions.Session.Valid, Current;
      ghost var s, end := reader.Unread(), reader.src.end;
      var l := Fetch();
      LineStep(done, s, all, rest, end);
      done' := done;
      if l.Text? {
        more := Answer(l.line, done, all, Framing.NextLine(rest, end));
        return more, false, done + [l.line];
      }
      complete := Finish(l, done);
      return false, complete, done;
    }

    /** There is no further line; one that is too long gets its response. */
    method Finish(l: Framing.Line, ghost all: seq<bytes>) returns (complete: bool)
      requires !l.Text? && Answered(out, trail, all) && served == Requests(all)
      modifies this`out
      ensures Settled(out, served, trail, all, l, complete)
    {
      hide Requests, Settled, Answered;
      if l.TooLong? {
        EndsTooLong(out, served, trail, all);
        complete := Respond(Response(None, Err(PROTOCOL)));
      } else {
        EndsClean(out, served, trail, all, l);
        complete := true;
      }
    }

    /** The line is served; if the response is not taken, that is the end. */
    method Answer(line: bytes, ghost done: seq<bytes>, ghost all: seq<bytes>, ghost stop: Framing.Line) returns (ok: bool)
      requires store.session == session && session.Valid() && store.disk.Valid()
      requires Current()
      requires Answered(out, trail, done) && served == Requests(done) && done + [line] <= all
      modifies this`out, this`served, this`trail, session, store.disk
      ensures session.Valid() && store.disk.Valid()
      ensures Current() && trail[0] == old(trail)[0]
      ensures ok ==> Answered(out, trail, done + [line]) && served == Requests(done + [line])
      ensures !ok ==> Settled(out, served, trail, all, stop, false)
    {
      hide Sessions.Consistent, Settled, Answered, Took;
      ghost var out0, trail0 := out, trail;
      ghost var r;
      ok, r := Serve(line);
      trail := trail + [Here()];
      AnsweredStep(done, line, all);
      if ok {
        AnsweredMore(out0, trail0, done, line, r, Here());
      } else {
        EndsBroken(out0, served, trail0, done, line, r, Here(), all, stop);
      }
    }

    /** Takes the next line out of the reader. */
    method Fetch() returns (l: Framing.Line)
      requires reader.Valid()
      modifies reader, reader.src, reader.buf
      ensures reader.Valid() && (reader.buf == old(reader.buf) || fresh(reader.buf))
      ensures l == Framing.NextLine(old(reader.Unread()), reader.src.end)
      ensures reader.Unread() == if l.Text? then old(reader.Unread())[|l.line| + 1..] else old(reader.Unread())
    {
      l := reader.ReadLine();
      if l.Text? {
        reader.Consume(|l.line|);
      }
    }

    lemma EndsTooLong(rs: seq<Response>, ms: seq<Message>, at: seq<Moment>, lines: seq<bytes>)
      requires Answered(rs, at, lines) && ms == Requests(lines)
      ensures !link(|rs|) ==> Settled(rs, ms, at, lines, Framing.TooLong, false)
      ensures link(|rs|) ==> Settled(rs + [Response(None, Err(PROTOCOL))], ms, at, lines, Framing.TooLong, true)
    {
      hide Requests, Took;
      assert lines[..|lines|] == lines;
    }

    lemma EndsClean(rs: seq<Response>, ms: seq<Message>, at: seq<Moment>, lines: seq<bytes>, stop: Framing.Line)
      requires Answered(rs, at, lines) && ms == Requests(lines) && stop != Framing.TooLong
      ensures Settled(rs, ms, at, lines, stop, true)
    {
      hide Requests, Took;
    }

    lemma EndsBroken(rs: seq<Response>, ms: seq<Message>, at: seq<Moment>, done: seq<bytes>, line: bytes, r: Response,
                     now: Moment, all: seq<bytes>, stop: Framing.Line)
      requires Answered(rs, at, done) && done + [line] <= all && ms == Requests(done + [line]) && !link(|rs|)
      requires Took(line, at[|at| - 1], now, r)
      ensures Settled(rs, ms, at + [now], all, stop, false)
    {
      hide Requests, Took;
      var n := |done|;
      assert |rs| == n < |all| && all[..n + 1] == done + [line];
      assert all[n] == (done + [line])[n] == line;
      forall i | 0 <= i < n ensures Took(all[i], at[i], at[i + 1], rs[i]) {
        assert all[i] == done[i];
      }
    }

    lemma AnsweredMore(rs: seq<Response>, at: seq<Moment>, done: seq<bytes>, line: bytes, r: Response, now: Moment)
      requires Answered(rs, at, done) && link(|rs|) && Took(line, at[|at| - 1], now, r)
      ensures Answered(rs + [r], at + [now], done + [line])
    {
      hide Took;
    }

    lemma AnsweredStep(done: seq<bytes>, line: bytes, all: seq<bytes>)
      requires done + [line] <= all
      ensures var some := done + [line];
              && Requests(some) == (match Judge(line)
                                    case Good(m) => Requests(done) + [m]
                                    case Bad(_) => Requests(done))
              && Requests(some) <= Requests(all)
              && |some| <= |all| && all[..|some|] == some
    {
      hide Judge;
      var some := done + [line];
      assert some[..|some| - 1] == done;
      PrefixServed(some, all);
    }

    /** How many responses these lines call for. */
    function Due(lines: seq<bytes>, stop: Framing.Line): nat {
      |lines| + if stop == Framing.TooLong then 1 else 0
    }

    /** What the responses, the dispatched requests and the moments after each
        line have to be once the connection is over: one response for each
        line, the one that was due just then, and one for an over-long line,
        up to the first that the connection does not take; and every request
        carried out whose turn came, the one before that response too. */
    ghost predicate Settled(rs: seq<Response>, ms: seq<Message>, at: seq<Moment>, lines: seq<bytes>, stop: Framing.Line,
                            complete: bool)
    {
      && |at| == (if |rs| < |lines| then |rs| + 1 else |lines|) + 1
      && (forall i :: 0 <= i < |rs| && i < |lines| ==> Took(lines[i], at[i], at[i + 1], rs[i]))
      && (|rs| < |lines| ==> Carried(lines[|rs|], at[|rs|], at[|rs| + 1]))
      && (|rs| > |lines| ==> rs[|lines|] == Response(None, Err(PROTOCOL)))
      && (forall i :: 0 <= i < |rs| ==> link(i))
      && (if complete then |rs| == Due(lines, stop) else |rs| < Due(lines, stop) && !link(|rs|))
      && ms == Requests(if |rs| < |lines| then lines[..|rs| + 1] else lines)
    }

    ghost predicate Handled(rs: seq<Response>, ms: seq<Message>, at: seq<Moment>, s: bytes, end: Framing.End, complete: bool) {
      Settled(rs, ms, at, Framing.Lines(s, end), Framing.NextLine(Framing.Rest(s, end), end), complete)
    }

    /** `done` are the lines handled so far and s what is left of the stream. */
    ghost predicate InStep(done: seq<bytes>, s: bytes, all: seq<bytes>, rest: bytes, end: Framing.End) {
      done + Framing.Lines(s, end) == all && Framing.Rest(s, end) == rest
    }

    ghost predicate Answered(rs: seq<Response>, at: seq<Moment>, lines: seq<bytes>) {
      && |rs| == |lines| && |at| == |lines| + 1
      && forall i :: 0 <= i < |rs| ==> Took(lines[i], at[i], at[i + 1], rs[i]) && link(i)
    }

    lemma LineStep(done: seq<bytes>, s: bytes, all: seq<bytes>, rest: bytes, end: Framing.End)
      requires InStep(done, s, all, rest, end)
      ensures match Framing.NextLine(s, end)
              case Text(l) => |l| < |s| && InStep(done + [l], s[|l| + 1..], all, rest, end) && done + [l] <= all
              case stop => done == all && Framing.NextLine(rest, end) == stop
    {
      match Framing.NextLine(s, end)
      case Text(l) =>
        var later := Framing.Lines(s[|l| + 1..], end);
        assert done + ([l] + later) == (done + [l]) + later;
      case _ =>
    }

    /** A line is judged, carried out if it is a request, and answered. */
    method Serve(line: bytes) returns (ok: bool, ghost due: Response)
      requires store.session == session && session.Valid() && store.disk.Valid()
      modifies this`out, this`served, session, store.disk
      ensures session.Valid() && store.disk.Valid()
      ensures served == match Judge(line)
                        case Good(m) => old(served) + [m]
                        case Bad(_) => old(served)
      ensures Took(line, old(Here()), Here(), due)
      ensures ok == link(|old(out)|)
      ensures out == if ok then old(out) + [due] else old(out)
    {
      hide Sessions.Consistent, Replies;
      var response;
      match Judge(line) {
        case Bad(id) =>
          response := Response(id, Err(PROTOCOL));
        case Good(m) =>
          var now: int := *;
          var mapped: bool := *;
          served := served + [m];
          var body := Call(m, now, mapped);
          response := Response(Some(m.id), body);
      }
      due := response;
      ok := Respond(response);
    }

    lemma {:induction false} PrefixServed(some: seq<bytes>, all: seq<bytes>)
      requires some <= all
      ensures Requests(some) <= Requests(all)
      decreases |all|
    {
      if |some| < |all| {
        PrefixServed(some, all[..|all| - 1]);
      } else {
        assert some == all;
      }
    }
  }
}

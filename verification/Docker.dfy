/** The docker credential helper: get, store and erase for one server URL. */
module Docker {
  import opened Bytes
  import opened Utf8
  import opened Vaults
  import opened Stores
  import opened Clients
  import JsonString

  // "docker-registry", "server", "username", "docker/"
  const REGISTRY: bytes := [0x64, 0x6F, 0x63, 0x6B, 0x65, 0x72, 0x2D, 0x72, 0x65, 0x67, 0x69, 0x73, 0x74, 0x72, 0x79]
  const SERVER: bytes := [0x73, 0x65, 0x72, 0x76, 0x65, 0x72]
  const USERNAME: bytes := [0x75, 0x73, 0x65, 0x72, 0x6E, 0x61, 0x6D, 0x65]
  const DOCKER_SLASH: bytes := [0x64, 0x6F, 0x63, 0x6B, 0x65, 0x72, 0x2F]
  const COLON: byte := 0x3A
  const MAX_REQUEST := 64 * 1024

  lemma Spellings()
    ensures REGISTRY == Ascii("docker-registry") && DOCKER_SLASH == Ascii("docker/")
    ensures SERVER == Ascii("server") && USERNAME == Ascii("username")
  {
  }

  /** What docker sends with store: the decoded server and user name, and the
      secret still as a JSON literal. */
  datatype Request = Request(server: bytes, username: bytes, secret: bytes)

  /** What docker reads back; the secret is a JSON literal. */
  datatype Login = Login(server: bytes, username: bytes, secret: bytes)

  datatype Failure = NoServer | Whitespace | NoUsername | NoSecret | BadSecret | Daemon(error: Error) | Tie(names: seq<bytes>)

  // ----- Requests -----

  /** One of " \t\r\n". */
  predicate IsBlank(c: byte) {
    c == SPACE || c == 0x09 || c == 0x0D || c == LF
  }

  predicate HasBlank(b: bytes) {
    exists i :: 0 <= i < |b| && IsBlank(b[i])
  }

  /** readServerURL. */
  function ReadServer(input: bytes): Result<bytes, Failure> {
    var s := TrimSpace(if |input| <= MAX_REQUEST then input else input[..MAX_REQUEST]);
    if s == [] then Err(NoServer)
    else if HasBlank(s) then Err(Whitespace)
    else Ok(s)
  }

  /** Of at most 64 KiB of input, spaces at the ends do not count, and what is
      left must be something with no space, tab or line break in it. */
  lemma ReadServerMeans(input: bytes)
    requires |input| <= 0x10000
    ensures ReadServer(input) ==
            if TrimSpace(input) == [] then Err(NoServer)
            else if exists c: byte :: c in {0x20, 0x09, 0x0D, 0x0A} && c in TrimSpace(input) then Err(Whitespace)
            else Ok(TrimSpace(input))
  {
    var s := TrimSpace(input);
    if HasBlank(s) {
      var i :| 0 <= i < |s| && IsBlank(s[i]);
      assert s[i] in {0x20, 0x09, 0x0D, 0x0A} && s[i] in s;
    } else {
      assert forall i :: 0 <= i < |s| ==> !IsBlank(s[i]);
    }
  }

  /** A server the daemon accepts as an attribute is read back as it is,
      unless there is a space in it: the other blanks are control characters. */
  lemma ValidServerReads(s: bytes)
    requires ValidText(s)
    ensures ReadServer(s) == if SPACE in s then Err(Whitespace) else Ok(s)
  {
    if HasBlank(s) && SPACE !in s {
      var i :| 0 <= i < |s| && IsBlank(s[i]);
      ControlByteSeen(s, i);
    }
    if SPACE in s {
      var i :| 0 <= i < |s| && s[i] == SPACE;
      assert IsBlank(s[i]);
    }
  }

  /** A control byte in a text is one of its runes. */
  lemma {:induction false} ControlByteSeen(b: bytes, i: nat)
    requires i < |b| && b[i] < 0x20 && Valid(b)
    ensures HasControl(b)
    decreases |b|
  {
    var n := DecodeRune(b).1;
    var rest := b[n..];
    if i < n {
      OnlyFirstIsLow(b, i);
      assert IsControl(Runes(b)[0]);
    } else {
      ControlByteSeen(rest, i - n);
      var k :| 0 <= k < |Runes(rest)| && IsControl(Runes(rest)[k]);
      assert Runes(b)[k + 1] == Runes(rest)[k];
    }
  }

  lemma OnlyFirstIsLow(b: bytes, i: nat)
    requires b != [] && !Bad(b) && i < DecodeRune(b).1 && b[i] < 0x80
    ensures i == 0 && DecodeRune(b) == (b[0], 1)
  {
  }

  // ----- Names -----

  predicate SchemeEnd(s: bytes, i: nat) {
    i + 3 <= |s| && s[i] == COLON && s[i + 1] == SLASH && s[i + 2] == SLASH
  }

  /** What follows the first "://", or all of s. */
  function AfterScheme(s: bytes, from: nat): bytes
    requires from <= |s|
    decreases |s| - from
  {
    if SchemeEnd(s, from) then s[from + 3..]
    else if from == |s| then s
    else AfterScheme(s, from + 1)
  }

  function BeforeSlash(s: bytes): bytes {
    s[..IndexOf(s, SLASH)]
  }

  /** secretName. */
  function SecretName(server: bytes): bytes {
    var host := BeforeSlash(AfterScheme(server, 0));
    DOCKER_SLASH + if host == [] then server else host
  }

  lemma {:induction false} SchemeFound(s: bytes, from: nat, at: nat)
    requires from <= at && SchemeEnd(s, at)
    requires forall i :: from <= i < at ==> !SchemeEnd(s, i)
    ensures AfterScheme(s, from) == s[at + 3..]
    decreases at - from
  {
    if from < at {
      SchemeFound(s, from + 1, at);
    }
  }

  lemma {:induction false} NoSchemeFound(s: bytes, from: nat)
    requires from <= |s| && forall i :: from <= i ==> !SchemeEnd(s, i)
    ensures AfterScheme(s, from) == s
    decreases |s| - from
  {
    if from < |s| {
      NoSchemeFound(s, from + 1);
    }
  }

  lemma SlashAt(s: bytes, at: nat)
    requires at <= |s| && SLASH !in s[..at] && (at < |s| ==> s[at] == SLASH)
    ensures IndexOf(s, SLASH) == at
  {
  }

  /** A login is named after its host alone: scheme and path do not count, so
      different servers of one host share a name. */
  lemma NameIsHost(server: bytes, scheme: bytes, host: bytes, path: bytes)
    requires SLASH !in scheme && SLASH !in host && host != []
    requires path == [] || path[0] == SLASH
    requires server == scheme + [COLON, SLASH, SLASH] + host + path
    ensures SecretName(server) == DOCKER_SLASH + host == SecretName(host)
  {
    var at := |scheme|;
    assert SchemeEnd(server, at);
    forall i | 0 <= i < at ensures !SchemeEnd(server, i) {
      if i + 1 < at {
        assert server[i + 1] == scheme[i + 1] && scheme[i + 1] in scheme;
      } else {
        assert server[i + 1] == COLON;
      }
    }
    SchemeFound(server, 0, at);
    var rest := server[at + 3..];
    assert rest == host + path;
    assert rest[..|host|] == host;
    SlashAt(rest, |host|);
    NoSchemeFound(host, 0);
    SlashAt(host, |host|);
  }

  /** A URL without a host gives its whole text to the name. */
  lemma NameWithoutHost(server: bytes, scheme: bytes, path: bytes)
    requires SLASH !in scheme && (path == [] || path[0] == SLASH)
    requires server == scheme + [COLON, SLASH, SLASH] + path
    ensures SecretName(server) == DOCKER_SLASH + server
  {
    var at := |scheme|;
    assert SchemeEnd(server, at);
    forall i | 0 <= i < at ensures !SchemeEnd(server, i) {
      if i + 1 < at {
        assert server[i + 1] == scheme[i + 1] && scheme[i + 1] in scheme;
      } else {
        assert server[i + 1] == COLON;
      }
    }
    SchemeFound(server, 0, at);
    assert server[at + 3..] == path;
  }

  // ----- Matching -----

  function ServerFilter(server: bytes): Filter {
    Filter(REGISTRY, [], map[SERVER := server])
  }

  predicate OnServer(s: Secret, server: bytes) {
    s.kind == REGISTRY && SERVER in s.attributes && s.attributes[SERVER] == server
  }

  /** The names of the logins for this server. */
  function Hits(v: Vault, server: bytes): set<bytes> {
    set n | n in v && OnServer(v[n], server)
  }

  function Choose(infos: seq<Info>): Match {
    if |infos| == 0 then NoMatch
    else if |infos| == 1 then Unique(infos[0])
    else Ambiguous(Sort(Names(infos)))
  }

  ghost function Lookup(net: Wire, v: Vault, server: bytes): Result<Match, Error> {
    match Finding(net, v, ServerFilter(server))
    case Err(e) => Err(e)
    case Ok(found) => Ok(Choose(ListingOf(found)))
  }

  /** match. */
  method MatchServer(c: Client, server: bytes) returns (m: Result<Match, Error>)
    ensures m == Lookup(c.wire, c.vault, server)
  {
    var infos := c.List(ServerFilter(server));
    if infos.Err? {
      return Err(infos.error);
    }
    ghost var found := Finding(c.wire, c.vault, ServerFilter(server)).value;
    ListingUnique(infos.value, ListingOf(found), found);
    var d := Decide(infos.value);
    return Ok(d);
  }

  /** The switch on how many secrets came back. */
  method Decide(secs: seq<Info>) returns (m: Match)
    ensures m == Choose(secs)
  {
    if |secs| == 0 {
      return NoMatch;
    }
    if |secs| == 1 {
      return Unique(secs[0]);
    }
    var names: seq<bytes> := [];
    for i := 0 to |secs|
      invariant |names| == i && forall j :: 0 <= j < i ==> names[j] == secs[j].name
    {
      names := names + [secs[i].name];
    }
    assert names == Names(secs);
    return Ambiguous(Sort(names));
  }

  /** What a lookup has to say when `hits` are the logins of the server. */
  ghost predicate RightFor(m: Match, v: Vault, hits: set<bytes>) {
    match m
    case NoMatch => hits == {}
    case Unique(c) => hits == {c.name} && c.name in v && c.secret == v[c.name].(value := [])
    case Ambiguous(names) => ListsSorted(names, hits) && |names| >= 2
  }

  /** The logins of a server, as a list request finds them. */
  function On(v: Vault, server: bytes): Vault {
    Matching(WireFilter(ServerFilter(server)), v)
  }

  /** The lines that ask for the logins of a server and list them are not too
      long. */
  ghost predicate Listed(net: Wire, v: Vault, server: bytes) {
    Sends(net, ListCall(ServerFilter(server))) && Receives(net, ListReply(ListingOf(On(v, server))))
  }

  lemma OnIsHits(v: Vault, server: bytes)
    ensures On(v, server).Keys == Hits(v, Sanitize(server))
    ensures forall n :: n in On(v, server) ==> On(v, server)[n] == v[n].(value := [])
  {
    WireServer(server);
    MatchingServer(v, Sanitize(server));
  }

  lemma FoundServer(net: Wire, v: Vault, server: bytes)
    ensures Finding(net, v, ServerFilter(server)).Ok? <==> ValidText(Sanitize(server)) && Listed(net, v, server)
    ensures Finding(net, v, ServerFilter(server)).Ok? ==> Finding(net, v, ServerFilter(server)).value == On(v, server)
    ensures ValidText(Sanitize(server)) && !Listed(net, v, server) ==> Finding(net, v, ServerFilter(server)) == Err(Protocol)
  {
    WireServer(server);
    ServerFilterValid(Sanitize(server));
  }

  lemma MatchingServer(v: Vault, server: bytes)
    ensures var found := Matching(Filter(REGISTRY, [], map[SERVER := server]), v);
            && found.Keys == Hits(v, server)
            && forall n :: n in found ==> found[n] == v[n].(value := [])
  {
    forall n | n in v ensures Matches(Filter(REGISTRY, [], map[SERVER := server]), n, v[n]) <==> OnServer(v[n], server) {
      MatchesServer(n, v[n], server);
    }
  }

  lemma WireServer(server: bytes)
    ensures WireFilter(ServerFilter(server)) == Filter(REGISTRY, [], map[SERVER := Sanitize(server)])
  {
  }

  lemma KeysAreSlugs()
    ensures IsSlug(REGISTRY) && IsSlug(SERVER) && IsSlug(USERNAME) && SERVER != USERNAME
  {
    assert SERVER[0] != USERNAME[0];
  }

  lemma ServerFilterValid(server: bytes)
    ensures ValidQuery(Many(Filter(REGISTRY, [], map[SERVER := server]))) <==> ValidText(server)
  {
    KeysAreSlugs();
    var want := map[SERVER := server];
    assert SERVER in want;
    assert forall k :: k in want ==> k == SERVER;
  }

  lemma MatchesServer(n: bytes, s: Secret, server: bytes)
    ensures Matches(Filter(REGISTRY, [], map[SERVER := server]), n, s) <==> OnServer(s, server)
  {
    var want := map[SERVER := server];
    assert SERVER in want;
    assert HasAttributes(s, want) <==> SERVER in s.attributes && s.attributes[SERVER] == server;
  }

  /** A lookup names the one login of the server, none, or exactly the sorted
      names of several. */
  lemma LookupRight(net: Wire, v: Vault, server: bytes)
    ensures Lookup(net, v, server).Ok? <==> ValidText(Sanitize(server)) && Listed(net, v, server)
    ensures Lookup(net, v, server).Ok? ==> RightFor(Lookup(net, v, server).value, v, Hits(v, Sanitize(server)))
    ensures ValidText(Sanitize(server)) && !Listed(net, v, server) ==> Lookup(net, v, server) == Err(Protocol)
  {
    FoundServer(net, v, server);
    if Lookup(net, v, server).Ok? {
      OnIsHits(v, server);
      ChooseRight(v, On(v, server), Hits(v, Sanitize(server)));
    }
  }

  lemma ChooseRight(v: Vault, found: Vault, hits: set<bytes>)
    requires found.Keys == hits && forall n :: n in found ==> n in v && found[n] == v[n].(value := [])
    ensures RightFor(Choose(ListingOf(found)), v, hits)
  {
    var infos := ListingOf(found);
    ListingNames(infos, found);
    var names := Names(infos);
    if |infos| == 0 {
      assert forall n :: n !in names;
    } else if |infos| == 1 {
      assert names == [infos[0].name];
    } else {
      SortedStays(names, found.Keys);
    }
  }

  lemma SortedStays(names: seq<bytes>, all: set<bytes>)
    requires ListsSorted(names, all)
    ensures Sort(names) == names
  {
    forall i, j | 0 <= i < j < |names| ensures names[i] != names[j] {
      LessTotal(names[i], names[j]);
    }
    SortSorts(names);
    assert (set n | n in names) == all;
    SortedListingUnique(Sort(names), names, all);
  }

  /** And only one answer is right. */
  lemma LookupIs(net: Wire, v: Vault, server: bytes, m: Match)
    requires ValidText(Sanitize(server)) && Listed(net, v, server) && RightFor(m, v, Hits(v, Sanitize(server)))
    ensures Lookup(net, v, server) == Ok(m)
  {
    LookupRight(net, v, server);
    var l := Lookup(net, v, server).value;
    var hits := Hits(v, Sanitize(server));
    if l.Ambiguous? {
      OnlyAmbiguous(l.names, m, v, hits);
    } else if m.Ambiguous? {
      OnlyAmbiguous(m.names, l, v, hits);
    } else if l.Unique? && m.Unique? {
      assert l.info.name in hits && m.info.name in hits;
    }
  }

  lemma OnlyAmbiguous(names: seq<bytes>, m: Match, v: Vault, hits: set<bytes>)
    requires RightFor(Ambiguous(names), v, hits) && RightFor(m, v, hits)
    ensures m == Ambiguous(names)
  {
    assert names[0] in hits && names[1] in hits;
    assert Less(names[0], names[1]);
    LessTotal(names[0], names[1]);
    if m.Ambiguous? {
      SortedListingUnique(names, m.names, hits);
    }
  }

  // ----- Get, store and erase -----

  function UserOf(s: Secret): bytes {
    if USERNAME in s.attributes then s.attributes[USERNAME] else []
  }

  /** What docker gets to see for the server it wrote to our input. */
  ghost function Got(net: Wire, v: Vault, input: bytes): Result<Option<Login>, Failure> {
    match ReadServer(input)
    case Err(f) => Err(f)
    case Ok(server) =>
      match Lookup(net, v, server)
      case Err(e) => Err(Daemon(e))
      case Ok(NoMatch) => Ok(None)
      case Ok(Ambiguous(names)) => Err(Tie(names))
      case Ok(Unique(c)) =>
        match Getting(net, v, c.name)
        case Err(e) => Err(Daemon(e))
        case Ok(s) => Ok(Some(Login(server, UserOf(c.secret), JsonString.Quoting(s.value))))
  }

  method Get(c: Client, input: bytes) returns (o: Result<Option<Login>, Failure>)
    ensures o == Got(c.wire, c.vault, input)
  {
    var server := ReadServer(input);
    if server.Err? {
      return Err(server.error);
    }
    var m := MatchServer(c, server.value);
    if m.Err? {
      return Err(Daemon(m.error));
    }
    if m.value.NoMatch? {
      return Ok(None);
    }
    if m.value.Ambiguous? {
      return Err(Tie(m.value.names));
    }
    var full := c.Get(m.value.info.name);
    if full.Err? {
      return Err(Daemon(full.error));
    }
    var q := JsonString.Quote(full.value.value);
    return Ok(Some(Login(server.value, UserOf(m.value.info.secret), q)));
  }

  /** readStoreRequest and unquote: the secret's bytes. */
  function ReadRequest(r: Request): Result<bytes, Failure> {
    if r.server == [] then Err(NoServer)
    else if r.username == [] then Err(NoUsername)
    else if r.secret == [] then Err(NoSecret)
    else
      match JsonString.Unquoted(r.secret)
      case None => Err(BadSecret)
      case Some(b) => Ok(b)
  }

  /** The attributes of a login that is not there yet. */
  function NewAttributes(r: Request): map<bytes, bytes> {
    map[SERVER := r.server][USERNAME := r.username]
  }

  /** The vault a store leaves behind. */
  ghost function Stored(net: Wire, v: Vault, r: Request, now: int): Result<Vault, Failure> {
    match ReadRequest(r)
    case Err(f) => Err(f)
    case Ok(value) =>
      match Lookup(net, v, r.server)
      case Err(e) => Err(Daemon(e))
      case Ok(Ambiguous(names)) => Err(Tie(names))
      case Ok(NoMatch) =>
        Told(Putting(net, v, SecretName(r.server), REGISTRY, NewAttributes(r), value, now))
      case Ok(Unique(c)) =>
        Told(Putting(net, v, c.name, c.secret.kind, c.secret.attributes[USERNAME := r.username], value, now))
  }

  /** A daemon error as the helper reports it. */
  function Told(r: Result<Vault, Error>): Result<Vault, Failure> {
    match r
    case Ok(v) => Ok(v)
    case Err(e) => Err(Daemon(e))
  }

  method Store(c: Client, r: Request, now: int) returns (f: Option<Failure>)
    modifies c`vault
    ensures match Stored(c.wire, old(c.vault), r, now)
            case Ok(w) => f == None && c.vault == w
            case Err(x) => f == Some(x) && c.vault == old(c.vault)
  {
    if r.server == [] {
      return Some(NoServer);
    }
    if r.username == [] {
      return Some(NoUsername);
    }
    if r.secret == [] {
      return Some(NoSecret);
    }
    var secret := JsonString.Unquote(r.secret);
    if secret.Err? {
      return Some(BadSecret);
    }
    var m := MatchServer(c, r.server);
    if m.Err? {
      return Some(Daemon(m.error));
    }
    if m.value.Ambiguous? {
      return Some(Tie(m.value.names));
    }
    var name, kind, attrs := SecretName(r.server), REGISTRY, map[SERVER := r.server];
    if m.value.Unique? {
      var s := m.value.info.secret;
      name, kind, attrs := m.value.info.name, s.kind, s.attributes;
    }
    attrs := attrs[USERNAME := r.username];
    var e := c.Store(name, kind, attrs, secret.value, now);
    return if e == None then None else Some(Daemon(e.value));
  }

  /** The vault an erase leaves behind. */
  ghost function Erased(net: Wire, v: Vault, input: bytes): Result<Vault, Failure> {
    match ReadServer(input)
    case Err(f) => Err(f)
    case Ok(server) =>
      match Lookup(net, v, server)
      case Err(e) => Err(Daemon(e))
      case Ok(NoMatch) => Ok(v)
      case Ok(Ambiguous(names)) => Err(Tie(names))
      case Ok(Unique(c)) =>
        match Deleting(net, v, c.name)
        case Ok(w) => Ok(w)
        case Err(e) => if e == NotFound then Ok(v) else Err(Daemon(e))
  }

  method Erase(c: Client, input: bytes) returns (f: Option<Failure>)
    modifies c`vault
    ensures match Erased(c.wire, old(c.vault), input)
            case Ok(w) => f == None && c.vault == w
            case Err(x) => f == Some(x) && c.vault == old(c.vault)
  {
    var server := ReadServer(input);
    if server.Err? {
      return Some(server.error);
    }
    var m := MatchServer(c, server.value);
    if m.Err? {
      return Some(Daemon(m.error));
    }
    if m.value.NoMatch? {
      return None;
    }
    if m.value.Ambiguous? {
      return Some(Tie(m.value.names));
    }
    var e := c.Delete(m.value.info.name);
    return if e == None || e == Some(NotFound) then None else Some(Daemon(e.value));
  }

  // ----- What they promise together -----

  lemma {:induction false} SplitText(b: bytes, i: nat)
    requires Valid(b) && i <= |b| && (i < |b| ==> b[i] < 0x80)
    ensures Valid(b[..i]) && Valid(b[i..])
    decreases |b|
  {
    hide DecodeRune, Encode;
    if i == 0 {
      assert b[0..] == b;
    } else if i == |b| {
      assert b[..i] == b;
    } else {
      var n := DecodeRune(b).1;
      if i < n {
        OnlyFirstIsLow(b, i);
      }
      EncodeDecode(b);
      DecodeEncode(DecodeRune(b).0, b[n..i]);
      assert b[..i] == b[..n] + b[n..i];
      SplitText(b[n..], i - n);
      assert b[..i][n..] == b[n..][..i - n] && b[i..] == b[n..][i - n..];
    }
  }

  lemma {:induction false} AfterSchemeIsText(s: bytes, from: nat)
    requires Valid(s) && from <= |s|
    ensures Valid(AfterScheme(s, from))
    decreases |s| - from
  {
    if SchemeEnd(s, from) {
      SplitText(s, from);
      var t := s[from..];
      assert Valid(t[1..]) && Valid(t[1..][1..]) && Valid(t[1..][1..][1..]);
      assert t[1..][1..][1..] == s[from + 3..];
    } else if from < |s| {
      AfterSchemeIsText(s, from + 1);
    }
  }

  lemma NameIsText(server: bytes)
    requires Valid(server)
    ensures Sanitize(SecretName(server)) == SecretName(server)
  {
    var rest := AfterScheme(server, 0);
    AfterSchemeIsText(server, 0);
    SplitText(rest, IndexOf(rest, SLASH));
    var host := if BeforeSlash(rest) == [] then server else BeforeSlash(rest);
    AsciiIsText(DOCKER_SLASH);
    JoinText(DOCKER_SLASH, host);
    SanitizeFixesText(DOCKER_SLASH + host);
  }

  /** The secret a store for r writes to: the match, or a name of its own. */
  ghost function Target(net: Wire, v: Vault, r: Request): bytes {
    match Lookup(net, v, r.server)
    case Ok(Unique(c)) => c.name
    case _ => SecretName(r.server)
  }

  /** Docker's request came out of a JSON decoder, so its strings are text. */
  predicate FromJson(r: Request) {
    Valid(r.server) && Valid(r.username)
  }

  /** An accepted store writes exactly the target: a login of the server gets
      the new user name and secret and keeps all else; otherwise there is a
      registry secret with the server and the user name and no more. */
  lemma StoreEffect(net: Wire, v: Vault, r: Request, now: int)
    requires AllValid(v) && FromJson(r) && Stored(net, v, r, now).Ok?
    ensures ReadRequest(r).Ok? && ValidText(r.server) && JsonString.Unquoted(r.secret) == Some(ReadRequest(r).value)
    ensures var w, n := Stored(net, v, r, now).value, Target(net, v, r);
            && AllValid(w) && n in w && OnlyChanges(v, w, n)
            && OnServer(w[n], r.server) && UserOf(w[n]) == r.username && w[n].value == ReadRequest(r).value
    ensures var n, secret := Target(net, v, r), ReadRequest(r).value;
            if n in Hits(v, r.server)
            then Stored(net, v, r, now).value[n] ==
                 v[n].(attributes := v[n].attributes[USERNAME := r.username], value := secret, updated := now)
            else Stored(net, v, r, now).value[n] ==
                 Secret(REGISTRY, secret, map[SERVER := r.server, USERNAME := r.username],
                        if n in v then v[n].created else now, now)
  {
    hide Sanitize, Valid, ValidText, Choose, Putting, Finding, JsonString.Unquoted, SecretName, AllValid, WireAttributes;
    SanitizeFixesText(r.server);
    SanitizeFixesText(r.username);
    LookupRight(net, v, r.server);
    KeysAreSlugs();
    if Lookup(net, v, r.server).value.Unique? {
      var n := Target(net, v, r);
      assert n in Hits(v, r.server);
      ValidIsText(v, n);
      UpdateWire(v, n, r.username);
      PutEffect(net, v, n, v[n].kind, v[n].attributes[USERNAME := r.username], ReadRequest(r).value, now);
    } else {
      NameIsText(r.server);
      NewWire(r);
      PutEffect(net, v, SecretName(r.server), REGISTRY, NewAttributes(r), ReadRequest(r).value, now);
    }
  }

  /** The request a store sends for a target. */
  function StoreRequest(v: Vault, r: Request, n: bytes, secret: bytes): Call {
    if n in Hits(v, r.server)
    then StoreCall(n, v[n].kind, v[n].attributes[USERNAME := r.username], secret)
    else StoreCall(n, REGISTRY, map[SERVER := r.server, USERNAME := r.username], secret)
  }

  /** A store is accepted exactly if its three fields are set, the secret is a
      JSON string that is not too long, server and user name are valid texts,
      the server has no login or one, the name of a new one is valid, and the
      lines fit. */
  lemma StoreAccepted(net: Wire, v: Vault, r: Request, now: int)
    requires AllValid(v) && FromJson(r)
    ensures Stored(net, v, r, now).Ok? <==>
            && r.server != [] && r.username != [] && r.secret != []
            && JsonString.Unquoted(r.secret).Some? && |JsonString.Unquoted(r.secret).value| <= MAX_VALUE_LEN
            && ValidText(r.server) && ValidText(r.username)
            && Listed(net, v, r.server) && !Several(Hits(v, r.server))
            && var secret := JsonString.Unquoted(r.secret).value;
               && (Hits(v, r.server) == {} ==>
                     ValidText(SecretName(r.server)) && Sends(net, StoreRequest(v, r, SecretName(r.server), secret)))
               && (forall n :: Hits(v, r.server) == {n} ==> Sends(net, StoreRequest(v, r, n, secret)))
  {
    hide Sanitize, Valid, ValidText, JsonString.Unquoted, Hits, Listed, Putting, Finding, Choose, SecretName, AllValid;
    SanitizeFixesText(r.server);
    SanitizeFixesText(r.username);
    LookupRight(net, v, r.server);
    if Lookup(net, v, r.server).Ok? && ReadRequest(r).Ok? {
      var m, hits, secret := Lookup(net, v, r.server).value, Hits(v, r.server), ReadRequest(r).value;
      OneOrNone(m, v, hits);
      if m.Unique? {
        assert forall n :: hits == {n} ==> n in hits;
        assert m.info.name in hits;
        InHits(v, r.server, m.info.name);
        AcceptedUpdate(net, v, r, m.info.name, secret, now);
      } else if m.NoMatch? {
        assert forall n: bytes :: hits != {n} by {
          assert forall n: bytes :: n in {n};
        }
        AcceptedNew(net, v, r, secret, now);
        assert NewAttributes(r) == map[SERVER := r.server, USERNAME := r.username];
        assert StoreRequest(v, r, SecretName(r.server), secret) ==
               StoreCall(SecretName(r.server), REGISTRY, NewAttributes(r), secret);
      }
    }
  }

  lemma InHits(v: Vault, server: bytes, n: bytes)
    ensures n in Hits(v, server) <==> n in v && OnServer(v[n], server)
  {
  }

  lemma OneOrNone(m: Match, v: Vault, hits: set<bytes>)
    requires RightFor(m, v, hits)
    ensures m.Ambiguous? <==> Several(hits)
  {
    if m.Ambiguous? {
      TiedAreSeveral(m.names, hits);
    } else if m.Unique? {
      assert forall a :: a in hits ==> a == m.info.name;
    }
  }

  lemma AcceptedUpdate(net: Wire, v: Vault, r: Request, n: bytes, secret: bytes, now: int)
    requires AllValid(v) && FromJson(r) && n in v && OnServer(v[n], r.server)
    ensures Putting(net, v, n, v[n].kind, v[n].attributes[USERNAME := r.username], secret, now).Ok? <==>
            && Sends(net, StoreCall(n, v[n].kind, v[n].attributes[USERNAME := r.username], secret))
            && ValidText(r.username) && |secret| <= MAX_VALUE_LEN
  {
    hide Sanitize, ValidText, IsSlug;
    SanitizeFixesText(r.username);
    ValidIsText(v, n);
    KeysAreSlugs();
    UpdateWire(v, n, r.username);
    assert ValidSecret(n, v[n].kind, v[n].attributes, v[n].value);
    var attrs := v[n].attributes[USERNAME := r.username];
    assert ValidAttributes(attrs) <==> ValidText(r.username) by {
      assert attrs[USERNAME] == r.username;
      assert forall k :: k in attrs && k != USERNAME ==> k in v[n].attributes && attrs[k] == v[n].attributes[k];
    }
  }

  lemma AcceptedNew(net: Wire, v: Vault, r: Request, secret: bytes, now: int)
    requires FromJson(r)
    ensures Putting(net, v, SecretName(r.server), REGISTRY, NewAttributes(r), secret, now).Ok? <==>
            && Sends(net, StoreCall(SecretName(r.server), REGISTRY, NewAttributes(r), secret))
            && ValidText(SecretName(r.server)) && ValidText(r.server) && ValidText(r.username) && |secret| <= MAX_VALUE_LEN
  {
    hide Sanitize, ValidText, IsSlug, SecretName;
    KeysAreSlugs();
    NameIsText(r.server);
    NewWire(r);
    var attrs := NewAttributes(r);
    assert ValidAttributes(attrs) <==> ValidText(r.server) && ValidText(r.username) by {
      assert attrs[SERVER] == r.server && attrs[USERNAME] == r.username;
      assert forall k :: k in attrs ==> k == SERVER || k == USERNAME;
    }
  }

  /** An update sends the attributes it found, with a new user name. */
  lemma UpdateWire(v: Vault, n: bytes, username: bytes)
    requires AllValid(v) && n in v && Sanitize(username) == username
    ensures WireAttributes(v[n].attributes[USERNAME := username]) == v[n].attributes[USERNAME := username]
  {
    ValidIsText(v, n);
    var was, attrs := v[n].attributes, v[n].attributes[USERNAME := username];
    forall k | k in attrs ensures Sanitize(attrs[k]) == attrs[k] {
      if k != USERNAME {
        assert WireAttributes(was)[k] == Sanitize(was[k]);
      }
    }
  }

  lemma NewWire(r: Request)
    requires FromJson(r)
    ensures WireAttributes(NewAttributes(r)) == NewAttributes(r)
    ensures SERVER in NewAttributes(r) && NewAttributes(r)[SERVER] == r.server
    ensures USERNAME in NewAttributes(r) && NewAttributes(r)[USERNAME] == r.username
  {
    KeysAreSlugs();
    SanitizeFixesText(r.server);
    SanitizeFixesText(r.username);
    var attrs := NewAttributes(r);
    assert forall k :: k in attrs ==> k == SERVER || k == USERNAME;
  }

  /** Any accepted store of text is read back as it was sent. */
  lemma PutEffect(net: Wire, v: Vault, n: bytes, kind: bytes, attrs: map<bytes, bytes>, value: bytes, now: int)
    requires AllValid(v) && Sanitize(n) == n && WireAttributes(attrs) == attrs
    requires Putting(net, v, n, kind, attrs, value, now).Ok?
    ensures var w := Putting(net, v, n, kind, attrs, value, now).value;
            && AllValid(w) && n in w && OnlyChanges(v, w, n)
            && w[n] == Secret(kind, value, attrs, if n in v then v[n].created else now, now)
  {
    ModifyRefinesMap(Put(n, kind, attrs, value), v, now);
  }

  /** A write to n moves n, and only n, between servers. */
  lemma HitsAfter(v: Vault, w: Vault, n: bytes, server: bytes)
    requires n in w && OnlyChanges(v, w, n)
    ensures Hits(w, server) == Hits(v, server) - {n} + if OnServer(w[n], server) then {n} else {}
  {
  }

  ghost predicate Several(names: set<bytes>) {
    exists a, b :: a in names && b in names && a != b
  }

  lemma TiedAreSeveral(names: seq<bytes>, hits: set<bytes>)
    requires ListsSorted(names, hits) && |names| >= 2
    ensures Several(hits)
  {
    assert names[0] in hits && names[1] in hits && Less(names[0], names[1]);
    LessTotal(names[0], names[1]);
  }

  // ----- What a get answers -----

  /** No line a get for this server needs is too long. */
  ghost predicate AnswerFits(net: Wire, v: Vault, server: bytes) {
    Listed(net, v, server) && forall n :: Hits(v, Sanitize(server)) == {n} ==> FetchFits(net, v, n)
  }

  /** An answer that tells what the logins are: none, the one there is, or the
      names of several. */
  ghost predicate Tells(g: Result<Option<Login>, Failure>, v: Vault, server: bytes, hits: set<bytes>) {
    match g
    case Ok(None) => hits == {}
    case Ok(Some(l)) =>
      exists n :: n in v && hits == {n} && l == Login(server, UserOf(v[n]), JsonString.Quoting(v[n].value))
    case Err(Tie(names)) => ListsSorted(names, hits) && Several(hits)
    case _ => false
  }

  /** A get tells exactly that, unless a line is too long for it. */
  lemma GotTells(net: Wire, v: Vault, input: bytes)
    requires AllValid(v) && ReadServer(input).Ok? && ValidText(Sanitize(ReadServer(input).value))
    ensures var server := ReadServer(input).value;
            if AnswerFits(net, v, server) then Tells(Got(net, v, input), v, server, Hits(v, Sanitize(server)))
            else Got(net, v, input) == Err(Daemon(Protocol))
  {
    hide Sanitize, ValidText, ReadServer, JsonString.Quoting, Tells, Getting, AnswerFits, Lookup;
    var server := ReadServer(input).value;
    var hits := Hits(v, Sanitize(server));
    LookupRight(net, v, server);
    if !Listed(net, v, server) {
      NotListed(net, v, server);
      return;
    }
    var m := Lookup(net, v, server).value;
    if m.Unique? {
      var n := m.info.name;
      assert n in hits;
      FitsOne(net, v, server, n);
      FetchOne(net, v, n);
      TellsOne(v, server, n);
    } else {
      FitsOthers(net, v, server, m);
      TellsOthers(v, server, m);
    }
  }

  lemma NotListed(net: Wire, v: Vault, server: bytes)
    requires !Listed(net, v, server)
    ensures !AnswerFits(net, v, server)
  {
  }

  lemma FitsOne(net: Wire, v: Vault, server: bytes, n: bytes)
    requires Listed(net, v, server) && Hits(v, Sanitize(server)) == {n}
    ensures AnswerFits(net, v, server) <==> FetchFits(net, v, n)
  {
    hide Listed, FetchFits, Hits;
    assert forall m :: {n} == {m} ==> m in {n};
  }

  lemma FitsOthers(net: Wire, v: Vault, server: bytes, m: Match)
    requires Listed(net, v, server) && RightFor(m, v, Hits(v, Sanitize(server))) && !m.Unique?
    ensures AnswerFits(net, v, server)
  {
    hide Listed, FetchFits, Hits;
    if m.Ambiguous? {
      TiedAreSeveral(m.names, Hits(v, Sanitize(server)));
    }
  }

  lemma TellsOne(v: Vault, server: bytes, n: bytes)
    requires n in v
    ensures Tells(Ok(Some(Login(server, UserOf(v[n]), JsonString.Quoting(v[n].value)))), v, server, {n})
  {
    hide JsonString.Quoting;
  }

  lemma TellsOthers(v: Vault, server: bytes, m: Match)
    requires RightFor(m, v, Hits(v, Sanitize(server))) && !m.Unique?
    ensures m.NoMatch? ==> Tells(Ok(None), v, server, Hits(v, Sanitize(server)))
    ensures m.Ambiguous? ==> Tells(Err(Tie(m.names)), v, server, Hits(v, Sanitize(server)))
  {
    hide Hits;
    if m.Ambiguous? {
      TiedAreSeveral(m.names, Hits(v, Sanitize(server)));
    }
  }

  /** The answer to a text server without a space in it. */
  lemma GotOne(net: Wire, w: Vault, n: bytes, server: bytes)
    requires AllValid(w) && ValidText(server) && n in w && Hits(w, server) == {n}
    ensures Got(net, w, server) ==
            if SPACE in server then Err(Whitespace)
            else if !AnswerFits(net, w, server) then Err(Daemon(Protocol))
            else Ok(Some(Login(server, UserOf(w[n]), JsonString.Quoting(w[n].value))))
  {
    hide ValidText, JsonString.Quoting;
    SanitizeFixesText(server);
    ValidTextIsText(server);
    ValidServerReads(server);
    if SPACE !in server {
      GotTells(net, w, server);
      if AnswerFits(net, w, server) {
        OneIsTold(Got(net, w, server), w, server, n);
      }
    }
  }

  lemma ValidTextIsText(b: bytes)
    requires ValidText(b)
    ensures Valid(b)
  {
  }

  lemma OneIsTold(g: Result<Option<Login>, Failure>, v: Vault, server: bytes, n: bytes)
    requires Tells(g, v, server, {n})
    ensures n in v && g == Ok(Some(Login(server, UserOf(v[n]), JsonString.Quoting(v[n].value))))
  {
    hide JsonString.Quoting;
    assert n in {n};
    if g.Ok? {
      var m :| m in v && {n} == {m} && g.value == Some(Login(server, UserOf(v[m]), JsonString.Quoting(v[m].value)));
      assert m in {n};
    }
  }

  // ----- Store, erase, get -----

  /** Before an accepted store only its target may be a login of the server,
      and is one exactly if the store does not create it. */
  lemma TargetAlone(net: Wire, v: Vault, r: Request, now: int)
    requires Valid(r.server) && Stored(net, v, r, now).Ok?
    ensures Hits(v, r.server) == {Target(net, v, r)} || (Hits(v, r.server) == {} && Target(net, v, r) == SecretName(r.server))
  {
    SanitizeFixesText(r.server);
    LookupRight(net, v, r.server);
  }

  /** After an accepted store, a get for that server gives back exactly its
      user name and its secret, unless the server has a space in it, which
      store takes and get does not, or a line of the answer is too long.
      Docker parses the secret back as its bytes with bad UTF-8 replaced.
      Nothing but the target has changed. */
  lemma StoreThenGet(net: Wire, v: Vault, r: Request, now: int)
    requires AllValid(v) && FromJson(r) && Stored(net, v, r, now).Ok?
    ensures var w, secret := Stored(net, v, r, now).value, JsonString.Unquoted(r.secret).value;
            && Got(net, w, r.server) ==
               (if SPACE in r.server then Err(Whitespace)
                else if !AnswerFits(net, w, r.server) then Err(Daemon(Protocol))
                else Ok(Some(Login(r.server, r.username, JsonString.Quoting(secret)))))
            && JsonString.Unquoted(JsonString.Quoting(secret)) == Some(Sanitize(secret))
            && AllValid(w) && OnlyChanges(v, w, Target(net, v, r))
  {
    hide Sanitize, ValidText, JsonString.Unquoted, JsonString.Quoting;
    var w, n := Stored(net, v, r, now).value, Target(net, v, r);
    StoreEffect(net, v, r, now);
    TargetAlone(net, v, r, now);
    HitsAfter(v, w, n, r.server);
    GotOne(net, w, n, r.server);
    JsonString.QuoteRoundTrip(ReadRequest(r).value);
  }

  /** Two tellings with and without one login are never the same. */
  lemma TellsApart(g: Result<Option<Login>, Failure>, v: Vault, w: Vault, server: bytes, hits: set<bytes>, n: bytes)
    requires n in hits && Tells(g, v, server, hits)
    ensures !Tells(g, w, server, hits - {n})
  {
    hide JsonString.Quoting, UserOf;
    if g.Ok? && g.value.Some? {
      assert forall m :: hits == {m} ==> m == n && hits - {n} == {};
    } else if g.Err? && g.error.Tie? {
      assert n in g.error.names;
    }
  }

  /** For another server a write to n is as if n were gone. */
  lemma FitsWithout(net: Wire, v: Vault, w: Vault, n: bytes, server: bytes)
    requires OnlyChanges(v, w, n) && Hits(w, Sanitize(server)) == Hits(v, Sanitize(server)) - {n}
    ensures AnswerFits(net, w, server) == AnswerFits(net, v - {n}, server)
  {
    hide Sanitize, Matching, Sends, Receives;
    var u := v - {n};
    OnIsHits(w, server);
    OnIsHits(u, server);
    assert Hits(u, Sanitize(server)) == Hits(w, Sanitize(server));
    assert On(w, server) == On(u, server);
    forall m | Hits(u, Sanitize(server)) == {m} ensures FetchFits(net, w, m) == FetchFits(net, u, m) {
      assert m in Hits(u, Sanitize(server)) && u[m] == w[m];
    }
  }

  /** A write to a login of one server, seen from another: it takes at most one
      login away, and the answer stays the same exactly if it does not, or if
      with and without that login a line is too long for any answer. */
  lemma OtherServer(net: Wire, v: Vault, w: Vault, n: bytes, input: bytes)
    requires AllValid(v) && AllValid(w) && OnlyChanges(v, w, n) && n in w
    requires ReadServer(input).Ok? && !OnServer(w[n], Sanitize(ReadServer(input).value))
    ensures var server := ReadServer(input).value;
            var theirs := Hits(v, Sanitize(server));
            && Hits(w, Sanitize(server)) == theirs - {n}
            && (Got(net, w, input) == Got(net, v, input) <==>
                  n !in theirs || (!AnswerFits(net, v, server) && !AnswerFits(net, v - {n}, server)))
  {
    hide Sanitize, ReadServer, ValidText, Got, Tells, AnswerFits;
    var server := ReadServer(input).value;
    var theirs := Hits(v, Sanitize(server));
    HitsAfter(v, w, n, Sanitize(server));
    FitsWithout(net, v, w, n, server);
    NoTelling(v, w, server, theirs, theirs - {n});
    if n !in theirs {
      SameAnswer(net, v, w, n, input);
    } else {
      ServerIsText(v, n, server);
      GotTells(net, v, input);
      GotTells(net, w, input);
      if AnswerFits(net, v, server) {
        TellsApart(Got(net, v, input), v, w, server, theirs, n);
      }
    }
  }

  lemma NoTelling(v: Vault, w: Vault, server: bytes, a: set<bytes>, b: set<bytes>)
    ensures !Tells(Err(Daemon(Protocol)), v, server, a) && !Tells(Err(Daemon(Protocol)), w, server, b)
  {
  }

  lemma ServerIsText(v: Vault, n: bytes, server: bytes)
    requires AllValid(v) && n in Hits(v, Sanitize(server))
    ensures ValidText(Sanitize(server))
  {
    hide ValidText, Sanitize;
    assert ValidSecret(n, v[n].kind, v[n].attributes, v[n].value);
  }

  lemma SameAnswer(net: Wire, v: Vault, w: Vault, n: bytes, input: bytes)
    requires AllValid(v) && OnlyChanges(v, w, n) && ReadServer(input).Ok?
    requires var t := Sanitize(ReadServer(input).value); n !in Hits(v, t) && Hits(w, t) == Hits(v, t)
    ensures Got(net, w, input) == Got(net, v, input)
  {
    hide Sanitize, ReadServer, ValidText, JsonString.Quoting, Lookup, Hits, Getting;
    var server := ReadServer(input).value;
    SameLookup(net, v, w, n, server);
    LookupRight(net, v, server);
    var m := Lookup(net, v, server);
    if m.Ok? && m.value.Unique? {
      assert m.value.info.name in Hits(v, Sanitize(server));
      SameGetting(net, v, w, m.value.info.name);
    }
  }

  lemma SameGetting(net: Wire, v: Vault, w: Vault, m: bytes)
    requires AllValid(v) && m in v && m in w && w[m] == v[m]
    ensures Getting(net, w, m) == Getting(net, v, m)
  {
    hide Sanitize, ValidText;
    ValidIsText(v, m);
  }

  lemma SameLookup(net: Wire, v: Vault, w: Vault, n: bytes, server: bytes)
    requires OnlyChanges(v, w, n)
    requires n !in Hits(v, Sanitize(server)) && Hits(w, Sanitize(server)) == Hits(v, Sanitize(server))
    ensures Lookup(net, w, server) == Lookup(net, v, server)
  {
    hide Sanitize, Matching, Matches, OnServer;
    OnIsHits(v, server);
    OnIsHits(w, server);
    assert On(w, server) == On(v, server);
    SameListing(net, v, w, server);
  }

  lemma SameListing(net: Wire, v: Vault, w: Vault, server: bytes)
    requires On(w, server) == On(v, server)
    ensures Lookup(net, w, server) == Lookup(net, v, server)
  {
    hide Sanitize, Matching, ValidQuery, WireFilter, Choose, Sends, Receives;
  }

  lemma OnOneServer(v: Vault, a: bytes, b: bytes)
    requires a != b
    ensures Hits(v, a) !! Hits(v, b)
  {
  }

  /** What another server is answered stays the same exactly if the store has
      not taken over one of its logins, or if with and without that login a
      line is too long for any answer. A store takes over a login only by its name, when it
      has no match of its own. */
  lemma OthersKeepTheirs(net: Wire, v: Vault, r: Request, now: int, input: bytes)
    requires AllValid(v) && FromJson(r) && Stored(net, v, r, now).Ok?
    requires ReadServer(input).Ok? && Sanitize(ReadServer(input).value) != r.server
    ensures var w, n := Stored(net, v, r, now).value, Target(net, v, r);
            var server := ReadServer(input).value;
            var theirs := Hits(v, Sanitize(server));
            && (Got(net, w, input) == Got(net, v, input) <==>
                  n !in theirs || (!AnswerFits(net, v, server) && !AnswerFits(net, v - {n}, server)))
            && Hits(w, Sanitize(server)) == theirs - {n}
            && (n in theirs ==> Hits(v, r.server) == {} && n == SecretName(r.server))
  {
    hide Sanitize, ReadServer, ValidText;
    StoreEffect(net, v, r, now);
    TargetAlone(net, v, r, now);
    OtherServer(net, v, Stored(net, v, r, now).value, Target(net, v, r), input);
    OnOneServer(v, r.server, Sanitize(ReadServer(input).value));
  }

  /** An erase by the logins there are: with none or one it succeeds, with
      several it and get name them all and nothing changes; after an accepted
      erase there is no login. */
  lemma EraseExact(net: Wire, v: Vault, input: bytes)
    requires AllValid(v) && ReadServer(input).Ok? && ValidText(Sanitize(ReadServer(input).value))
    ensures var server := ReadServer(input).value;
            var hits, e := Hits(v, Sanitize(server)), Erased(net, v, input);
            && (!Listed(net, v, server) ==> e == Err(Daemon(Protocol)))
            && (Listed(net, v, server) ==>
                  && (hits == {} ==> e == Ok(v))
                  && (forall n :: hits == {n} ==> e == if Sends(net, DeleteCall(n)) then Ok(v - {n}) else Err(Daemon(Protocol)))
                  && (Several(hits) <==> e.Err? && e.error.Tie?)
                  && (Several(hits) ==> ListsSorted(e.error.names, hits) && Got(net, v, input) == Err(e.error)))
            && (e.Ok? ==> Hits(e.value, Sanitize(server)) == {})
  {
    hide Sanitize, ReadServer, ValidText, JsonString.Quoting, Getting, Deleting, Lookup, Hits, Listed;
    var server := ReadServer(input).value;
    var hits := Hits(v, Sanitize(server));
    LookupRight(net, v, server);
    if Lookup(net, v, server).Ok? {
      var m := Lookup(net, v, server).value;
      if m.Unique? {
        assert m.info.name in hits;
        EraseOne(net, v, server, m.info.name);
        assert forall n :: hits == {n} ==> n == m.info.name;
      } else if m.Ambiguous? {
        TiedAreSeveral(m.names, hits);
      }
    }
  }

  lemma EraseOne(net: Wire, v: Vault, server: bytes, n: bytes)
    requires AllValid(v) && Hits(v, Sanitize(server)) == {n} && n in v
    ensures Deleting(net, v, n) == if Sends(net, DeleteCall(n)) then Ok(v - {n}) else Err(Protocol)
    ensures Hits(v - {n}, Sanitize(server)) == {}
  {
    hide Sanitize, ValidText;
    ValidIsText(v, n);
    assert ValidSecret(n, v[n].kind, v[n].attributes, v[n].value);
    assert Hits(v - {n}, Sanitize(server)) == Hits(v, Sanitize(server)) - {n};
  }

  /** After an accepted erase a get finds no login, unless its lines are too
      long. */
  lemma EraseThenGet(net: Wire, v: Vault, input: bytes)
    requires AllValid(v) && ReadServer(input).Ok? && ValidText(Sanitize(ReadServer(input).value))
    requires Erased(net, v, input).Ok?
    ensures var w := Erased(net, v, input).value;
            Got(net, w, input) == if Listed(net, w, ReadServer(input).value) then Ok(None) else Err(Daemon(Protocol))
  {
    hide Sanitize, ReadServer, ValidText, JsonString.Quoting;
    EraseExact(net, v, input);
    LookupRight(net, Erased(net, v, input).value, ReadServer(input).value);
    NoneFound(net, Erased(net, v, input).value, ReadServer(input).value);
  }

  lemma NoneFound(net: Wire, w: Vault, server: bytes)
    requires ValidText(Sanitize(server)) && Listed(net, w, server) ==> Lookup(net, w, server).Ok?
    requires ValidText(Sanitize(server)) && Hits(w, Sanitize(server)) == {}
    ensures Listed(net, w, server) ==> Lookup(net, w, server) == Ok(NoMatch)
  {
    if Listed(net, w, server) {
      LookupIs(net, w, server, NoMatch);
    }
  }

  /** Neither does an ambiguous store change anything. */
  lemma AmbiguousStore(net: Wire, v: Vault, r: Request, now: int)
    requires ReadRequest(r).Ok? && ValidText(Sanitize(r.server)) && Listed(net, v, r.server)
    ensures var hits, s := Hits(v, Sanitize(r.server)), Stored(net, v, r, now);
            (s.Err? && s.error.Tie? <==> Several(hits)) && (Several(hits) ==> ListsSorted(s.error.names, hits))
  {
    hide Sanitize, ValidText;
    LookupRight(net, v, r.server);
    var m := Lookup(net, v, r.server).value;
    if m.Ambiguous? {
      TiedAreSeveral(m.names, Hits(v, Sanitize(r.server)));
    }
  }

  // ----- Two logins that go wrong -----

  /** A short login that the daemon can take. */
  ghost predicate Ordinary(r: Request) {
    && ValidText(r.server) && ValidText(r.username) && ValidText(SecretName(r.server))
    && ReadRequest(r).Ok? && |ReadRequest(r).value| <= SMALL
  }

  /** It is accepted when the server has no login yet. */
  lemma OrdinaryAccepted(net: Wire, v: Vault, r: Request, now: int)
    requires IsJson(net) && Ordinary(r) && Hits(v, r.server) == {}
    ensures Stored(net, v, r, now).Ok? && Target(net, v, r) == SecretName(r.server)
  {
    hide ReadRequest, Valid, HasControl, TrimSpace;
    ShortText(r.server);
    ShortText(r.username);
    ShortText(SecretName(r.server));
    EmptyListed(net, v, r.server);
    LookupIs(net, v, r.server, NoMatch);
    NewWire(r);
    NewAccepted(net, v, r, ReadRequest(r).value, now);
  }

  lemma ShortText(b: bytes)
    requires ValidText(b)
    ensures |b| <= 256 && Valid(b) && Sanitize(b) == b
  {
    hide HasControl, TrimSpace;
    SanitizeFixesText(b);
  }

  lemma EmptyListed(net: Wire, v: Vault, server: bytes)
    requires IsJson(net) && |server| <= SMALL && Hits(v, Sanitize(server)) == {}
    ensures Listed(net, v, server)
  {
    hide Sanitize, SmallCall, On, Hits;
    AskFits(net, server);
    OnIsHits(v, server);
    var found := On(v, server);
    assert found.Keys == {};
    ShortListing(net, found);
  }

  lemma AskFits(net: Wire, server: bytes)
    requires IsJson(net) && |server| <= SMALL
    ensures Sends(net, ListCall(ServerFilter(server)))
  {
    assert |map[SERVER := server]| == 1;
    assert SmallCall(ListCall(ServerFilter(server)));
  }

  lemma NewAccepted(net: Wire, v: Vault, r: Request, value: bytes, now: int)
    requires IsJson(net) && |value| <= SMALL
    requires ValidText(r.server) && ValidText(r.username) && ValidText(SecretName(r.server))
    requires Sanitize(SecretName(r.server)) == SecretName(r.server)
    requires WireAttributes(NewAttributes(r)) == NewAttributes(r)
    ensures Putting(net, v, SecretName(r.server), REGISTRY, NewAttributes(r), value, now).Ok?
  {
    hide Sanitize, WireAttributes, Valid, HasControl, TrimSpace, SecretName;
    KeysAreSlugs();
    var attrs := NewAttributes(r);
    assert forall k :: k in attrs ==> k == SERVER || k == USERNAME;
    assert ValidAttributes(attrs);
    assert SmallCall(StoreCall(SecretName(r.server), REGISTRY, attrs, value));
  }

  /** The host part of the two requests below: visible ASCII without '/'. */
  predicate PlainHost(b: bytes) {
    1 <= |b| <= 100 && SLASH !in b && forall i :: 0 <= i < |b| ==> 0x21 <= b[i] <= 0x7E
  }

  lemma PlainHostName(host: bytes)
    requires SLASH !in host && host != []
    ensures SecretName(host) == DOCKER_SLASH + host
  {
    NoSchemeFound(host, 0);
    SlashAt(host, |host|);
  }

  lemma NamedText(b: bytes)
    requires 1 <= |b| <= 249 && forall i :: 0 <= i < |b| ==> 0x20 <= b[i] <= 0x7E
    requires b[0] != SPACE && b[|b| - 1] != SPACE
    ensures ValidText(b) && ValidText(DOCKER_SLASH + b)
  {
    hide ValidText;
    PlainTextValid(b);
    var n := DOCKER_SLASH + b;
    assert |DOCKER_SLASH| == 7 && forall i :: 0 <= i < 7 ==> 0x21 <= DOCKER_SLASH[i] <= 0x7E;
    assert n[|n| - 1] == b[|b| - 1];
    PlainTextValid(n);
  }

  /** A login for a server with a space in it is accepted, and cannot be read
      back. */
  lemma SpacedServer(net: Wire, host: bytes, r: Request, now: int)
    requires IsJson(net) && PlainHost(host)
    requires r.server == host + [SPACE] + host && r.username == host
    requires ReadRequest(r).Ok? && |ReadRequest(r).value| <= SMALL
    ensures Stored(net, map[], r, now).Ok?
    ensures Got(net, Stored(net, map[], r, now).value, r.server) == Err(Whitespace)
  {
    hide ReadRequest, Got, ValidText;
    PlainHostName(r.server);
    NamedText(r.server);
    NamedText(host);
    var v: Vault := map[];
    OrdinaryAccepted(net, v, r, now);
    ShortText(r.server);
    ShortText(r.username);
    StoreThenGet(net, v, r, now);
  }

  /** Two servers of one host: the first has a login under the host's name, and
      storing one for the second takes it away. */
  lemma LoginTakenOver(net: Wire, host: bytes, server: bytes, s: Secret, r: Request, now: int)
    requires IsJson(net) && PlainHost(host)
    requires server == host + [SLASH] && r.server == host && r.username == host
    requires ReadRequest(r).Ok? && |ReadRequest(r).value| <= SMALL
    requires s.kind == REGISTRY && s.attributes == map[SERVER := server, USERNAME := host] && |s.value| <= SMALL
    ensures var v := map[DOCKER_SLASH + host := s];
            && AllValid(v) && Stored(net, v, r, now).Ok?
            && Got(net, v, server) == Ok(Some(Login(server, host, JsonString.Quoting(s.value))))
            && Got(net, Stored(net, v, r, now).value, server) == Ok(None)
  {
    hide ReadRequest, Got, Stored, ValidText, JsonString.Quoting, SecretName, Listed, FetchFits, IsJson, Sanitize;
    var name := DOCKER_SLASH + host;
    var v := map[name := s];
    PlainHostName(host);
    NamedText(server);
    NamedText(host);
    OneLoginHere(net, v, name, server, host);
    OrdinaryAccepted(net, v, r, now);
    ShortText(host);
    GotOne(net, v, name, server);
    StoreEffect(net, v, r, now);
    NoLoginLeft(net, v, Stored(net, v, r, now).value, name, server);
  }

  /** A server whose only login has gone to another. */
  lemma NoLoginLeft(net: Wire, v: Vault, w: Vault, n: bytes, server: bytes)
    requires IsJson(net) && AllValid(w) && n in w && OnlyChanges(v, w, n)
    requires Hits(v, server) == {n} && !OnServer(w[n], server) && ValidText(server) && SPACE !in server
    ensures Got(net, w, server) == Ok(None)
  {
    hide Got, ValidText, Listed, IsJson, Sanitize, ReadServer, OnServer, AllValid;
    ShortText(server);
    ValidServerReads(server);
    HitsAfter(v, w, n, server);
    EmptyListed(net, w, server);
    GotTells(net, w, server);
    NoneIsTold(Got(net, w, server), w, server);
  }

  lemma NoneIsTold(g: Result<Option<Login>, Failure>, v: Vault, server: bytes)
    requires Tells(g, v, server, {})
    ensures g == Ok(None)
  {
    hide JsonString.Quoting;
  }

  lemma OneLoginHere(net: Wire, v: Vault, name: bytes, server: bytes, user: bytes)
    requires IsJson(net) && v.Keys == {name} && |name| <= 256 && |server| <= 256 && |user| <= 256
    requires v[name].kind == REGISTRY && v[name].attributes == map[SERVER := server, USERNAME := user]
    requires |v[name].value| <= SMALL && ValidText(name) && ValidText(server) && ValidText(user)
    ensures AllValid(v) && Hits(v, server) == {name} && UserOf(v[name]) == user
    ensures forall other :: other != server ==> Hits(v, other) == {}
    ensures AnswerFits(net, v, server)
  {
    hide SmallInfo, AnswerFits, Listed, FetchFits;
    hide Sanitize, Valid, HasControl, TrimSpace;
    KeysAreSlugs();
    assert forall k :: k in v[name].attributes ==> k == SERVER || k == USERNAME;
    assert ValidSecret(name, REGISTRY, v[name].attributes, v[name].value);
    ShortText(server);
    OneFits(net, v, name, server, user);
    FitsOne(net, v, server, name);
  }

  lemma OneFits(net: Wire, v: Vault, name: bytes, server: bytes, user: bytes)
    requires IsJson(net) && v.Keys == {name} && |name| <= 256 && |server| <= 256 && |user| <= 256
    requires v[name].kind == REGISTRY && v[name].attributes == map[SERVER := server, USERNAME := user]
    requires |v[name].value| <= SMALL && Sanitize(server) == server && Hits(v, server) == {name}
    ensures Listed(net, v, server) && FetchFits(net, v, name)
  {
    hide Sanitize, On, SmallCall, SmallInfo;
    AskFits(net, server);
    OnIsHits(v, server);
    var found := On(v, server);
    assert found.Keys == Hits(v, server) == {name};
    LoginSmall(name, v[name], server, user);
    LoginSmall(name, found[name], server, user);
    ShortListing(net, found);
    FetchSmall(net, v, name);
  }

  lemma LoginSmall(name: bytes, s: Secret, server: bytes, user: bytes)
    requires s.kind == REGISTRY && s.attributes == map[SERVER := server, USERNAME := user]
    requires |name| <= 256 && |server| <= 256 && |user| <= 256
    ensures SmallInfo(Info(name, s))
  {
    KeysAreSlugs();
    assert |s.attributes| == 2;
  }

  lemma FetchSmall(net: Wire, v: Vault, name: bytes)
    requires IsJson(net) && name in v && SmallReply(SecretReply(name, v[name]))
    ensures FetchFits(net, v, name)
  {
    assert SmallCall(GetCall(name));
  }
}

/** The git credential helper: which secret answers a request, and what get,
    store and erase do with it. */
module GitCredential {
  import opened Bytes
  import opened Utf8
  import opened Vaults
  import opened Stores
  import opened Clients

  // "git-credential", "host", "protocol", "username", "path", "password", "git/"
  const GIT_KIND: bytes := [0x67, 0x69, 0x74, 0x2D, 0x63, 0x72, 0x65, 0x64, 0x65, 0x6E, 0x74, 0x69, 0x61, 0x6C]
  const HOST: bytes := [0x68, 0x6F, 0x73, 0x74]
  const PROTOCOL: bytes := [0x70, 0x72, 0x6F, 0x74, 0x6F, 0x63, 0x6F, 0x6C]
  const USERNAME: bytes := [0x75, 0x73, 0x65, 0x72, 0x6E, 0x61, 0x6D, 0x65]
  const PATH: bytes := [0x70, 0x61, 0x74, 0x68]
  const PASSWORD: bytes := [0x70, 0x61, 0x73, 0x73, 0x77, 0x6F, 0x72, 0x64]
  const GIT_SLASH: bytes := [0x67, 0x69, 0x74, 0x2F]

  lemma Spellings()
    ensures GIT_KIND == Ascii("git-credential") && GIT_SLASH == Ascii("git/")
    ensures HOST == Ascii("host") && PROTOCOL == Ascii("protocol") && USERNAME == Ascii("username")
    ensures PATH == Ascii("path") && PASSWORD == Ascii("password")
  {
  }

  lemma KeysDistinct()
    ensures HOST != PROTOCOL && HOST != USERNAME && HOST != PATH
    ensures PROTOCOL != USERNAME && PROTOCOL != PATH && USERNAME != PATH
  {
    assert HOST[0] != PATH[0] && PROTOCOL[0] != USERNAME[0];
  }

  datatype Request = Request(protocol: bytes, host: bytes, username: bytes, path: bytes, password: bytes)

  // ----- Scoring -----

  /** A field matches unless both sides set it differently. */
  predicate FieldOk(s: Secret, attr: bytes, want: bytes) {
    attr in s.attributes && want != [] ==> s.attributes[attr] == want
  }

  function Pins(s: Secret, attr: bytes): nat {
    if attr in s.attributes then 1 else 0
  }

  /** How specific a secret is for a request, if it matches. */
  function Score(s: Secret, r: Request): Option<nat> {
    if s.kind != GIT_KIND || HOST !in s.attributes || s.attributes[HOST] != r.host then None
    else if FieldOk(s, PROTOCOL, r.protocol) && FieldOk(s, USERNAME, r.username) && FieldOk(s, PATH, r.path)
    then Some(Pins(s, PROTOCOL) + Pins(s, USERNAME) + Pins(s, PATH))
    else None
  }

  /** The optional fields a secret sets. */
  function OptionalFields(s: Secret): set<bytes> {
    s.attributes.Keys * {PROTOCOL, USERNAME, PATH}
  }

  /** s is of the git kind and on the request's host, and every optional field
      that both of them set is the same in both. */
  predicate Fits(s: Secret, r: Request) {
    && s.kind == GIT_KIND && HOST in s.attributes && s.attributes[HOST] == r.host
    && (PROTOCOL in s.attributes ==> r.protocol == [] || s.attributes[PROTOCOL] == r.protocol)
    && (USERNAME in s.attributes ==> r.username == [] || s.attributes[USERNAME] == r.username)
    && (PATH in s.attributes ==> r.path == [] || s.attributes[PATH] == r.path)
  }

  /** A score is the number of optional fields a fitting secret sets. */
  lemma ScoreCounts(s: Secret, r: Request)
    ensures Score(s, r) == if Fits(s, r) then Some(|OptionalFields(s)|) else None
  {
    KeysDistinct();
    CountThree(s.attributes.Keys, PROTOCOL, USERNAME, PATH);
  }

  lemma CountThree<T>(keys: set<T>, a: T, b: T, c: T)
    requires a != b && a != c && b != c
    ensures |keys * {a, b, c}| == (if a in keys then 1 else 0) + (if b in keys then 1 else 0) + (if c in keys then 1 else 0)
  {
    CountMore(keys, a, {b, c});
    CountMore(keys, b, {c});
    CountMore(keys, c, {});
    FirstOfThree(a, b, c);
  }

  lemma FirstOfThree<T>(a: T, b: T, c: T)
    ensures {a} + {b, c} == {a, b, c} && {b} + {c} == {b, c}
  {
  }

  lemma CountMore<T>(keys: set<T>, a: T, rest: set<T>)
    requires a !in rest
    ensures |keys * ({a} + rest)| == (if a in keys then 1 else 0) + |keys * rest|
  {
    if a in keys {
      assert keys * ({a} + rest) == keys * rest + {a};
    } else {
      assert keys * ({a} + rest) == keys * rest;
    }
  }

  /** gitScore. A missing host attribute reads as "", which no request has. */
  method GitScore(s: Secret, r: Request) returns (k: Option<nat>)
    requires r.host != []
    ensures k == Score(s, r)
    ensures k == if Fits(s, r) then Some(|OptionalFields(s)|) else None
  {
    ScoreCounts(s, r);
    var host := if HOST in s.attributes then s.attributes[HOST] else [];
    if s.kind != GIT_KIND || host != r.host {
      return None;
    }
    var fields := [(PROTOCOL, r.protocol), (USERNAME, r.username), (PATH, r.path)];
    var score: nat := 0;
    for i := 0 to 3
      invariant forall j :: 0 <= j < i ==> FieldOk(s, fields[j].0, fields[j].1)
      invariant score == (if i > 0 then Pins(s, PROTOCOL) else 0) + (if i > 1 then Pins(s, USERNAME) else 0)
                       + (if i > 2 then Pins(s, PATH) else 0)
    {
      var attr, want := fields[i].0, fields[i].1;
      if attr in s.attributes {
        if want != [] && s.attributes[attr] != want {
          assert !FieldOk(s, fields[i].0, fields[i].1);
          return None;
        }
        score := score + 1;
      }
    }
    assert FieldOk(s, fields[0].0, fields[0].1) && FieldOk(s, fields[1].0, fields[1].1) && FieldOk(s, fields[2].0, fields[2].1);
    return Some(score);
  }

  /** The best score among the candidates, -1 when none matches. */
  function Top(cands: seq<Info>, r: Request): int {
    if cands == [] then -1
    else
      var rest := Top(cands[..|cands| - 1], r);
      match Score(cands[|cands| - 1].secret, r)
      case None => rest
      case Some(k) => if k > rest then k else rest
  }

  /** The candidates of score k, in order. */
  function WithScore(cands: seq<Info>, r: Request, k: int): seq<Info> {
    if cands == [] then []
    else
      var rest := WithScore(cands[..|cands| - 1], r, k);
      match Score(cands[|cands| - 1].secret, r)
      case Some(x) => if x == k then rest + [cands[|cands| - 1]] else rest
      case None => rest
  }

  /** What matchGitCredential decides. */
  function Decide(cands: seq<Info>, r: Request): Match {
    var best := WithScore(cands, r, Top(cands, r));
    if |best| == 0 then NoMatch
    else if |best| == 1 then Unique(best[0])
    else Ambiguous(Sort(Names(best)))
  }

  method MatchGitCredential(cands: seq<Info>, r: Request) returns (m: Match)
    requires r.host != []
    ensures m == Decide(cands, r)
  {
    var best: seq<Info> := [];
    var bestScore: int := -1;
    for i := 0 to |cands|
      invariant bestScore == Top(cands[..i], r) && bestScore >= -1
      invariant best == WithScore(cands[..i], r, bestScore)
    {
      assert cands[..i + 1][..i] == cands[..i];
      var k := GitScore(cands[i].secret, r);
      if k.Some? {
        if k.value > bestScore {
          NoneAbove(cands[..i], r, k.value);
          best, bestScore := [cands[i]], k.value;
        } else if k.value == bestScore {
          best := best + [cands[i]];
        }
      }
    }
    assert cands[..|cands|] == cands;
    if |best| == 0 {
      return NoMatch;
    }
    if |best| == 1 {
      return Unique(best[0]);
    }
    return Ambiguous(Sort(Names(best)));
  }

  lemma {:induction false} NoneAbove(cands: seq<Info>, r: Request, k: int)
    requires k > Top(cands, r)
    ensures WithScore(cands, r, k) == []
    decreases cands
  {
    if cands != [] {
      NoneAbove(cands[..|cands| - 1], r, k);
    }
  }

  lemma {:induction false} TopBounds(cands: seq<Info>, r: Request)
    ensures Top(cands, r) >= -1
    ensures forall c :: c in cands && Score(c.secret, r).Some? ==> Score(c.secret, r).value <= Top(cands, r)
    ensures Top(cands, r) >= 0 ==> exists c :: c in cands && Score(c.secret, r) == Some(Top(cands, r))
    decreases cands
  {
    if cands != [] {
      var rest, last := cands[..|cands| - 1], cands[|cands| - 1];
      TopBounds(rest, r);
      assert cands == rest + [last];
      if Top(cands, r) >= 0 && Top(cands, r) == Top(rest, r) {
        var c :| c in rest && Score(c.secret, r) == Some(Top(rest, r));
        assert c in cands;
      } else if Top(cands, r) >= 0 {
        assert last in cands;
      }
    }
  }

  /** cands are exactly the found secrets, each once, in any order. */
  ghost predicate Enumerates(cands: seq<Info>, found: Vault) {
    && DistinctNames(cands)
    && forall c :: c in cands <==> c.name in found && c.secret == found[c.name]
  }

  /** A listing does that by name. */
  lemma Members(cands: seq<Info>, found: Vault)
    requires IsListing(cands, found)
    ensures Enumerates(cands, found)
  {
    forall n | n in found ensures Info(n, found[n]) in cands {
      var i :| 0 <= i < |cands| && cands[i].name == n;
      assert cands[i] == Info(n, found[n]);
    }
    forall i, j | 0 <= i < j < |cands| ensures cands[i].name != cands[j].name {
      LessTotal(cands[i].name, cands[j].name);
    }
  }

  /** WithScore keeps exactly the candidates of that score, each once. */
  lemma {:induction false} WithScoreKeeps(cands: seq<Info>, r: Request, k: nat)
    requires DistinctNames(cands)
    ensures DistinctNames(WithScore(cands, r, k))
    ensures forall c :: c in WithScore(cands, r, k) <==> c in cands && Score(c.secret, r) == Some(k)
    decreases cands
  {
    if cands != [] {
      var rest, last := cands[..|cands| - 1], cands[|cands| - 1];
      WithScoreKeeps(rest, r, k);
      assert cands == rest + [last];
      forall i | 0 <= i < |WithScore(rest, r, k)| ensures WithScore(rest, r, k)[i].name != last.name {
        assert WithScore(rest, r, k)[i] in rest;
      }
    }
  }

  predicate DistinctNames(cands: seq<Info>) {
    forall i, j :: 0 <= i < j < |cands| ==> cands[i].name != cands[j].name
  }

  /** n is the one best match among the found secrets. */
  predicate BestOf(found: Vault, r: Request, n: bytes) {
    && n in found && Score(found[n], r).Some?
    && forall m :: m in found && m != n ==> Score(found[m], r) == None || Score(found[m], r).value < Score(found[n], r).value
  }

  /** n is a best match, perhaps one of several. */
  predicate Maximal(found: Vault, r: Request, n: bytes) {
    && n in found && Score(found[n], r).Some?
    && forall m :: m in found ==> Score(found[m], r) == None || Score(found[m], r).value <= Score(found[n], r).value
  }

  function MaximalSet(found: Vault, r: Request): set<bytes> {
    set n | n in found && Maximal(found, r, n)
  }

  /** What a decision has to say about the found secrets: the one best match,
      no match, or exactly the names tied for best, at least two. */
  ghost predicate RightFor(m: Match, found: Vault, r: Request) {
    match m
    case NoMatch => forall n :: n in found ==> Score(found[n], r) == None
    case Unique(c) => BestOf(found, r, c.name) && c.secret == found[c.name]
    case Ambiguous(names) => ListsSorted(names, MaximalSet(found, r)) && |names| >= 2
  }

  /** The decision on any candidates in any order: the one best match, no
      match, or exactly the sorted names of the tied best. */
  lemma DecideRight(cands: seq<Info>, found: Vault, r: Request)
    requires Enumerates(cands, found)
    ensures RightFor(Decide(cands, r), found, r)
  {
    TopBounds(cands, r);
    if Top(cands, r) < 0 {
      NoScores(cands, r);
      forall n | n in found ensures Score(found[n], r) == None {
        assert Info(n, found[n]) in cands;
      }
    } else {
      Tied(cands, found, r);
    }
  }

  /** With a match, the tied candidates are the maximal ones. */
  lemma Tied(cands: seq<Info>, found: Vault, r: Request)
    requires Enumerates(cands, found) && Top(cands, r) >= 0
    ensures RightFor(Decide(cands, r), found, r) && Decide(cands, r) != NoMatch
  {
    var top := Top(cands, r);
    var best := WithScore(cands, r, top);
    TopBounds(cands, r);
    WithScoreKeeps(cands, r, top);
    var w :| w in cands && Score(w.secret, r) == Some(top);
    assert w in best;
    FoundBounded(cands, found, r);
    if |best| == 1 {
      OneIsBest(best, found, r, top);
    } else {
      ManyAreMaximal(best, found, r, top);
    }
  }

  /** best holds exactly the found secrets of score top, which none exceeds. */
  ghost predicate TiedAt(best: seq<Info>, found: Vault, r: Request, top: int) {
    && (forall c :: c in best <==> c.name in found && c.secret == found[c.name] && Score(c.secret, r) == Some(top))
    && (forall n :: n in found && Score(found[n], r).Some? ==> Score(found[n], r).value <= top)
  }

  lemma OneIsBest(best: seq<Info>, found: Vault, r: Request, top: int)
    requires TiedAt(best, found, r, top) && |best| == 1
    ensures BestOf(found, r, best[0].name) && best[0].secret == found[best[0].name]
  {
    assert best[0] in best;
    forall m | m in found && m != best[0].name
      ensures Score(found[m], r) == None || Score(found[m], r).value < top
    {
      assert Info(m, found[m]) !in best;
    }
  }

  lemma ManyAreMaximal(best: seq<Info>, found: Vault, r: Request, top: int)
    requires TiedAt(best, found, r, top) && |best| >= 2 && DistinctNames(best)
    ensures ListsSorted(Sort(Names(best)), MaximalSet(found, r)) && |Sort(Names(best))| >= 2
  {
    MaximalNames(best, found, r, top);
    SortSorts(Names(best));
    assert (set n | n in Names(best)) == MaximalSet(found, r);
    SortLength(Names(best));
  }

  /** Only one decision is right, whatever order the candidates came in. */
  lemma DecisionUnique(a: Match, b: Match, found: Vault, r: Request)
    requires RightFor(a, found, r) && RightFor(b, found, r)
    ensures a.Unique? && b.Unique? ==> a.info == b.info
    ensures a == b
  {
    if a.Ambiguous? {
      AmbiguousExcludes(a.names, b, found, r);
    }
    if b.Ambiguous? {
      AmbiguousExcludes(b.names, a, found, r);
    }
  }

  lemma AmbiguousExcludes(names: seq<bytes>, b: Match, found: Vault, r: Request)
    requires RightFor(Ambiguous(names), found, r) && RightFor(b, found, r)
    ensures b == Ambiguous(names)
  {
    assert names[0] in MaximalSet(found, r) && names[1] in MaximalSet(found, r);
    assert Less(names[0], names[1]);
    LessTotal(names[0], names[1]);
    if b.Ambiguous? {
      SortedListingUnique(names, b.names, MaximalSet(found, r));
    }
  }

  /** No fitting secret sets as many fields as n does, but n. */
  predicate MostSpecific(found: Vault, r: Request, n: bytes) {
    && n in found && Fits(found[n], r)
    && forall m :: m in found && m != n && Fits(found[m], r) ==> |OptionalFields(found[m])| < |OptionalFields(found[n])|
  }

  /** None sets more. */
  predicate AsSpecific(found: Vault, r: Request, n: bytes) {
    && n in found && Fits(found[n], r)
    && forall m :: m in found && Fits(found[m], r) ==> |OptionalFields(found[m])| <= |OptionalFields(found[n])|
  }

  /** What a right decision means for fields: the fitting secret that sets the
      most of them, none if none fits, or all those that set equally many. */
  lemma RightIsSpecific(m: Match, found: Vault, r: Request)
    requires RightFor(m, found, r)
    ensures match m
            case NoMatch => forall n :: n in found ==> !Fits(found[n], r)
            case Unique(c) => MostSpecific(found, r, c.name) && c.secret == found[c.name]
            case Ambiguous(names) => |names| >= 2 && ListsSorted(names, SpecificSet(found, r))
  {
    hide Score, Fits, OptionalFields;
    ScoresCount(found, r);
    assert MaximalSet(found, r) == SpecificSet(found, r);
  }

  function SpecificSet(found: Vault, r: Request): set<bytes> {
    set n | n in found && AsSpecific(found, r, n)
  }

  predicate NamedBy(n: bytes, m: Match) {
    match m
    case NoMatch => false
    case Unique(c) => n == c.name
    case Ambiguous(names) => n in names
  }

  /** So a fitting secret whose fields are only some of those of another one
      is never chosen, nor named. */
  lemma LessSpecificLoses(m: Match, found: Vault, r: Request, a: bytes, b: bytes)
    requires RightFor(m, found, r) && a in found && b in found && Fits(found[a], r) && Fits(found[b], r)
    requires OptionalFields(found[a]) < OptionalFields(found[b])
    ensures m != NoMatch && !NamedBy(a, m)
  {
    hide Fits, OptionalFields;
    RightIsSpecific(m, found, r);
    FewerFields(OptionalFields(found[a]), OptionalFields(found[b]));
  }

  lemma ScoresCount(found: Vault, r: Request)
    ensures forall n :: n in found ==> Score(found[n], r) == if Fits(found[n], r) then Some(|OptionalFields(found[n])|) else None
  {
    hide Score, Fits, OptionalFields;
    forall n | n in found ensures Score(found[n], r) == if Fits(found[n], r) then Some(|OptionalFields(found[n])|) else None {
      ScoreCounts(found[n], r);
    }
  }

  lemma FewerFields(a: set<bytes>, b: set<bytes>)
    requires a < b
    ensures |a| < |b|
  {
    var x :| x in b && x !in a;
    assert b == a + {x} + (b - a - {x});
    assert |b| == |a| + |{x}| + |b - a - {x}|;
  }

  lemma FoundBounded(cands: seq<Info>, found: Vault, r: Request)
    requires Enumerates(cands, found)
    ensures forall n :: n in found && Score(found[n], r).Some? ==> Score(found[n], r).value <= Top(cands, r)
  {
    TopBounds(cands, r);
    forall n | n in found && Score(found[n], r).Some? ensures Score(found[n], r).value <= Top(cands, r) {
      assert Info(n, found[n]) in cands;
    }
  }

  lemma MaximalNames(best: seq<Info>, found: Vault, r: Request, top: int)
    requires best != [] && TiedAt(best, found, r, top)
    ensures forall n :: n in Names(best) <==> n in found && Maximal(found, r, n)
  {
    assert best[0] in best;
    forall n ensures n in Names(best) <==> n in found && Maximal(found, r, n) {
      if n in Names(best) {
        var i :| 0 <= i < |best| && best[i].name == n;
        assert best[i] in best;
      }
      if n in found && Maximal(found, r, n) {
        assert Score(found[best[0].name], r) == Some(top);
        assert Info(n, found[n]) in best;
        var j :| 0 <= j < |best| && best[j] == Info(n, found[n]);
        assert Names(best)[j] == n;
      }
    }
  }

  lemma {:induction false} NoScores(cands: seq<Info>, r: Request)
    requires Top(cands, r) == -1
    ensures WithScore(cands, r, -1) == []
    decreases cands
  {
    if cands != [] {
      TopBounds(cands[..|cands| - 1], r);
      NoScores(cands[..|cands| - 1], r);
    }
  }

  lemma {:induction false} SortLength(s: seq<bytes>)
    ensures |Sort(s)| == |s|
    decreases s
  {
    if s != [] {
      SortLength(s[1..]);
      InsertLength(s[0], Sort(s[1..]));
    }
  }

  lemma {:induction false} InsertLength(n: bytes, s: seq<bytes>)
    ensures |Insert(n, s)| == |s| + 1
    decreases s
  {
    if s != [] && !Less(n, s[0]) {
      InsertLength(n, s[1..]);
    }
  }

  // ----- Get, store and erase -----

  datatype Failure = Daemon(error: Error) | Tie(names: seq<bytes>) | HasNewline

  datatype Credential = Credential(username: Option<bytes>, password: bytes)

  function GitFilter(r: Request): Filter {
    Filter(GIT_KIND, [], map[HOST := r.host])
  }

  /** gitName. */
  function GitName(r: Request): bytes {
    if r.username != [] then GIT_SLASH + r.host + [SLASH] + r.username else GIT_SLASH + r.host
  }

  function Field(attr: bytes, value: bytes): map<bytes, bytes> {
    if value == [] then map[] else map[attr := value]
  }

  /** gitAttrs: exactly the fields git sent. */
  function GitAttrs(r: Request): map<bytes, bytes> {
    map[HOST := r.host] + Field(PROTOCOL, r.protocol) + Field(USERNAME, r.username) + Field(PATH, r.path)
  }

  /** gitMatch on a vault. */
  ghost function Decision(net: Wire, v: Vault, r: Request): Result<Match, Error> {
    match Finding(net, v, GitFilter(r))
    case Err(e) => Err(e)
    case Ok(found) => Ok(Decide(ListingOf(found), r))
  }

  method Find(c: Client, r: Request) returns (m: Result<Match, Error>)
    requires r.host != []
    ensures m == Decision(c.wire, c.vault, r)
  {
    var cands := c.List(GitFilter(r));
    if cands.Err? {
      return Err(cands.error);
    }
    ghost var found := Finding(c.wire, c.vault, GitFilter(r)).value;
    ListingUnique(cands.value, ListingOf(found), found);
    var d := MatchGitCredential(cands.value, r);
    return Ok(d);
  }

  /** What git gets to see: a credential, nothing, or an error. */
  ghost function Got(net: Wire, v: Vault, r: Request): Result<Option<Credential>, Failure> {
    if r.host == [] then Ok(None)
    else
      match Decision(net, v, r)
      case Err(e) => Err(Daemon(e))
      case Ok(NoMatch) => Ok(None)
      case Ok(Ambiguous(names)) => Err(Tie(names))
      case Ok(Unique(c)) =>
        match Getting(net, v, c.name)
        case Err(e) => Err(Daemon(e))
        case Ok(s) =>
          if LF in s.value then Err(HasNewline)
          else Ok(Some(Credential(
            if USERNAME in c.secret.attributes then Some(c.secret.attributes[USERNAME]) else None, s.value)))
  }

  method Get(c: Client, r: Request) returns (o: Result<Option<Credential>, Failure>)
    ensures o == Got(c.wire, c.vault, r)
  {
    if r.host == [] {
      return Ok(None);
    }
    var m := Find(c, r);
    if m.Err? {
      return Err(Daemon(m.error));
    }
    if m.value.NoMatch? {
      return Ok(None);
    }
    if m.value.Ambiguous? {
      return Err(Tie(m.value.names));
    }
    var full := c.Get(m.value.info.name);
    if full.Err? {
      return Err(Daemon(full.error));
    }
    if LF in full.value.value {
      return Err(HasNewline);
    }
    var attrs := m.value.info.secret.attributes;
    return Ok(Some(Credential(if USERNAME in attrs then Some(attrs[USERNAME]) else None, full.value.value)));
  }

  /** The vault a store leaves behind. */
  ghost function Stored(net: Wire, v: Vault, r: Request, now: int): Result<Vault, Error> {
    if r.host == [] || r.password == [] then Ok(v)
    else
      match Decision(net, v, r)
      case Err(e) => Err(e)
      case Ok(NoMatch) => Putting(net, v, GitName(r), GIT_KIND, GitAttrs(r), r.password, now)
      case Ok(Ambiguous(_)) => Ok(v)
      case Ok(Unique(c)) => Putting(net, v, c.name, c.secret.kind, c.secret.attributes, r.password, now)
  }

  method Store(c: Client, r: Request, now: int) returns (e: Option<Error>)
    modifies c`vault
    ensures match Stored(c.wire, old(c.vault), r, now)
            case Ok(w) => e == None && c.vault == w
            case Err(x) => e == Some(x) && c.vault == old(c.vault)
  {
    if r.host == [] || r.password == [] {
      return None;
    }
    var m := Find(c, r);
    if m.Err? {
      return Some(m.error);
    }
    match m.value {
      case NoMatch =>
        e := c.Store(GitName(r), GIT_KIND, GitAttrs(r), r.password, now);
      case Ambiguous(_) =>
        e := None;
      case Unique(info) =>
        e := c.Store(info.name, info.secret.kind, info.secret.attributes, r.password, now);
    }
  }

  /** The vault an erase leaves behind. */
  ghost function Erased(net: Wire, v: Vault, r: Request): Result<Vault, Error> {
    if r.host == [] then Ok(v)
    else
      match Decision(net, v, r)
      case Err(e) => Err(e)
      case Ok(Unique(c)) =>
        (match Deleting(net, v, c.name)
         case Ok(w) => Ok(w)
         case Err(e) => if e == NotFound then Ok(v) else Err(e))
      case Ok(_) => Ok(v)
  }

  method Erase(c: Client, r: Request) returns (e: Option<Error>)
    modifies c`vault
    ensures match Erased(c.wire, old(c.vault), r)
            case Ok(w) => e == None && c.vault == w
            case Err(x) => e == Some(x) && c.vault == old(c.vault)
  {
    if r.host == [] {
      return None;
    }
    var m := Find(c, r);
    if m.Err? {
      return Some(m.error);
    }
    if !m.value.Unique? {
      return None;
    }
    e := c.Delete(m.value.info.name);
    if e == Some(NotFound) {
      e := None;
    }
  }

  // ----- What they promise together -----

  /** All fields git matches on are text, so JSON carries them unchanged. */
  predicate TextFields(r: Request) {
    Valid(r.host) && Valid(r.protocol) && Valid(r.username) && Valid(r.path)
  }

  /** The secrets of the request's host. */
  function Here(v: Vault, r: Request): Vault {
    Matching(WireFilter(GitFilter(r)), v)
  }

  /** The line that lists them is not too long. */
  ghost predicate ListFits(net: Wire, v: Vault, r: Request) {
    Receives(net, ListReply(ListingOf(Here(v, r))))
  }

  /** Nor are the lines that fetch n. */
  ghost predicate AnswerFits(net: Wire, v: Vault, r: Request, n: bytes) {
    ListFits(net, v, r) && FetchFits(net, v, n)
  }

  lemma FindsHere(net: Wire, v: Vault, r: Request)
    requires Finding(net, v, GitFilter(r)).Ok?
    ensures Finding(net, v, GitFilter(r)).value == Here(v, r)
  {
  }

  /** A request that could be asked once can be asked again, unless the answer
      has become too long. */
  lemma FindsAgain(net: Wire, v: Vault, w: Vault, r: Request)
    requires Finding(net, v, GitFilter(r)).Ok?
    ensures Finding(net, w, GitFilter(r)) == if ListFits(net, w, r) then Ok(Here(w, r)) else Err(Protocol)
  {
  }

  /** The decision is right for the secrets of the request's host. */
  lemma DecisionRight(net: Wire, v: Vault, r: Request)
    requires Decision(net, v, r).Ok?
    ensures Finding(net, v, GitFilter(r)).Ok?
    ensures RightFor(Decision(net, v, r).value, Here(v, r), r)
  {
    var found := Here(v, r);
    FindsHere(net, v, r);
    Members(ListingOf(found), found);
    DecideRight(ListingOf(found), found, r);
  }

  /** And so any right decision is the one taken. */
  lemma DecisionIs(net: Wire, v: Vault, r: Request, m: Match)
    requires Finding(net, v, GitFilter(r)).Ok?
    requires RightFor(m, Here(v, r), r)
    ensures Decision(net, v, r) == Ok(m)
  {
    DecisionRight(net, v, r);
    DecisionUnique(Decision(net, v, r).value, m, Here(v, r), r);
  }

  lemma WireGitFilter(r: Request)
    ensures WireFilter(GitFilter(r)) == Filter(GIT_KIND, [], map[HOST := Sanitize(r.host)])
  {
  }

  predicate OnHost(s: Secret, host: bytes) {
    s.kind == GIT_KIND && HOST in s.attributes && s.attributes[HOST] == host
  }

  lemma MatchesHost(n: bytes, s: Secret, host: bytes)
    ensures Matches(Filter(GIT_KIND, [], map[HOST := host]), n, s) <==> OnHost(s, host)
  {
    var want := map[HOST := host];
    assert HOST in want;
    assert HasAttributes(s, want) <==> HOST in s.attributes && s.attributes[HOST] == host;
  }

  lemma FoundHere(v: Vault, r: Request, n: bytes)
    ensures n in Here(v, r) <==> n in v && OnHost(v[n], Sanitize(r.host))
    ensures n in Here(v, r) ==> Here(v, r)[n] == v[n].(value := [])
  {
    WireGitFilter(r);
    if n in v {
      MatchesHost(n, v[n], Sanitize(r.host));
    }
  }

  /** A new value and time leave what is found, and its scores, as they were. */
  lemma SameFound(v: Vault, r: Request, n: bytes, value: bytes, now: int)
    requires n in v
    ensures var w := v[n := v[n].(value := value, updated := now)];
            && Here(w, r).Keys == Here(v, r).Keys
            && forall m :: m in Here(v, r) ==> Score(Here(w, r)[m], r) == Score(Here(v, r)[m], r)
  {
    var w := v[n := v[n].(value := value, updated := now)];
    forall m ensures m in Here(w, r) <==> m in Here(v, r) {
      FoundHere(v, r, m);
      FoundHere(w, r, m);
    }
    forall m | m in Here(v, r) ensures Score(Here(w, r)[m], r) == Score(Here(v, r)[m], r) {
      FoundHere(v, r, m);
      FoundHere(w, r, m);
      ScoreSame(Here(v, r)[m], Here(w, r)[m], r);
    }
  }

  lemma SameBest(v: Vault, r: Request, n: bytes, value: bytes, now: int)
    requires n in v && BestOf(Here(v, r), r, n)
    ensures BestOf(Here(v[n := v[n].(value := value, updated := now)], r), r, n)
  {
    hide Score, Here;
    SameFound(v, r, n, value, now);
  }

  lemma ScoreSame(a: Secret, b: Secret, r: Request)
    requires a.kind == b.kind && a.attributes == b.attributes
    ensures Score(a, r) == Score(b, r)
  {
  }

  /** The secret a store for r writes to: the match, or a name of its own. */
  ghost function Target(net: Wire, v: Vault, r: Request): bytes {
    match Decision(net, v, r)
    case Ok(Unique(c)) => c.name
    case _ => Sanitize(GitName(r))
  }

  /** What a get answers when n is the one match. */
  lemma OneMatch(net: Wire, w: Vault, r: Request, n: bytes)
    requires r.host != [] && n in w && ValidText(n) && LF !in w[n].value
    requires Finding(net, w, GitFilter(r)) == if ListFits(net, w, r) then Ok(Here(w, r)) else Err(Protocol)
    requires BestOf(Here(w, r), r, n)
    ensures if AnswerFits(net, w, r, n)
            then Got(net, w, r) == Ok(Some(Credential(UserOf(w[n]), w[n].value)))
            else Got(net, w, r) == Err(Daemon(Protocol))
  {
    if ListFits(net, w, r) {
      FoundHere(w, r, n);
      DecisionIs(net, w, r, Unique(Info(n, Here(w, r)[n])));
      SanitizeFixesText(n);
      if Sends(net, GetCall(n)) {
        GettingHere(net, w, n);
      }
    }
  }

  /** What a get answers, from the vault alone: the user name and the value of
      the fitting secret that sets the most fields; nothing exactly if none
      fits; the sorted names of those that set equally many; an error for a
      value with a newline in it or a line that is too long. */
  lemma GotTells(net: Wire, v: Vault, r: Request)
    requires AllValid(v) && r.host != [] && Valid(r.host) && Finding(net, v, GitFilter(r)).Ok?
    ensures match Got(net, v, r)
            case Ok(None) => forall n :: n in v ==> !Fits(v[n], r)
            case Ok(Some(c)) =>
              exists n :: MostSpecific(v, r, n) && LF !in v[n].value && c == Credential(UserOf(v[n]), v[n].value)
            case Err(Tie(names)) => |names| >= 2 && ListsSorted(names, SpecificSet(v, r))
            case Err(HasNewline) => exists n :: MostSpecific(v, r, n) && LF in v[n].value
            case Err(Daemon(e)) => e == Protocol && exists n :: MostSpecific(v, r, n) && !FetchFits(net, v, n)
  {
    hide Valid, Finding, Here, Score, Fits, OptionalFields, AllValid, RightFor, Decide, FetchFits, Getting, Stored;
    DecisionRight(net, v, r);
    var m := Decision(net, v, r).value;
    RightIsSpecific(m, Here(v, r), r);
    SpecificHere(v, r);
    if m.Unique? {
      FoundHere(v, r, m.info.name);
      FetchOne(net, v, m.info.name);
    }
  }

  /** The secrets the host filter finds are the ones that can fit. */
  lemma SpecificHere(v: Vault, r: Request)
    requires Valid(r.host)
    ensures var found := Here(v, r);
            && ((forall n :: n in found ==> !Fits(found[n], r)) <==> forall n :: n in v ==> !Fits(v[n], r))
            && (forall n :: MostSpecific(found, r, n) <==> MostSpecific(v, r, n))
            && SpecificSet(found, r) == SpecificSet(v, r)
  {
    hide Here, Fits, OptionalFields;
    FitsHere(v, r);
    var found := Here(v, r);
    forall n ensures AsSpecific(found, r, n) <==> AsSpecific(v, r, n) {
    }
  }

  lemma FitsHere(v: Vault, r: Request)
    requires Valid(r.host)
    ensures var found := Here(v, r);
            && (forall n :: n in found && Fits(found[n], r) <==> n in v && Fits(v[n], r))
            && (forall n :: n in found ==> n in v && OptionalFields(found[n]) == OptionalFields(v[n]))
  {
    hide Here, Matches, Sanitize;
    var found := Here(v, r);
    SanitizeFixesText(r.host);
    forall n ensures n in found && Fits(found[n], r) <==> n in v && Fits(v[n], r) {
      FoundHere(v, r, n);
    }
    forall n | n in found ensures n in v && OptionalFields(found[n]) == OptionalFields(v[n]) {
      FoundHere(v, r, n);
    }
  }

  /** A store that updates its match: a get finds the same secret again. */
  lemma UpdateThenGet(net: Wire, v: Vault, r: Request, now: int)
    requires AllValid(v) && r.host != [] && r.password != [] && LF !in r.password
    requires Decision(net, v, r).Ok? && Decision(net, v, r).value.Unique?
    requires Stored(net, v, r, now).Ok?
    ensures var n, w := Target(net, v, r), Stored(net, v, r, now).value;
            && n in v && w == v[n := v[n].(value := r.password, updated := now)]
            && OnlyChanges(v, w, n)
            && (r.username != [] ==> UserOf(w[n]) == None || UserOf(w[n]) == Some(r.username))
            && if AnswerFits(net, w, r, n) then Answers(net, w, r, n) else Got(net, w, r) == Err(Daemon(Protocol))
  {
    hide Sanitize, ValidText, ListFits, Here, BestOf, Got, Stored, AnswerFits, Finding, Decision, Target, GitFilter, AllValid;
    UpdateFinds(net, v, r, now);
    var n, w := Target(net, v, r), Stored(net, v, r, now).value;
    FindsAgain(net, v, w, r);
    OneMatch(net, w, r, n);
    UserAgrees(w, r, n);
  }

  /** A match has no user name or the one asked for. */
  lemma UserAgrees(w: Vault, r: Request, n: bytes)
    requires BestOf(Here(w, r), r, n) && n in w
    ensures r.username != [] ==> UserOf(w[n]) == None || UserOf(w[n]) == Some(r.username)
  {
    hide Here;
    FoundHere(w, r, n);
    assert FieldOk(Here(w, r)[n], USERNAME, r.username);
  }

  /** Such a store changes the value and the time of its match, which stays the
      best one. */
  lemma UpdateFinds(net: Wire, v: Vault, r: Request, now: int)
    requires AllValid(v) && r.host != [] && r.password != []
    requires Decision(net, v, r).Ok? && Decision(net, v, r).value.Unique?
    requires Stored(net, v, r, now).Ok?
    ensures var n, w := Target(net, v, r), Stored(net, v, r, now).value;
            && n in v && w == v[n := v[n].(value := r.password, updated := now)]
            && ValidText(n) && BestOf(Here(w, r), r, n) && Finding(net, v, GitFilter(r)).Ok?
  {
    hide Sanitize, Matches, Valid, TrimSpace, HasControl, Here, Score, Got;
    DecisionRight(net, v, r);
    var n := Target(net, v, r);
    FoundHere(v, r, n);
    Updated(net, v, r, n, now);
    SameBest(v, r, n, r.password, now);
    assert ValidSecret(n, v[n].kind, v[n].attributes, v[n].value);
  }

  /** The user name a secret gives to git. */
  function UserOf(s: Secret): Option<bytes> {
    if USERNAME in s.attributes then Some(s.attributes[USERNAME]) else None
  }

  /** A get for r gives back its password, with the user name of secret n. */
  ghost predicate Answers(net: Wire, w: Vault, r: Request, n: bytes) {
    n in w && Got(net, w, r) == Ok(Some(Credential(UserOf(w[n]), r.password)))
  }

  /** The attributes of a secret made for r: exactly the fields git sent, as
      JSON carries them. */
  predicate SentFields(a: map<bytes, bytes>, r: Request) {
    && a.Keys <= {HOST, PROTOCOL, USERNAME, PATH}
    && HOST in a && a[HOST] == Sanitize(r.host)
    && (PROTOCOL in a <==> r.protocol != []) && (PROTOCOL in a ==> a[PROTOCOL] == Sanitize(r.protocol))
    && (USERNAME in a <==> r.username != []) && (USERNAME in a ==> a[USERNAME] == Sanitize(r.username))
    && (PATH in a <==> r.path != []) && (PATH in a ==> a[PATH] == Sanitize(r.path))
  }

  lemma Updated(net: Wire, v: Vault, r: Request, n: bytes, now: int)
    requires AllValid(v) && n in v && r.host != [] && r.password != [] && Stored(net, v, r, now).Ok?
    requires Decision(net, v, r) == Ok(Unique(Info(n, v[n].(value := []))))
    ensures Stored(net, v, r, now) == Ok(v[n := v[n].(value := r.password, updated := now)])
  {
    assert |r.password| <= MAX_VALUE_LEN;
    PuttingBack(net, v, n, r.password, now);
  }

  /** The attributes a new secret gets, as the daemon stores them. */
  lemma NewAttributes(r: Request)
    requires r.host != []
    ensures SentFields(WireAttributes(GitAttrs(r)), r)
  {
    hide Sanitize;
    KeysDistinct();
  }

  /** A new secret matches its own request exactly when the request is text. */
  lemma NewSecretScore(s: Secret, r: Request)
    requires r.host != [] && s.kind == GIT_KIND && s.attributes == WireAttributes(GitAttrs(r))
    ensures Score(s, r).Some? <==> TextFields(r)
  {
    NewAttributes(r);
    SanitizeFixesText(r.host);
    SanitizeFixesText(r.protocol);
    SanitizeFixesText(r.username);
    SanitizeFixesText(r.path);
  }

  /** A store that creates a secret: a get finds it exactly when the fields of
      the request are text. */
  lemma CreateThenGet(net: Wire, v: Vault, r: Request, now: int)
    requires AllValid(v) && r.host != [] && r.password != [] && LF !in r.password
    requires Decision(net, v, r) == Ok(NoMatch)
    requires Stored(net, v, r, now).Ok?
    ensures var n, w := Target(net, v, r), Stored(net, v, r, now).value;
            && n == Sanitize(GitName(r)) && n in w && OnlyChanges(v, w, n)
            && w[n].kind == GIT_KIND && w[n].value == r.password && SentFields(w[n].attributes, r)
            && if !TextFields(r) && ListFits(net, w, r) then Got(net, w, r) == Ok(None)
               else if AnswerFits(net, w, r, n) then Answers(net, w, r, n)
               else Got(net, w, r) == Err(Daemon(Protocol))
  {
    DecisionRight(net, v, r);
    var n := Sanitize(GitName(r));
    var w := Stored(net, v, r, now).value;
    NewAttributes(r);
    Created(v, w, r, n);
    FindsAgain(net, v, w, r);
    if TextFields(r) {
      OneMatch(net, w, r, n);
    } else if ListFits(net, w, r) {
      DecisionIs(net, w, r, NoMatch);
    }
  }

  /** With the new secret in place it is the only one that can match. */
  lemma Created(v: Vault, w: Vault, r: Request, n: bytes)
    requires r.host != [] && RightFor(NoMatch, Here(v, r), r)
    requires n in w && OnlyChanges(v, w, n)
    requires w[n].kind == GIT_KIND && w[n].attributes == WireAttributes(GitAttrs(r))
    ensures var found := Here(w, r);
            && n in found && (Score(found[n], r).Some? <==> TextFields(r))
            && forall m :: m in found && m != n ==> Score(found[m], r) == None
  {
    var found := Here(w, r);
    NewAttributes(r);
    NewSecretScore(w[n], r);
    FoundHere(w, r, n);
    forall m | m in found && m != n ensures Score(found[m], r) == None {
      FoundHere(v, r, m);
      FoundHere(w, r, m);
      assert Score(Here(v, r)[m], r) == None;
      ScoreSame(Here(v, r)[m], found[m], r);
    }
    ScoreSame(found[n], w[n], r);
  }

  /** After an accepted store that was not ambiguous, a get for the same
      request gives back the password exactly when there was a match to update
      or the request is text, and the lines of the answer are not too long;
      and no other name has changed. */
  lemma StoreThenGet(net: Wire, v: Vault, r: Request, now: int)
    requires AllValid(v) && r.host != [] && r.password != [] && LF !in r.password
    requires Stored(net, v, r, now).Ok? && !Decision(net, v, r).value.Ambiguous?
    ensures var n, w := Target(net, v, r), Stored(net, v, r, now).value;
            && (Answers(net, w, r, n) <==>
                  (Decision(net, v, r).value.Unique? || TextFields(r)) && AnswerFits(net, w, r, n))
            && OnlyChanges(v, w, n)
  {
    if Decision(net, v, r).value.Unique? {
      UpdateThenGet(net, v, r, now);
    } else {
      CreateThenGet(net, v, r, now);
    }
  }

  /** Without a tie a store is accepted exactly if the line fits and, for a new
      secret, its name and the fields of the request are valid texts once JSON
      has carried them, and the password is not too long. */
  lemma StoreAccepted(net: Wire, v: Vault, r: Request, now: int)
    requires AllValid(v) && r.host != [] && r.password != [] && Decision(net, v, r).Ok?
    ensures match Decision(net, v, r).value
            case Ambiguous(_) => Stored(net, v, r, now) == Ok(v)
            case Unique(c) =>
              && c.name in v
              && (Stored(net, v, r, now).Ok? <==>
                    && Sends(net, StoreCall(c.name, v[c.name].kind, v[c.name].attributes, r.password))
                    && |r.password| <= MAX_VALUE_LEN)
            case NoMatch =>
              Stored(net, v, r, now).Ok? <==>
                && Sends(net, StoreCall(GitName(r), GIT_KIND, GitAttrs(r), r.password))
                && ValidText(Sanitize(GitName(r))) && ValidText(Sanitize(r.host)) && |r.password| <= MAX_VALUE_LEN
                && (r.protocol != [] ==> ValidText(Sanitize(r.protocol)))
                && (r.username != [] ==> ValidText(Sanitize(r.username)))
                && (r.path != [] ==> ValidText(Sanitize(r.path)))
  {
    hide Sanitize, ValidText, IsSlug, GitName, GitAttrs, Decide, Matches, WireFilter;
    DecisionRight(net, v, r);
    if Decision(net, v, r).value.Unique? {
      var n := Decision(net, v, r).value.info.name;
      FoundHere(v, r, n);
      ValidIsText(v, n);
      assert ValidSecret(n, v[n].kind, v[n].attributes, v[n].value);
    } else if Decision(net, v, r).value.NoMatch? {
      SentFieldsValid(r);
    }
  }

  lemma SentFieldsValid(r: Request)
    requires r.host != []
    ensures IsSlug(GIT_KIND)
    ensures ValidAttributes(WireAttributes(GitAttrs(r))) <==>
            && ValidText(Sanitize(r.host))
            && (r.protocol != [] ==> ValidText(Sanitize(r.protocol)))
            && (r.username != [] ==> ValidText(Sanitize(r.username)))
            && (r.path != [] ==> ValidText(Sanitize(r.path)))
  {
    hide Sanitize, ValidText, GitAttrs, WireAttributes;
    AllSlugs();
    hide IsSlug;
    NewAttributes(r);
    var a := WireAttributes(GitAttrs(r));
    assert forall k :: k in a ==> k == HOST || k == PROTOCOL || k == USERNAME || k == PATH;
  }

  lemma AllSlugs()
    ensures IsSlug(GIT_KIND) && IsSlug(HOST) && IsSlug(PROTOCOL) && IsSlug(USERNAME) && IsSlug(PATH)
  {
  }

  /** Hosts have no slash in them, and so the name of a new secret tells its
      host and user name, and one user's login is never stored over another's. */
  lemma NamesTell(a: Request, b: Request)
    requires SLASH !in a.host && SLASH !in b.host
    ensures GitName(a) == GitName(b) <==> a.host == b.host && a.username == b.username
  {
    var x, y := GitName(a), GitName(b);
    assert x[4..] == a.host + (if a.username == [] then [] else [SLASH] + a.username);
    assert y[4..] == b.host + (if b.username == [] then [] else [SLASH] + b.username);
    if x == y {
      var s, t := if a.username == [] then [] else [SLASH] + a.username, if b.username == [] then [] else [SLASH] + b.username;
      FirstSlash(a.host, s, b.host, t);
      assert s != [] ==> s[1..] == a.username;
      assert t != [] ==> t[1..] == b.username;
    }
  }

  /** Where the first slash is tells what is before it and what is after. */
  lemma FirstSlash(a: bytes, s: bytes, b: bytes, t: bytes)
    requires SLASH !in a && SLASH !in b && a + s == b + t
    requires (s == [] || s[0] == SLASH) && (t == [] || t[0] == SLASH)
    ensures a == b && s == t
  {
    var x := a + s;
    assert forall i :: 0 <= i < |a| ==> x[i] == a[i];
    assert forall i :: 0 <= i < |b| ==> x[i] == b[i];
    assert s != [] ==> x[|a|] == SLASH;
    assert t != [] ==> x[|b|] == SLASH;
    assert |a| == |b|;
    assert x[..|a|] == a && x[..|a|] == b && x[|a|..] == s && x[|a|..] == t;
  }

  lemma GitNameIsText(r: Request)
    requires TextFields(r)
    ensures Sanitize(GitName(r)) == GitName(r)
  {
    hide Valid, Sanitize;
    AsciiIsText(GIT_SLASH);
    JoinText(GIT_SLASH, r.host);
    if r.username != [] {
      AsciiIsText([SLASH]);
      JoinText(GIT_SLASH + r.host, [SLASH]);
      JoinText(GIT_SLASH + r.host + [SLASH], r.username);
    }
    SanitizeFixesText(GitName(r));
  }

  /** A store that creates a secret leaves those named after other hosts and
      other users alone. */
  lemma BesideOthers(net: Wire, v: Vault, r: Request, now: int, other: Request)
    requires AllValid(v) && r.host != [] && r.password != [] && LF !in r.password && TextFields(r)
    requires Decision(net, v, r) == Ok(NoMatch) && Stored(net, v, r, now).Ok?
    requires SLASH !in r.host && SLASH !in other.host && (other.host != r.host || other.username != r.username)
    ensures var n, w := GitName(other), Stored(net, v, r, now).value;
            (n in w <==> n in v) && (n in v ==> w[n] == v[n])
  {
    hide Sanitize, Got, Stored, ListFits, AnswerFits, GitName;
    CreateThenGet(net, v, r, now);
    GitNameIsText(r);
    NamesTell(r, other);
  }

  predicate Plain(b: bytes) {
    forall i :: 0 <= i < |b| ==> 0x21 <= b[i] <= 0x7E
  }

  /** A first store whose path is a single byte that is no text. */
  predicate StrayPath(r: Request) {
    && 1 <= |r.host| <= 200 && Plain(r.host)
    && r.protocol == [] && r.username == []
    && |r.path| == 1 && r.path[0] >= 0x80
    && 1 <= |r.password| <= SMALL && LF !in r.password
  }

  /** Why text matters: such a path is stored as U+FFFD, and the same request
      does not find the new secret again. */
  lemma NonTextIsLost(net: Wire, r: Request, now: int)
    requires IsJson(net) && StrayPath(r)
    ensures Stored(net, map[], r, now).Ok? && Got(net, Stored(net, map[], r, now).value, r) == Ok(None)
  {
    hide Sanitize, ValidText, Valid, TextFields, ListFits, Got, Stored;
    var v: Vault := map[];
    FirstFinds(net, r);
    FirstStored(net, r, now);
    StrayIsNoText(r);
    CreateThenGet(net, v, r, now);
    FirstFits(net, r, now);
  }

  lemma StrayIsNoText(r: Request)
    requires StrayPath(r)
    ensures !TextFields(r)
  {
    assert Bad(r.path);
  }

  lemma FirstFinds(net: Wire, r: Request)
    requires IsJson(net) && StrayPath(r)
    ensures Decision(net, map[], r) == Ok(NoMatch)
  {
    PlainFits(r.host);
    HostFilterValid(net, r);
    var found := Here(map[], r);
    assert forall n :: n !in found;
    DecisionIs(net, map[], r, NoMatch);
  }

  lemma PlainFits(b: bytes)
    requires Plain(b) && 1 <= |b| <= 256
    ensures ValidText(b) && Sanitize(b) == b
  {
    PlainTextValid(b);
    SanitizeFixesText(b);
  }

  lemma PlainName(r: Request)
    requires StrayPath(r)
    ensures ValidText(GitName(r)) && Sanitize(GitName(r)) == GitName(r) && |GitName(r)| <= 204
  {
    var name := GitName(r);
    assert Plain(name) && |name| <= 256 by {
      assert name == GIT_SLASH + r.host && Plain(GIT_SLASH) && |GIT_SLASH| == 4;
    }
    PlainFits(name);
  }

  lemma HostFilterValid(net: Wire, r: Request)
    requires IsJson(net) && ValidText(Sanitize(r.host)) && |r.host| <= SMALL
    ensures Finding(net, map[], GitFilter(r)).Ok?
  {
    hide Sanitize, ValidText, SmallCall, IsSlug, Matches;
    WireGitFilter(r);
    KeysAreSlugs();
    HostAsked(net, r);
    var want := map[HOST := Sanitize(r.host)];
    assert ValidAttributes(want) by {
      assert forall k :: k in want ==> k == HOST;
    }
    EmptyList(net, r);
  }

  lemma HostAsked(net: Wire, r: Request)
    requires IsJson(net) && |r.host| <= SMALL
    ensures Sends(net, ListCall(GitFilter(r))) && IsSlug(GIT_KIND)
  {
    assert |map[HOST := r.host]| == 1;
    assert SmallCall(ListCall(GitFilter(r)));
  }

  lemma EmptyList(net: Wire, r: Request)
    requires IsJson(net)
    ensures ListFits(net, map[], r)
  {
    hide Sanitize, ValidText, Matches;
    assert Here(map[], r) == map[];
    ShortListing(net, map[]);
  }

  lemma FirstStored(net: Wire, r: Request, now: int)
    requires IsJson(net) && StrayPath(r) && Decision(net, map[], r) == Ok(NoMatch)
    ensures var w := map[GitName(r) := Secret(GIT_KIND, r.password, WireAttributes(GitAttrs(r)), now, now)];
            Stored(net, map[], r, now) == Ok(w)
  {
    hide IsSlug, ValidAttributes, GitAttrs;
    PlainName(r);
    FirstAttributes(r);
    FirstCall(net, r);
    var v: Vault := map[];
    var c := Put(Sanitize(GitName(r)), GIT_KIND, WireAttributes(GitAttrs(r)), r.password);
    assert Modify(c, v, now).Ok?;
  }

  lemma FirstCall(net: Wire, r: Request)
    requires IsJson(net) && StrayPath(r) && |GitName(r)| <= 204
    ensures Sends(net, StoreCall(GitName(r), GIT_KIND, GitAttrs(r), r.password))
  {
    hide GitName;
    KeysDistinct();
    assert GitAttrs(r) == map[HOST := r.host, PATH := r.path];
    assert SmallCall(StoreCall(GitName(r), GIT_KIND, GitAttrs(r), r.password));
  }

  lemma KeysAreSlugs()
    ensures IsSlug(HOST) && IsSlug(PATH)
  {
  }

  lemma FirstAttributes(r: Request)
    requires StrayPath(r)
    ensures ValidAttributes(WireAttributes(GitAttrs(r)))
  {
    KeysAreSlugs();
    PlainFits(r.host);
    StrayByteValid(r.path);
    NewAttributes(r);
    var attrs := WireAttributes(GitAttrs(r));
    forall k | k in attrs ensures IsSlug(k) && ValidText(attrs[k]) {
      assert k == HOST || k == PATH;
    }
  }

  /** The only secret there is makes a short list. */
  lemma FirstFits(net: Wire, r: Request, now: int)
    requires IsJson(net) && StrayPath(r) && Decision(net, map[], r) == Ok(NoMatch)
    ensures Stored(net, map[], r, now).Ok? && ListFits(net, Stored(net, map[], r, now).value, r)
  {
    hide Sanitize, ValidText, Stored, ListFits, WireAttributes, GitAttrs, ValidAttributes;
    FirstStored(net, r, now);
    PlainName(r);
    FirstAttributes(r);
    var w := Stored(net, map[], r, now).value;
    FirstSmall(r, w[GitName(r)]);
    SingleFits(net, w, r, GitName(r));
  }

  lemma SingleFits(net: Wire, w: Vault, r: Request, n: bytes)
    requires IsJson(net) && w.Keys == {n} && SmallInfo(Info(n, w[n]))
    ensures ListFits(net, w, r)
  {
    hide Sanitize, WireFilter, GitFilter, Matches;
    var found := Here(w, r);
    assert found.Keys == {} || found.Keys == {n};
    ShortListing(net, found);
  }

  lemma FirstSmall(r: Request, s: Secret)
    requires StrayPath(r) && s.kind == GIT_KIND && s.attributes == WireAttributes(GitAttrs(r))
    requires ValidAttributes(s.attributes)
    ensures SmallAttributes(s.attributes) && |s.kind| <= SMALL
  {
    hide Sanitize, Valid, TrimSpace, HasControl;
    KeysDistinct();
    NewAttributes(r);
    assert s.attributes == map[HOST := Sanitize(r.host), PATH := Sanitize(r.path)];
  }

  /** What becomes of a stray byte is a valid text, U+FFFD. */
  lemma StrayByteValid(b: bytes)
    requires |b| == 1 && b[0] >= 0x80
    ensures ValidText(Sanitize(b))
  {
    var x := StrayByteBecomes(b);
    OneRuneValid(Sanitize(b), x);
  }

  lemma StrayByteBecomes(b: bytes) returns (x: rune)
    requires |b| == 1 && b[0] >= 0x80
    ensures Sanitize(b) == Encode(x) && !IsControl(x) && !IsSpace(x)
  {
    x := RUNE_ERROR;
    assert Bad(b) && b[1..] == [];
  }

  lemma OneRuneValid(b: bytes, x: rune)
    requires b == Encode(x) && !IsControl(x) && !IsSpace(x)
    ensures ValidText(b)
  {
    var rs := [x];
    assert EncodeAll(rs) == Encode(x) + EncodeAll(rs[1..]);
    assert PrintableText(b);
    ValidTextIffPrintable(b);
  }

  /** An ambiguous store or erase changes nothing, and neither does an erase
      without a match; an erase with one removes that secret alone. */
  lemma EraseExact(net: Wire, v: Vault, r: Request, now: int)
    requires AllValid(v) && r.host != [] && r.password != [] && Decision(net, v, r).Ok?
    ensures Decision(net, v, r).value.Ambiguous? ==> Stored(net, v, r, now) == Ok(v) && Erased(net, v, r) == Ok(v)
    ensures Decision(net, v, r).value.NoMatch? ==> Erased(net, v, r) == Ok(v)
    ensures Decision(net, v, r).value.Unique? ==>
              var n := Decision(net, v, r).value.info.name;
              n in v && Erased(net, v, r) == if Sends(net, DeleteCall(n)) then Ok(v - {n}) else Err(Protocol)
  {
    hide ValidText, Sanitize, Matches;
    hide Decide, WireFilter, HasAttributes, TrimSpace, Valid;
    if Decision(net, v, r).value.Unique? {
      DecisionRight(net, v, r);
      var n := Decision(net, v, r).value.info.name;
      FoundHere(v, r, n);
      ValidIsText(v, n);
      assert ValidSecret(n, v[n].kind, v[n].attributes, v[n].value);
    }
  }

  // ----- Parsing -----

  datatype ParseError = NoEquals(line: nat) | NoHost

  /** The lines git means: those before the first blank one. */
  function Meant(lines: seq<bytes>): seq<bytes> {
    if lines == [] || lines[0] == [] then [] else [lines[0]] + Meant(lines[1..])
  }

  function KeyOf(line: bytes): bytes { line[..IndexOf(line, EQUALS)] }

  function ValueOf(line: bytes): bytes
    requires EQUALS in line
  {
    HasEquals(line);
    line[IndexOf(line, EQUALS) + 1..]
  }

  lemma HasEquals(line: bytes)
    ensures EQUALS in line <==> IndexOf(line, EQUALS) < |line|
  {
  }

  /** The value of the last line with this key. */
  function LastValue(lines: seq<bytes>, key: bytes): bytes
    requires forall i :: 0 <= i < |lines| ==> EQUALS in lines[i]
  {
    if lines == [] then []
    else
      var last := lines[|lines| - 1];
      if KeyOf(last) == key then ValueOf(last) else LastValue(lines[..|lines| - 1], key)
  }

  /** It is what follows the key and the first '=' of the last line that starts
      with both, and empty if no line does. */
  lemma {:induction false} LastValueIsLast(lines: seq<bytes>, key: bytes)
    requires EQUALS !in key && forall i :: 0 <= i < |lines| ==> EQUALS in lines[i]
    ensures (LastValue(lines, key) == [] && forall i :: 0 <= i < |lines| ==> !(key + [EQUALS] <= lines[i])) ||
            exists i :: LastStart(lines, key, i) && lines[i] == key + [EQUALS] + LastValue(lines, key)
    decreases |lines|
  {
    hide KeyOf, ValueOf;
    if lines != [] {
      var n := |lines| - 1;
      KeyStarts(lines[n], key);
      if KeyOf(lines[n]) == key {
        assert LastStart(lines, key, n);
      } else {
        LastValueIsLast(lines[..n], key);
        forall i | LastStart(lines[..n], key, i) ensures LastStart(lines, key, i) {
        }
      }
    }
  }

  /** Line i is the last one that starts with the key and '='. */
  predicate LastStart(lines: seq<bytes>, key: bytes, i: int) {
    0 <= i < |lines| && key + [EQUALS] <= lines[i] && forall j :: i < j < |lines| ==> !(key + [EQUALS] <= lines[j])
  }

  lemma KeyStarts(line: bytes, key: bytes)
    requires EQUALS !in key && EQUALS in line
    ensures KeyOf(line) == key <==> key + [EQUALS] <= line
    ensures KeyOf(line) == key ==> line == key + [EQUALS] + ValueOf(line)
  {
    HasEquals(line);
    var i := IndexOf(line, EQUALS);
    if key + [EQUALS] <= line {
      assert line[|key|] == EQUALS;
      assert forall k :: 0 <= k < |key| ==> line[k] == key[k];
    }
  }

  function FieldsOf(lines: seq<bytes>): Request
    requires forall i :: 0 <= i < |lines| ==> EQUALS in lines[i]
  {
    Request(LastValue(lines, PROTOCOL), LastValue(lines, HOST), LastValue(lines, USERNAME),
      LastValue(lines, PATH), LastValue(lines, PASSWORD))
  }

  /** Each field has its own key. */
  lemma FieldsAre(lines: seq<bytes>)
    requires forall i :: 0 <= i < |lines| ==> EQUALS in lines[i]
    ensures var r := FieldsOf(lines);
            && r.protocol == LastValue(lines, Ascii("protocol")) && r.host == LastValue(lines, Ascii("host"))
            && r.username == LastValue(lines, Ascii("username")) && r.path == LastValue(lines, Ascii("path"))
            && r.password == LastValue(lines, Ascii("password"))
  {
    Spellings();
  }

  lemma {:induction false} MeantPrefix(lines: seq<bytes>)
    ensures Meant(lines) <= lines
    ensures [] !in Meant(lines)
    ensures |Meant(lines)| < |lines| ==> lines[|Meant(lines)|] == []
    decreases lines
  {
    if lines != [] && lines[0] != [] {
      MeantPrefix(lines[1..]);
    }
  }

  lemma AllKeysDistinct()
    ensures PASSWORD != HOST && PASSWORD != PROTOCOL && PASSWORD != USERNAME && PASSWORD != PATH
  {
    assert PASSWORD[1] != PROTOCOL[1] && PASSWORD[0] != USERNAME[0];
  }

  /** What one line does to the fields. */
  function SetField(r: Request, key: bytes, val: bytes): Request {
    if key == PROTOCOL then r.(protocol := val)
    else if key == HOST then r.(host := val)
    else if key == USERNAME then r.(username := val)
    else if key == PATH then r.(path := val)
    else if key == PASSWORD then r.(password := val)
    else r
  }

  lemma NoFields()
    ensures FieldsOf([]) == Request([], [], [], [], [])
  {
  }

  lemma FieldsStep(lines: seq<bytes>, n: nat)
    requires n < |lines| && forall i :: 0 <= i <= n ==> EQUALS in lines[i]
    ensures FieldsOf(lines[..n + 1]) == SetField(FieldsOf(lines[..n]), KeyOf(lines[n]), ValueOf(lines[n]))
  {
    hide KeyOf, ValueOf;
    KeysDistinct();
    AllKeysDistinct();
    assert lines[..n + 1][..n] == lines[..n];
  }

  /** parseGitRequest on the lines of its input: every field is the value of
      the last meant line with its key; the first meant line without '=' is an
      error, and so is a missing host. */
  method ParseGitRequest(lines: seq<bytes>) returns (r: Result<Request, ParseError>)
    ensures r.Err? && r.error.NoEquals? ==>
              && 1 <= r.error.line <= |Meant(lines)| && EQUALS !in Meant(lines)[r.error.line - 1]
              && forall i :: 0 <= i < r.error.line - 1 ==> EQUALS in Meant(lines)[i]
    ensures (r.Err? && r.error.NoEquals?) <==> exists i :: 0 <= i < |Meant(lines)| && EQUALS !in Meant(lines)[i]
    ensures !(r.Err? && r.error.NoEquals?) ==>
              r == if FieldsOf(Meant(lines)).host == [] then Err(NoHost) else Ok(FieldsOf(Meant(lines)))
  {
    hide FieldsOf, Meant;
    MeantPrefix(lines);
    NoFields();
    ghost var meant := Meant(lines);
    var req := Request([], [], [], [], []);
    var n := 0;
    while n < |lines| && lines[n] != []
      invariant 0 <= n <= |meant|
      invariant forall i :: 0 <= i < n ==> EQUALS in meant[i]
      invariant req == FieldsOf(meant[..n])
      decreases |lines| - n
    {
      var line := lines[n];
      assert meant[n] == line;
      HasEquals(line);
      var i := IndexOf(line, EQUALS);
      if i == |line| {
        return Err(NoEquals(n + 1));
      }
      FieldsStep(meant, n);
      var key, val := line[..i], line[i + 1..];
      if key == PROTOCOL {
        req := req.(protocol := val);
      } else if key == HOST {
        req := req.(host := val);
      } else if key == USERNAME {
        req := req.(username := val);
      } else if key == PATH {
        req := req.(path := val);
      } else if key == PASSWORD {
        req := req.(password := val);
      }
      n := n + 1;
    }
    assert meant[..n] == meant;
    return if req.host == [] then Err(NoHost) else Ok(req);
  }

  /** Lines have no newline, so neither has a parsed password. */
  lemma {:induction false} PasswordIsOneLine(lines: seq<bytes>, key: bytes)
    requires forall i :: 0 <= i < |lines| ==> EQUALS in lines[i] && LF !in lines[i]
    ensures LF !in LastValue(lines, key)
    decreases lines
  {
    if lines != [] && KeyOf(lines[|lines| - 1]) != key {
      PasswordIsOneLine(lines[..|lines| - 1], key);
    }
  }
}

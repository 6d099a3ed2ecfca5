/** The environment of keycell exec: which variable gets which secret, and
    what the started program sees. */
module Exec {
  import opened Bytes
  import opened Utf8
  import opened Vaults
  import opened Clients

  const HASH: byte := 0x23

  /** One variable and the secret whose value it gets. */
  datatype EnvEntry = EnvEntry(variable: bytes, name: bytes)

  datatype EntryError = NoEquals | EmptyVariable | BadVariable | EmptyName

  datatype MappingError = InFile(line: nat, error: EntryError) | InFlag(index: nat, error: EntryError)

  // ----- Variables -----

  predicate IsVarStart(c: int) {
    c == 0x5F || 0x61 <= c <= 0x7A || 0x41 <= c <= 0x5A
  }

  predicate IsDigit(c: int) {
    0x30 <= c <= 0x39
  }

  /** [A-Za-z_][A-Za-z0-9_]* */
  predicate IsEnvVar(s: bytes) {
    s != [] && IsVarStart(s[0]) && forall i :: 0 <= i < |s| ==> IsVarStart(s[i]) || IsDigit(s[i])
  }

  /** validEnvVar, rune by rune as Go ranges over a string. */
  method ValidEnvVar(s: bytes) returns (ok: bool)
    ensures ok <==> IsEnvVar(s)
    ensures ok <==>
            && s != []
            && (forall i :: 0 <= i < |s| ==> 0x41 <= s[i] <= 0x5A || 0x61 <= s[i] <= 0x7A
                                             || s[i] == 0x5F || (i > 0 && 0x30 <= s[i] <= 0x39))
  {
    var i := 0;
    while i < |s|
      invariant i <= |s|
      invariant forall j :: 0 <= j < i ==> IsVarStart(s[j]) || (j > 0 && IsDigit(s[j]))
    {
      var (r, n) := DecodeRune(s[i..]);
      LowRune(s[i..]);
      if !IsVarStart(r) && !(i > 0 && IsDigit(r)) {
        return false;
      }
      i := i + n;
    }
    return s != [];
  }

  function EntryOf(s: bytes): Result<EnvEntry, EntryError> {
    var i := IndexOf(s, EQUALS);
    if i == |s| then Err(NoEquals)
    else
      var k, v := TrimSpace(s[..i]), TrimSpace(s[i + 1..]);
      if k == [] then Err(EmptyVariable)
      else if !IsEnvVar(k) then Err(BadVariable)
      else if v == [] then Err(EmptyName)
      else Ok(EnvEntry(k, v))
  }

  method ParseEnvEntry(s: bytes) returns (r: Result<EnvEntry, EntryError>)
    ensures r == EntryOf(s)
  {
    var i := IndexOf(s, EQUALS);
    if i == |s| {
      return Err(NoEquals);
    }
    var k, v := TrimSpace(s[..i]), TrimSpace(s[i + 1..]);
    if k == [] {
      return Err(EmptyVariable);
    }
    var ok := ValidEnvVar(k);
    if !ok {
      return Err(BadVariable);
    }
    if v == [] {
      return Err(EmptyName);
    }
    return Ok(EnvEntry(k, v));
  }

  /** An entry is a variable and a secret name around the first '=', each with
      its surrounding space dropped. */
  ghost predicate IsEntry(s: bytes, e: EnvEntry) {
    exists k, v ::
      && s == k + [EQUALS] + v && EQUALS !in k
      && TrimSpace(k) == e.variable && IsEnvVar(e.variable)
      && TrimSpace(v) == e.name && e.name != []
  }

  /** Exactly the entries parse, and to what they say. */
  lemma EntryMeans(s: bytes, e: EnvEntry)
    ensures EntryOf(s) == Ok(e) <==> IsEntry(s, e)
  {
    hide TrimSpace, IsEnvVar, EntryOf;
    if EntryOf(s) == Ok(e) {
      EntryParts(s, e);
    }
    if IsEntry(s, e) {
      var k, v :| s == k + [EQUALS] + v && EQUALS !in k
        && TrimSpace(k) == e.variable && IsEnvVar(e.variable) && TrimSpace(v) == e.name && e.name != [];
      PartsParse(s, k, v, e);
    }
  }

  lemma EntryParts(s: bytes, e: EnvEntry)
    requires EntryOf(s) == Ok(e)
    ensures IsEntry(s, e)
  {
    hide TrimSpace, IsEnvVar;
    var i := IndexOf(s, EQUALS);
    assert s == s[..i] + [EQUALS] + s[i + 1..];
  }

  lemma PartsParse(s: bytes, k: bytes, v: bytes, e: EnvEntry)
    requires s == k + [EQUALS] + v && EQUALS !in k
    requires TrimSpace(k) == e.variable && IsEnvVar(e.variable) && TrimSpace(v) == e.name && e.name != []
    ensures EntryOf(s) == Ok(e)
  {
    hide TrimSpace;
    CutAtEquals(s, k, v);
  }

  lemma CutAtEquals(s: bytes, k: bytes, v: bytes)
    requires s == k + [EQUALS] + v && EQUALS !in k
    ensures IndexOf(s, EQUALS) == |k| && s[..|k|] == k && s[|k| + 1..] == v
  {
    assert s[|k|] == EQUALS;
    forall j | 0 <= j < |k| ensures s[j] != EQUALS {
      assert s[j] == k[j];
    }
  }

  // ----- The mapping -----

  /** A blank line or a comment. */
  predicate Ignored(line: bytes) {
    TrimSpace(line) == [] || TrimSpace(line)[0] == HASH
  }

  /** The lines that count, trimmed. */
  function Meant(lines: seq<bytes>): seq<bytes> {
    if lines == [] then []
    else
      var last := lines[|lines| - 1];
      var rest := Meant(lines[..|lines| - 1]);
      if Ignored(last) then rest else rest + [TrimSpace(last)]
  }

  /** Line by line: blank lines and those that start, after spaces, with '#' do
      not count. */
  lemma {:induction false} MeantJoin(a: seq<bytes>, b: seq<bytes>)
    ensures Meant(a + b) == Meant(a) + Meant(b)
    ensures forall line :: b == [line] ==>
              Meant(b) == if TrimSpace(line) == [] || TrimSpace(line)[0] == 0x23 then [] else [TrimSpace(line)]
    decreases b
  {
    if b == [] {
      assert a + b == a;
    } else {
      assert (a + b)[..|a + b| - 1] == a + b[..|b| - 1];
      MeantJoin(a, b[..|b| - 1]);
    }
  }

  predicate AllParse(texts: seq<bytes>) {
    forall i :: 0 <= i < |texts| ==> EntryOf(texts[i]).Ok?
  }

  /** The entries the texts stand for. */
  function EntriesOf(texts: seq<bytes>): (es: seq<EnvEntry>)
    requires AllParse(texts)
    ensures |es| == |texts|
    ensures forall i :: 0 <= i < |es| ==> IsEnvVar(es[i].variable) && es[i].name != []
  {
    seq(|texts|, i requires 0 <= i < |texts| => EntryOf(texts[i]).value)
  }

  /** The secret the last entry for this variable names. */
  function Bound(es: seq<EnvEntry>, k: bytes): Option<bytes> {
    if es == [] then None
    else
      var last := es[|es| - 1];
      if last.variable == k then Some(last.name) else Bound(es[..|es| - 1], k)
  }

  /** The i-th entry is the last one for this variable. */
  predicate LastFor(es: seq<EnvEntry>, k: bytes, i: int) {
    0 <= i < |es| && es[i].variable == k && forall j :: i < j < |es| ==> es[j].variable != k
  }

  /** Later entries replace earlier ones with the same variable. */
  lemma {:induction false} LastWins(es: seq<EnvEntry>, k: bytes, n: bytes)
    ensures Bound(es, k) == Some(n) <==> exists i :: LastFor(es, k, i) && es[i].name == n
    decreases es
  {
    if es != [] {
      var last := |es| - 1;
      if es[last].variable == k {
        assert LastFor(es, k, last);
      } else {
        LastWins(es[..last], k, n);
        assert forall i :: LastFor(es, k, i) <==> LastFor(es[..last], k, i);
      }
    }
  }

  /** -e wins over the file. */
  lemma {:induction false} FlagsWin(file: seq<EnvEntry>, flags: seq<EnvEntry>, k: bytes)
    ensures Bound(file + flags, k) == if Bound(flags, k).Some? then Bound(flags, k) else Bound(file, k)
    decreases flags
  {
    if flags == [] {
      assert file + flags == file;
    } else {
      assert (file + flags)[..|file + flags| - 1] == file + flags[..|flags| - 1];
      FlagsWin(file, flags[..|flags| - 1], k);
    }
  }

  /** m holds exactly the bindings of the entries. */
  ghost predicate Holds(m: map<bytes, bytes>, es: seq<EnvEntry>) {
    forall k :: if k in m then Bound(es, k) == Some(m[k]) else Bound(es, k) == None
  }

  lemma HoldsMore(m: map<bytes, bytes>, es: seq<EnvEntry>, e: EnvEntry)
    requires Holds(m, es)
    ensures Holds(m[e.variable := e.name], es + [e])
  {
    assert (es + [e])[..|es|] == es;
  }

  /** m holds exactly what the texts say. */
  ghost predicate HoldsTexts(m: map<bytes, bytes>, texts: seq<bytes>) {
    AllParse(texts) && Holds(m, EntriesOf(texts))
  }

  lemma HoldsText(m: map<bytes, bytes>, texts: seq<bytes>, text: bytes, e: EnvEntry)
    requires HoldsTexts(m, texts) && EntryOf(text) == Ok(e)
    ensures HoldsTexts(m[e.variable := e.name], texts + [text])
  {
    HoldsMore(m, EntriesOf(texts), e);
    assert EntriesOf(texts + [text]) == EntriesOf(texts) + [e];
  }

  /** r is the mapping the entries describe, by variable. */
  ghost predicate IsMapping(r: seq<EnvEntry>, es: seq<EnvEntry>) {
    && (forall i, j :: 0 <= i < j < |r| ==> Less(r[i].variable, r[j].variable))
    && (forall i :: 0 <= i < |r| ==> IsEnvVar(r[i].variable) && Bound(es, r[i].variable) == Some(r[i].name))
    && (forall k :: Bound(es, k).Some? ==> exists i :: 0 <= i < |r| && r[i].variable == k)
  }

  /** The error names the first entry that does not parse, the file's before
      the flags'. */
  ghost predicate IsFirstError(e: MappingError, lines: seq<bytes>, flags: seq<bytes>) {
    match e
    case InFile(n, x) =>
      && 1 <= n <= |lines| && !Ignored(lines[n - 1]) && EntryOf(TrimSpace(lines[n - 1])) == Err(x)
      && AllParse(Meant(lines[..n - 1]))
    case InFlag(i, x) =>
      i < |flags| && EntryOf(flags[i]) == Err(x) && AllParse(Meant(lines)) && AllParse(flags[..i])
  }

  /** parseEnvMapping: no file is a file without lines. */
  method ParseEnvMapping(lines: seq<bytes>, flags: seq<bytes>) returns (r: Result<seq<EnvEntry>, MappingError>)
    ensures r.Ok? ==> AllParse(Meant(lines) + flags) && IsMapping(r.value, EntriesOf(Meant(lines) + flags))
    ensures r.Err? ==> IsFirstError(r.error, lines, flags)
  {
    var byVar := ReadLines(lines);
    if byVar.Err? {
      return Err(byVar.error);
    }
    byVar := ApplyFlags(byVar.value, lines, flags);
    if byVar.Err? {
      return Err(byVar.error);
    }
    var entries := Entries(byVar.value, EntriesOf(Meant(lines) + flags));
    return Ok(entries);
  }

  /** The loop over the file's lines. */
  method ReadLines(lines: seq<bytes>) returns (r: Result<map<bytes, bytes>, MappingError>)
    ensures r.Ok? ==> HoldsTexts(r.value, Meant(lines))
    ensures r.Err? ==> r.error.InFile? && IsFirstError(r.error, lines, [])
  {
    var byVar: map<bytes, bytes> := map[];
    for n := 0 to |lines|
      invariant HoldsTexts(byVar, Meant(lines[..n]))
    {
      assert lines[..n + 1][..n] == lines[..n];
      var line := TrimSpace(lines[n]);
      if line == [] || line[0] == HASH {
        continue;
      }
      var e := ParseEnvEntry(line);
      if e.Err? {
        return Err(InFile(n + 1, e.error));
      }
      HoldsText(byVar, Meant(lines[..n]), line, e.value);
      byVar := byVar[e.value.variable := e.value.name];
    }
    assert lines[..|lines|] == lines;
    return Ok(byVar);
  }

  /** The loop over the -e values. */
  method ApplyFlags(m: map<bytes, bytes>, lines: seq<bytes>, flags: seq<bytes>)
    returns (r: Result<map<bytes, bytes>, MappingError>)
    requires HoldsTexts(m, Meant(lines))
    ensures r.Ok? ==> HoldsTexts(r.value, Meant(lines) + flags)
    ensures r.Err? ==> IsFirstError(r.error, lines, flags)
  {
    hide TrimSpace, IsEnvVar, Meant;
    var byVar := m;
    ghost var file := Meant(lines);
    assert file + flags[..0] == file;
    for i := 0 to |flags|
      invariant HoldsTexts(byVar, file + flags[..i])
    {
      var e := ParseEnvEntry(flags[i]);
      if e.Err? {
        AllParseParts(file, flags[..i]);
        return Err(InFlag(i, e.error));
      }
      assert file + flags[..i + 1] == file + flags[..i] + [flags[i]];
      HoldsText(byVar, file + flags[..i], flags[i], e.value);
      byVar := byVar[e.value.variable := e.value.name];
    }
    assert flags[..|flags|] == flags;
    return Ok(byVar);
  }

  lemma AllParseParts(a: seq<bytes>, b: seq<bytes>)
    requires AllParse(a + b)
    ensures AllParse(a) && AllParse(b)
  {
    assert forall i :: 0 <= i < |a| ==> (a + b)[i] == a[i];
    assert forall i :: 0 <= i < |b| ==> (a + b)[|a| + i] == b[i];
  }

  /** The loop that lists the map's entries, sorted by variable. */
  method Entries(byVar: map<bytes, bytes>, ghost es: seq<EnvEntry>) returns (entries: seq<EnvEntry>)
    requires Holds(byVar, es) && forall i :: 0 <= i < |es| ==> IsEnvVar(es[i].variable)
    ensures IsMapping(entries, es)
  {
    var vars := SortedKeys(byVar);
    entries := [];
    for i := 0 to |vars|
      invariant |entries| == i
      invariant forall j :: 0 <= j < i ==> vars[j] in byVar && entries[j] == EnvEntry(vars[j], byVar[vars[j]])
    {
      assert vars[i] in vars;
      entries := entries + [EnvEntry(vars[i], byVar[vars[i]])];
    }
    SortedEntries(entries, vars, byVar, es);
  }

  lemma SortedEntries(r: seq<EnvEntry>, vars: seq<bytes>, m: map<bytes, bytes>, es: seq<EnvEntry>)
    requires ListsSorted(vars, m.Keys) && Holds(m, es) && |r| == |vars|
    requires forall i :: 0 <= i < |es| ==> IsEnvVar(es[i].variable)
    requires forall i :: 0 <= i < |r| ==> vars[i] in m && r[i] == EnvEntry(vars[i], m[vars[i]])
    ensures IsMapping(r, es)
  {
    forall i | 0 <= i < |r| ensures IsEnvVar(r[i].variable) {
      LastWins(es, r[i].variable, r[i].name);
      var j :| LastFor(es, r[i].variable, j) && es[j].name == r[i].name;
      assert IsEnvVar(es[j].variable);
    }
    forall k | Bound(es, k).Some? ensures exists i :: 0 <= i < |r| && r[i].variable == k {
      assert k in vars;
      var i :| 0 <= i < |vars| && vars[i] == k;
      assert r[i].variable == k;
    }
  }

  // ----- Resolving -----

  datatype ResolveError = Stopped | Missing(problems: seq<(bytes, Error)>)

  /** What a get answers when the daemon may refuse names for reasons of its
      own; Locked stands for a daemon that cannot be used at all. */
  function Fetched(net: Wire, v: Vault, name: bytes, refused: map<bytes, Error>): Result<Secret, Error> {
    if name in refused then Err(refused[name]) else Getting(net, v, name)
  }

  /** The entries that cannot be resolved, in order, and why. */
  function Problems(net: Wire, v: Vault, mapping: seq<EnvEntry>, refused: map<bytes, Error>): seq<(bytes, Error)> {
    if mapping == [] then []
    else
      var last := mapping[|mapping| - 1];
      var f := Fetched(net, v, last.name, refused);
      var rest := Problems(net, v, mapping[..|mapping| - 1], refused);
      if f.Err? then rest + [(last.name, f.error)] else rest
  }

  /** VAR=value. */
  function Pair(k: bytes, value: bytes): bytes {
    k + [EQUALS] + value
  }

  /** Problems are reported entry by entry, in order. */
  lemma {:induction false} ProblemsJoin(net: Wire, v: Vault, a: seq<EnvEntry>, b: seq<EnvEntry>, refused: map<bytes, Error>)
    ensures Problems(net, v, a + b, refused) == Problems(net, v, a, refused) + Problems(net, v, b, refused)
    ensures forall e :: b == [e] ==>
              Problems(net, v, b, refused) ==
              match Fetched(net, v, e.name, refused)
              case Ok(_) => []
              case Err(x) => [(e.name, x)]
    decreases b
  {
    if b == [] {
      assert a + b == a;
    } else {
      assert (a + b)[..|a + b| - 1] == a + b[..|b| - 1];
      ProblemsJoin(net, v, a, b[..|b| - 1], refused);
    }
  }

  /** env sets every mapped variable to its secret, in mapping order. */
  ghost predicate Resolves(env: seq<bytes>, net: Wire, v: Vault, mapping: seq<EnvEntry>, refused: map<bytes, Error>) {
    && |env| == |mapping|
    && forall i :: 0 <= i < |env| ==>
         var f := Fetched(net, v, mapping[i].name, refused);
         f.Ok? && env[i] == Pair(mapping[i].variable, f.value.value)
  }

  lemma ProblemsStep(net: Wire, v: Vault, mapping: seq<EnvEntry>, refused: map<bytes, Error>, i: nat)
    requires i < |mapping|
    ensures var f := Fetched(net, v, mapping[i].name, refused);
            Problems(net, v, mapping[..i + 1], refused) ==
            Problems(net, v, mapping[..i], refused) + if f.Err? then [(mapping[i].name, f.error)] else []
  {
    assert mapping[..i + 1][..i] == mapping[..i];
  }

  lemma ResolvesStep(env: seq<bytes>, net: Wire, v: Vault, mapping: seq<EnvEntry>, refused: map<bytes, Error>, i: nat)
    requires i < |mapping| && Resolves(env, net, v, mapping[..i], refused) && Fetched(net, v, mapping[i].name, refused).Ok?
    ensures var f := Fetched(net, v, mapping[i].name, refused);
            Resolves(env + [Pair(mapping[i].variable, f.value.value)], net, v, mapping[..i + 1], refused)
  {
    assert mapping[..i + 1] == mapping[..i] + [mapping[i]];
  }

  /** The daemon cannot be used for one of these entries. */
  ghost predicate HitsLock(net: Wire, v: Vault, mapping: seq<EnvEntry>, refused: map<bytes, Error>) {
    exists i :: 0 <= i < |mapping| && Fetched(net, v, mapping[i].name, refused) == Err(Locked)
  }

  lemma HitsLockStep(net: Wire, v: Vault, mapping: seq<EnvEntry>, refused: map<bytes, Error>, i: nat)
    requires i < |mapping|
    ensures HitsLock(net, v, mapping[..i + 1], refused) <==>
            HitsLock(net, v, mapping[..i], refused) || Fetched(net, v, mapping[i].name, refused) == Err(Locked)
    ensures HitsLock(net, v, mapping[..i + 1], refused) ==> HitsLock(net, v, mapping, refused)
  {
    var upto := mapping[..i + 1];
    assert upto == mapping[..i] + [mapping[i]];
    if HitsLock(net, v, mapping[..i], refused) {
      var j :| 0 <= j < i && Fetched(net, v, mapping[..i][j].name, refused) == Err(Locked);
      assert upto[j] == mapping[j] && Fetched(net, v, upto[j].name, refused) == Err(Locked);
    }
    if Fetched(net, v, mapping[i].name, refused) == Err(Locked) {
      assert Fetched(net, v, upto[i].name, refused) == Err(Locked);
    }
    if HitsLock(net, v, upto, refused) {
      var j :| 0 <= j <= i && Fetched(net, v, upto[j].name, refused) == Err(Locked);
      assert j < i ==> mapping[..i][j] == upto[j];
      assert upto[j] == mapping[j];
    }
  }

  method Fetch(c: Client, name: bytes, refused: map<bytes, Error>) returns (r: Result<Secret, Error>)
    ensures r == Fetched(c.wire, c.vault, name, refused)
  {
    if name in refused {
      return Err(refused[name]);
    }
    r := c.Get(name);
  }

  /** resolveEnv: all the secrets or none. Every missing name is reported, but
      a locked daemon stops at the first call it refuses. */
  method ResolveEnv(c: Client, mapping: seq<EnvEntry>, refused: map<bytes, Error>)
    returns (r: Result<seq<bytes>, ResolveError>)
    ensures r.Ok? ==> Resolves(r.value, c.wire, c.vault, mapping, refused)
    ensures r == Err(Stopped) <==> HitsLock(c.wire, c.vault, mapping, refused)
    ensures r.Err? && r.error.Missing? ==>
              r.error.problems == Problems(c.wire, c.vault, mapping, refused) && r.error.problems != []
  {
    var env: seq<bytes> := [];
    var msgs: seq<(bytes, Error)> := [];
    for i := 0 to |mapping|
      invariant !HitsLock(c.wire, c.vault, mapping[..i], refused)
      invariant msgs == Problems(c.wire, c.vault, mapping[..i], refused)
      invariant msgs == [] ==> Resolves(env, c.wire, c.vault, mapping[..i], refused)
    {
      var e := mapping[i];
      ProblemsStep(c.wire, c.vault, mapping, refused, i);
      HitsLockStep(c.wire, c.vault, mapping, refused, i);
      var s := Fetch(c, e.name, refused);
      if s == Err(Locked) {
        return Err(Stopped);
      }
      if s.Err? {
        msgs := msgs + [(e.name, s.error)];
      } else {
        if msgs == [] {
          ResolvesStep(env, c.wire, c.vault, mapping, refused, i);
        }
        env := env + [Pair(e.variable, s.value.value)];
      }
    }
    assert mapping[..|mapping|] == mapping;
    if msgs != [] {
      return Err(Missing(msgs));
    }
    return Ok(env);
  }

  // ----- Merging -----

  /** The variable an environment string sets. */
  function VarOf(kv: bytes): bytes {
    kv[..IndexOf(kv, EQUALS)]
  }

  function Variables(mapping: seq<EnvEntry>): set<bytes> {
    set e | e in mapping :: e.variable
  }

  /** env without what sets one of these variables, in order. */
  function Without(env: seq<bytes>, drop: set<bytes>): seq<bytes> {
    if env == [] then []
    else
      var last := env[|env| - 1];
      var rest := Without(env[..|env| - 1], drop);
      if VarOf(last) in drop then rest else rest + [last]
  }

  /** The strings of env that set this variable, in order. */
  function Setting(env: seq<bytes>, k: bytes): seq<bytes> {
    if env == [] then []
    else
      var last := env[|env| - 1];
      var rest := Setting(env[..|env| - 1], k);
      if VarOf(last) == k then rest + [last] else rest
  }

  /** String by string, in order. */
  lemma {:induction false} WithoutJoin(a: seq<bytes>, b: seq<bytes>, drop: set<bytes>)
    ensures Without(a + b, drop) == Without(a, drop) + Without(b, drop)
    ensures forall kv :: b == [kv] ==> Without(b, drop) == if VarOf(kv) in drop then [] else [kv]
    decreases b
  {
    if b == [] {
      assert a + b == a;
    } else {
      assert (a + b)[..|a + b| - 1] == a + b[..|b| - 1];
      WithoutJoin(a, b[..|b| - 1], drop);
    }
  }

  method MergeEnv(base: seq<bytes>, mapping: seq<EnvEntry>, secrets: seq<bytes>) returns (env: seq<bytes>)
    ensures env == Without(base, Variables(mapping)) + secrets
  {
    var drop: set<bytes> := {};
    for i := 0 to |mapping|
      invariant drop == Variables(mapping[..i])
    {
      drop := drop + {mapping[i].variable};
      assert mapping[..i + 1] == mapping[..i] + [mapping[i]];
    }
    assert mapping[..|mapping|] == mapping;
    env := [];
    for i := 0 to |base|
      invariant env == Without(base[..i], drop)
    {
      assert base[..i + 1][..i] == base[..i];
      if VarOf(base[i]) !in drop {
        env := env + [base[i]];
      }
    }
    assert base[..|base|] == base;
    var kept := env;
    for i := 0 to |secrets|
      invariant env == kept + secrets[..i]
    {
      env := env + [secrets[i]];
    }
    assert secrets[..|secrets|] == secrets;
  }

  // ----- What the program sees -----

  lemma {:induction false} SettingAppend(a: seq<bytes>, b: seq<bytes>, k: bytes)
    ensures Setting(a + b, k) == Setting(a, k) + Setting(b, k)
    decreases b
  {
    if b == [] {
      assert a + b == a;
    } else {
      assert (a + b)[..|a + b| - 1] == a + b[..|b| - 1];
      SettingAppend(a, b[..|b| - 1], k);
    }
  }

  lemma {:induction false} SettingWithout(env: seq<bytes>, drop: set<bytes>, k: bytes)
    ensures Setting(Without(env, drop), k) == if k in drop then [] else Setting(env, k)
    decreases env
  {
    if env != [] {
      var rest, last := env[..|env| - 1], env[|env| - 1];
      SettingWithout(rest, drop, k);
      SettingAppend(Without(rest, drop), [last], k);
      assert Setting([last], k) == if VarOf(last) == k then [last] else [];
    }
  }

  /** No variable name holds '=', so the string set for it is cut back at the
      right place. */
  lemma PairVar(k: bytes, value: bytes)
    requires IsEnvVar(k)
    ensures VarOf(Pair(k, value)) == k
  {
    var kv := Pair(k, value);
    var i := IndexOf(kv, EQUALS);
    assert kv[|k|] == EQUALS;
    forall j | 0 <= j < |k| ensures kv[j] != EQUALS {
      assert kv[j] == k[j];
    }
  }

  /** The variable of any environment string is what comes before its first
      '=', or all of it. */
  lemma VarOfMeans(kv: bytes, k: bytes)
    ensures VarOf(kv) == k <==> EQUALS !in k && (kv == k || k + [EQUALS] <= kv)
  {
    var i := IndexOf(kv, EQUALS);
    assert EQUALS !in kv[..i];
    if EQUALS !in k && k + [EQUALS] <= kv {
      CutAtEquals(kv, k, kv[|k| + 1..]);
    }
    if i < |kv| {
      assert kv[..i] + [EQUALS] == kv[..i + 1];
    }
  }

  /** Among the resolved strings exactly one sets a mapped variable. */
  lemma {:induction false} SettingResolved(env: seq<bytes>, vars: seq<bytes>, k: bytes)
    requires |env| == |vars| && StrictlySorted(vars)
    requires forall i :: 0 <= i < |env| ==> VarOf(env[i]) == vars[i]
    ensures k !in vars ==> Setting(env, k) == []
    ensures forall i :: 0 <= i < |vars| && vars[i] == k ==> Setting(env, k) == [env[i]]
    decreases env
  {
    if env != [] {
      var n := |env| - 1;
      SettingResolved(env[..n], vars[..n], k);
      assert vars == vars[..n] + [vars[n]];
      if vars[n] == k {
        forall i | 0 <= i < n ensures vars[i] != k {
          LessTotal(vars[i], vars[n]);
        }
        assert k !in vars[..n];
      }
    }
  }

  /** What the program sees of one variable. */
  ghost predicate Sees(env: seq<bytes>, base: seq<bytes>, net: Wire, v: Vault, es: seq<EnvEntry>, refused: map<bytes, Error>, k: bytes) {
    match Bound(es, k)
    case Some(n) => Fetched(net, v, n, refused).Ok? && Setting(env, k) == [Pair(k, Fetched(net, v, n, refused).value.value)]
    case None => Setting(env, k) == Setting(base, k)
  }

  /** Merging: a mapped variable is set exactly once, to its secret; every
      other variable is set by exactly the strings it was set by before; and
      those keep their order. */
  lemma MergedEnv(base: seq<bytes>, net: Wire, v: Vault, mapping: seq<EnvEntry>, secrets: seq<bytes>, refused: map<bytes, Error>,
                  es: seq<EnvEntry>, k: bytes)
    requires IsMapping(mapping, es) && Resolves(secrets, net, v, mapping, refused)
    ensures var env := Without(base, Variables(mapping)) + secrets;
            && Sees(env, base, net, v, es, refused, k)
            && Without(env, Variables(mapping)) == Without(base, Variables(mapping))
  {
    hide TrimSpace, Getting, IsEnvVar, Setting, Without;
    var drop := Variables(mapping);
    SettingAppend(Without(base, drop), secrets, k);
    SettingWithout(base, drop, k);
    ResolvedSetting(net, v, mapping, secrets, refused, es, k);
    WithoutMerged(base, drop, secrets);
  }

  /** The resolved strings set each mapped variable once, and nothing else. */
  lemma ResolvedSetting(net: Wire, v: Vault, mapping: seq<EnvEntry>, secrets: seq<bytes>, refused: map<bytes, Error>,
                        es: seq<EnvEntry>, k: bytes)
    requires IsMapping(mapping, es) && Resolves(secrets, net, v, mapping, refused)
    ensures match Bound(es, k)
            case Some(n) =>
              && k in Variables(mapping) && Fetched(net, v, n, refused).Ok?
              && Setting(secrets, k) == [Pair(k, Fetched(net, v, n, refused).value.value)]
            case None => k !in Variables(mapping) && Setting(secrets, k) == []
    ensures forall i :: 0 <= i < |secrets| ==> VarOf(secrets[i]) in Variables(mapping)
  {
    hide TrimSpace, Getting, IsEnvVar, Setting, VarOf, Pair;
    var vars := seq(|mapping|, i requires 0 <= i < |mapping| => mapping[i].variable);
    forall i | 0 <= i < |secrets| ensures VarOf(secrets[i]) == vars[i] && vars[i] in Variables(mapping) {
      PairVar(vars[i], Fetched(net, v, mapping[i].name, refused).value.value);
      assert mapping[i] in mapping;
    }
    SettingResolved(secrets, vars, k);
    if Bound(es, k).Some? {
      var i :| 0 <= i < |mapping| && mapping[i].variable == k;
      assert mapping[i] in mapping && vars[i] == k;
    } else {
      assert k !in vars;
    }
  }

  lemma {:induction false} WithoutMerged(base: seq<bytes>, drop: set<bytes>, secrets: seq<bytes>)
    requires forall i :: 0 <= i < |secrets| ==> VarOf(secrets[i]) in drop
    ensures Without(Without(base, drop) + secrets, drop) == Without(base, drop)
    decreases secrets
  {
    var kept := Without(base, drop);
    if secrets == [] {
      assert kept + secrets == kept;
      WithoutTwice(base, drop);
    } else {
      assert (kept + secrets)[..|kept + secrets| - 1] == kept + secrets[..|secrets| - 1];
      WithoutMerged(base, drop, secrets[..|secrets| - 1]);
    }
  }

  lemma {:induction false} WithoutTwice(env: seq<bytes>, drop: set<bytes>)
    ensures Without(Without(env, drop), drop) == Without(env, drop)
    decreases env
  {
    if env != [] {
      var rest, last := env[..|env| - 1], env[|env| - 1];
      WithoutTwice(rest, drop);
      if VarOf(last) !in drop {
        assert (Without(rest, drop) + [last])[..|Without(rest, drop)|] == Without(rest, drop);
      }
    }
  }

  lemma {:induction false} MeantPrefix(lines: seq<bytes>, n: nat)
    requires n <= |lines|
    ensures Meant(lines[..n]) <= Meant(lines)
    decreases |lines|
  {
    if n == |lines| {
      assert lines[..n] == lines;
    } else {
      var rest := lines[..|lines| - 1];
      MeantPrefix(rest, n);
      assert rest[..n] == lines[..n];
    }
  }

  lemma MeantLast(lines: seq<bytes>)
    requires lines != [] && !Ignored(lines[|lines| - 1])
    ensures TrimSpace(lines[|lines| - 1]) in Meant(lines)
  {
  }

  lemma MeantAt(lines: seq<bytes>, n: nat, text: bytes)
    requires n < |lines| && !Ignored(lines[n]) && text == TrimSpace(lines[n])
    ensures text in Meant(lines)
  {
    hide Meant, TrimSpace, Ignored;
    assert lines[..n + 1][n] == lines[n];
    MeantLast(lines[..n + 1]);
    MeantPrefix(lines, n + 1);
    PrefixKeeps(Meant(lines[..n + 1]), Meant(lines), text);
  }

  lemma PrefixKeeps(a: seq<bytes>, b: seq<bytes>, x: bytes)
    requires a <= b && x in a
    ensures x in b
  {
  }

  lemma NotAll(a: seq<bytes>, b: seq<bytes>, bad: bytes)
    requires (bad in a || bad in b) && EntryOf(bad).Err?
    ensures !AllParse(a + b)
  {
    assert bad in a + b;
  }

  /** A reported error is one: not everything parses. */
  lemma ErrorIsReal(e: MappingError, lines: seq<bytes>, flags: seq<bytes>)
    requires IsFirstError(e, lines, flags)
    ensures !AllParse(Meant(lines) + flags)
  {
    if e.InFile? {
      MeantAt(lines, e.line - 1, TrimSpace(lines[e.line - 1]));
      NotAll(Meant(lines), flags, TrimSpace(lines[e.line - 1]));
    } else {
      NotAll(Meant(lines), flags, flags[e.index]);
    }
  }

  /** Every bound secret can be fetched. */
  ghost predicate AllFetched(net: Wire, v: Vault, es: seq<EnvEntry>, refused: map<bytes, Error>) {
    forall k :: Bound(es, k).Some? ==> Fetched(net, v, Bound(es, k).value, refused).Ok?
  }

  /** When resolving fails, some secret could not be fetched, or a locked
      daemon refused one. */
  lemma FailureIsReal(net: Wire, v: Vault, mapping: seq<EnvEntry>, es: seq<EnvEntry>, refused: map<bytes, Error>)
    requires IsMapping(mapping, es)
    requires HitsLock(net, v, mapping, refused) || Problems(net, v, mapping, refused) != []
    ensures !AllFetched(net, v, es, refused)
  {
    var i := if HitsLock(net, v, mapping, refused) then LockAt(net, v, mapping, refused) else ProblemAt(net, v, mapping, refused);
    assert Bound(es, mapping[i].variable) == Some(mapping[i].name);
  }

  ghost function LockAt(net: Wire, v: Vault, mapping: seq<EnvEntry>, refused: map<bytes, Error>): (i: nat)
    requires HitsLock(net, v, mapping, refused)
    ensures i < |mapping| && Fetched(net, v, mapping[i].name, refused).Err?
  {
    var i :| 0 <= i < |mapping| && Fetched(net, v, mapping[i].name, refused) == Err(Locked);
    i
  }

  ghost function ProblemAt(net: Wire, v: Vault, mapping: seq<EnvEntry>, refused: map<bytes, Error>): (i: nat)
    requires Problems(net, v, mapping, refused) != []
    ensures i < |mapping| && Fetched(net, v, mapping[i].name, refused).Err?
    decreases mapping
  {
    var n := |mapping| - 1;
    if Fetched(net, v, mapping[n].name, refused).Err? then n else ProblemAt(net, v, mapping[..n], refused)
  }

  /** From the mapping file, the flags and the inherited environment to the
      environment the program is started with: it is built exactly when every
      line and flag parses and every bound secret can be fetched, and then each
      bound variable is set once, to its secret, and the others are as
      inherited. */
  method Environment(c: Client, lines: seq<bytes>, flags: seq<bytes>, base: seq<bytes>, refused: map<bytes, Error>)
    returns (env: Option<seq<bytes>>)
    ensures env.Some? <==> AllParse(Meant(lines) + flags) && AllFetched(c.wire, c.vault, EntriesOf(Meant(lines) + flags), refused)
    ensures env.Some? ==> forall k :: Sees(env.value, base, c.wire, c.vault, EntriesOf(Meant(lines) + flags), refused, k)
  {
    var mapping := ParseEnvMapping(lines, flags);
    if mapping.Err? {
      ErrorIsReal(mapping.error, lines, flags);
      return None;
    }
    ghost var es := EntriesOf(Meant(lines) + flags);
    var secrets := ResolveEnv(c, mapping.value, refused);
    if secrets.Err? {
      FailureIsReal(c.wire, c.vault, mapping.value, es, refused);
      return None;
    }
    var merged := MergeEnv(base, mapping.value, secrets.value);
    forall k ensures Sees(merged, base, c.wire, c.vault, es, refused, k) {
      MergedEnv(base, c.wire, c.vault, mapping.value, secrets.value, refused, es, k);
    }
    return Some(merged);
  }
}

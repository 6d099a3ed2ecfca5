/** Export and import of the whole vault, one secret at a time through the
    daemon. */
module Transfer {
  import opened Bytes
  import opened Utf8
  import opened Vaults
  import opened Stores
  import opened Clients
  import Framing

  /** A record of a vault document; its value may be JSON's null. */
  datatype Entry = Entry(kind: bytes, value: Option<bytes>, attributes: map<bytes, bytes>, created: int, updated: int)

  type Document = map<bytes, Entry>

  /** The secret an import stopped at, or that the existing names could not be
      listed, and why. */
  datatype Stop = Stop(name: bytes, error: Error) | Unlisted(error: Error)

  const EVERYTHING := Filter([], [], map[])

  /** A document comes out of a JSON decoder, so its strings are text. */
  predicate TextDocument(doc: Document) {
    forall n :: n in doc ==> Valid(n) && forall k :: k in doc[n].attributes ==> Valid(doc[n].attributes[k])
  }

  function Exported(v: Vault): Document {
    map n | n in v :: Entry(v[n].kind, Some(v[n].value), v[n].attributes, v[n].created, v[n].updated)
  }

  /** The export of the named secrets alone. */
  function ExportedOf(v: Vault, names: seq<bytes>): Document {
    map n | n in v && n in names :: Exported(v)[n]
  }

  /** The lines that ask for the whole listing and carry it are not too long. */
  ghost predicate ListingFits(net: Wire, v: Vault) {
    Sends(net, ListCall(EVERYTHING)) && Receives(net, ListReply(ListingOf(Matching(EVERYTHING, v))))
  }

  /** Nor are those that fetch the secrets. */
  ghost predicate ExportFits(net: Wire, v: Vault) {
    ListingFits(net, v) && forall n :: n in v ==> FetchFits(net, v, n)
  }

  /** doc holds every secret of v with everything there is of it. */
  predicate IsDocument(doc: Document, v: Vault) {
    && doc.Keys == v.Keys
    && forall n :: n in v ==>
         && doc[n].kind == v[n].kind && doc[n].value == Some(v[n].value) && doc[n].attributes == v[n].attributes
         && doc[n].created == v[n].created && doc[n].updated == v[n].updated
  }

  /** export. */
  method Export(c: Client) returns (r: Result<Document, Error>)
    ensures AllValid(c.vault) ==> r == if ExportFits(c.wire, c.vault) then Ok(Exported(c.vault)) else Err(Protocol)
    ensures AllValid(c.vault) && r.Ok? ==> IsDocument(r.value, c.vault)
  {
    hide AllValid, Getting, Matches, IsDocument, Exported, Exporting, ExportFits, ListingFits;
    ExportedIs(c.vault);
    ListsEverything(c.wire, c.vault);
    var secs := c.List(EVERYTHING);
    if secs.Err? {
      Unlistable(c.wire, c.vault);
      return Err(secs.error);
    }
    ListingNames(secs.value, Matching(EVERYTHING, c.vault));
    ghost var names := Names(secs.value);
    var doc: Document := map[];
    NothingExported(c.wire, c.vault, names);
    for i := 0 to |secs.value|
      invariant Exporting(c.wire, c.vault, doc, names, i)
    {
      var name := secs.value[i].name;
      assert names[i] == name && name in names;
      ExportStep(c.wire, c.vault, doc, names, i);
      var full := c.Get(name);
      if full.Err? {
        return Err(full.error);
      }
      var s := full.value;
      doc := doc[name := Entry(s.kind, Some(s.value), s.attributes, s.created, s.updated)];
    }
    AllExported(c.wire, c.vault, doc, names);
    return Ok(doc);
  }

  /** doc holds the first i named secrets, and they could all be fetched. */
  ghost predicate Exporting(net: Wire, v: Vault, doc: Document, names: seq<bytes>, i: nat)
    requires i <= |names|
  {
    AllValid(v) ==> doc == ExportedOf(v, names[..i]) && forall j :: 0 <= j < i ==> FetchFits(net, v, names[j])
  }

  lemma Unlistable(net: Wire, v: Vault)
    requires !ListingFits(net, v)
    ensures !ExportFits(net, v)
  {
  }

  lemma NothingExported(net: Wire, v: Vault, names: seq<bytes>)
    ensures Exporting(net, v, map[], names, 0)
  {
  }

  lemma ExportStep(net: Wire, v: Vault, doc: Document, names: seq<bytes>, i: nat)
    requires i < |names| && names[i] in v && Exporting(net, v, doc, names, i)
    ensures match Getting(net, v, names[i])
            case Ok(s) =>
              Exporting(net, v, doc[names[i] := Entry(s.kind, Some(s.value), s.attributes, s.created, s.updated)], names, i + 1)
            case Err(e) => AllValid(v) ==> e == Protocol && !ExportFits(net, v)
  {
    hide AllValid, Getting, FetchFits, ListingFits;
    if AllValid(v) {
      FetchOne(net, v, names[i]);
      assert names[..i + 1] == names[..i] + [names[i]];
    }
  }

  lemma AllExported(net: Wire, v: Vault, doc: Document, names: seq<bytes>)
    requires Exporting(net, v, doc, names, |names|) && ListsSorted(names, v.Keys) && ListingFits(net, v)
    ensures AllValid(v) ==> doc == Exported(v) && ExportFits(net, v)
  {
    hide AllValid, FetchFits, ListingFits;
    assert names[..|names|] == names;
  }

  lemma ExportedIs(v: Vault)
    ensures IsDocument(Exported(v), v)
  {
  }

  lemma ListsEverything(net: Wire, v: Vault)
    ensures Finding(net, v, EVERYTHING) == if ListingFits(net, v) then Ok(Matching(EVERYTHING, v)) else Err(Protocol)
    ensures Matching(EVERYTHING, v).Keys == v.Keys
  {
    assert WireFilter(EVERYTHING) == EVERYTHING;
    assert forall n :: n in v ==> Matches(EVERYTHING, n, v[n]);
  }

  /** Why a record is not stored: it has no value, the daemon refuses it for
      reasons of its own, such as a lock in between, its line is too long, or
      it is not valid. */
  function Refusal(net: Wire, n: bytes, e: Entry, refused: map<bytes, Error>): Option<Error> {
    if e.value == None then Some(Invalid)
    else if n in refused then Some(refused[n])
    else if !Sends(net, StoreCall(n, e.kind, e.attributes, e.value.value)) then Some(Protocol)
    else if !ValidSecret(n, e.kind, e.attributes, e.value.value) then Some(Invalid)
    else None
  }

  /** Storing one record of the document. */
  function StoringOne(net: Wire, v: Vault, n: bytes, e: Entry, refused: map<bytes, Error>, now: int): Result<Vault, Error> {
    if e.value == None then Err(Invalid)
    else if n in refused then Err(refused[n])
    else Putting(net, v, n, e.kind, e.attributes, e.value.value, now)
  }

  /** Storing the named records one by one until one is refused. */
  function Importing(net: Wire, v: Vault, doc: Document, names: seq<bytes>, skip: set<bytes>,
                     refused: map<bytes, Error>, clock: bytes -> int): (Vault, Option<Stop>)
    requires forall n :: n in names ==> n in doc
    decreases names
  {
    if names == [] then (v, None)
    else
      var n := names[0];
      if n in skip then Importing(net, v, doc, names[1..], skip, refused, clock)
      else
        match StoringOne(net, v, n, doc[n], refused, clock(n))
        case Err(e) => (v, Some(Stop(n, e)))
        case Ok(w) => Importing(net, w, doc, names[1..], skip, refused, clock)
  }

  /** The names an import leaves alone. */
  function Skipped(v: Vault, noOverwrite: bool): set<bytes> {
    if noOverwrite then v.Keys else {}
  }

  method Import(c: Client, doc: Document, noOverwrite: bool, refused: map<bytes, Error>, clock: bytes -> int)
    returns (r: Option<Stop>)
    modifies c`vault
    ensures noOverwrite && !ListingFits(c.wire, old(c.vault)) ==>
              r == Some(Unlisted(Protocol)) && c.vault == old(c.vault)
    ensures !noOverwrite || ListingFits(c.wire, old(c.vault)) ==>
              (c.vault, r) ==
              Importing(c.wire, old(c.vault), doc, SortedNames(doc.Keys), Skipped(old(c.vault), noOverwrite), refused, clock)
  {
    var skip: set<bytes> := {};
    if noOverwrite {
      var existing := ExistingNames(c);
      if existing.Err? {
        return Some(Unlisted(existing.error));
      }
      skip := existing.value;
    }
    var names := SortedKeys(doc);
    SortedListingUnique(names, SortedNames(doc.Keys), doc.Keys);
    for i := 0 to |names|
      invariant Importing(c.wire, old(c.vault), doc, names, skip, refused, clock) ==
                Importing(c.wire, c.vault, doc, names[i..], skip, refused, clock)
    {
      var n := names[i];
      assert names[i..][1..] == names[i + 1..];
      if n !in skip {
        var e := doc[n];
        if e.value == None {
          return Some(Stop(n, Invalid));
        }
        if n in refused {
          return Some(Stop(n, refused[n]));
        }
        var err := c.Store(n, e.kind, e.attributes, e.value.value, clock(n));
        if err.Some? {
          return Some(Stop(n, err.value));
        }
      }
    }
    assert names[|names|..] == [];
    return None;
  }

  /** The list request and the loop that fills the skip set. */
  method ExistingNames(c: Client) returns (r: Result<set<bytes>, Error>)
    ensures r == if ListingFits(c.wire, c.vault) then Ok(c.vault.Keys) else Err(Protocol)
  {
    ListsEverything(c.wire, c.vault);
    var existing := c.List(EVERYTHING);
    if existing.Err? {
      return Err(existing.error);
    }
    var names := NamesOf(existing.value);
    ListingNames(existing.value, Matching(EVERYTHING, c.vault));
    assert names == c.vault.Keys;
    return Ok(names);
  }

  method NamesOf(secs: seq<Info>) returns (names: set<bytes>)
    ensures forall n :: n in names <==> n in Names(secs)
  {
    names := {};
    for i := 0 to |secs|
      invariant forall n :: n in names <==> n in Names(secs[..i])
    {
      names := names + {secs[i].name};
      assert Names(secs[..i + 1]) == Names(secs[..i]) + [secs[i].name];
    }
    assert secs[..|secs|] == secs;
  }

  // ----- What an import does -----

  /** w is v overridden by the document on the names `done`. */
  ghost predicate Overridden(v: Vault, w: Vault, doc: Document, done: set<bytes>, clock: bytes -> int) {
    && w.Keys == v.Keys + done
    && (forall n :: n in v && n !in done ==> w[n] == v[n])
    && (forall n :: n in done ==> n in doc && doc[n].value.Some? && w[n] == Taken(v, n, doc[n], clock(n)))
  }

  function Taken(v: Vault, n: bytes, e: Entry, now: int): Secret
    requires e.value.Some?
  {
    Secret(e.kind, e.value.value, e.attributes, if n in v then v[n].created else now, now)
  }

  function NameSet(names: seq<bytes>): set<bytes> {
    set n | n in names
  }

  /** The names stored before the stop, if there was one. */
  function Done(names: set<bytes>, skip: set<bytes>, stop: Option<Stop>): set<bytes> {
    set n | n in names && n !in skip && (stop.Some? ==> stop.value.Stop? && Less(n, stop.value.name))
  }

  /** The import stops at the first name, in order, that is not skipped and is
      refused, if there is any. */
  ghost predicate StopsRightly(net: Wire, names: set<bytes>, doc: Document, skip: set<bytes>,
                               refused: map<bytes, Error>, stop: Option<Stop>)
    requires forall n :: n in names ==> n in doc
  {
    && (stop.Some? ==> stop.value.Stop? && stop.value.name in names && stop.value.name !in skip
                       && Refusal(net, stop.value.name, doc[stop.value.name], refused) == Some(stop.value.error))
    && (forall n :: n in Done(names, skip, stop) ==> Refusal(net, n, doc[n], refused) == None)
  }

  lemma StoringOneIs(net: Wire, v: Vault, doc: Document, n: bytes, refused: map<bytes, Error>, now: int)
    requires TextDocument(doc) && n in doc
    ensures match Refusal(net, n, doc[n], refused)
            case Some(e) => StoringOne(net, v, n, doc[n], refused, now) == Err(e)
            case None => StoringOne(net, v, n, doc[n], refused, now) == Ok(v[n := Taken(v, n, doc[n], now)])
  {
    SanitizeFixesText(n);
    WireKeepsText(doc[n].attributes);
  }

  /** What an import of these names, in order, has to do. */
  ghost predicate Goes(net: Wire, v: Vault, doc: Document, names: seq<bytes>, skip: set<bytes>,
                       refused: map<bytes, Error>, clock: bytes -> int)
    requires forall n :: n in names ==> n in doc
  {
    var (w, stop) := Importing(net, v, doc, names, skip, refused, clock);
    && StopsRightly(net, NameSet(names), doc, skip, refused, stop)
    && Overridden(v, w, doc, Done(NameSet(names), skip, stop), clock)
  }

  lemma {:induction false} ImportSteps(net: Wire, v: Vault, doc: Document, names: seq<bytes>, skip: set<bytes>,
                                       refused: map<bytes, Error>, clock: bytes -> int)
    requires TextDocument(doc) && StrictlySorted(names) && forall n :: n in names ==> n in doc
    ensures Goes(net, v, doc, names, skip, refused, clock)
    decreases names
  {
    hide Goes, Importing, Refusal, TextDocument;
    if names == [] {
      NothingGoes(net, v, doc, skip, refused, clock);
    } else {
      var n, rest := names[0], names[1..];
      FirstIsLeast(names);
      if n in skip {
        ImportSteps(net, v, doc, rest, skip, refused, clock);
        SkippedGoes(net, v, doc, names, skip, refused, clock);
      } else if Refusal(net, n, doc[n], refused) == None {
        HasValue(net, n, doc[n], refused);
        ImportSteps(net, v[n := Taken(v, n, doc[n], clock(n))], doc, rest, skip, refused, clock);
        StoredGoes(net, v, doc, names, skip, refused, clock);
      } else {
        RefusedGoes(net, v, doc, names, skip, refused, clock);
      }
    }
  }

  lemma NothingGoes(net: Wire, v: Vault, doc: Document, skip: set<bytes>, refused: map<bytes, Error>, clock: bytes -> int)
    ensures Goes(net, v, doc, [], skip, refused, clock)
  {
  }

  lemma SkippedGoes(net: Wire, v: Vault, doc: Document, names: seq<bytes>, skip: set<bytes>,
                    refused: map<bytes, Error>, clock: bytes -> int)
    requires names != [] && StrictlySorted(names) && names[0] in skip
    requires (forall n :: n in names ==> n in doc) && (forall n :: n in names[1..] ==> n in doc)
    requires Goes(net, v, doc, names[1..], skip, refused, clock)
    ensures Goes(net, v, doc, names, skip, refused, clock)
  {
    ImportingSkips(net, v, doc, names, skip, refused, clock);
    hide Refusal, StoringOne, Importing, Overridden;
    var (w, stop) := Importing(net, v, doc, names, skip, refused, clock);
    DoneCons(names, skip, stop);
    assert Done(NameSet(names), skip, stop) == Done(NameSet(names[1..]), skip, stop);
    assert NameSet(names) == NameSet(names[1..]) + {names[0]};
  }

  lemma ImportingSkips(net: Wire, v: Vault, doc: Document, names: seq<bytes>, skip: set<bytes>,
                       refused: map<bytes, Error>, clock: bytes -> int)
    requires names != [] && names[0] in skip && forall n :: n in names ==> n in doc
    ensures Importing(net, v, doc, names, skip, refused, clock) == Importing(net, v, doc, names[1..], skip, refused, clock)
  {
    hide StoringOne;
  }

  lemma StoredGoes(net: Wire, v: Vault, doc: Document, names: seq<bytes>, skip: set<bytes>,
                   refused: map<bytes, Error>, clock: bytes -> int)
    requires TextDocument(doc) && names != [] && StrictlySorted(names) && names[0] !in skip
    requires (forall n :: n in names ==> n in doc) && (forall n :: n in names[1..] ==> n in doc)
    requires Refusal(net, names[0], doc[names[0]], refused) == None
    requires Goes(net, v[names[0] := Taken(v, names[0], doc[names[0]], clock(names[0]))], doc, names[1..], skip, refused, clock)
    ensures Goes(net, v, doc, names, skip, refused, clock)
  {
    var n := names[0];
    StoringOneIs(net, v, doc, n, refused, clock(n));
    HasValue(net, n, doc[n], refused);
    hide Refusal, StoringOne, TextDocument;
    var (w, stop) := Importing(net, v, doc, names, skip, refused, clock);
    DoneCons(names, skip, stop);
    OverriddenCons(v, w, doc, n, Done(NameSet(names[1..]), skip, stop), clock);
  }

  lemma HasValue(net: Wire, n: bytes, e: Entry, refused: map<bytes, Error>)
    requires Refusal(net, n, e, refused) == None
    ensures e.value.Some?
  {
  }

  lemma RefusedGoes(net: Wire, v: Vault, doc: Document, names: seq<bytes>, skip: set<bytes>,
                    refused: map<bytes, Error>, clock: bytes -> int)
    requires TextDocument(doc) && names != [] && StrictlySorted(names) && names[0] !in skip
    requires forall n :: n in names ==> n in doc
    requires Refusal(net, names[0], doc[names[0]], refused).Some?
    ensures Goes(net, v, doc, names, skip, refused, clock)
  {
    StoringOneIs(net, v, doc, names[0], refused, clock(names[0]));
    hide Refusal, StoringOne, TextDocument;
    FirstIsLeast(names);
    var (w, stop) := Importing(net, v, doc, names, skip, refused, clock);
    assert Done(NameSet(names), skip, stop) == {};
  }

  lemma DoneCons(names: seq<bytes>, skip: set<bytes>, stop: Option<Stop>)
    requires names != [] && StrictlySorted(names)
    requires stop.Some? ==> stop.value.Stop? && stop.value.name in names[1..]
    ensures Done(NameSet(names), skip, stop) ==
            (if names[0] in skip then {} else {names[0]}) + Done(NameSet(names[1..]), skip, stop)
    ensures names[0] !in NameSet(names[1..])
  {
    FirstIsLeast(names);
  }

  /** Overriding one name first and then others overrides them all. */
  lemma OverriddenCons(v: Vault, w: Vault, doc: Document, n: bytes, done: set<bytes>, clock: bytes -> int)
    requires n in doc && doc[n].value.Some? && n !in done
    requires Overridden(v[n := Taken(v, n, doc[n], clock(n))], w, doc, done, clock)
    ensures Overridden(v, w, doc, {n} + done, clock)
  {
  }

  lemma FirstIsLeast(names: seq<bytes>)
    requires names != [] && StrictlySorted(names)
    ensures forall m :: m in names <==> m == names[0] || m in names[1..]
    ensures forall m :: m in names[1..] ==> Less(names[0], m) && m != names[0]
    ensures forall m :: m in names ==> !Less(m, names[0])
    ensures StrictlySorted(names[1..])
  {
    assert names == [names[0]] + names[1..];
    forall m | m in names ensures m in names[1..] ==> Less(names[0], m) && m != names[0] {
      LessTotal(names[0], m);
      if m in names[1..] {
        var i :| 0 <= i < |names[1..]| && names[1..][i] == m;
        assert names[i + 1] == m;
      }
    }
    forall m | m in names ensures !Less(m, names[0]) {
      LessTotal(names[0], m);
    }
  }

  /** An import leaves the old vault overridden by the document on kind, value
      and attributes, on exactly the names it does not skip and that sort
      before the first refused one; it keeps creation times and everything
      else. */
  lemma ImportExact(net: Wire, v: Vault, doc: Document, noOverwrite: bool, refused: map<bytes, Error>, clock: bytes -> int)
    requires TextDocument(doc)
    ensures var skip := Skipped(v, noOverwrite);
            var (w, stop) := Importing(net, v, doc, SortedNames(doc.Keys), skip, refused, clock);
            && StopsRightly(net, doc.Keys, doc, skip, refused, stop)
            && Overridden(v, w, doc, Done(doc.Keys, skip, stop), clock)
            && (noOverwrite ==> forall n :: n in v ==> n in w && w[n] == v[n])
  {
    var names := SortedNames(doc.Keys);
    assert NameSet(names) == doc.Keys;
    ImportSteps(net, v, doc, names, Skipped(v, noOverwrite), refused, clock);
  }

  /** a and b hold the same secret, apart from its times. */
  predicate SameContent(a: Secret, b: Secret) {
    a.kind == b.kind && a.value == b.value && a.attributes == b.attributes
  }

  /** Importing an export never stops and restores every exported secret,
      whatever vault it goes into; other names stay as they were. */
  lemma ImportRestores(net: Wire, v: Vault, into: Vault, clock: bytes -> int)
    requires IsJson(net) && AllValid(v) && ExportFits(net, v)
    ensures var doc := Exported(v);
            var (w, stop) := Importing(net, into, doc, SortedNames(doc.Keys), {}, map[], clock);
            && stop == None
            && w.Keys == into.Keys + v.Keys
            && (forall n :: n in v ==> SameContent(w[n], v[n]))
            && (forall n :: n in into && n !in v ==> w[n] == into[n])
  {
    hide Refusal, ValidSecret, Importing, IsJson, FetchFits;
    var doc := Exported(v);
    ExportIsText(v);
    ImportExact(net, into, doc, false, map[], clock);
    var (w, stop) := Importing(net, into, doc, SortedNames(doc.Keys), {}, map[], clock);
    assert Skipped(into, false) == {};
    forall n | n in doc ensures Refusal(net, n, doc[n], map[]) == None {
      NotRefused(net, v, n);
    }
    assert stop == None;
    assert Done(doc.Keys, {}, stop) == v.Keys;
  }

  /** What could be fetched can be sent: the request is the shorter line. */
  lemma NotRefused(net: Wire, v: Vault, n: bytes)
    requires IsJson(net) && AllValid(v) && n in v && FetchFits(net, v, n)
    ensures Refusal(net, n, Exported(v)[n], map[]) == None
  {
    hide ValidSecret;
    var s := v[n];
    assert ValidSecret(n, s.kind, s.attributes, s.value);
    assert net.call(StoreCall(n, s.kind, s.attributes, s.value)) <= net.reply(SecretReply(n, s));
  }

  lemma ExportIsText(v: Vault)
    requires AllValid(v)
    ensures TextDocument(Exported(v))
  {
    forall n | n in v ensures Valid(n) && forall k :: k in v[n].attributes ==> Valid(v[n].attributes[k]) {
      assert ValidSecret(n, v[n].kind, v[n].attributes, v[n].value);
    }
  }

  // ----- A vault that cannot be listed -----

  /** No vault of more secrets than records fit a line can be listed, so it can
      neither be exported nor imported into without overwriting. */
  lemma TooManyToList(net: Wire, v: Vault)
    requires IsJson(net) && RECORD * |v| > Framing.MAX_LINE_LEN
    ensures !ListingFits(net, v)
  {
    ListsEverything(net, v);
    var found := Matching(EVERYTHING, v);
    ListingLength(ListingOf(found), found);
    assert |found| == |found.Keys| && |v| == |v.Keys|;
  }

  const BASE := 94

  /** One of 94 * 94 * 94 names of three visible characters. */
  function Numbered(i: nat): bytes
    requires i < BASE * BASE * BASE
  {
    [0x21 + i / (BASE * BASE), 0x21 + i / BASE % BASE, 0x21 + i % BASE]
  }

  lemma ThreeDigits(i: nat)
    ensures i == i / (BASE * BASE) * (BASE * BASE) + i / BASE % BASE * BASE + i % BASE
  {
    var q := i / BASE;
    assert i == q * BASE + i % BASE && q == q / BASE * BASE + q % BASE && q / BASE == i / (BASE * BASE);
  }

  lemma NumberedApart(i: nat, j: nat)
    requires i < BASE * BASE * BASE && j < BASE * BASE * BASE && Numbered(i) == Numbered(j)
    ensures i == j
  {
    var x, y := Numbered(i), Numbered(j);
    assert x[0] == y[0] && x[1] == y[1] && x[2] == y[2];
    ThreeDigits(i);
    ThreeDigits(j);
  }

  /** A vault of n secrets with nothing but a kind. */
  function Crowd(n: nat, kind: bytes): (v: Vault)
    requires n <= BASE * BASE * BASE
    ensures forall m :: m in v ==> v[m] == Secret(kind, [], map[], 0, 0)
  {
    if n == 0 then map[] else Crowd(n - 1, kind)[Numbered(n - 1) := Secret(kind, [], map[], 0, 0)]
  }

  lemma {:induction false} CrowdNames(n: nat, kind: bytes)
    requires n <= BASE * BASE * BASE
    ensures |Crowd(n, kind)| == n
    ensures forall m :: m in Crowd(n, kind) <==> exists i :: 0 <= i < n && m == Numbered(i)
    decreases n
  {
    hide Numbered;
    if n > 0 {
      CrowdNames(n - 1, kind);
      if Numbered(n - 1) in Crowd(n - 1, kind) {
        var i :| 0 <= i < n - 1 && Numbered(n - 1) == Numbered(i);
        NumberedApart(n - 1, i);
      }
    }
  }

  /** Such vaults are valid and every secret of them can be fetched; from some
      size on, none of them can be exported. */
  lemma CrowdCannotLeave(net: Wire, n: nat, kind: bytes)
    requires IsJson(net) && IsSlug(kind)
    requires Framing.MAX_LINE_LEN < RECORD * n && n <= BASE * BASE * BASE
    ensures var v := Crowd(n, kind);
            && AllValid(v)
            && (forall m :: m in v ==> Getting(net, v, m) == Ok(v[m]))
            && !ExportFits(net, v)
  {
    var v := Crowd(n, kind);
    CrowdNames(n, kind);
    TooManyToList(net, v);
    forall m | m in v ensures ValidSecret(m, v[m].kind, v[m].attributes, v[m].value) && FetchFits(net, v, m) {
      CrowdMember(net, v, m, kind);
    }
    forall m | m in v ensures Getting(net, v, m) == Ok(v[m]) {
      FetchOne(net, v, m);
    }
  }

  lemma CrowdMember(net: Wire, v: Vault, m: bytes, kind: bytes)
    requires IsJson(net) && IsSlug(kind) && m in v && v[m] == Secret(kind, [], map[], 0, 0)
    requires exists i: nat :: i < BASE * BASE * BASE && m == Numbered(i)
    ensures ValidSecret(m, v[m].kind, v[m].attributes, v[m].value) && FetchFits(net, v, m)
  {
    hide ValidText;
    PlainTextValid(m);
    assert SmallCall(GetCall(m)) && SmallReply(SecretReply(m, v[m]));
  }
}

/** The daemon as its clients see it: an unlocked vault behind list, get,
    store and delete, with every string of a request carried by JSON and every
    message one line of limited length. */
module Clients {
  import opened Bytes
  import opened Utf8
  import opened Vaults
  import opened VaultFile
  import opened Stores
  import Framing

  // ----- Messages -----

  /** What a client sends, as it was given the strings. */
  datatype Call =
    | GetCall(name: bytes)
    | ListCall(filter: Filter)
    | StoreCall(name: bytes, kind: bytes, attributes: map<bytes, bytes>, value: bytes)
    | DeleteCall(name: bytes)

  /** What the daemon answers with success. */
  datatype Reply = SecretReply(name: bytes, secret: Secret) | ListReply(infos: seq<Info>)

  /** The length of the line that carries a message, as the JSON encoder makes
      it; both sides read lines with the same reader and its limit. */
  datatype Wire = Wire(call: Call -> nat, reply: Reply -> nat)

  predicate Sends(net: Wire, c: Call) {
    net.call(c) <= Framing.MAX_LINE_LEN
  }

  predicate Receives(net: Wire, r: Reply) {
    net.reply(r) <= Framing.MAX_LINE_LEN
  }

  const SMALL := 512

  predicate SmallAttributes(attrs: map<bytes, bytes>) {
    |attrs| <= 8 && forall k :: k in attrs ==> |k| <= SMALL && |attrs[k]| <= SMALL
  }

  predicate SmallInfo(i: Info) {
    |i.name| <= SMALL && |i.secret.kind| <= SMALL && SmallAttributes(i.secret.attributes)
  }

  predicate SmallCall(c: Call) {
    match c
    case GetCall(n) => |n| <= SMALL
    case DeleteCall(n) => |n| <= SMALL
    case ListCall(f) => |f.kind| <= SMALL && |f.prefix| <= SMALL && SmallAttributes(f.attributes)
    case StoreCall(n, k, a, v) => |n| <= SMALL && |k| <= SMALL && SmallAttributes(a) && |v| <= SMALL
  }

  predicate SmallReply(r: Reply) {
    match r
    case SecretReply(n, s) => SmallInfo(Info(n, s)) && |s.value| <= SMALL
    case ListReply(infos) => |infos| <= 8 && forall i :: 0 <= i < |infos| ==> SmallInfo(infos[i])
  }

  const RECORD := 80

  /** What every JSON encoding of these messages satisfies. A byte takes at
      most six, so a handful of short strings fits. A listed record takes at
      least 80 bytes for its keys and times. And a store request is shorter
      than the answer to a get for the same secret, which has the times. */
  ghost predicate IsJson(net: Wire) {
    && (forall c :: SmallCall(c) ==> Sends(net, c))
    && (forall r :: SmallReply(r) ==> Receives(net, r))
    && (forall infos :: net.reply(ListReply(infos)) >= RECORD * |infos|)
    && (forall n: bytes, s: Secret :: net.call(StoreCall(n, s.kind, s.attributes, s.value)) <= net.reply(SecretReply(n, s)))
  }

  /** And what an encoding satisfies that has at most 64 KiB for all of a
      secret but its value. */
  ghost predicate CarriesValues(net: Wire) {
    forall n: bytes, s: Secret :: SmallInfo(Info(n, s)) ==>
      net.reply(SecretReply(n, s)) <= Framing.Base64Len(|s.value|) + 0x10000
  }

  /** Then a secret of short strings can be fetched whatever its value. */
  lemma LargestValueTravels(net: Wire, v: Vault, n: bytes)
    requires IsJson(net) && CarriesValues(net) && AllValid(v) && n in v && SmallInfo(Info(n, v[n]))
    ensures Getting(net, v, n) == Ok(v[n])
  {
    hide ValidText, Sanitize, Getting;
    assert ValidSecret(n, v[n].kind, v[n].attributes, v[n].value);
    assert SmallCall(GetCall(n));
    Framing.LineHoldsValue(|v[n].value|, 0x10000);
    FetchOne(net, v, n);
  }

  /** A short list of short records fits a line. */
  lemma ShortListing(net: Wire, found: Vault)
    requires IsJson(net) && |found| <= 8 && forall n :: n in found ==> SmallInfo(Info(n, found[n]))
    ensures Receives(net, ListReply(ListingOf(found)))
  {
    var infos := ListingOf(found);
    ListingLength(infos, found);
    forall i | 0 <= i < |infos| ensures SmallInfo(infos[i]) {
      assert infos[i] == Info(infos[i].name, found[infos[i].name]);
    }
    assert SmallReply(ListReply(infos));
  }

  /** Kinds and attribute keys are constants or come from the daemon or from a
      JSON document, so they are text already; names, prefixes and attribute
      values may be anything the caller was given. */
  function WireAttributes(attrs: map<bytes, bytes>): map<bytes, bytes> {
    map k | k in attrs :: Sanitize(attrs[k])
  }

  lemma WireKeepsText(attrs: map<bytes, bytes>)
    requires forall k :: k in attrs ==> Valid(attrs[k])
    ensures WireAttributes(attrs) == attrs
  {
    forall k | k in attrs ensures Sanitize(attrs[k]) == attrs[k] {
      SanitizeFixesText(attrs[k]);
    }
  }

  function WireFilter(f: Filter): Filter {
    Filter(f.kind, Sanitize(f.prefix), WireAttributes(f.attributes))
  }

  /** JSON carries a filter's prefix and every attribute value with bad bytes
      replaced, and nothing else changes. */
  lemma CarriedByJson(f: Filter)
    ensures var g := WireFilter(f);
            && g.kind == f.kind && g.prefix == Sanitize(f.prefix) && g.attributes.Keys == f.attributes.Keys
            && forall k :: k in f.attributes ==> g.attributes[k] == Sanitize(f.attributes[k])
  {
    hide Sanitize;
  }

  /** What a credential helper makes of the secrets it finds for a request. */
  datatype Match = NoMatch | Unique(info: Info) | Ambiguous(names: seq<bytes>)

  // ----- The four calls -----

  /** The secrets a list request finds. */
  ghost function Finding(net: Wire, v: Vault, f: Filter): Result<Vault, Error> {
    var g := WireFilter(f);
    if !Sends(net, ListCall(f)) then Err(Protocol)
    else if !ValidQuery(Many(g)) then Err(Invalid)
    else if !Receives(net, ListReply(ListingOf(Matching(g, v)))) then Err(Protocol)
    else Ok(Matching(g, v))
  }

  /** The vault after a store request. */
  function Putting(net: Wire, v: Vault, name: bytes, kind: bytes, attrs: map<bytes, bytes>, value: bytes, now: int)
    : Result<Vault, Error>
  {
    if !Sends(net, StoreCall(name, kind, attrs, value)) then Err(Protocol)
    else Modify(Put(Sanitize(name), kind, WireAttributes(attrs), value), v, now)
  }

  function Getting(net: Wire, v: Vault, name: bytes): Result<Secret, Error> {
    if !Sends(net, GetCall(name)) then Err(Protocol)
    else
      match Ask(One(Sanitize(name)), v)
      case Err(e) => Err(e)
      case Ok(Found(s)) => if Receives(net, SecretReply(Sanitize(name), s)) then Ok(s) else Err(Protocol)
      case Ok(_) => Err(Broken)
  }

  function Deleting(net: Wire, v: Vault, name: bytes): Result<Vault, Error> {
    if !Sends(net, DeleteCall(name)) then Err(Protocol)
    else Modify(Remove(Sanitize(name)), v, 0)
  }

  class Client {
    const wire: Wire
    var vault: Vault

    constructor (wire: Wire, vault: Vault)
      ensures this.wire == wire && this.vault == vault
    {
      this.wire, this.vault := wire, vault;
    }

    method List(f: Filter) returns (r: Result<seq<Info>, Error>)
      ensures match Finding(wire, vault, f)
              case Ok(found) => r.Ok? && IsListing(r.value, found)
              case Err(e) => r == Err(e)
    {
      if !Sends(wire, ListCall(f)) {
        return Err(Protocol);
      }
      var g := WireFilter(f);
      if !ValidQuery(Many(g)) {
        return Err(Invalid);
      }
      var infos := Collect(g, vault);
      ListingUnique(infos, ListingOf(Matching(g, vault)), Matching(g, vault));
      if !Receives(wire, ListReply(infos)) {
        return Err(Protocol);
      }
      return Ok(infos);
    }

    method Get(name: bytes) returns (r: Result<Secret, Error>)
      ensures r == Getting(wire, vault, name)
    {
      return Getting(wire, vault, name);
    }

    method Store(name: bytes, kind: bytes, attrs: map<bytes, bytes>, value: bytes, now: int) returns (r: Option<Error>)
      modifies this`vault
      ensures match Putting(wire, old(vault), name, kind, attrs, value, now)
              case Ok(w) => r == None && vault == w
              case Err(e) => r == Some(e) && vault == old(vault)
    {
      var w := Putting(wire, vault, name, kind, attrs, value, now);
      if w.Err? {
        return Some(w.error);
      }
      vault := w.value;
      return None;
    }

    method Delete(name: bytes) returns (r: Option<Error>)
      modifies this`vault
      ensures match Deleting(wire, old(vault), name)
              case Ok(w) => r == None && vault == w
              case Err(e) => r == Some(e) && vault == old(vault)
    {
      var w := Deleting(wire, vault, name);
      if w.Err? {
        return Some(w.error);
      }
      vault := w.value;
      return None;
    }
  }

  // ----- The daemon behind them -----

  /** With the daemon unlocked and the disk working, a client's get is the
      store's, but for lines that are too long. */
  lemma GetAsksStore(net: Wire, files: Dir, k: Key, v: Vault, name: bytes)
    requires Open(files, k) == Ok(v) && Sends(net, GetCall(name))
    ensures match Answering(Some(k), files, One(Sanitize(name)))
            case Err(e) => Getting(net, v, name) == Err(e)
            case Ok(a) =>
              && a.Found?
              && Getting(net, v, name) == if Receives(net, SecretReply(Sanitize(name), a.secret)) then Ok(a.secret) else Err(Protocol)
  {
  }

  lemma ListAsksStore(net: Wire, files: Dir, k: Key, v: Vault, f: Filter)
    requires Open(files, k) == Ok(v) && Sends(net, ListCall(f))
    ensures match Answering(Some(k), files, Many(WireFilter(f)))
            case Err(e) => Finding(net, v, f) == Err(e)
            case Ok(a) =>
              a.Listing? && Finding(net, v, f) == if Receives(net, ListReply(ListingOf(a.found))) then Ok(a.found) else Err(Protocol)
  {
  }

  /** And what it stores or deletes, the store writes. */
  lemma StoreWrites(net: Wire, files: Dir, k: Key, v: Vault, name: bytes, kind: bytes, attrs: map<bytes, bytes>, value: bytes, now: int)
    requires Open(files, k) == Ok(v)
    ensures Putting(net, v, name, kind, attrs, value, now) ==
            if Sends(net, StoreCall(name, kind, attrs, value))
            then Writing(Some(k), files, Put(Sanitize(name), kind, WireAttributes(attrs), value), now)
            else Err(Protocol)
  {
  }

  lemma DeleteWrites(net: Wire, files: Dir, k: Key, v: Vault, name: bytes, now: int)
    requires Open(files, k) == Ok(v)
    ensures Deleting(net, v, name) ==
            if Sends(net, DeleteCall(name)) then Writing(Some(k), files, Remove(Sanitize(name)), now) else Err(Protocol)
  {
  }

  // ----- Round trips -----

  /** In a vault of valid secrets every name and attribute is text. */
  lemma ValidIsText(v: Vault, n: bytes)
    requires AllValid(v) && n in v
    ensures Sanitize(n) == n && WireAttributes(v[n].attributes) == v[n].attributes
  {
    assert ValidSecret(n, v[n].kind, v[n].attributes, v[n].value);
    SanitizeFixesText(n);
    WireKeepsText(v[n].attributes);
  }

  /** w differs from v at most at n. */
  ghost predicate OnlyChanges(v: Vault, w: Vault, n: bytes) {
    forall m :: m != n ==> (m in w <==> m in v) && (m in v ==> w[m] == v[m])
  }

  /** Storing an existing secret again under its own kind and attributes keeps
      everything but its value and its time. */
  lemma PuttingBack(net: Wire, v: Vault, n: bytes, value: bytes, now: int)
    requires AllValid(v) && n in v && |value| <= MAX_VALUE_LEN
    ensures Putting(net, v, n, v[n].kind, v[n].attributes, value, now) ==
            if Sends(net, StoreCall(n, v[n].kind, v[n].attributes, value))
            then Ok(v[n := v[n].(value := value, updated := now)])
            else Err(Protocol)
  {
    ValidIsText(v, n);
    assert ValidSecret(n, v[n].kind, v[n].attributes, v[n].value);
  }

  lemma GettingHere(net: Wire, w: Vault, n: bytes)
    requires n in w && ValidText(n) && Sends(net, GetCall(n))
    ensures Getting(net, w, n) == if Receives(net, SecretReply(n, w[n])) then Ok(w[n]) else Err(Protocol)
  {
    SanitizeFixesText(n);
  }

  /** The lines that fetch n are not too long. */
  ghost predicate FetchFits(net: Wire, v: Vault, n: bytes) {
    n in v && Sends(net, GetCall(n)) && Receives(net, SecretReply(n, v[n]))
  }

  /** What is in a valid vault can be fetched, but for lines that are too long. */
  lemma FetchOne(net: Wire, v: Vault, n: bytes)
    requires AllValid(v) && n in v
    ensures Getting(net, v, n) == if FetchFits(net, v, n) then Ok(v[n]) else Err(Protocol)
  {
    assert ValidSecret(n, v[n].kind, v[n].attributes, v[n].value);
    if Sends(net, GetCall(n)) {
      GettingHere(net, v, n);
    }
  }

  /** After an accepted store a get under the same name gives back the kind,
      the value and the attributes with bad bytes replaced, provided the
      answer fits a line; nothing else in the vault has changed. */
  lemma StoreThenGet(net: Wire, v: Vault, name: bytes, kind: bytes, attrs: map<bytes, bytes>, value: bytes, now: int)
    requires AllValid(v) && Sends(net, GetCall(name)) && Putting(net, v, name, kind, attrs, value, now).Ok?
    ensures var w, n := Putting(net, v, name, kind, attrs, value, now).value, Sanitize(name);
            var s := Secret(kind, value, WireAttributes(attrs), if n in v then v[n].created else now, now);
            && AllValid(w) && OnlyChanges(v, w, n)
            && Getting(net, w, name) == if Receives(net, SecretReply(n, s)) then Ok(s) else Err(Protocol)
  {
    var c := Put(Sanitize(name), kind, WireAttributes(attrs), value);
    ModifyRefinesMap(c, v, now);
  }

  /** After an accepted delete it finds nothing; nothing else has changed. */
  lemma DeleteThenGet(net: Wire, v: Vault, name: bytes)
    requires AllValid(v) && Sends(net, GetCall(name)) && Deleting(net, v, name).Ok?
    ensures var w := Deleting(net, v, name).value;
            AllValid(w) && OnlyChanges(v, w, Sanitize(name)) && Getting(net, w, name) == Err(NotFound)
  {
    ModifyRefinesMap(Remove(Sanitize(name)), v, 0);
    SanitizeIsText(name);
  }
}

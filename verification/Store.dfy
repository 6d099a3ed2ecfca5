/** The secret operations against the vault file, one at a time, on the
    objects the daemon holds: the session and the disk. */
module Stores {
  import opened Bytes
  import opened Disks
  import opened Vaults
  import opened VaultFile
  import AtomicFile
  import Sessions

  /** One record of a listing: everything but the value. */
  datatype Info = Info(name: bytes, secret: Secret)

  /** What a read answers when the disk works. */
  function Answering(held: Option<Key>, files: Dir, q: Query): Result<Answer, Error> {
    if held == None then Err(Locked)
    else if !ValidQuery(q) then Err(Invalid)
    else
      match Open(files, held.value)
      case Err(e) => Err(e)
      case Ok(v) => Ask(q, v)
  }

  /** The vault an accepted write leaves behind, when the disk works. */
  function Writing(held: Option<Key>, files: Dir, c: Change, now: int): Result<Vault, Error> {
    if held == None then Err(Locked)
    else
      match Open(files, held.value)
      case Err(e) => Err(e)
      case Ok(v) => Modify(c, v, now)
  }

  /** infos lists exactly the secrets of `found`, each once, by name. */
  ghost predicate IsListing(infos: seq<Info>, found: Vault) {
    && (forall i, j :: 0 <= i < j < |infos| ==> Less(infos[i].name, infos[j].name))
    && (forall i :: 0 <= i < |infos| ==> infos[i].name in found && infos[i].secret == found[infos[i].name])
    && (forall n :: n in found ==> exists i :: 0 <= i < |infos| && infos[i].name == n)
  }

  function Names(infos: seq<Info>): seq<bytes> {
    seq(|infos|, i requires 0 <= i < |infos| => infos[i].name)
  }

  /** A listing is determined by what it lists, so the order in which a map is
      walked never shows. */
  lemma ListingUnique(a: seq<Info>, b: seq<Info>, found: Vault)
    requires IsListing(a, found) && IsListing(b, found)
    ensures a == b
  {
    ListingNames(a, found);
    ListingNames(b, found);
    SortedListingUnique(Names(a), Names(b), found.Keys);
    assert |a| == |Names(a)| == |Names(b)| == |b|;
    forall i | 0 <= i < |a| ensures a[i] == b[i] {
      assert Names(a)[i] == Names(b)[i];
    }
  }

  lemma ListingNames(a: seq<Info>, found: Vault)
    requires IsListing(a, found)
    ensures ListsSorted(Names(a), found.Keys)
  {
    forall n ensures n in Names(a) <==> n in found.Keys {
      if n in found.Keys {
        var i :| 0 <= i < |a| && a[i].name == n;
        assert Names(a)[i] == n;
      }
    }
  }

  lemma ListingLength(a: seq<Info>, found: Vault)
    requires IsListing(a, found)
    ensures |a| == |found|
  {
    ListingNames(a, found);
    SortedLength(Names(a), found.Keys);
  }

  ghost function SortedNames(names: set<bytes>): (s: seq<bytes>)
    ensures ListsSorted(s, names)
    decreases |names|
  {
    if names == {} then []
    else
      var n :| n in names;
      InsertSorted(n, SortedNames(names - {n}), names - {n});
      assert names - {n} + {n} == names;
      Insert(n, SortedNames(names - {n}))
  }

  /** The listing of a set of secrets. */
  ghost function ListingOf(found: Vault): (infos: seq<Info>)
    ensures IsListing(infos, found)
  {
    var names := SortedNames(found.Keys);
    assert forall i :: 0 <= i < |names| ==> names[i] in found.Keys;
    var infos := seq(|names|, i requires 0 <= i < |names| => Info(names[i], found[names[i]]));
    CollectedIsListing(infos, names, found);
    infos
  }

  /** Walking a map in any order, keeping the matches, and sorting them. */
  method Collect(f: Filter, v: Vault) returns (infos: seq<Info>)
    ensures IsListing(infos, Matching(f, v))
  {
    var todo := v.Keys;
    var names: seq<bytes> := [];
    while todo != {}
      invariant todo <= v.Keys
      invariant forall i, j :: 0 <= i < j < |names| ==> names[i] != names[j]
      invariant forall n :: n in names <==> n in v && n !in todo && Matches(f, n, v[n])
      decreases |todo|
    {
      var n :| n in todo;
      todo := todo - {n};
      if Matches(f, n, v[n]) {
        names := names + [n];
      }
    }
    SortSorts(names);
    ghost var found := Matching(f, v);
    assert (set n | n in names) == found.Keys;
    names := Sort(names);
    infos := [];
    for i := 0 to |names|
      invariant |infos| == i
      invariant forall j :: 0 <= j < i ==> names[j] in v && infos[j] == Info(names[j], v[names[j]].(value := []))
    {
      assert names[i] in names;
      infos := infos + [Info(names[i], v[names[i]].(value := []))];
    }
    CollectedIsListing(infos, names, found);
  }

  lemma CollectedIsListing(infos: seq<Info>, names: seq<bytes>, found: Vault)
    requires ListsSorted(names, found.Keys) && |infos| == |names|
    requires forall i :: 0 <= i < |names| ==> names[i] in found && infos[i] == Info(names[i], found[names[i]])
    ensures IsListing(infos, found)
  {
    forall n | n in found ensures exists i :: 0 <= i < |infos| && infos[i].name == n {
      assert n in names;
      var i :| 0 <= i < |names| && names[i] == n;
      assert infos[i].name == n;
    }
  }

  /** The daemon's store. A failure is the one the vault and the request
      explain, or the disk has counted a fault. */
  class Store {
    const session: Sessions.Session
    const disk: Disk<Blob>

    constructor (session: Sessions.Session, disk: Disk<Blob>)
      ensures this.session == session && this.disk == disk
    {
      this.session := session;
      this.disk := disk;
    }

    method Get(name: bytes) returns (r: Result<Secret, Error>)
      modifies disk`faults
      ensures disk.faults >= old(disk.faults)
      ensures r.Ok? ==> Answering(session.id, disk.files, One(name)) == Ok(Found(r.value))
      ensures r.Err? ==>
                || Answering(session.id, disk.files, One(name)) == Err(r.error)
                || (r.error == Broken && disk.faults > old(disk.faults))
      ensures session.id == None ==> r == Err(Locked)
    {
      if session.id == None {
        return Err(Locked);
      }
      if !ValidText(name) {
        return Err(Invalid);
      }
      var v := VaultFile.Read(disk, session.id.value);
      if v.Err? {
        return Err(v.error);
      }
      if name !in v.value {
        return Err(NotFound);
      }
      return Ok(v.value[name]);
    }

    method List(f: Filter) returns (r: Result<seq<Info>, Error>)
      modifies disk`faults
      ensures disk.faults >= old(disk.faults)
      ensures r.Ok? ==>
                var a := Answering(session.id, disk.files, Many(f));
                a.Ok? && a.value.Listing? && IsListing(r.value, a.value.found)
      ensures r.Err? ==>
                || Answering(session.id, disk.files, Many(f)) == Err(r.error)
                || (r.error == Broken && disk.faults > old(disk.faults))
      ensures session.id == None ==> r == Err(Locked)
    {
      if session.id == None {
        return Err(Locked);
      }
      if f.kind != [] && !IsSlug(f.kind) {
        return Err(Invalid);
      }
      if !ValidAttributes(f.attributes) {
        return Err(Invalid);
      }
      var v := VaultFile.Read(disk, session.id.value);
      if v.Err? {
        return Err(v.error);
      }
      var infos := Collect(f, v.value);
      return Ok(infos);
    }

    /** Store and Delete: one read-modify-write cycle. Success leaves exactly
        the modified vault; a refusal touches no file; a failed write leaves
        the old vault, the new one, or none and the old one in the backup. */
    method Write(c: Change, now: int) returns (r: Option<Error>)
      requires disk.Valid()
      modifies disk
      ensures disk.Valid() && old(disk.history) <= disk.history && disk.faults >= old(disk.faults)
      ensures session.id == None ==> r == Some(Locked)
      ensures Writing(session.id, old(disk.files), c, now).Err? ==>
                && disk.files == old(disk.files) && disk.history == old(disk.history)
                && (|| r == Some(Writing(session.id, old(disk.files), c, now).error)
                    || (r == Some(Broken) && disk.faults > old(disk.faults)))
      ensures Writing(session.id, old(disk.files), c, now).Ok? ==>
                var w := Writing(session.id, old(disk.files), c, now).value;
                && (r == None ==> Open(disk.files, session.id.value) == Ok(w))
                && (r.Some? ==> r == Some(Broken) && disk.faults > old(disk.faults))
                && (|| Open(disk.files, session.id.value) == Ok(w)
                    || Open(disk.files, session.id.value) == Open(old(disk.files), session.id.value)
                    || (&& Open(disk.files, session.id.value) == Err(NoVault)
                        && Bak(VaultAge) in disk.files && Main(VaultAge) in old(disk.files)
                        && disk.files[Bak(VaultAge)] == old(disk.files)[Main(VaultAge)]))
                && AtomicFile.AllSafe(disk.history, |old(disk.history)|, old(disk.files), VaultAge, Sealed(session.id.value, w), true)
    {
      if session.id == None {
        return Some(Locked);
      }
      var id := session.id.value;
      var v := VaultFile.Read(disk, id);
      if v.Err? {
        return Some(v.error);
      }
      var w := Modify(c, v.value, now);
      if w.Err? {
        return Some(w.error);
      }
      ghost var was := disk.files;
      var o, litter := VaultFile.Write(disk, id, w.value);
      WrittenVault(was, disk.files, litter, o, id, v.value, w.value);
      return if o == AtomicFile.Done then None else Some(Broken);
    }
  }

  /** What each outcome of the write means for whoever opens the vault next. */
  lemma WrittenVault(was: Dir, now: Dir, litter: Option<Path>, o: AtomicFile.Outcome, id: Key, v: Vault, w: Vault)
    requires Open(was, id) == Ok(v)
    requires litter.Some? ==> litter.value.Tmp? && litter.value !in was
    requires AtomicFile.WithoutLitter(now, litter) ==
             if AtomicFile.Early(o) then was
             else if o == AtomicFile.AtRename then AtomicFile.BackedUp(was, VaultAge, true)
             else AtomicFile.Replaced(was, VaultAge, Sealed(id, w), true)
    ensures AtomicFile.Early(o) ==> Open(now, id) == Ok(v)
    ensures o == AtomicFile.AtRename ==>
              Open(now, id) == Err(NoVault) && Bak(VaultAge) in now && now[Bak(VaultAge)] == was[Main(VaultAge)]
    ensures o == AtomicFile.Done || o == AtomicFile.AtSyncDir ==> Open(now, id) == Ok(w)
  {
    var clean := AtomicFile.WithoutLitter(now, litter);
    assert forall p: Path :: !p.Tmp? ==> (p in now <==> p in clean) && (p in now ==> now[p] == clean[p]);
  }
}

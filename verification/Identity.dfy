/** Setting up and changing the identity the vault is sealed to, as sequences
    of file steps of which each can fail or be the last before a crash. */
module Identity {
  import opened Bytes
  import opened Disks
  import opened VaultFile
  import opened Vaults
  import AtomicFile

  datatype Form = Encrypted | PlainForm | NoForm

  datatype Failure =
    | Exists | WrongForm | Ambiguous | NoIdentity | WrongPassphrase | BadKey | EmptyPassphrase | Io

  predicate HoldsKey(files: Dir, p: Path, k: Key) {
    p in files && files[p].Whole? && files[p].synced && !files[p].data.Sealed? && files[p].data.key == k
  }

  /** k is the key of this directory: both identity files, where present,
      hold it, the vault is sealed to it, and if there is a vault the key can
      be had from identity.age, identity.txt or identity.age.bak. */
  predicate KeyOf(files: Dir, k: Key) {
    && (Main(IdentityAge) in files ==> HoldsKey(files, Main(IdentityAge), k) && files[Main(IdentityAge)].data.Boxed?)
    && (Main(IdentityTxt) in files ==> HoldsKey(files, Main(IdentityTxt), k) && files[Main(IdentityTxt)].data.Plain?)
    && (Main(VaultAge) in files ==>
          && files[Main(VaultAge)].Whole? && files[Main(VaultAge)].synced
          && files[Main(VaultAge)].data.Sealed? && files[Main(VaultAge)].data.recipient == k
          && (|| Main(IdentityAge) in files || Main(IdentityTxt) in files
              || HoldsKey(files, Bak(IdentityAge), k)))
  }

  ghost predicate Recoverable(files: Dir) {
    exists k :: KeyOf(files, k)
  }

  ghost predicate AllKeyOf(history: seq<Dir>, from: nat, k: Key) {
    forall i :: from <= i < |history| ==> KeyOf(history[i], k)
  }

  predicate HasIdentity(files: Dir) {
    Main(IdentityAge) in files || Main(IdentityTxt) in files
  }

  ghost predicate AllHaveIdentity(history: seq<Dir>, from: nat) {
    forall i :: from <= i < |history| ==> HasIdentity(history[i])
  }

  predicate IsSealedTo(files: Dir, p: Path, k: Key) {
    p in files && files[p].Whole? && files[p].synced && files[p].data.Sealed? && files[p].data.recipient == k
  }

  /** A vault sealed to k, in vault.age or, when that is absent, in its
      backup, and k with it: in an identity file, or, when there is none, in
      identity.age.bak. */
  predicate Survives(files: Dir, k: Key) {
    && KeyOf(files, k)
    && IsSealedTo(files, if Main(VaultAge) in files then Main(VaultAge) else Bak(VaultAge), k)
    && (HasIdentity(files) || HoldsKey(files, Bak(IdentityAge), k))
  }

  ghost predicate AllSurvive(history: seq<Dir>, from: nat, k: Key) {
    forall i :: from <= i < |history| ==> Survives(history[i], k)
  }

  /** Neither an identity nor a vault under its own name: what Init takes for
      a new directory. */
  predicate Bare(files: Dir) {
    !HasIdentity(files) && Main(VaultAge) !in files
  }

  /** Before state n there was none that Init takes for a new directory. */
  ghost predicate NeverBare(history: seq<Dir>, n: nat) {
    forall i :: 0 <= i < n && i < |history| ==> !Bare(history[i])
  }

  /** How many of the two, an identity and the vault, are absent. */
  function Missing(files: Dir): nat {
    (if HasIdentity(files) then 0 else 1) + if Main(VaultAge) in files then 0 else 1
  }

  /** Only a failed rename leaves one more of them absent. */
  predicate Smoothly(before: nat, after: nat, was: Dir, now: Dir) {
    before <= after && (before == after ==> Missing(now) <= Missing(was))
  }

  ghost predicate AllMissing(history: seq<Dir>, from: nat, most: nat) {
    forall i :: from <= i < |history| ==> Missing(history[i]) <= most
  }

  /** The states from position `from` of the history on keep what `was` has of
      k, and have at most one more file absent. */
  ghost predicate Keeps(was: Dir, history: seq<Dir>, from: nat, k: Key) {
    && (KeyOf(was, k) ==> AllKeyOf(history, from, k))
    && (Survives(was, k) ==> AllSurvive(history, from, k))
    && AllMissing(history, from, Missing(was) + 1)
  }

  /** A crash spares what has been forced to the medium, so the key stays. */
  lemma CrashKeepsKey(files: Dir, lost: set<Path>, k: Key)
    requires KeyOf(files, k)
    ensures KeyOf(AfterCrash(files, lost), k)
    ensures Missing(AfterCrash(files, lost)) == Missing(files)
    ensures Survives(files, k) ==> Survives(AfterCrash(files, lost), k)
  {
  }

  /** What the commands write into a directory whose key is k. */
  predicate Fits(was: Dir, name: Name, data: Blob, k: Key) {
    match name
    case IdentityAge => data.Boxed? && data.key == k
    case IdentityTxt => data.Plain? && data.key == k && (Main(IdentityTxt) in was ==> Main(IdentityAge) in was)
    case VaultAge => data.Sealed? && data.recipient == k
  }

  /** Every state of writing an identity file that holds the directory's key
      keeps the key. */
  lemma WriteKeepsKey(was: Dir, history: seq<Dir>, from: nat, name: Name, data: Blob, k: Key)
    requires KeyOf(was, k) && Fits(was, name, data, k)
    requires name == VaultAge ==> HasIdentity(was) || HoldsKey(was, Bak(IdentityAge), k)
    requires AtomicFile.AllSafe(history, from, was, name, data, true)
    ensures AllKeyOf(history, from, k)
  {
    forall i | from <= i < |history| ensures KeyOf(history[i], k) {
      assert AtomicFile.Safe(was, history[i], name, data, true);
    }
  }

  /** Every state of such a write keeps the vault with it. */
  lemma WriteSurvives(was: Dir, history: seq<Dir>, from: nat, name: Name, data: Blob, k: Key)
    requires Survives(was, k) && Fits(was, name, data, k)
    requires AtomicFile.AllSafe(history, from, was, name, data, true)
    ensures AllSurvive(history, from, k)
  {
    forall i | from <= i < |history| ensures Survives(history[i], k) {
      assert AtomicFile.Safe(was, history[i], name, data, true);
    }
  }

  /** A write makes one file absent at most. */
  lemma WriteKeeps(was: Dir, history: seq<Dir>, from: nat, name: Name, data: Blob, k: Key)
    requires 0 < from <= |history| && history[from - 1] == was
    requires KeyOf(was, k) ==> Fits(was, name, data, k)
    requires KeyOf(was, k) && name == VaultAge ==> HasIdentity(was) || HoldsKey(was, Bak(IdentityAge), k)
    requires AtomicFile.AllSafe(history, from, was, name, data, true)
    ensures Keeps(was, history, from - 1, k)
  {
    hide KeyOf, Fits;
    if KeyOf(was, k) {
      WriteKeepsKey(was, history, from, name, data, k);
    }
    if Survives(was, k) {
      WriteSurvives(was, history, from, name, data, k);
    }
    forall i | from <= i < |history| ensures Missing(history[i]) <= Missing(was) + 1 {
      assert AtomicFile.Safe(was, history[i], name, data, true);
    }
  }

  lemma StartKeeps(was: Dir, history: seq<Dir>, k: Key)
    requires history != [] && history[|history| - 1] == was
    ensures Keeps(was, history, |history| - 1, k)
  {
  }

  /** Nor does removing one identity file where the other one is lose anything. */
  lemma RemoveKeeps(was: Dir, history: seq<Dir>, from: nat, gone: Name, other: Name, k: Key)
    requires Keeps(was, history, from, k) && from < |history|
    requires other != VaultAge && gone != VaultAge && other != gone
    requires Main(other) in history[|history| - 1]
    ensures Keeps(was, history + [history[|history| - 1] - {Main(gone)}], from, k)
  {
    var last := history[|history| - 1];
    assert Missing(last - {Main(gone)}) <= Missing(last);
    if KeyOf(was, k) {
      assert KeyOf(last, k);
      assert KeyOf(last - {Main(gone)}, k);
    }
    if Survives(was, k) {
      assert Survives(last, k);
    }
  }

  /** Which form of the identity a directory has. */
  function FormOf(files: Dir): Result<Form, Failure> {
    if Main(IdentityAge) in files then
      if Main(IdentityTxt) in files then Err(Ambiguous) else Ok(Encrypted)
    else
      Ok(if Main(IdentityTxt) in files then PlainForm else NoForm)
  }

  /** The key the identity file of the only form present gives up for this
      passphrase. */
  function KeyIn(files: Dir, want: Form, passphrase: bytes): Option<Key> {
    if FormOf(files) != Ok(want) || want == NoForm then None
    else HeldBy(files, if want == PlainForm then IdentityTxt else IdentityAge, passphrase)
  }

  function HeldBy(files: Dir, name: Name, passphrase: bytes): Option<Key> {
    if Main(name) !in files then None
    else
      match files[Main(name)]
      case Whole(Plain(k), _) => if name == IdentityTxt then Some(k) else None
      case Whole(Boxed(p, k), _) => if name == IdentityAge && p == passphrase != [] then Some(k) else None
      case _ => None
  }

  /** A plain file gives its key to anyone, an encrypted one only for the
      passphrase it was made with, which is not empty; no other file gives one. */
  lemma HeldByMeans(files: Dir, name: Name, passphrase: bytes, k: Key)
    ensures HeldBy(files, name, passphrase) == Some(k) <==>
            && Main(name) in files && files[Main(name)].Whole?
            && (|| (name == IdentityTxt && files[Main(name)].data == Plain(k))
                || (name == IdentityAge && passphrase != [] && files[Main(name)].data == Boxed(passphrase, k)))
  {
  }

  /** After a change of passphrase the new one opens, and no other. */
  lemma OnlyTheNewOpens(files: Dir, k: Key, next: bytes, p: bytes)
    requires FormOf(files) == Ok(Encrypted) && next != []
    ensures var changed := AtomicFile.Replaced(files, IdentityAge, Boxed(next, k), true);
            KeyIn(changed, Encrypted, p) == if p == next then Some(k) else None
  {
    var changed := AtomicFile.Replaced(files, IdentityAge, Boxed(next, k), true);
    assert FormOf(changed) == Ok(Encrypted);
    HeldByMeans(changed, IdentityAge, p, k);
  }

  /** Detect. `exists` takes any stat error but "not exist" for presence. */
  method Detect(disk: Disk<Blob>) returns (r: Result<Form, Failure>)
    modifies disk`faults
    ensures disk.faults >= old(disk.faults)
    ensures disk.faults == old(disk.faults) ==> r == FormOf(disk.files)
    ensures r == Ok(NoForm) ==> FormOf(disk.files) == Ok(NoForm)
    ensures r == Ok(Encrypted) ==> Main(IdentityTxt) !in disk.files
    ensures r == Ok(PlainForm) ==> Main(IdentityAge) !in disk.files
    ensures r.Err? ==> r == Err(Ambiguous)
    ensures FormOf(disk.files) == Err(Ambiguous) ==> r == Err(Ambiguous)
  {
    var enc := disk.Exists(Main(IdentityAge));
    var plain := disk.Exists(Main(IdentityTxt));
    if enc && plain {
      return Err(Ambiguous);
    }
    return Ok(if enc then Encrypted else if plain then PlainForm else NoForm);
  }

  /** LoadFile for one of the two identity files. */
  method LoadFile(disk: Disk<Blob>, name: Name, passphrase: bytes) returns (r: Result<Key, Failure>)
    requires name != VaultAge
    modifies disk`faults
    ensures disk.faults >= old(disk.faults)
    ensures r.Ok? ==> HeldBy(disk.files, name, passphrase) == Some(r.value)
    ensures disk.faults == old(disk.faults) ==> (r.Ok? <==> HeldBy(disk.files, name, passphrase).Some?)
    ensures Main(name) !in disk.files ==> r == Err(NoIdentity)
  {
    var f, err := disk.ReadFile(Main(name));
    if err == NotExist {
      return Err(NoIdentity);
    }
    if err != Fine {
      return Err(Io);
    }
    if name == IdentityAge && passphrase == [] {
      return Err(WrongPassphrase);
    }
    if f.value.Torn? {
      return Err(Io);
    }
    match f.value.data
    case Plain(k) => return if name == IdentityTxt then Ok(k) else Err(Io);
    case Boxed(p, k) =>
      return if name == IdentityTxt then Err(BadKey) else if p == passphrase then Ok(k) else Err(WrongPassphrase);
    case Sealed(_, _) => return if name == IdentityTxt then Err(BadKey) else Err(Io);
  }

  /** load: the identity, provided it has the wanted form. */
  method Load(disk: Disk<Blob>, want: Form, passphrase: bytes) returns (r: Result<Key, Failure>)
    requires want != NoForm
    modifies disk`faults
    ensures disk.faults >= old(disk.faults)
    ensures r.Ok? ==> KeyIn(disk.files, want, passphrase) == Some(r.value)
    ensures disk.faults == old(disk.faults) ==> (r.Ok? <==> KeyIn(disk.files, want, passphrase).Some?)
  {
    var form := Detect(disk);
    if form.Err? {
      return Err(form.error);
    }
    if form.value != want {
      return Err(WrongForm);
    }
    var again := Detect(disk);
    if again.Err? {
      return Err(again.error);
    }
    match again.value
    case NoForm => return Err(NoIdentity);
    case PlainForm => r := LoadFile(disk, IdentityTxt, passphrase);
    case Encrypted => r := LoadFile(disk, IdentityAge, passphrase);
  }

  /** WriteEncrypted. */
  method WriteEncrypted(disk: Disk<Blob>, key: Key, passphrase: bytes) returns (r: Option<Failure>)
    requires disk.Valid()
    modifies disk
    ensures disk.Valid() && old(disk.history) <= disk.history
    ensures AtomicFile.AllSafe(disk.history, |old(disk.history)|, old(disk.files), IdentityAge, Boxed(passphrase, key), true)
    ensures r == None ==> disk.files == AtomicFile.Replaced(old(disk.files), IdentityAge, Boxed(passphrase, key), true)
    ensures disk.faults >= old(disk.faults) && Smoothly(old(disk.setbacks), disk.setbacks, old(disk.files), disk.files)
    ensures disk.faults == old(disk.faults) ==> (r == None <==> passphrase != [])
    ensures passphrase == [] ==> r == Some(EmptyPassphrase) && disk.history == old(disk.history)
  {
    if passphrase == [] {
      return Some(EmptyPassphrase);
    }
    var encrypted := disk.Touch();
    if !encrypted {
      return Some(Io);
    }
    var o, litter := AtomicFile.Write(disk, IdentityAge, Boxed(passphrase, key), true);
    assert o == AtomicFile.Done ==> litter == None;
    return if o == AtomicFile.Done then None else Some(Io);
  }

  /** WritePlain. */
  method WritePlain(disk: Disk<Blob>, key: Key) returns (r: Option<Failure>)
    requires disk.Valid()
    modifies disk
    ensures disk.Valid() && old(disk.history) <= disk.history
    ensures AtomicFile.AllSafe(disk.history, |old(disk.history)|, old(disk.files), IdentityTxt, Plain(key), true)
    ensures r == None ==> disk.files == AtomicFile.Replaced(old(disk.files), IdentityTxt, Plain(key), true)
    ensures disk.faults >= old(disk.faults) && Smoothly(old(disk.setbacks), disk.setbacks, old(disk.files), disk.files)
    ensures disk.faults == old(disk.faults) ==> r == None
  {
    var o, litter := AtomicFile.Write(disk, IdentityTxt, Plain(key), true);
    return if o == AtomicFile.Done then None else Some(Io);
  }

  /** What Init makes of a directory. */
  function Initialised(files: Dir, passphrase: Option<bytes>, key: Key): Dir {
    var with :=
      match passphrase
      case None => AtomicFile.Replaced(files, IdentityTxt, Plain(key), true)
      case Some(p) => AtomicFile.Replaced(files, IdentityAge, Boxed(p, key), true);
    AtomicFile.Replaced(with, VaultAge, Sealed(key, map[]), true)
  }

  /** Init. `generated` is the identity Generate makes; None when it fails. A
      directory that has an identity or a vault is refused and not touched,
      whatever state it is in. The backups are not looked at: a vault sealed
      to `was` that is only in its backup, with its key only in a backup, does
      not survive it. */
  method Init(disk: Disk<Blob>, passphrase: Option<bytes>, generated: Option<Key>, ghost was: Key)
    returns (r: Option<Failure>, ghost k: Key)
    requires disk.Valid()
    modifies disk
    ensures disk.Valid() && old(disk.history) <= disk.history
    ensures Recoverable(old(disk.files)) ==>
              KeyOf(old(disk.files), k) && KeyOf(disk.files, k) && AllKeyOf(disk.history, |old(disk.history)|, k)
    ensures !Bare(old(disk.files)) ==> r.Some? && disk.history == old(disk.history)
    ensures r == None ==>
              && generated == Some(k) && disk.files == Initialised(old(disk.files), passphrase, k)
              && (match passphrase
                  case None => disk.files[Main(IdentityTxt)] == Whole(Plain(k), true) && Main(IdentityAge) !in disk.files
                  case Some(p) => disk.files[Main(IdentityAge)] == Whole(Boxed(p, k), true) && Main(IdentityTxt) !in disk.files)
              && Survives(disk.files, k) && Missing(disk.files) == 0 && Open(disk.files, k) == Ok(map[])
    ensures disk.faults >= old(disk.faults) && Smoothly(old(disk.setbacks), disk.setbacks, old(disk.files), disk.files)
    ensures disk.faults == old(disk.faults) ==>
              (r == None <==> Bare(old(disk.files)) && generated.Some? && passphrase != Some([]))
    ensures Survives(old(disk.files), was) && generated != Some(was) && r == None ==> !Survives(disk.files, was)
    ensures Survives(old(disk.files), was) && disk.faults == old(disk.faults) && generated.Some? && generated != Some(was)
            && passphrase != Some([]) ==>
              (AllSurvive(disk.history, |old(disk.history)|, was) <==> !Bare(old(disk.files)))
  {
    k := was;
    if Recoverable(disk.files) && !KeyOf(disk.files, k) {
      k :| KeyOf(disk.files, k);
    }
    var made := disk.Touch();
    if !made {
      return Some(Io), k;
    }
    var form := Detect(disk);
    if form != Ok(NoForm) {
      return Some(Exists), k;
    }
    var there := disk.Exists(Main(VaultAge));
    if there {
      return Some(Exists), k;
    }
    if generated.None? {
      return Some(Io), k;
    }
    k := generated.value;
    r := FillDirectory(disk, passphrase, generated.value);
  }

  /** The state that two interrupted commands leave behind: a change of the
      vault, then one of the passphrase, each stopped between its renames. */
  function InterruptedTwice(files: Dir): Dir {
    AtomicFile.BackedUp(AtomicFile.BackedUp(files, VaultAge, true), IdentityAge, true)
  }

  /** Any initialised directory with a passphrase can come to it, and Init
      then takes it for a new one, though everything is there in backups. */
  lemma InterruptionsLeaveBackups(files: Dir, k: Key, v: Vault, p: bytes)
    requires Survives(files, k) && Missing(files) == 0 && FormOf(files) == Ok(Encrypted)
    ensures var once := AtomicFile.BackedUp(files, VaultAge, true);
            && AtomicFile.Safe(files, once, VaultAge, Sealed(k, v), true)
            && AtomicFile.Safe(once, InterruptedTwice(files), IdentityAge, Boxed(p, k), true)
            && Survives(once, k) && Missing(once) == 1
    ensures Survives(InterruptedTwice(files), k) && Bare(InterruptedTwice(files))
  {
  }

  /** After that Init, the next change of the vault and the next one of the
      passphrase, no file holds the old key or is sealed to it. */
  lemma BackupsOverwritten(files: Dir, k: Key, other: Key, v: Vault, p: bytes, q: bytes)
    requires Survives(files, k) && FormOf(files) == Ok(Encrypted) && other != k
    requires Main(VaultAge) in files && forall path <- files :: !path.Tmp? && path != Bak(IdentityTxt)
    ensures var made := Initialised(InterruptedTwice(files), Some(p), other);
            var changed := AtomicFile.Replaced(made, VaultAge, Sealed(other, v), true);
            var last := AtomicFile.Replaced(changed, IdentityAge, Boxed(q, other), true);
            && !Survives(made, k)
            && forall path <- last :: !HoldsKey(last, path, k) && !IsSealedTo(last, path, k)
  {
    var left := InterruptedTwice(files);
    forall path <- left ensures path == Bak(VaultAge) || path == Bak(IdentityAge) {
      match path
      case Main(name) => assert name != VaultAge && name != IdentityAge;
      case Bak(name) => assert name != IdentityTxt;
      case Tmp(_, _) => assert false;
    }
    var with := AtomicFile.Replaced(left, IdentityAge, Boxed(p, other), true);
    assert with == left[Main(IdentityAge) := Whole(Boxed(p, other), true)];
    var made := Initialised(left, Some(p), other);
    assert made == with[Main(VaultAge) := Whole(Sealed(other, map[]), true)];
    var changed := AtomicFile.Replaced(made, VaultAge, Sealed(other, v), true);
    assert changed[Bak(VaultAge)] == made[Main(VaultAge)];
    var last := AtomicFile.Replaced(changed, IdentityAge, Boxed(q, other), true);
    assert last[Bak(IdentityAge)] == made[Main(IdentityAge)];
    forall path <- last ensures !HoldsKey(last, path, k) && !IsSealedTo(last, path, k) {
      assert path in {Main(VaultAge), Main(IdentityAge), Bak(VaultAge), Bak(IdentityAge)};
    }
  }

  /** Init's writes into an empty directory: the identity, then the vault. */
  method FillDirectory(disk: Disk<Blob>, passphrase: Option<bytes>, key: Key) returns (r: Option<Failure>)
    requires disk.Valid() && Bare(disk.files)
    modifies disk
    ensures disk.Valid() && old(disk.history) <= disk.history
    ensures KeyOf(disk.files, key) && AllKeyOf(disk.history, |old(disk.history)|, key)
    ensures r == None ==> disk.files == Initialised(old(disk.files), passphrase, key)
    ensures disk.faults >= old(disk.faults) && disk.setbacks >= old(disk.setbacks)
    ensures disk.faults == old(disk.faults) ==> (r == None <==> passphrase != Some([]))
  {
    hide AtomicFile.AllSafe;
    ghost var start, from := disk.files, |disk.history|;
    if passphrase.None? {
      r := WritePlain(disk, key);
      WriteKeepsKey(start, disk.history, from, IdentityTxt, Plain(key), key);
    } else {
      r := WriteEncrypted(disk, key, passphrase.value);
      WriteKeepsKey(start, disk.history, from, IdentityAge, Boxed(passphrase.value, key), key);
    }
    assert KeyOf(disk.files, key);
    if r.Some? {
      return r;
    }
    ghost var middle, between := disk.files, |disk.history|;
    var o, litter := VaultFile.Write(disk, key, map[]);
    WriteKeepsKey(middle, disk.history, between, VaultAge, Sealed(key, map[]), key);
    r := if o == AtomicFile.Done then None else Some(Io);
  }

  /** ChangePassphrase. Any failure before the first rename, a wrong old
      passphrase among them, changes no identity file. */
  method ChangePassphrase(disk: Disk<Blob>, was: bytes, next: bytes, ghost k: Key) returns (r: Option<Failure>)
    requires disk.Valid()
    modifies disk
    ensures disk.Valid() && old(disk.history) <= disk.history
    ensures Keeps(old(disk.files), disk.history, |old(disk.history)| - 1, k)
    ensures disk.faults >= old(disk.faults) && Smoothly(old(disk.setbacks), disk.setbacks, old(disk.files), disk.files)
    ensures var key := KeyIn(old(disk.files), Encrypted, was);
            && (key == None ==> r.Some? && disk.history == old(disk.history))
            && (r == None ==> disk.files == AtomicFile.Replaced(old(disk.files), IdentityAge, Boxed(next, key.value), true))
            && (disk.faults == old(disk.faults) ==> (r == None <==> key.Some? && next != []))
  {
    hide AtomicFile.AllSafe;
    var key := Load(disk, Encrypted, was);
    if key.Err? {
      return Some(key.error);
    }
    ghost var start, from := disk.files, |disk.history|;
    r := WriteEncrypted(disk, key.value, next);
    WriteKeeps(start, disk.history, from, IdentityAge, Boxed(next, key.value), k);
  }

  /** SetPassphrase: identity.txt becomes identity.age. At every step one of
      the two is there. */
  method SetPassphrase(disk: Disk<Blob>, passphrase: bytes, ghost k: Key) returns (r: Option<Failure>)
    requires disk.Valid()
    modifies disk
    ensures disk.Valid() && old(disk.history) <= disk.history
    ensures Keeps(old(disk.files), disk.history, |old(disk.history)| - 1, k)
    ensures disk.faults >= old(disk.faults) && Smoothly(old(disk.setbacks), disk.setbacks, old(disk.files), disk.files)
    ensures HasIdentity(old(disk.files)) ==> AllHaveIdentity(disk.history, |old(disk.history)|)
    ensures var key := KeyIn(old(disk.files), PlainForm, []);
            && (key == None ==> r.Some? && disk.history == old(disk.history))
            && (r == None ==>
                  disk.files == AtomicFile.Replaced(old(disk.files), IdentityAge, Boxed(passphrase, key.value), true) - {Main(IdentityTxt)})
            && (disk.faults == old(disk.faults) ==> (r == None <==> key.Some? && passphrase != []))
  {
    hide AtomicFile.AllSafe, Keeps;
    var key := Load(disk, PlainForm, []);
    StartKeeps(disk.files, disk.history, k);
    if key.Err? {
      return Some(key.error);
    }
    ghost var start, from := disk.files, |disk.history|;
    r := WriteEncrypted(disk, key.value, passphrase);
    WriteKeeps(start, disk.history, from, IdentityAge, Boxed(passphrase, key.value), k);
    SafeKeepsOther(start, disk.history, from, IdentityAge, Boxed(passphrase, key.value), IdentityTxt);
    if r.Some? {
      return;
    }
    RemoveKeeps(start, disk.history, from - 1, IdentityTxt, IdentityAge, k);
    var err := disk.Remove(Main(IdentityTxt));
    r := if err == Fine then None else Some(Io);
  }

  /** RemovePassphrase, in the same write-then-remove order. */
  method RemovePassphrase(disk: Disk<Blob>, passphrase: bytes, ghost k: Key) returns (r: Option<Failure>)
    requires disk.Valid()
    modifies disk
    ensures disk.Valid() && old(disk.history) <= disk.history
    ensures Keeps(old(disk.files), disk.history, |old(disk.history)| - 1, k)
    ensures disk.faults >= old(disk.faults) && Smoothly(old(disk.setbacks), disk.setbacks, old(disk.files), disk.files)
    ensures HasIdentity(old(disk.files)) ==> AllHaveIdentity(disk.history, |old(disk.history)|)
    ensures var key := KeyIn(old(disk.files), Encrypted, passphrase);
            && (key == None ==> r.Some? && disk.history == old(disk.history))
            && (r == None ==>
                  disk.files == AtomicFile.Replaced(old(disk.files), IdentityTxt, Plain(key.value), true) - {Main(IdentityAge)})
            && (disk.faults == old(disk.faults) ==> (r == None <==> key.Some?))
  {
    hide AtomicFile.AllSafe, Keeps;
    var key := Load(disk, Encrypted, passphrase);
    StartKeeps(disk.files, disk.history, k);
    if key.Err? {
      return Some(key.error);
    }
    ghost var start, from := disk.files, |disk.history|;
    r := WritePlain(disk, key.value);
    WriteKeeps(start, disk.history, from, IdentityTxt, Plain(key.value), k);
    SafeKeepsOther(start, disk.history, from, IdentityTxt, Plain(key.value), IdentityAge);
    if r.Some? {
      return;
    }
    RemoveKeeps(start, disk.history, from - 1, IdentityAge, IdentityTxt, k);
    var err := disk.Remove(Main(IdentityAge));
    r := if err == Fine then None else Some(Io);
  }

  /** Writing one identity file leaves the other in place throughout. */
  lemma SafeKeepsOther(was: Dir, history: seq<Dir>, from: nat, name: Name, data: Blob, other: Name)
    requires other != name && Main(other) in was
    requires AtomicFile.AllSafe(history, from, was, name, data, true)
    ensures forall i :: from <= i < |history| ==> Main(other) in history[i] && history[i][Main(other)] == was[Main(other)]
  {
    forall i | from <= i < |history|
      ensures Main(other) in history[i] && history[i][Main(other)] == was[Main(other)]
    {
      assert AtomicFile.Safe(was, history[i], name, data, true);
    }
  }

  /** A change of the vault as the daemon makes it: what is written back is
      sealed to the key that opened it. */
  method UpdateVault(disk: Disk<Blob>, held: Key, v: Vault, ghost k: Key) returns (r: Result<Vault, Error>)
    requires disk.Valid()
    modifies disk
    ensures disk.Valid() && old(disk.history) <= disk.history
    ensures Keeps(old(disk.files), disk.history, |old(disk.history)| - 1, k)
    ensures disk.faults >= old(disk.faults) && Smoothly(old(disk.setbacks), disk.setbacks, old(disk.files), disk.files)
    ensures Open(old(disk.files), held).Err? ==> r.Err? && disk.history == old(disk.history)
    ensures r.Ok? ==> disk.files == AtomicFile.Replaced(old(disk.files), VaultAge, Sealed(held, v), true)
    ensures disk.faults == old(disk.faults) ==> (r.Ok? <==> Open(old(disk.files), held).Ok?)
  {
    hide AtomicFile.AllSafe;
    r := VaultFile.Read(disk, held);
    if r.Err? {
      return;
    }
    ghost var start, from := disk.files, |disk.history|;
    var o, litter := VaultFile.Write(disk, held, v);
    WriteKeeps(start, disk.history, from, VaultAge, Sealed(held, v), k);
    r := if o == AtomicFile.Done then Ok(v) else Err(Broken);
  }

  /** Any life of a data directory: `steps` commands of any kind in any order
      from any state, each of which may fail anywhere, with a crash after any
      of them in any state it went through. Where the vault is under its own
      name, its key can be had. A vault that is there at first with its key
      survives in every state up to one in which both an identity and
      vault.age are absent, and through the whole life if all was in place at
      first and at most one crash or failed rename came in between. */
  method AnyLife(disk: Disk<Blob>, steps: nat, ghost k: Key)
    requires disk.Valid() && |disk.history| == 1
    modifies disk
    ensures disk.Valid() && old(disk.history) <= disk.history
    ensures Recoverable(old(disk.files)) ==> forall i :: 0 <= i < |disk.history| ==> Recoverable(disk.history[i])
    ensures Survives(old(disk.files), k) ==>
              forall j :: 0 <= j < |disk.history| && NeverBare(disk.history, j) ==> Survives(disk.history[j], k)
    ensures Survives(old(disk.files), k) && Missing(old(disk.files)) == 0 && disk.setbacks <= old(disk.setbacks) + 1 ==>
              AllSurvive(disk.history, 0, k)
  {
    ghost var before, setbacks := disk.files, disk.setbacks;
    for step := 0 to steps
      invariant disk.Valid() && old(disk.history) <= disk.history
      invariant Recoverable(before) ==> AllRecoverable(disk.history, 0)
      invariant Survives(before, k) ==> SurvivesUntilBare(disk.history, k)
      invariant setbacks <= disk.setbacks && Missing(disk.files) <= Missing(before) + disk.setbacks - setbacks
      invariant Survives(before, k) && Missing(before) == 0 && disk.setbacks <= setbacks + 1 ==> AllSurvive(disk.history, 0, k)
    {
      ghost var so_far := disk.history;
      CommandOrCrash(disk, k);
      if Recoverable(before) {
        assert Recoverable(so_far[|so_far| - 1]);
        JoinRecoverable(so_far, disk.history);
      }
      if Survives(before, k) {
        JoinSurvives(so_far, disk.history, k);
      }
    }
  }

  ghost predicate AllRecoverable(history: seq<Dir>, from: nat) {
    forall i :: from <= i < |history| ==> Recoverable(history[i])
  }

  ghost predicate SurvivesUntilBare(history: seq<Dir>, k: Key) {
    forall j :: 0 <= j < |history| && NeverBare(history, j) ==> Survives(history[j], k)
  }

  lemma JoinRecoverable(history: seq<Dir>, longer: seq<Dir>)
    requires history <= longer && AllRecoverable(history, 0) && AllRecoverable(longer, |history|)
    ensures AllRecoverable(longer, 0)
  {
    forall i | 0 <= i < |longer| ensures Recoverable(longer[i]) {
      assert i < |history| ==> longer[i] == history[i];
    }
  }

  lemma JoinSurvives(history: seq<Dir>, longer: seq<Dir>, k: Key)
    requires history != [] && history <= longer && SurvivesUntilBare(history, k)
    requires !Bare(history[|history| - 1]) && Survives(history[|history| - 1], k) ==> AllSurvive(longer, |history|, k)
    ensures SurvivesUntilBare(longer, k)
  {
    var last := |history| - 1;
    forall j | 0 <= j < |longer| && NeverBare(longer, j) ensures Survives(longer[j], k) {
      assert forall i :: 0 <= i < |history| ==> longer[i] == history[i];
      if j < |history| {
        assert NeverBare(history, j);
      } else {
        assert NeverBare(history, last);
        assert !Bare(longer[last]);
      }
    }
  }

  /** One command, and perhaps a crash in a state it went through. */
  method CommandOrCrash(disk: Disk<Blob>, ghost k: Key)
    requires disk.Valid()
    modifies disk
    ensures disk.Valid() && old(disk.history) <= disk.history
    ensures Recoverable(old(disk.files)) ==> AllRecoverable(disk.history, |old(disk.history)|)
    ensures Survives(old(disk.files), k) && !Bare(old(disk.files)) ==> AllSurvive(disk.history, |old(disk.history)|, k)
    ensures old(disk.setbacks) <= disk.setbacks
    ensures Missing(disk.files) <= Missing(old(disk.files)) + disk.setbacks - old(disk.setbacks)
  {
    var mark := |disk.history| - 1;
    ghost var start := disk.files;
    ghost var key := AnyCommand(disk, k);
    var crash: bool := *;
    if crash {
      ghost var states := disk.history;
      var at, lost := disk.Crash(mark);
      assert at < |old(disk.history)| ==> states[at] == start;
      if Recoverable(start) {
        CrashKeepsKey(states[at], lost, key);
      }
      if Survives(start, k) && !Bare(start) {
        CrashKeepsKey(states[at], lost, k);
      }
    }
  }

  /** One command, chosen and given its arguments arbitrarily. */
  method AnyCommand(disk: Disk<Blob>, ghost k: Key) returns (ghost key: Key)
    requires disk.Valid()
    modifies disk
    ensures disk.Valid() && old(disk.history) <= disk.history
    ensures Recoverable(old(disk.files)) ==> KeyOf(disk.files, key) && AllKeyOf(disk.history, |old(disk.history)| - 1, key)
    ensures Survives(old(disk.files), k) && !Bare(old(disk.files)) ==> AllSurvive(disk.history, |old(disk.history)| - 1, k)
    ensures AllMissing(disk.history, |old(disk.history)| - 1, Missing(old(disk.files)) + 1)
    ensures Smoothly(old(disk.setbacks), disk.setbacks, old(disk.files), disk.files)
  {
    var which: int := *;
    var p: bytes, q: bytes, opt: Option<bytes>, generated: Option<Key> := *, *, *, *;
    key := k;
    if Recoverable(disk.files) && !KeyOf(disk.files, k) {
      key :| KeyOf(disk.files, key);
    }
    if which == 0 {
      var r;
      r, key := Init(disk, opt, generated, key);
    } else if which == 1 {
      var r := ChangePassphrase(disk, p, q, key);
    } else if which == 2 {
      var r := SetPassphrase(disk, p, key);
    } else if which == 3 {
      var r := RemovePassphrase(disk, p, key);
    } else {
      var held: Key := *;
      var v: Vault := *;
      var r := UpdateVault(disk, held, v, key);
    }
  }
}

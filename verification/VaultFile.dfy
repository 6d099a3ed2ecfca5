/** The encrypted vault file. Encryption is a constructor: what is sealed to a
    recipient opens with that key and no other. */
module VaultFile {
  import opened Bytes
  import opened Disks
  import opened Vaults
  import AtomicFile

  /** An X25519 identity, and the recipient that goes with it. */
  datatype Key = Key(id: nat)

  /** What a whole file of the data directory holds. */
  datatype Blob =
    | Sealed(recipient: Key, vault: Vault)    // vault.age
    | Boxed(passphrase: bytes, key: Key)      // identity.age
    | Plain(key: Key)                         // identity.txt

  type Dir = Files<Blob>

  /** Reading the vault when the disk works. */
  function Open(files: Dir, id: Key): (r: Result<Vault, Error>)
    ensures r.Err? ==> r.error == NoVault || r.error == WrongIdentity || r.error == Broken
  {
    if Main(VaultAge) !in files then Err(NoVault)
    else
      match files[Main(VaultAge)]
      case Whole(Sealed(recipient, v), _) => if recipient == id then Ok(v) else Err(WrongIdentity)
      case _ => Err(Broken)
  }

  /** vault.Read. */
  method Read(disk: Disk<Blob>, id: Key) returns (r: Result<Vault, Error>)
    modifies disk`faults
    ensures disk.faults >= old(disk.faults)
    ensures disk.faults == old(disk.faults) ==> r == Open(disk.files, id)
    ensures disk.faults != old(disk.faults) ==> r == Err(Broken) && Main(VaultAge) in disk.files
  {
    var f, err := disk.ReadFile(Main(VaultAge));
    if err == NotExist {
      return Err(NoVault);
    }
    if err != Fine || f.value.Torn? || !f.value.data.Sealed? {
      return Err(Broken);
    }
    if f.value.data.recipient != id {
      return Err(WrongIdentity);
    }
    return Ok(f.value.data.vault);
  }

  /** vault.Write: encoding or encrypting can fail before any file changes. */
  method Write(disk: Disk<Blob>, id: Key, v: Vault) returns (o: AtomicFile.Outcome, litter: Option<Path>)
    requires disk.Valid()
    modifies disk
    ensures disk.Valid() && old(disk.history) <= disk.history
    ensures AtomicFile.AllSafe(disk.history, |old(disk.history)|, old(disk.files), VaultAge, Sealed(id, v), true)
    ensures litter.Some? ==> AtomicFile.Early(o) || o == AtomicFile.AtRename
    ensures litter.Some? ==> litter.value.Tmp? && litter.value.name == VaultAge && litter.value !in old(disk.files)
    ensures litter.Some? ==> litter.value in disk.stuck
    ensures disk.faults == old(disk.faults) <==> o == AtomicFile.Done
    ensures disk.faults >= old(disk.faults)
    ensures disk.setbacks ==
            old(disk.setbacks) + if o == AtomicFile.AtBackup || o == AtomicFile.AtRename then 1 else 0
    ensures AtomicFile.WithoutLitter(disk.files, litter) ==
            if AtomicFile.Early(o) then old(disk.files)
            else if o == AtomicFile.AtRename then AtomicFile.BackedUp(old(disk.files), VaultAge, true)
            else AtomicFile.Replaced(old(disk.files), VaultAge, Sealed(id, v), true)
  {
    var encrypted := disk.Touch();
    if !encrypted {
      return AtomicFile.AtCreate, None;
    }
    o, litter := AtomicFile.Write(disk, VaultAge, Sealed(id, v), true);
  }
}

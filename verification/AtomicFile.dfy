/** Replacing a file so that neither a reader nor a crash ever sees a partial
    one: temporary file, fsync, rename, fsync of the directory. */
module AtomicFile {
  import opened Bytes
  import opened Disks

  /** Where a write stopped. */
  datatype Outcome = Done | AtCreate | AtChmod | AtWrite | AtSync | AtClose | AtBackup | AtRename | AtSyncDir

  /** Failures before anything but the temporary file has been touched. */
  predicate Early(o: Outcome) {
    o != Done && o != AtRename && o != AtSyncDir
  }

  /** What may be on the disk at any moment of a write of `data` to `name`
      that started in state `was`. */
  ghost predicate Safe<D>(was: Files<D>, now: Files<D>, name: Name, data: D, backup: bool) {
    var p, b := Main(name), Bak(name);
    // complete old content, complete new content, or absent: never partial
    && (p in now ==> now[p] == Whole(data, true) || (p in was && now[p] == was[p]))
    // absent only if it never was there or the backup holds it
    && (p !in now && p in was ==> backup && b in now && now[b] == was[p])
    // the backup is the old content or the old backup
    && (b in now ==> (p in was && backup && now[b] == was[p]) || (b in was && now[b] == was[b]))
    && (b in was ==> b in now)
    // nothing else changes but temporary files of this name
    && (forall q: Path :: q != p && q != b && !(q.Tmp? && q.name == name) ==>
          (q in now <==> q in was) && (q in was ==> now[q] == was[q]))
  }

  /** All states from position `from` of the history on are safe. */
  ghost predicate AllSafe<D>(history: seq<Files<D>>, from: nat, was: Files<D>, name: Name, data: D, backup: bool) {
    forall i :: from <= i < |history| ==> Safe(was, history[i], name, data, backup)
  }

  /** The state between the two renames; also the one a failed second rename
      leaves behind. */
  function BackedUp<D>(was: Files<D>, name: Name, backup: bool): Files<D> {
    if backup && Main(name) in was then Renamed(was, Main(name), Bak(name)) else was
  }

  /** The state a write ends in when every step works. */
  function Replaced<D>(was: Files<D>, name: Name, data: D, backup: bool): Files<D> {
    BackedUp(was, name, backup)[Main(name) := Whole(data, true)]
  }

  /** The file and its backup, where present, are whole and on the medium. */
  predicate Stable<D>(files: Files<D>, name: Name) {
    && (Main(name) in files ==> files[Main(name)].Whole? && files[Main(name)].synced)
    && (Bak(name) in files ==> files[Bak(name)].Whole? && files[Bak(name)].synced)
  }

  /** Whatever a crash tears in such a state, the file and its backup come
      through: a reader sees the old content, the new content, or no file and
      the old content in the backup. */
  lemma CrashKeepsFile<D>(was: Files<D>, now: Files<D>, name: Name, data: D, backup: bool, lost: set<Path>)
    requires Stable(was, name) && Safe(was, now, name, data, backup)
    ensures var up := AfterCrash(now, lost);
            && Stable(up, name)
            && (Main(name) in up ==> up[Main(name)].data == data || (Main(name) in was && up[Main(name)] == was[Main(name)]))
            && (Main(name) !in up && Main(name) in was ==> Bak(name) in up && up[Bak(name)] == was[Main(name)])
  {
    var up := AfterCrash(now, lost);
    assert Main(name) in up <==> Main(name) in now;
    assert Bak(name) in up <==> Bak(name) in now;
  }

  /** States that differ from `was` only in temporary files of `name`. */
  ghost predicate Scratch<D>(was: Files<D>, now: Files<D>, name: Name) {
    forall q: Path :: !(q.Tmp? && q.name == name) ==> (q in now <==> q in was) && (q in was ==> now[q] == was[q])
  }

  ghost predicate AllScratch<D>(history: seq<Files<D>>, from: nat, was: Files<D>, name: Name) {
    forall i :: from <= i < |history| ==> Scratch(was, history[i], name)
  }

  /** The steps up to closing the temporary file. */
  method Prepare<D>(disk: Disk<D>, name: Name, data: D) returns (o: Outcome, tmp: Path, litter: Option<Path>)
    requires disk.Valid()
    modifies disk
    ensures disk.Valid() && old(disk.history) <= disk.history
    ensures AllScratch(disk.history, |old(disk.history)|, old(disk.files), name)
    ensures tmp.Tmp? && tmp.name == name
    ensures o == Done || (Early(o) && o != AtBackup)
    ensures o == Done ==> litter == None && tmp !in old(disk.files) && disk.files == old(disk.files)[tmp := Whole(data, true)]
    ensures o != Done && litter == None ==> disk.files == old(disk.files)
    ensures o != Done && litter.Some? ==>
              && litter.value == tmp && tmp !in old(disk.files) && disk.files - {tmp} == old(disk.files)
              && tmp in disk.stuck
    ensures disk.faults == old(disk.faults) <==> o == Done
    ensures disk.faults >= old(disk.faults)
    ensures disk.setbacks == old(disk.setbacks)
  {
    ghost var start := disk.files;
    var err;
    tmp, err := disk.CreateTemp(name);
    if err != Fine {
      return AtCreate, tmp, None;
    }
    litter := None;
    o := Fill(disk, tmp, data, start);
    if o != Done {
      litter := Cleanup(disk, tmp, start);
    }
  }

  /** chmod, write, fsync and close of the temporary file. */
  method Fill<D>(disk: Disk<D>, tmp: Path, data: D, ghost start: Files<D>) returns (o: Outcome)
    requires disk.Valid() && tmp.Tmp? && tmp !in start && disk.files == start[tmp := Torn]
    modifies disk
    ensures disk.Valid() && old(disk.history) <= disk.history
    ensures AllScratch(disk.history, |old(disk.history)|, start, tmp.name)
    ensures o == Done || (Early(o) && o != AtBackup && o != AtCreate)
    ensures tmp in disk.files && disk.files == start[tmp := disk.files[tmp]]
    ensures o == Done ==> disk.files[tmp] == Whole(data, true)
    ensures disk.faults == old(disk.faults) + if o == Done then 0 else 1
    ensures disk.setbacks == old(disk.setbacks)
  {
    var ok := disk.Touch();
    if !ok {
      return AtChmod;
    }
    ok := disk.WriteAll(tmp, data);
    if !ok {
      return AtWrite;
    }
    ok := disk.Sync(tmp);
    if !ok {
      return AtSync;
    }
    ok := disk.Touch();
    return if ok then Done else AtClose;
  }

  /** atomicfile.Write. `litter` is the temporary file when its removal
      after a failure has failed too. */
  method Write<D>(disk: Disk<D>, name: Name, data: D, backup: bool) returns (o: Outcome, litter: Option<Path>)
    requires disk.Valid()
    modifies disk
    ensures disk.Valid() && old(disk.history) <= disk.history
    ensures AllSafe(disk.history, |old(disk.history)|, old(disk.files), name, data, backup)
    ensures litter.Some? ==> Early(o) || o == AtRename
    ensures litter.Some? ==> litter.value.Tmp? && litter.value.name == name && litter.value !in old(disk.files)
    ensures litter.Some? ==> litter.value in disk.stuck
    ensures disk.faults == old(disk.faults) <==> o == Done
    ensures disk.faults >= old(disk.faults)
    ensures disk.setbacks == old(disk.setbacks) + if o == AtBackup || o == AtRename then 1 else 0
    ensures WithoutLitter(disk.files, litter) ==
            if Early(o) then old(disk.files)
            else if o == AtRename then BackedUp(old(disk.files), name, backup)
            else Replaced(old(disk.files), name, data, backup)
  {
    ghost var start, from := disk.files, |disk.history|;
    var tmp;
    o, tmp, litter := Prepare(disk, name, data);
    ScratchIsSafe(disk.history, from, start, name, data, backup);
    if o == Done {
      o, litter := Swap(disk, tmp, name, data, backup, start);
    }
  }

  /** The renames that put the finished temporary file in place. */
  method Swap<D>(disk: Disk<D>, tmp: Path, name: Name, data: D, backup: bool, ghost start: Files<D>)
    returns (o: Outcome, litter: Option<Path>)
    requires disk.Valid() && tmp.Tmp? && tmp.name == name && tmp !in start
    requires disk.files == start[tmp := Whole(data, true)]
    modifies disk
    ensures disk.Valid() && old(disk.history) <= disk.history
    ensures AllSafe(disk.history, |old(disk.history)|, start, name, data, backup)
    ensures o == Done || o == AtBackup || o == AtRename || o == AtSyncDir
    ensures litter.Some? ==> litter.value == tmp && tmp in disk.stuck && (o == AtBackup || o == AtRename)
    ensures disk.faults == old(disk.faults) <==> o == Done
    ensures disk.faults >= old(disk.faults)
    ensures disk.setbacks == old(disk.setbacks) + if o == AtBackup || o == AtRename then 1 else 0
    ensures WithoutLitter(disk.files, litter) ==
            if o == AtBackup then start
            else if o == AtRename then BackedUp(start, name, backup)
            else Replaced(start, name, data, backup)
  {
    o := Done;
    litter := None;
    SwapSafe(start, tmp, name, data, backup);
    if backup {
      o := MoveAside(disk, tmp, name, data, start);
    }
    if o != Done {
      litter := Cleanup(disk, tmp, start);
      return;
    }
    o, litter := PutInPlace(disk, tmp, name, data, BackedUp(start, name, backup));
  }

  /** The final rename and the fsync of the directory. */
  method PutInPlace<D>(disk: Disk<D>, tmp: Path, name: Name, data: D, ghost moved: Files<D>)
    returns (o: Outcome, litter: Option<Path>)
    requires disk.Valid() && tmp.Tmp? && tmp !in moved && disk.files == moved[tmp := Whole(data, true)]
    modifies disk
    ensures disk.Valid() && old(disk.history) <= disk.history
    ensures forall i :: |old(disk.history)| <= i < |disk.history| ==>
              disk.history[i] == moved || disk.history[i] == moved[Main(name) := Whole(data, true)]
    ensures o == Done || o == AtRename || o == AtSyncDir
    ensures litter.Some? ==> litter.value == tmp && tmp in disk.stuck && o == AtRename
    ensures disk.faults == old(disk.faults) <==> o == Done
    ensures disk.faults >= old(disk.faults)
    ensures disk.setbacks == old(disk.setbacks) + if o == AtBackup || o == AtRename then 1 else 0
    ensures WithoutLitter(disk.files, litter) == if o == AtRename then moved else moved[Main(name) := Whole(data, true)]
  {
    assert moved[tmp := Whole(data, true)] - {tmp} == moved;
    var err := disk.Rename(tmp, Main(name));
    if err != Fine {
      litter := Cleanup(disk, tmp, moved);
      return AtRename, litter;
    }
    var ok := disk.Touch();
    return if ok then Done else AtSyncDir, None;
  }

  lemma SwapSafe<D>(start: Files<D>, tmp: Path, name: Name, data: D, backup: bool)
    requires tmp.Tmp? && tmp.name == name && tmp !in start
    ensures var moved := BackedUp(start, name, backup);
            && Safe(start, moved, name, data, backup)
            && Renamed(moved[tmp := Whole(data, true)], tmp, Main(name)) == Replaced(start, name, data, backup)
            && Safe(start, Replaced(start, name, data, backup), name, data, backup)
  {
    var moved := BackedUp(start, name, backup);
    assert tmp !in moved;
    assert moved[tmp := Whole(data, true)] - {tmp} == moved;
  }

  /** The rename to the backup; a file that does not exist has none. */
  method MoveAside<D>(disk: Disk<D>, tmp: Path, name: Name, data: D, ghost start: Files<D>) returns (o: Outcome)
    requires disk.Valid() && tmp.Tmp? && tmp.name == name && tmp !in start
    requires disk.files == start[tmp := Whole(data, true)]
    modifies disk
    ensures disk.Valid() && old(disk.history) <= disk.history
    ensures AllSafe(disk.history, |old(disk.history)|, start, name, data, true)
    ensures o == Done || o == AtBackup
    ensures disk.faults == old(disk.faults) + if o == Done then 0 else 1
    ensures disk.setbacks == old(disk.setbacks) + if o == AtBackup || o == AtRename then 1 else 0
    ensures disk.files == (if o == Done then BackedUp(start, name, true) else start)[tmp := Whole(data, true)]
  {
    var err := disk.Rename(Main(name), Bak(name));
    assert err != Failed ==> disk.files == BackedUp(start, name, true)[tmp := Whole(data, true)];
    return if err == Failed then AtBackup else Done;
  }

  function WithoutLitter<D>(files: Files<D>, litter: Option<Path>): Files<D> {
    if litter.Some? then files - {litter.value} else files
  }

  lemma ScratchIsSafe<D>(history: seq<Files<D>>, from: nat, was: Files<D>, name: Name, data: D, backup: bool)
    requires AllScratch(history, from, was, name)
    ensures AllSafe(history, from, was, name, data, backup)
  {
  }

  /** os.Remove of the temporary file, its own failure ignored. */
  method Cleanup<D>(disk: Disk<D>, tmp: Path, ghost rest: Files<D>) returns (litter: Option<Path>)
    requires disk.Valid() && tmp in disk.files && tmp !in rest
    requires disk.files == rest[tmp := disk.files[tmp]]
    modifies disk
    ensures disk.Valid()
    ensures litter == None ==> disk.files == rest && disk.history == old(disk.history) + [rest]
    ensures litter.Some? ==> litter.value == tmp && disk.files == old(disk.files) && disk.history == old(disk.history)
    ensures litter.Some? ==> disk.files - {tmp} == rest && tmp in disk.stuck
    ensures disk.faults == old(disk.faults) + if litter == None then 0 else 1
    ensures disk.setbacks == old(disk.setbacks)
  {
    assert disk.files - {tmp} == rest;
    var err := disk.Remove(tmp);
    litter := if err == Fine then None else Some(tmp);
  }
}

/** A directory of files as the program sees it through system calls. Every
    call may fail, and the disk remembers each state it has been in, because
    a crash can happen in any of them. */
module Disks {
  import opened Bytes

  /** The files of the data directory: vault.age, identity.age, identity.txt. */
  datatype Name = VaultAge | IdentityAge | IdentityTxt

  /** A file, its backup (the name with .bak appended), and the temporary
      files made for it. */
  datatype Path = Main(name: Name) | Bak(name: Name) | Tmp(name: Name, k: nat)

  /** A file holds part of what was meant to be in it, or all of it, forced
      to the medium or not yet. */
  datatype File<+D> = Torn | Whole(data: D, synced: bool)

  datatype Errno = Fine | NotExist | Failed

  type Files<D> = map<Path, File<D>>

  function Renamed<D>(files: Files<D>, p: Path, q: Path): Files<D>
    requires p in files
  {
    (files - {p})[q := files[p]]
  }

  /** What a crash leaves of a state: of the files in `lost`, those not forced
      to the medium are torn. */
  function AfterCrash<D>(files: Files<D>, lost: set<Path>): Files<D> {
    map p | p in files :: if p in lost && files[p].Whole? && !files[p].synced then Torn else files[p]
  }

  class Disk<D(==)> {
    var files: Files<D>
    /** Every state since the disk was opened, the current one last. */
    var history: seq<Files<D>>
    /** The paths that could not be removed. */
    ghost var stuck: set<Path>
    /** How many calls have failed though nothing stood against them. */
    ghost var faults: nat
    /** How many of them were renames, and how many crashes there have been. */
    ghost var setbacks: nat

    ghost predicate Valid()
      reads this`files, this`history
    {
      history != [] && history[|history| - 1] == files
    }

    constructor (files: Files<D>)
      ensures Valid() && this.files == files && history == [files] && stuck == {} && faults == 0 && setbacks == 0
    {
      this.files := files;
      history := [files];
      stuck := {};
      faults, setbacks := 0, 0;
    }

    method Become(next: Files<D>)
      requires Valid()
      modifies this`files, this`history
      ensures Valid() && files == next && history == old(history) + [files]
    {
      files := next;
      history := history + [next];
    }

    /** os.CreateTemp: an empty file under a name not yet taken. */
    method CreateTemp(name: Name) returns (tmp: Path, err: Errno)
      requires Valid()
      modifies this`files, this`history, this`faults
      ensures Valid() && tmp.Tmp? && tmp.name == name
      ensures err == Fine ==>
                tmp !in old(files) && files == old(files)[tmp := Torn] && history == old(history) + [files]
      ensures err != Fine ==> files == old(files) && history == old(history)
      ensures faults == old(faults) + if err == Fine then 0 else 1
    {
      var k: int := *;
      var ok: bool := *;
      tmp := Tmp(name, if k < 0 then 0 else k);
      if !ok || tmp in files {
        faults := faults + 1;
        return tmp, Failed;
      }
      Become(files[tmp := Torn]);
      err := Fine;
    }

    /** chmod, close, fsync of a directory: may fail, changes no content. */
    method Touch() returns (ok: bool)
      modifies this`faults
      ensures faults == old(faults) + if ok then 0 else 1
    {
      ok := *;
      if !ok {
        faults := faults + 1;
      }
    }

    /** write: when it fails, only part of the data may be there. */
    method WriteAll(p: Path, data: D) returns (ok: bool)
      requires Valid() && p in files
      modifies this`files, this`history, this`faults
      ensures Valid() && history == old(history) + [files]
      ensures files == old(files)[p := if ok then Whole(data, false) else Torn]
      ensures faults == old(faults) + if ok then 0 else 1
    {
      ok := *;
      if !ok {
        faults := faults + 1;
      }
      Become(files[p := if ok then Whole(data, false) else Torn]);
    }

    /** fsync. */
    method Sync(p: Path) returns (ok: bool)
      requires Valid() && p in files && files[p].Whole?
      modifies this`files, this`history, this`faults
      ensures Valid()
      ensures ok ==> files == old(files)[p := Whole(old(files)[p].data, true)] && history == old(history) + [files]
      ensures !ok ==> files == old(files) && history == old(history)
      ensures faults == old(faults) + if ok then 0 else 1
    {
      ok := *;
      if ok {
        Become(files[p := Whole(files[p].data, true)]);
      } else {
        faults := faults + 1;
      }
    }

    /** rename, replacing the target. */
    method Rename(p: Path, q: Path) returns (err: Errno)
      requires Valid() && p != q
      modifies this`files, this`history, this`faults, this`setbacks
      ensures Valid()
      ensures err == Fine ==>
                p in old(files) && files == Renamed(old(files), p, q) && history == old(history) + [files]
      ensures err == NotExist <==> p !in old(files)
      ensures err != Fine ==> files == old(files) && history == old(history)
      ensures faults == old(faults) + if err == Failed then 1 else 0
      ensures setbacks == old(setbacks) + if err == Failed then 1 else 0
    {
      if p !in files {
        return NotExist;
      }
      var ok: bool := *;
      if !ok {
        faults, setbacks := faults + 1, setbacks + 1;
        return Failed;
      }
      Become(Renamed(files, p, q));
      err := Fine;
    }

    /** unlink. A failure leaves the file, and is remembered. */
    method Remove(p: Path) returns (err: Errno)
      requires Valid()
      modifies this`files, this`history, this`faults, this`stuck
      ensures Valid()
      ensures err == Fine ==> p in old(files) && files == old(files) - {p} && history == old(history) + [files]
      ensures err == NotExist <==> p !in old(files)
      ensures err != Fine ==> files == old(files) && history == old(history)
      ensures faults == old(faults) + if err == Failed then 1 else 0
      ensures stuck == if err == Failed then old(stuck) + {p} else old(stuck)
    {
      if p !in files {
        return NotExist;
      }
      var ok: bool := *;
      if !ok {
        faults, stuck := faults + 1, stuck + {p};
        return Failed;
      }
      Become(files - {p});
      err := Fine;
    }

    /** stat as `exists` uses it: any error but "not exist" counts as there. */
    method Exists(p: Path) returns (there: bool)
      modifies this`faults
      ensures p in files ==> there
      ensures faults == old(faults) + if there && p !in files then 1 else 0
    {
      if p in files {
        return true;
      }
      there := *;
      if there {
        faults := faults + 1;
      }
    }

    /** Reading a file, which may fail. */
    method ReadFile(p: Path) returns (f: Option<File<D>>, err: Errno)
      modifies this`faults
      ensures err == Fine <==> f.Some?
      ensures f.Some? ==> p in files && f.value == files[p]
      ensures err == NotExist <==> p !in files
      ensures faults == old(faults) + if err == Failed then 1 else 0
    {
      if p !in files {
        return None, NotExist;
      }
      var ok: bool := *;
      if ok {
        return Some(files[p]), Fine;
      }
      faults := faults + 1;
      return None, Failed;
    }

    /** The machine stops in state `at` of the history, no earlier than
        `from`, and comes up again. */
    method Crash(from: nat) returns (at: nat, lost: set<Path>)
      requires Valid() && from < |history|
      modifies this`files, this`history, this`setbacks
      ensures Valid() && history == old(history) + [files]
      ensures setbacks == old(setbacks) + 1
      ensures from <= at < |old(history)| && files == AfterCrash(old(history)[at], lost)
    {
      var i: int := *;
      at := if from <= i < |history| then i else from;
      lost := *;
      setbacks := setbacks + 1;
      Become(AfterCrash(history[at], lost));
    }
  }
}

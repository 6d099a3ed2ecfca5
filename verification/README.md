# keycell, modelled and proved in Dafny

keycell keeps secrets in one encrypted file. A daemon holds the key in locked
memory while unlocked, serves requests over newline-framed JSON, and lends its
secrets to git, docker and programs started with `keycell exec`. This project
models the parts of it where an error would lose or leak a secret, and proves
what they promise, for every input, every schedule, every failure and every
crash point.

| file | what it models |
|---|---|
| `Bytes.dfy`, `Utf8.dfy` | byte strings, their order, sorted listings; UTF-8 (sections 3 and 4 of RFC 3629) |
| `Framing.dfy` | the reader of the wire protocol: buffer growth, newline framing, zeroing |
| `JsonString.dfy` | the docker helper's hand-written JSON string printer and parser (section 7 of RFC 8259, section 2.2 of RFC 2781) |
| `Disk.dfy`, `AtomicFile.dfy` | a directory whose calls may fail and that may crash in every state; atomic replacement of a file |
| `VaultFile.dfy`, `Identity.dfy` | the sealed vault file; init and the three passphrase commands |
| `Vault.dfy`, `Store.dfy`, `Client.dfy` | valid secrets and the operations on them; the daemon's store; the store as clients see it through JSON and lines of limited length |
| `Session.dfy`, `Durations.dfy` | the lock state with buffers, timers and generations; the auto-lock duration in 64-bit arithmetic |
| `Daemon.dfy`, `DaemonInvariants.dfy`, `DaemonSteps.dfy`, `DaemonTheorems.dfy`, `DaemonEffects.dfy` | the concurrent daemon as a step machine, its invariant, what holds in every run, and what each request has brought about |
| `Server.dfy` | one connection: lines in, responses out |
| `GitCredential.dfy`, `Docker.dfy` | the two credential helpers |
| `Transfer.dfy`, `Exec.dfy` | import and export; the environment of `keycell exec` |

The files that change state step by step in the source are classes and methods
here, proved against functions on values; what the source promises is then
proved about those functions. Nondeterminism (how many bytes a read delivers,
which system call fails, when a timer fires, which thread runs) is unconstrained.

Two models of the daemon meet in shared functions. The classes `Session` and
`Store` run one operation at a time; the step machine interleaves threads
between lock operations and file steps. Both use the same `Drop`, `Install`,
`Ask` and `Modify`, so what is proved of one body is proved of the other, and a
request that runs through the machine undisturbed does what the store's function
says (`DaemonEffects.ReadAlone`, `DaemonEffects.WriteAlone`). The
helpers work on a third view, the calls of a client, and `Clients.GetAsksStore`,
`ListAsksStore`, `StoreWrites` and `DeleteWrites` tie each call to the store.

## What turned out different from the first guess

- Every message is one line, and both sides refuse lines over MaxLineLen. The
  daemon does not keep a vault small enough to be listed in one line, so a
  vault of many valid secrets, each of which can be fetched, can be neither
  exported nor imported into with `--no-overwrite` (`Transfer.Export`,
  `Transfer.TooManyToList`, `Transfer.CrowdCannotLeave`). The helpers' answers
  depend on the same limit.
- A git `store` followed by `get` gives the password back exactly when there was
  a secret to update or the request's fields are UTF-8, and the answer's lines
  are not too long: other bytes are stored as U+FFFD and the new secret no
  longer matches its own request (`GitCredential.StoreThenGet`,
  `GitCredential.NonTextIsLost`).
- The docker helper stores a login for a server URL with a space in it and then
  refuses to read that URL back (`Docker.StoreThenGet`, `Docker.SpacedServer`).
  A login without a match can take over the name of another server's login on
  the same host, which that server then no longer has
  (`Docker.OthersKeepTheirs`, `Docker.LoginTakenOver`).
- `atomicfile.Write` documents that nothing changes if anything fails before the
  rename. With a backup this means the first rename: if the second one fails the
  file is gone and its content is in the `.bak` file (`AtomicFile.Write`). A
  reader can see the file missing between the two renames although nothing has
  failed (`DaemonTheorems.MissingOnlyBetweenRenames`,
  `DaemonTheorems.ReadFindsNoVault`). If syncing the directory fails the new
  content is in place although an error is reported (`DaemonTheorems.RenameFails`,
  `DaemonTheorems.SyncFails`).
- `Init` does not look at backups. A crash in a write of the vault leaves only
  `vault.age.bak`, one in a change of passphrase only `identity.age.bak`; after
  both, `Init` succeeds, and the next two writes overwrite the backups, so the
  old vault and its key are gone (`Identity.Init`,
  `Identity.InterruptionsLeaveBackups`, `Identity.BackupsOverwritten`). One such
  crash or failed rename alone loses nothing (`Identity.AnyLife`).
- `UnlockFor` with a positive duration below one second turns auto-lock off. A
  raw request in seconds arms it exactly when the low 64 bits of the
  nanoseconds are positive as a signed number: beyond that range some counts
  turn auto-lock off and others arm it for a fraction of a second
  (`Durations.UnlockForArms`, `Durations.RawSecondsArm`,
  `Durations.RawSecondsOverflow`).

## Model

| member | source | states |
|---|---|---|
| `Framing.Reader.ReadLine` | internal/protocol/codec.go:83-110 | whatever the chunking of reads, the result is the next line of the stream or the reason there is none, a function of the stream alone; nothing unread is lost; it terminates |
| `Framing.Reader.Consume` | internal/protocol/codec.go:114-121 | drops exactly one line and its newline from the unread stream; bytes beyond the filled part are zero again |
| `Framing.Reader.Grow` | internal/protocol/codec.go:91-97 | growth is strict, never past MaxLineLen+1, keeps the contents, and leaves the outgrown buffer all zero |
| `Framing.Reader.Fill` | internal/protocol/codec.go:98-100 | one read of any size moves bytes from the stream into the buffer and loses none |
| `Framing.Reader.FindLF` | internal/protocol/codec.go:85-87 | the first newline of the filled part, or none |
| `Framing.LinesSplit` | internal/protocol/codec.go:81-121 | the delivered lines, each with its newline, and the rest are exactly the stream: nothing lost, duplicated or reordered |
| `Framing.LinesFit` | internal/protocol/codec.go:83-90 | every delivered line is newline-free and within the limit |
| `Framing.LinesJoin` | internal/protocol/codec.go:83-90 | and every sequence of such lines is delivered as it is |
| `Framing.LimitIsExact` | internal/protocol/codec.go:18-21 | a line of MaxLineLen bytes is accepted, one byte more is too long |
| `Framing.LineHoldsValue` | internal/protocol/codec.go:14-17 | MaxLineLen is 1,463,640: room for any value in base64 and 64 KiB, and for the largest value not for a byte more |
| `Framing.SplitUnread` | internal/protocol/codec.go:83-110 | what the buffered part alone already decides about the next line |
| `Server.Connection.Handle` | internal/daemon/server.go:146-184 | every complete line gets exactly one response, in order: a request is carried out in the state the lines before it left and gets the reply due there, with its id; any other line changes nothing and gets PROTOCOL, under its id or null; up to the first response the connection does not take, and all of them exactly if it takes every one; an over-long line gets one last PROTOCOL response and nothing after it is dispatched |
| `Server.Connection.Turn` | internal/daemon/server.go:149-183 | one turn keeps that, shortens the unread stream, and stops only at the stream's end or a response that is not taken |
| `Server.Connection.Answer` | internal/daemon/server.go:175-182 | serving one line continues exactly if its response is taken |
| `Server.Connection.Serve` | internal/daemon/server.go:150-183 | a line is carried out exactly when it is a request; its response is the one due then, and is written exactly when the connection takes it |
| `Server.Connection.Finish` | internal/daemon/server.go:163-173 | the end of the stream has no response, an over-long line one |
| `Server.Connection.JudgeMeans` | internal/protocol/codec.go:52-63 | a request is a message with an id that is not null and one of the seven methods; one with another method is answered under its id, other lines under none |
| `Server.Connection.StoredIsRead` | internal/daemon/server.go:238-279 | an accepted store, then a get of the same name, without a fault: the reply is the stored secret |
| `Server.Connection.LockRefuses` | internal/daemon/server.go:234-289 | after a lock a get, list, store or delete is refused as locked and changes nothing |
| `Server.Connection.PrefixServed` | internal/daemon/server.go:146-184 | what has been dispatched is always a prefix of the stream's requests |
| `Server.Connection.Call` | internal/daemon/server.go:205-289 | each method's reply and what it changes are determined by the session and the vault file before it, or it is INTERNAL after a fault of the machine; only store and delete touch files, only unlock and lock the session |
| `Server.CodesMean` | internal/daemon/server.go:298-319 | which error each code stands for |
| `Server.Connection.CallUnlock` | internal/daemon/server.go:215-232 | without interleaving: success means the session holds the parsed key, which opens the vault, and ends after the requested duration or, without one, the default; a malformed key, or no locked memory, changes nothing; any other failure leaves the daemon locked |
| `Server.Connection.Verify` | internal/daemon/server.go:293-296 | succeeds only if the held key opens the vault, and fails only if it does not or the disk has a fault |
| `Sessions.Session.Unlock` | internal/daemon/session.go:67-98 | the session is replaced as a whole or not at all; the input is zeroed either way |
| `Sessions.Session.TakeOver` | internal/daemon/session.go:87-96 | the new session gets a new generation, and a timer exactly when the duration is positive |
| `Sessions.Session.Lock` | internal/daemon/session.go:102-110 | a locked session stays as it is, any other is dropped |
| `Sessions.Session.AutoLock` | internal/daemon/session.go:114-122 | a callback of another generation changes nothing |
| `Sessions.Session.DropAll` | internal/daemon/session.go:125-136 | timer stopped, buffer destroyed once, identity and deadline gone |
| `Sessions.Session.Status` | internal/daemon/session.go:140-144 | locked exactly when no identity is held; a deadline only while unlocked |
| `Sessions.DropConsistent` | internal/daemon/session.go:125-136 | dropping keeps the session's invariant and destroys the current buffer exactly once |
| `Sessions.InstallConsistent` | internal/daemon/session.go:84-97 | so does installing: deadline and timer together, one generation per timer |
| `Sessions.AllocateConsistent` | internal/daemon/session.go:73-77 | a buffer made for an unlock that has not taken over yet is alive and disturbs nothing |
| `Durations.UnlockForArms` | pkg/keycell/keycell.go:154-157 | a duration d of at least 1s arms a with d-1s < a <= d, without overflow; any shorter one turns auto-lock off |
| `Durations.RawSecondsHonoured` | internal/daemon/server.go:220-224 | a raw second count is honoured exactly when its nanoseconds fit in 64 bits |
| `Durations.RawSecondsArm` | internal/daemon/server.go:220-224 | and arms the timer exactly when the low 64 bits of its nanoseconds are positive as a signed number |
| `Durations.RawSecondsOverflow` | internal/daemon/server.go:220-224 | a count past the range that turns auto-lock off, and one that arms it for 290 ms |
| `Durations.UnlockForDeadline` | internal/daemon/session.go:79-96 | end to end: the deadline the session gets from UnlockFor |
| `DaemonTheorems.NoUpdateLost` | internal/daemon/store.go:148-166 | in every run the current vault is the initial one with the logged writes applied in writeMu order, and every successful write is in the log |
| `DaemonTheorems.OnlySuccessesLogged` | internal/daemon/store.go:148-166 | a finished request is in the log exactly if it is a write that succeeded or failed only to sync the directory |
| `DaemonTheorems.CommitsAreReplays` | internal/daemon/store.go:148-166 | every version ever in place is a replay of the log up to it |
| `DaemonTheorems.StoredSecretsValid` | internal/daemon/store.go:116-131 | in every run every version ever in place holds valid secrets only, if the first one does |
| `DaemonTheorems.ReadsSeeCommittedVersions` | internal/daemon/store.go:63-113 | an answer of Get or List, and "not found", is that of a version current at some moment within the request's own interval |
| `DaemonTheorems.DeletesSeeCommittedVersions` | internal/daemon/store.go:132-144 | and so is "not found" from a Delete |
| `DaemonTheorems.MissingOnlyBetweenRenames` | internal/atomicfile/atomicfile.go:42-51 | "vault does not exist" is seen only while another thread is between its two renames, or after a second rename failed |
| `DaemonTheorems.LostOnlyByFailedRename` | internal/atomicfile/atomicfile.go:48-51 | and that happens only by a disk failure at that step |
| `DaemonTheorems.ReadFindsNoVault` | internal/atomicfile/atomicfile.go:42-51 | a run in which a read sees the vault missing though no rename has failed, for any accepted change and any query |
| `DaemonTheorems.RenameFails` | internal/atomicfile/atomicfile.go:42-51 | a run in which a second rename fails, and the vault is in the backup alone |
| `DaemonTheorems.SyncFails` | internal/atomicfile/atomicfile.go:48-65 | a run in which a write reports a failure although the new vault is in place |
| `DaemonTheorems.KeyNeverChanges` | internal/daemon/store.go:148-166 | no mix of requests leaves the vault or its backup sealed to another key |
| `DaemonTheorems.WrongIdentityFails` | internal/vault/file.go:24-45 | an operation under another identity fails and changes no file |
| `DaemonTheorems.SessionAlwaysConsistent` | internal/daemon/session.go:67-136 | the session's invariant holds in every run |
| `DaemonTheorems.WithKeepsIdentity` | internal/daemon/session.go:148-155 | while any request is inside With no action touches its identity or buffer |
| `DaemonTheorems.OnlyOwnCallbackEnds` | internal/daemon/session.go:100-136 | only an Unlock, a Lock while unlocked, or the callback of its own generation touches the session; a late callback leaves all of it alone |
| `DaemonEffects.FinishedHasEffect` | internal/daemon/session.go:67-122 | in every run, at the step that finishes it with success: a Lock has left neither identity nor buffer, a timer callback has ended the session it was armed for, an Unlock has installed its key, with deadline and timer exactly for a positive duration |
| `DaemonEffects.FiredTimerLocks` | internal/daemon/session.go:89-122 | in every run a timer that has fired has its callback, and once that is finished its session is over for good |
| `DaemonEffects.ArmedTimerEnds` | internal/daemon/session.go:89-122 | in every run the armed timer of the session can go off, and some schedule without arrivals then ends the session |
| `DaemonEffects.ReadAnswers` | internal/daemon/store.go:63-113 | in every run a read inside With, with the vault in place and no failure, finds the answer of the current version, or the error that it gives |
| `DaemonEffects.ReadAlone` | internal/daemon/store.go:63-113 | a read that is not disturbed ends in exactly what the store answers for the session and the vault file |
| `DaemonEffects.WriteAlone` | internal/daemon/store.go:148-166 | a write that is not disturbed ends in success with the vault the store would leave and the old one as backup, or in its error with nothing changed |
| `DaemonTheorems.NoDeadlock` | internal/daemon/store.go:148-166 | while any thread is unfinished some thread can step |
| `DaemonTheorems.StepLowersWork` | internal/daemon/store.go:148-166 | every step of a thread is progress |
| `DaemonTheorems.Drains` | internal/daemon/store.go:148-166 | from every reachable state there is a schedule that finishes every thread |
| `DaemonTheorems.EveryScheduleEnds` | internal/daemon/store.go:148-166 | without new arrivals no schedule runs for ever |
| `DaemonInvariants.InitialInv` | internal/daemon/session.go:53-60 | a fresh daemon satisfies the invariant |
| `DaemonSteps.StepLocks` | internal/daemon/session.go:84-155 | every step keeps the lock words right: a writer excludes readers, one holder of writeMu |
| `DaemonSteps.StepSession` | internal/daemon/session.go:67-155 | every step keeps the session's invariant and each request's identity |
| `DaemonSteps.StepFiles` | internal/vault/file.go:47-68 | every step keeps the last version in the vault file or, between the renames, in the backup |
| `DaemonSteps.StepHistory` | internal/daemon/store.go:148-166 | every step keeps the log and the versions in agreement |
| `DaemonSteps.StepReads` | internal/daemon/store.go:63-113 | every step keeps the answers those of committed versions |
| `DaemonSteps.NextInv` | internal/daemon/session.go:67-155 | arrivals, timer callbacks and steps keep the whole invariant |
| `DaemonSteps.AfterInv` | internal/daemon/session.go:67-155 | so every run does |
| `Stores.Store.Get` | internal/daemon/store.go:63-83 | answers exactly what the opened vault holds, or the error that prevents it, or fails because the disk had a fault |
| `Stores.Store.List` | internal/daemon/store.go:86-112 | exactly the filter's matches, strictly sorted by name, without values, or the error that prevents it, or a fault of the disk |
| `Stores.Store.Write` | internal/daemon/store.go:116-166 | without a fault of the disk exactly the modified vault or the refusal; a refusal touches no file; after a fault the vault is the old one, the new one, or gone with the old one in the backup; no state in between is partial |
| `Stores.WrittenVault` | internal/daemon/store.go:159-163 | what each point of failure of the file write means for the next reader |
| `Stores.Collect` | internal/daemon/store.go:102-110 | walking the map in any order and sorting gives the listing |
| `Stores.ListingUnique` | internal/daemon/store.go:102-110 | a listing is determined by what it lists: map order never shows |
| `Bytes.SortSorts` | internal/daemon/store.go:110-110 | sorting any enumeration of distinct names gives their sorted listing |
| `Bytes.SortedListingUnique` | internal/daemon/store.go:110-110 | there is only one |
| `Bytes.LessMeans` | internal/daemon/store.go:110-110 | the order: the beginning of a string before it, otherwise by the first byte that differs |
| `Bytes.SortedKeys` | cmd/keycell/transfer.go:109-113 | walking a map's keys in any order and sorting them gives that listing |
| `Vaults.ModifyRefinesMap` | internal/daemon/store.go:116-144 | Store and Delete refine a plain map: refused exactly when invalid or missing, and as which of the two, otherwise exactly one name changes, an upsert keeps the creation time, valid vaults stay valid |
| `Vaults.MatchingMeans` | internal/daemon/store.go:177-190 | a listing finds exactly the names that start with the prefix, of the kind and with the attributes set in the filter, without values |
| `Vaults.ValidTextIffPrintable` | internal/vault/validate.go:80-94 | validateText accepts exactly the texts of 1 to 256 bytes without control runes and without a space at either edge |
| `Vaults.TrimKeeps` | internal/vault/validate.go:90-92 | TrimSpace keeps a text exactly when neither its first nor its last rune is a space |
| `Vaults.TrimText` | internal/vault/validate.go:90-92 | of any text TrimSpace drops the spaces at both ends and keeps the rest |
| `Vaults.TrimBytes` | internal/vault/validate.go:90-92 | of any bytes it drops nothing but encoded spaces |
| `Vaults.ControlsAre` | internal/vault/validate.go:88-89 | the 65 control characters |
| `Vaults.SpacesAre` | internal/vault/validate.go:90-92 | the 25 characters with the property White_Space |
| `Vaults.SlugsAre` | internal/vault/validate.go:96-106 | kinds and attribute keys are 1 to 64 of a-z, 0-9 and hyphen |
| `Vaults.LastRuneTail` | internal/vault/validate.go:90-92 | trimming from the right finds the last rune and never a part of it |
| `Vaults.PlainTextValid` | internal/vault/validate.go:80-94 | visible ASCII is always accepted |
| `VaultFile.Open` | internal/vault/file.go:24-45 | the only errors of reading a vault are a missing file, another key, and a broken file |
| `VaultFile.Read` | internal/vault/file.go:24-45 | without a fault of the disk exactly what opening the file gives; "does not exist" only if it does not |
| `VaultFile.Write` | internal/vault/file.go:47-68 | replaces the vault atomically, with a backup, and succeeds exactly without a fault; failing to encrypt changes nothing |
| `AtomicFile.Write` | internal/atomicfile/atomicfile.go:17-53 | in every state it goes through the file is the whole old content, the whole new one, or absent with the old one in the backup; where it stopped determines what it leaves, and it stops only at a fault; no temporary file stays unless its removal failed |
| `AtomicFile.Prepare` | internal/atomicfile/atomicfile.go:19-41 | until the temporary file is closed nothing else changes |
| `AtomicFile.Swap` | internal/atomicfile/atomicfile.go:42-52 | the renames pass only through safe states |
| `AtomicFile.PutInPlace` | internal/atomicfile/atomicfile.go:48-52 | the last rename puts the new content in place, or leaves the file moved aside |
| `AtomicFile.MoveAside` | internal/atomicfile/atomicfile.go:42-47 | the backup rename moves the old file or, if there is none, nothing |
| `AtomicFile.Cleanup` | internal/atomicfile/atomicfile.go:24-28 | removes the temporary file and nothing else |
| `AtomicFile.CrashKeepsFile` | internal/atomicfile/atomicfile.go:35-51 | a crash in any such state, whatever it tears, spares the file or its backup |
| `Identity.Init` | internal/identity/setup.go:25-55 | refuses any directory with an identity or a vault and does not touch it; without a fault it succeeds exactly in one without either, given a key and a passphrase that is not empty, and makes exactly the identity, boxed under the passphrase or plain without one, and an empty vault under the new key; called without a fault to make another key, it spares a vault that is there with its key, be it in backups, in every state if and only if the directory has an identity or a vault.age |
| `Identity.ChangePassphrase` | internal/identity/setup.go:59-67 | boxes the same key under the new passphrase, or fails; a wrong old passphrase or form changes nothing; every state keeps the key, and the vault with it, if they were there before, and has at most one more of identity and vault.age absent |
| `Identity.SetPassphrase` | internal/identity/setup.go:72-83 | the same key from one form to the other, with one of the two identity files there in every state; the key and the vault are kept likewise |
| `Identity.RemovePassphrase` | internal/identity/setup.go:87-97 | likewise in the other direction |
| `Identity.Detect` | internal/identity/identity.go:109-124 | without a fault exactly the form there is; both files present is always ambiguous |
| `Identity.LoadFile` | internal/identity/identity.go:146-182 | the key a file holds, exactly with its passphrase |
| `Identity.HeldByMeans` | internal/identity/identity.go:146-182 | a plain file gives its key, an encrypted one only for its own passphrase, no other file any |
| `Identity.OnlyTheNewOpens` | internal/identity/setup.go:57-67 | after a change of passphrase the new one gives the key and no other does |
| `Identity.Load` | internal/identity/setup.go:99-110 | the key, only if exactly the wanted form is there |
| `Identity.WriteEncrypted` | internal/identity/identity.go:73-95 | replaces identity.age atomically; an empty passphrase changes nothing |
| `Identity.WritePlain` | internal/identity/identity.go:97-106 | replaces identity.txt atomically |
| `Identity.WriteKeepsKey` | internal/identity/setup.go:25-97 | every state of writing an identity file or the vault under the directory's key keeps the key |
| `Identity.WriteSurvives` | internal/atomicfile/atomicfile.go:42-52 | and keeps a vault sealed to it, under its name or in the backup, with the key in an identity file or the backup |
| `Identity.SafeKeepsOther` | internal/identity/setup.go:69-97 | writing one identity file leaves the other in place throughout |
| `Identity.CrashKeepsKey` | internal/identity/setup.go:25-117 | and so does a crash, for both |
| `Identity.UpdateVault` | internal/daemon/store.go:148-166 | a change of the vault seals it to the key that opened it and leaves exactly the new vault and the old one as its backup; every state keeps the key and the vault |
| `Identity.AnyLife` | internal/identity/setup.go:25-117 | over any sequence of commands, with failures anywhere and crashes in any state, and for a fixed key: a vault sealed to it that is there with the key survives in every state up to one in which both identity and vault.age are absent, and in every state of the life if both were there at first and there was at most one crash or failed rename; where vault.age is there, its key can be had |
| `Identity.InterruptionsLeaveBackups` | internal/atomicfile/atomicfile.go:42-57 | from any initialised directory with a passphrase, a vault write and a passphrase change that are both stopped between their renames leave vault and key in backups alone, which Init takes for a new directory |
| `Identity.BackupsOverwritten` | internal/identity/setup.go:28-55 | after an Init there, one more change of the vault and one of the passphrase, no file holds the old key or is sealed to it |
| `Utf8.DecodeEncode` | cmd/docker-credential-keycell/request.go:115-115 | decoding inverts encoding, for every scalar value |
| `Utf8.EncodeDecode` | cmd/docker-credential-keycell/commands.go:96-101 | encoding inverts decoding, where decoding succeeds |
| `Utf8.BadIffNoRune` | cmd/docker-credential-keycell/commands.go:96-101 | decoding fails exactly where no scalar value's encoding starts |
| `Utf8.ValidIffText` | internal/vault/validate.go:86-87 | the validity check accepts exactly the encodings of texts |
| `Utf8.SanitizeFixesText` | cmd/docker-credential-keycell/commands.go:67-69 | replacing bad bytes changes nothing exactly for text |
| `Utf8.SanitizeIsText` | cmd/docker-credential-keycell/commands.go:67-69 | and always gives text |
| `Utf8.SanitizeByParts` | cmd/docker-credential-keycell/commands.go:90-96 | text is carried as it is whatever follows it, and each bad byte becomes one U+FFFD |
| `Utf8.EncodeOrder` | cmd/docker-credential-keycell/request.go:118-118 | the byte order of encodings is that of the code points |
| `JsonString.Quote` | cmd/docker-credential-keycell/commands.go:70-106 | the loop prints the literal of the secret's items |
| `JsonString.QuoteRune` | cmd/docker-credential-keycell/commands.go:74-104 | one turn prints one rune's items and skips exactly its bytes |
| `JsonString.QuotingIsToken` | cmd/docker-credential-keycell/commands.go:70-106 | what is printed is well-formed item by item and denotes the secret with bad bytes replaced |
| `JsonString.QuotingIsStrict` | cmd/docker-credential-keycell/commands.go:70-106 | byte by byte a single string token: no raw control byte, and every quote but the outer two follows a backslash |
| `JsonString.QuotingIsText` | cmd/docker-credential-keycell/commands.go:94-103 | and the whole token is UTF-8, whatever the secret is |
| `JsonString.QuoteRoundTrip` | cmd/docker-credential-keycell/request.go:79-121 | unquote after quote gives the secret with bad bytes replaced, and exactly the secret if and only if it is UTF-8 |
| `JsonString.Unquote` | cmd/docker-credential-keycell/request.go:79-121 | accepts and yields what the grammar says |
| `JsonString.UnquoteBody` | cmd/docker-credential-keycell/request.go:84-120 | the loop never indexes out of range and never holds more bytes than it consumed |
| `JsonString.UnquoteItem` | cmd/docker-credential-keycell/request.go:85-119 | one turn of the loop reads one item |
| `JsonString.UnquoteRune` | cmd/docker-credential-keycell/request.go:127-162 | one \u escape or one surrogate pair: its value and the bytes it takes |
| `JsonString.Hex4` | cmd/docker-credential-keycell/request.go:128-146 | reads exactly a backslash, u and the four digits, in either letter case, that spell a number most significant first, and gives that number |
| `JsonString.SpelledValue` | cmd/docker-credential-keycell/request.go:132-144 | four digits have the value they spell by the table of digits, and no other |
| `JsonString.UnquotedIffDenotes` | cmd/docker-credential-keycell/request.go:79-121 | unquote accepts exactly the literals made of valid items and yields what they denote |
| `JsonString.ParsePrinted` | cmd/docker-credential-keycell/request.go:85-119 | parsing inverts printing |
| `JsonString.PrintParsed` | cmd/docker-credential-keycell/request.go:85-119 | nothing but printed items parses |
| `JsonString.ShortEscapeDecodes` | cmd/docker-credential-keycell/request.go:147-153 | every scalar below U+10000 decodes from the digits that spell it in any letter case, six bytes, and a literal of that escape denotes its UTF-8 |
| `JsonString.PairEscapeDecodes` | cmd/docker-credential-keycell/request.go:154-161 | every pair of escapes that spell a high and a low surrogate decodes to the scalar they stand for, twelve bytes, and a literal of it denotes its UTF-8 |
| `JsonString.ShortEscapes` | cmd/docker-credential-keycell/request.go:95-117 | the eight two-character escapes and the byte each stands for; no other character may follow a backslash alone |
| `JsonString.SurrogateNeedsPair` | cmd/docker-credential-keycell/request.go:151-160 | a surrogate is accepted exactly as the first half of a well-ordered pair |
| `Clients.Client.List` | pkg/keycell/keycell.go:122-132 | lists the matches of the filter as JSON carries it; fails exactly for an invalid filter or when the request or the listing is longer than a line |
| `Clients.GetAsksStore` | pkg/keycell/keycell.go:91-99 | a client's get is the store's answer for the name as JSON carries it, unless a line is too long |
| `Clients.ListAsksStore` | pkg/keycell/keycell.go:122-132 | likewise a client's list |
| `Clients.StoreWrites` | pkg/keycell/keycell.go:104-114 | a client's store is the store's write of the strings as JSON carries them, unless the line is too long |
| `Clients.StoreThenGet` | pkg/keycell/keycell.go:91-114 | after an accepted store a get gives back kind, value and attributes with bad bytes replaced, exactly if the answer fits a line; nothing else changes |
| `Clients.DeleteWrites` | pkg/keycell/keycell.go:117-119 | a client's delete is the store's, unless the line is too long |
| `Clients.DeleteThenGet` | pkg/keycell/keycell.go:91-119 | after an accepted delete a get finds nothing; nothing else changes |
| `Clients.FetchOne` | pkg/keycell/transport.go:62-86 | what is in a valid vault can be fetched exactly if the two lines fit |
| `Clients.LargestValueTravels` | internal/protocol/codec.go:14-17 | where all but the value takes at most 64 KiB, a secret of short strings can be fetched whatever its value |
| `Clients.CarriedByJson` | pkg/keycell/keycell.go:122-132 | what JSON makes of a filter |
| `Clients.PuttingBack` | cmd/keycell/gitcredential.go:142-143 | storing a found secret again changes its value and time only |
| `GitCredential.GitScore` | cmd/keycell/gitcredential.go:335-355 | a score exactly if kind and host agree and every optional field that both set is equal, and then the number of optional fields the secret sets |
| `GitCredential.ScoreCounts` | cmd/keycell/gitcredential.go:333-355 | the same of the score as a function |
| `GitCredential.MatchGitCredential` | cmd/keycell/gitcredential.go:304-331 | the search loop computes the decision |
| `GitCredential.DecideRight` | cmd/keycell/gitcredential.go:298-331 | for any candidates in any order: the one best match, no match, or exactly the sorted names of the tied best |
| `GitCredential.DecisionUnique` | cmd/keycell/gitcredential.go:298-331 | only one decision is right, so order never shows |
| `GitCredential.RightIsSpecific` | cmd/keycell/gitcredential.go:298-331 | without scores: the fitting secret that sets the most fields, none if none fits, or the sorted names of all that set equally many |
| `GitCredential.LessSpecificLoses` | cmd/keycell/gitcredential.go:298-303 | a fitting secret whose fields are only some of those of another is never chosen nor named |
| `GitCredential.GotTells` | cmd/keycell/gitcredential.go:60-99 | what a get answers from the vault alone, by fitting and number of fields: user name and value, nothing, the tied names, or which error |
| `GitCredential.StoreAccepted` | cmd/keycell/gitcredential.go:118-144 | exactly when a store is accepted, with a match and without |
| `GitCredential.NamesTell` | cmd/keycell/gitcredential.go:185-190 | names of new secrets tell host and user name apart |
| `GitCredential.BesideOthers` | cmd/keycell/gitcredential.go:137-143 | a new secret leaves those of other hosts and users alone |
| `GitCredential.Find` | cmd/keycell/gitcredential.go:206-212 | the decision on the host's secrets |
| `GitCredential.Get` | cmd/keycell/gitcredential.go:60-99 | credential, nothing, or error, as specified; a value with a newline is refused |
| `GitCredential.Store` | cmd/keycell/gitcredential.go:118-144 | leaves exactly the vault its specification names, or reports the error and leaves the vault as it was |
| `GitCredential.Erase` | cmd/keycell/gitcredential.go:148-172 | leaves exactly the vault its specification names, or reports the error and leaves the vault as it was |
| `GitCredential.UpdateThenGet` | cmd/keycell/gitcredential.go:135-143 | a store that finds a match changes its value alone, and the same get finds it again, exactly if the answer's lines fit |
| `GitCredential.CreateThenGet` | cmd/keycell/gitcredential.go:137-143 | a store without one creates a secret that the same get finds exactly when the request is text and the lines fit |
| `GitCredential.StoreThenGet` | cmd/keycell/gitcredential.go:114-144 | the two together: exactly when get after store gives the password back; no other name has changed |
| `GitCredential.NonTextIsLost` | cmd/keycell/gitcredential.go:194-202 | requests that are stored and not found again |
| `GitCredential.EraseExact` | cmd/keycell/gitcredential.go:148-183 | an erase removes the one match alone; an ambiguous store or erase, and an erase without a match, change nothing |
| `GitCredential.ParseGitRequest` | cmd/keycell/gitcredential.go:249-287 | each field is the last value of its key before the first blank line; the first line without '=' is the error; a missing host is one |
| `GitCredential.LastValueIsLast` | cmd/keycell/gitcredential.go:249-287 | a field is what follows the key and '=' in the last line that starts with them, or empty |
| `GitCredential.FieldsAre` | cmd/keycell/gitcredential.go:265-280 | which key each field has |
| `GitCredential.PasswordIsOneLine` | cmd/keycell/gitcredential.go:275-278 | a parsed password has no newline, as get demands |
| `Docker.ValidServerReads` | cmd/docker-credential-keycell/request.go:30-43 | a server the daemon accepts is read back as it is unless it has a space in it |
| `Docker.ReadServerMeans` | cmd/docker-credential-keycell/request.go:30-43 | any input within 64 KiB gives its trimmed text exactly if that is not empty and has no space, tab or line break |
| `Docker.NameIsHost` | cmd/docker-credential-keycell/request.go:167-177 | the name is that of the host alone: scheme and path do not count |
| `Docker.NameWithoutHost` | cmd/docker-credential-keycell/request.go:167-177 | a URL without a host gives its whole text to the name |
| `Docker.NameIsText` | cmd/docker-credential-keycell/request.go:167-177 | cutting a text server gives a text name |
| `Docker.MatchServer` | cmd/docker-credential-keycell/request.go:191-208 | the lookup for a server |
| `Docker.Decide` | cmd/docker-credential-keycell/request.go:196-207 | none, one, or the names of several |
| `Docker.LookupRight` | cmd/docker-credential-keycell/request.go:187-208 | a lookup names the one login of exactly this server, none, or the sorted names of all of them, exactly if the server is valid and the lines fit |
| `Docker.GotTells` | cmd/docker-credential-keycell/commands.go:20-43 | and so does a get: the login there is, none, or the names of several, unless a line is too long |
| `Docker.LookupIs` | cmd/docker-credential-keycell/request.go:187-208 | and no other answer is right |
| `Docker.Get` | cmd/docker-credential-keycell/commands.go:20-43 | login, nothing, or error, as specified |
| `Docker.Store` | cmd/docker-credential-keycell/commands.go:144-170 | leaves exactly the vault its specification names, or reports the error and leaves the vault as it was |
| `Docker.Erase` | cmd/docker-credential-keycell/commands.go:174-194 | leaves exactly the vault its specification names, or reports the error and leaves the vault as it was |
| `Docker.StoreEffect` | cmd/docker-credential-keycell/commands.go:139-169 | an accepted store writes exactly its target: a login of the server gets user name, value and time and keeps its kind, creation time and other attributes; otherwise there is a registry secret with the server and the user name alone |
| `Docker.StoreAccepted` | cmd/docker-credential-keycell/commands.go:144-170 | exactly when a store is accepted |
| `Docker.StoreThenGet` | cmd/docker-credential-keycell/commands.go:139-170 | get then gives exactly that user and secret, if and only if the server has no space and the lines fit; docker reads the secret's bytes with bad ones replaced |
| `Docker.SpacedServer` | cmd/docker-credential-keycell/request.go:30-43 | logins with a space in the server that are accepted and cannot be read back |
| `Docker.OthersKeepTheirs` | cmd/docker-credential-keycell/request.go:164-177 | another server's answer stays the same if and only if the store has not taken over one of its logins, or with and without that login a line is too long; it takes one over only by name |
| `Docker.LoginTakenOver` | cmd/docker-credential-keycell/request.go:164-177 | two servers of one host for which it happens, and the login is lost |
| `Docker.EraseExact` | cmd/docker-credential-keycell/commands.go:172-194 | erase by the number of logins: none or one removed, or several named by it and by get with nothing changed |
| `Docker.EraseThenGet` | cmd/docker-credential-keycell/commands.go:172-194 | after an accepted erase a get finds no login |
| `Docker.AmbiguousStore` | cmd/docker-credential-keycell/commands.go:160-166 | a store is refused as ambiguous exactly with several logins, and names them all |
| `Transfer.Export` | cmd/keycell/transfer.go:38-75 | the document holds every secret of the vault with kind, value, attributes and both times, if and only if the listing and every answer fit a line |
| `Transfer.TooManyToList` | pkg/keycell/transport.go:81-101 | a vault with more secrets than records fit a line cannot be listed |
| `Transfer.CrowdCannotLeave` | pkg/keycell/transport.go:81-101 | valid vaults, of which every secret can be fetched, that cannot be exported |
| `Transfer.Import` | cmd/keycell/transfer.go:77-129 | the loops leave the vault of the stepwise specification; with no-overwrite a vault that cannot be listed stops it before the first store |
| `Transfer.ExistingNames` | cmd/keycell/transfer.go:99-108 | the skip set is exactly the existing names, or the listing is longer than a line |
| `Transfer.ImportExact` | cmd/keycell/transfer.go:99-129 | the old vault overridden by the document on kind, value and attributes, on exactly the names not skipped and sorted before the first refused one; names that exist stay untouched with no-overwrite |
| `Transfer.ImportRestores` | cmd/keycell/transfer.go:38-129 | importing what could be exported never stops and restores every secret, into any vault |
| `Exec.ValidEnvVar` | cmd/keycell/exec.go:240-250 | the rune loop accepts exactly [A-Za-z_][A-Za-z0-9_]* |
| `Exec.EntryMeans` | cmd/keycell/exec.go:220-237 | a text parses exactly if it is a variable and a secret name around its first '=', both trimmed, and to those two |
| `Exec.ParseEnvMapping` | cmd/keycell/exec.go:186-218 | the mapping is strictly sorted and last-wins over the file's lines, then the flags; or the error is the first entry that does not parse |
| `Exec.ReadLines` | cmd/keycell/exec.go:187-204 | the loop over the file: blank lines and comments do not count |
| `Exec.MeantJoin` | cmd/keycell/exec.go:187-204 | line by line, in order; a blank line or one that starts with '#' does not count |
| `Exec.ApplyFlags` | cmd/keycell/exec.go:205-211 | the loop over the flags |
| `Exec.Entries` | cmd/keycell/exec.go:212-217 | listing the map sorted by variable |
| `Exec.LastWins` | cmd/keycell/exec.go:182-185 | a variable's secret is that of the last entry for it |
| `Exec.FlagsWin` | cmd/keycell/exec.go:205-211 | a flag wins over the file |
| `Exec.ErrorIsReal` | cmd/keycell/exec.go:186-211 | an error is reported only if some entry does not parse |
| `Exec.ResolveEnv` | cmd/keycell/exec.go:122-153 | every secret in mapping order, or every problem in order, or a stop exactly when a locked daemon refuses one |
| `Exec.ProblemsJoin` | cmd/keycell/exec.go:122-153 | the problems are those of the entries, in order |
| `Exec.MergeEnv` | cmd/keycell/exec.go:100-115 | the inherited strings of unmapped variables in order, then the secrets |
| `Exec.WithoutJoin` | cmd/keycell/exec.go:105-110 | string by string, in order |
| `Exec.PairVar` | cmd/keycell/exec.go:145-145 | a variable without '=' is cut back out of its string |
| `Exec.VarOfMeans` | cmd/keycell/exec.go:105-108 | the variable of any string is what comes before its first '=', or all of it |
| `Exec.MergedEnv` | cmd/keycell/exec.go:97-115 | each mapped variable is set exactly once, to its secret; every other one as before; the rest keeps its order |
| `Exec.Environment` | cmd/keycell/exec.go:54-78 | end to end: the environment is built exactly when every entry parses and every bound secret can be had, and then sets each bound variable once to its secret and the others as inherited |

## Left out

- Cryptography: sealing to a recipient and boxing under a passphrase are
  constructors that open only with the matching key or passphrase.
- `encoding/json` and base64: parsing a line and binding its params are
  parameters of a connection; strings that JSON carries have their bad bytes
  replaced. The length of a message's line is a parameter too (`Clients.Wire`);
  where a result needs numbers it assumes the bounds that `Clients.IsJson`
  states, which hold of any JSON encoder. The digits of a request's id are part
  of that length and do not vary with the number of calls. A result that fails
  to encode is not modelled.
- An error response longer than a line, which a client reports as a protocol
  error instead of the error it carries; no request that fails this way changes
  anything.
- Server.Connection.CallUnlock: its three critical sections run without
  interleaving here; with interleaving only the invariants of the step machine
  hold, because another request may lock or unlock in between.
- Kinds and attribute keys are taken to be text on the wire; all of them are
  constants, or came out of JSON.
- Clients.Client: a store, get or list through it finds the daemon unlocked and
  the disk working; refusals enter import and exec as a parameter. Failures of
  the daemon itself are in the store and the step machine.
- A secret whose stored value is JSON null instead of a byte string: the vault
  has byte strings only. In an imported document null values are modelled and
  refused; a null record, on which the import panics, is not.
- The order in which a file system makes renames durable: a rename, once made,
  survives a crash, and directory syncs have no effect but their errors.
- `unlock` in the step machine is its critical section; verifying the identity
  afterwards is a Read, and the lock that follows a Lock.
- Status in the step machine: it only reads under the read lock.
- The generation counter's wrap-around after 2^64 unlocks.
- Sockets, peer credentials, accepting, the shutdown grace period and closing
  connections in `Serve`; logging; the drain of in-flight requests.
- Memory protection in `internal/secmem`, the wiping of decrypted vaults and
  values, and what the Go runtime copies. The reader's buffers and the unlock
  input are modelled and zeroed.
- Terminal handling, command-line wiring, exit codes, messages and configuration.
- `bufio.Scanner`'s limits on line length: git and exec input arrives as lines.
- The docker helper's `list`, whose output has one entry per server, so that of
  several logins for one server only the last is shown.
- Looking up and executing the program in `exec`, which refuses a string with a
  NUL byte in it, and reading the mapping file.
- ReadResponse: the client's half of the framing is the same reader, whose limit
  the client's calls are held to.

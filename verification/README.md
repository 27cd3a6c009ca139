# PVault verification

A Dafny model of PVault, a local password vault written in C, and proofs about it. Four parts of the program are
modelled: the snapshot store, the in-memory vault with its CBOR codec, the encrypted file format with its two key
slots, and the clipboard hand-off. `dafny verify dfyconfig.toml` checks everything.

## What is modelled

**Snapshot store** (`FileSystem`, `Protocol`, `Disks`, `Publish`, `Prune`, `Store`, `Retention`, `Runs`, `Execution`, `History`,
`Orphans`, `Witnesses`, `BackupNames`).
The disk is a small file system: inodes with contents, a synchronised flag and a mode; directories with the entries
seen now, the entries that are durable, and the changes in between. A crash picks, for every name, anything that may
have reached the disk, and scrambles every inode that was not synchronised. `Disks.Disk` is the object the store's code
works on; every call may fail, and a write may be short or interrupted. `Publish`, `Prune` and `Store` are the loops and
steps of `src/store.c` over that object. Each operation records every state it passes through, and `Protocol.Evolves`
says what each of those states may look like, so a crash can be placed after any single call. `Runs` puts many handles,
saves, restores, creations and crashes together, and `Execution` shows that calls of the methods, and crashes in any state
the disk passed through during one, are steps of such runs. `History` and `Orphans` follow the automatic backups of runs
without restore, `Retention` what pruning leaves of them after any number of saves, and `Witnesses` holds runs in which a
desirable property fails.

**Vault in memory** (`Records`, `Layout`, `Memory`, `Arenas`, `Model`, `Copying`, `Vaults`). A vault is an object over
one byte buffer; texts are offset and length pairs into it. `Layout` is the arithmetic of the bump allocator. The
contracts of adding, deleting and editing say how the *sequence of records* changes, and the invariant says that live
texts never overlap, that identifiers are distinct and not zero, and that the arena has paid for everything live.

**CBOR codec** (`Cbor`, `Schema`, `Sizes`, `Plaintext`, `Reference`, `Writers`, `Readers`, `Reopen`, `Cloning`). Encodings are functions; parsers
are functions from the remaining input. Heads follow section 3 of RFC 8949 in the shortest form of section 4.2.1 of
RFC 8949. `Writers.Writer` and `Readers.Reader` are the stateful writer and reader, proved against these functions with
the exact status of every refusal. `Reference` is the format a second time, independently: CBOR items as values, their
deterministic encoding after RFC 8949, and the tables of `docs/FORMAT.md`; the codec writes and accepts exactly that.

**File format** (`Headers`, `Keyslots`, `Wire`, `Snapshots`, `Lifetime`, `Recovery`, `Utf8`, `Text`). The 252-byte header is written at its
offsets into a buffer; key slots and body frame follow `src/crypto.c`; the recovery text follows `src/recovery.c`; UTF-8
follows sections 3 and 4 of RFC 3629. `Wire` states the tables of `docs/FORMAT.md` of header, key slots, body, limits and
names, with their numbers written out, of the model's encodings. `Snapshots` joins the file format to the codec and instantiates the format that
the store protocol is proved over; `Lifetime` states the results about runs over the real files.

**Clipboard hand-off** (`Clipboard`, `Handoff`). Client, worker, owner and timer as a step system with lost calls, deaths and
stop signals.

## Main results

- In every run, with a crash after any call, the active name resolves to nothing or to a complete, authentic snapshot of
  this vault that carries a generation: `Runs.RunsKeepInv`, `Runs.CrashShowsOldOrNew`. Over the real files it carries
  exactly one valid vault, one that was sealed, and it opens if and only if that vault's records fit when laid out
  afresh: `Lifetime.ActiveOpensExactly`. Whenever a crash can show a new file, what it replaced is under its backup name,
  byte for byte: `Runs.ReplacedIsBackedUp`.
- With any number of handles, commits form one chain with generations rising by one, and a handle whose commit was not
  verified never commits again: `Runs.StepKeepsInv`, `Runs.StaleStaysStale`.
- Backup `g` holds the `g`-th snapshot in every run without restore and without crashes (`History.OrdinaryRuns`), and,
  with crashes anywhere, in every run whose commits all reported success (`History.AcknowledgedRuns`). A save is exposed
  to losing the history to a crash if and only if a crash just before it could have changed the active file
  (`Orphans.SettledExactly`); see below.
- At every point of a run without restore and crash, whatever saves failed and wherever pruning stopped, the backups left
  are the newest of all that were made, and after a complete pass exactly as many as the retention allows:
  `Retention.RunsKeepNewest`, `Retention.SavesConverge`.
- Decoding accepts exactly the deterministic CBOR encodings, with ordered keys, of the documented maps of openable vaults:
  `Plaintext.DecodeExactly`, `Reference.DecodesDocumented`, `Reference.PlainEncoded`. Encoding a vault that fits in
  memory never fails for size: `Writers.Encode`.
- After any sequence of password changes, recovery-key changes and saves, the file opens with the latest password and
  with the latest recovery key to exactly what was saved, if and only if its records fit when laid out afresh:
  `Snapshots.EitherCredentialOpens`. The recovery text decodes to its key however it was harmlessly edited:
  `Recovery.ReadBack`.
- The clipboard client reports success only after steps in which the worker received DONE, armed the timer and then found
  the owner alive with the timer armed, and was not stopped: `Handoff.SendOkMeans`. A worker returns leaving an owner behind if and only if SIGKILL was refused: `Clipboard.NoOwnerLeft`.

### Where the code does less than one would like

- **A left-over backup can block saving.** The repository's README promises that a crash cannot leave a *partial*
  backup name that blocks every retry, and nothing partial is ever under such a name. A *complete* one can be: a commit whose
  directory synchronisation failed is reported as a durability warning; if the next save gets as far as its backup and
  the machine then crashes, the older active file may come back next to a backup of the lost generation. One more save
  then succeeds, and after it every save is refused over the name, in every continuation without restore, crashes
  included. `Orphans.LostHistoryRun` is the run, call by call from an empty disk, and `Lifetime.AnyVaultCanLoseHistory`
  the same over real files; `Orphans.BlockedForGoodRuns` says that nothing is saved after it. `Orphans.SettledExactly`
  is the exact condition, at the start of the save: whatever a crash could then leave under the active name has the bytes
  of the active file. It holds in particular when every commit so far reported success (`History.AcknowledgedRuns`).
- **A read error can pass for a foreign backup.** A read that fails just behind the last byte of a file is reported as a
  malformed file (`src/store.c` lines 590 to 598). When that happens to the backup already under a generation's name, the
  save is refused as if the name held something else: `Witnesses.MisreadRun` is such a run, with exactly the right bytes
  under the name. `misread` stands for that one failed read, and the condition is exact: with the name free no save is
  refused over it, and with the right bytes under it a save is refused over it if and only if that read failed
  (`Store.RefusedOverName`); in runs with a history that is the only refusal of this kind (`History.OrdinaryRuns`).
- **A restore can revive a handle.** A handle whose commit was not verified keeps the hash of the file it replaced. If
  that very file is restored, the handle can save again: in `Witnesses.RevivedRun` a file of generation 3 replaces one of
  generation 1, and the backup named for generation 2 holds generation 1. An action keeps the invariant of runs if and
  only if it does not commit the very file that such a handle came from (`Runs.StepExactly`, `Runs.CommitRevives`). Runs
  are made of such actions; without restores every action is one (`Runs.NoRestoreNoStale`).
- **An edit can leave a vault that saves but does not open.** Decoding lays records out afresh, and alignment in front of
  a list can then cost up to eight bytes that the edited vault in memory did not pay. With an almost full arena, a
  one-letter edit of an empty user name fits, is encoded and saved, and the decoder refuses it, as does the check that
  pruning makes of its backup
  (`Reopen.LongerEditCanFail`, `Reopen.SavedButNotReopened`). `Reopen.ReopensExactly`: a sound vault decodes from its
  encoding if and only if its records fit when laid out in order, which a caller can compute beforehand. Adding,
  deleting, clearing a list and edits that do not lengthen a text always keep this, in any order (`Reopen.SessionsReopen`).

## Model

| member | source | states |
|---|---|---|
| `FileSystem.CrashedIsValid` | src/store.c:199-208 | after a crash every name shows one of the entries it might have had, and the disk is well formed |
| `Disks.Disk.CreateExclusive` | src/store.c:165-179 | exclusive creation adds exactly one entry for a new, unsynchronised, empty inode, or changes nothing; `taken` says the name existed |
| `Disks.Disk.Write` | src/store.c:181-197 | a write appends a prefix of what it was given, possibly none of it, to one inode, which is then unsynchronised, or is interrupted, or fails |
| `Disks.Disk.FsyncFile` | src/store.c:199-208 | synchronising marks one inode and nothing else |
| `Disks.Disk.FsyncDir` | src/store.c:199-208 | synchronising a directory makes its entries durable; failing, any of them may still be |
| `Disks.Disk.Rename` | src/store.c:210-234 | a rename moves one entry over another, refusing when asked not to replace |
| `Disks.Disk.Unlink` | src/store.c:978-980 | removes one entry or changes nothing |
| `Disks.Disk.WriteAll` | src/store.c:262-279 | short and interrupted writes are continued until all bytes are in the inode; on failure a prefix is |
| `Publish.OpenTemp` | src/store.c:856-892 | a temporary file is a fresh private inode under a temporary name no reader looks at; at most 32 names are tried |
| `Publish.WriteAtomic` | src/store.c:837-982 | OK or a durability warning exactly when the complete, synchronised new bytes are under the name; otherwise the managed entries are as before, in every intermediate state too |
| `Publish.WriteSnapshotExclusive` | src/store.c:1129-1238 | publishes complete bytes under a free name only, and reports an existing name without touching it |
| `Publish.CopyChunks` | src/store.c:1055-1077 | the copy loop, in chunks of any size: all bytes of the source are in the copy on success |
| `Publish.CopyActiveExclusive` | src/store.c:984-1127 | the exact bytes of the active file under a free name, durable on success |
| `Protocol.EvolvesRename` | src/store.c:943-960 | replacing an entry keeps to the grant when the inode is complete and the backup it must follow is secured |
| `Protocol.EvolvesUnlink` | src/store.c:1564-1605 | deleting keeps to the grant for an automatic backup below the granted generation |
| `Protocol.EvolvesSynced` | src/store.c:837-982 | in every state of an operation all inodes reachable through managed names are complete and synchronised |
| `Prune.Scan` | src/store.c:1438-1563 | in any directory order, succeeds only if every automatic backup of the vault authenticates and opens, and lists exactly the eligible ones |
| `Prune.RemoveOldest` | src/store.c:1564-1630 | deletes a prefix of the sorted candidates, all of it on success |
| `Prune.PruneBackups` | src/store.c:1438-1636 | whatever the result, removes only a lowest-generations part of the eligible set, each an automatic backup below the last generation and not of mode 0400, nothing unless every automatic backup opens as the generation in its name, and on success leaves exactly the retained number |
| `Prune.EligibleAfter` | src/store.c:1564-1605 | a pass takes its removals out of the eligible set and adds nothing |
| `Prune.EligibleExactly` | src/store.c:1527-1563 | eligible are exactly the generations up to the last one whose name is there and not of mode 0400 |
| `Retention.SavesKeepNewest` | src/store.c:1829-1840 | for committed saves of rising generations between which no earlier backup is touched, wherever pruning stopped, the backups left are the newest of all that were ever made, and not fewer than the retention |
| `Retention.SavesConverge` | src/store.c:1829-1840 | after one complete pass they are exactly what a single complete pass over all of them would leave |
| `Retention.RunsAreSuccessive` | src/store.c:1712-1854 | the committed saves of every run without restore and crash, failed saves of any handle in between, are such a sequence |
| `Retention.RunsKeepNewest` | src/store.c:1712-1854 | so at every point of such a run the backups left are the newest, and after a complete pass as many as the retention allows |
| `Store.ReadSnapshot` | src/store.c:547-613 | returns the bytes of a strictly valid file; a format or version refusal of a valid file is exactly the read error just behind its last byte |
| `Store.AcceptExisting` | src/store.c:1681-1704 | a name already taken is accepted, and made durable, exactly when it holds the same bytes; holding them it is refused as existing if and only if it was misread |
| `Store.AutomaticBackup` | src/store.c:1638-1710 | the snapshot is durably under its generation name afterwards, newly written or the one that was there; the existing-name status means the name is taken, and with the right bytes there exactly a misread; without faults it means other bytes |
| `Store.BackupIsEligible` | src/store.c:1540-1563 | once the backup is made, the generations pruning may act on are the earlier ones and this one |
| `Store.Confirm` | src/store.c:1800-1853 | the handle takes the new hash and is clean if and only if the file was read back as published, whatever else failed; the result is OK if and only if nothing did; pruning follows only then, takes the lowest generations, never the backup just made, and exactly the excess when it completes |
| `Store.Replace` | src/store.c:1783-1840 | replacement, then confirmation: the active file is replaced exactly for OK and durability warnings, and what retention removed is known |
| `Store.Commit` | src/store.c:1773-1853 | backup first, then replacement, then confirmation; refused over the name only if it is taken, and with the right bytes there exactly for a misread; uncommitted, no backup but the one of this generation is touched |
| `Store.CheckActive` | src/store.c:1731-1763 | the checks before a save touches anything, with the exact status of each refusal when no call fails |
| `Store.SaveLocked` | src/store.c:1712-1854 | the whole result contract of a save of any valid file under all faults: what is replaced and backed up, the new generation and update time, that the handle follows the file exactly if it was read back, which backups retention removed, that every other backup is spared and a failed save removes none, exactly when a name in the way refuses it, that a refused save leaves handle and file alone; and, when no call fails, the exact status for every input and a complete pruning |
| `Store.RefusedOverName` | src/store.c:1670-1704 | with a free name no save is refused over it; with the right bytes under it, a save that started is refused over it if and only if the backup was misread |
| `Store.KeepActive` | src/store.c:2310-2362 | a durable exact copy of an active file of the same vault, before anything is replaced |
| `Store.Restore` | src/store.c:2277-2418 | the active file becomes exactly the authenticated image after a durable copy of the old one, or is untouched; when no call fails, the exact status for every input |
| `Runs.OperationSound` | src/store.c:837-982 | every state of an operation shows the old or the new active file, complete |
| `Runs.SavedHandle` | src/store.c:1816-1844 | the handle that saved is of the new snapshot, or keeps the hash of the one it replaced, one generation earlier |
| `Runs.SaveReplacesOrigin` | src/store.c:1758-1764 | a save that starts replaces exactly the bytes its handle came from |
| `Runs.SaveStep` | src/store.c:1712-1854 | a save keeps the invariant of runs |
| `Runs.CreateStep` | src/store.c:1856-1924 | a creation keeps it |
| `Runs.RestoreStep` | src/store.c:2277-2418 | a restore of an opened image keeps it, unless the image is the very file a handle with an unverified commit came from |
| `Runs.StepExactly` | src/store.c:1758-1764 | an action keeps the invariant if and only if what it commits is not the very file that a handle with an unverified commit came from |
| `Runs.CommitRevives` | src/store.c:1758-1764 | after a commit or restore exactly the handles that came from the committed file can save, and what they save is of the next generation if and only if their last commit was verified |
| `Runs.NoRestoreNoStale` | src/store.c:1712-1854 | without restores no action commits such a file: every run of actions keeps the invariant |
| `Runs.AnyCrashStep` | src/store.c:837-982 | a crash between operations or in any state of one keeps it |
| `Runs.StepKeepsInv` | src/store.c:1712-1854 | every action keeps it: sound active file, sound handles, one chain of events with generations rising by one per save |
| `Runs.RunsKeepInv` | src/store.c:1712-1854 | it holds throughout every run, whatever valid files are saved, openable or not |
| `Runs.RunsStayWithin` | src/store.c:1712-1854 | whatever holds of every file sealed or restored holds of the active file throughout every run, and of all that a crash could show |
| `Runs.CrashShowsOldOrNew` | src/store.c:837-982 | a crash in any state of an operation shows the new bytes or what a crash before could have shown; with a durable entry, old or new |
| `Runs.ReplacedIsBackedUp` | src/store.c:1773-1799 | if a crash shows the new file, the replaced bytes are under the backup name |
| `Runs.CommitWasAdmitted` | src/store.c:1681-1690 | a commit means the backup name was free or held the very bytes replaced |
| `Runs.StaleCannotCommit` | src/store.c:1816-1844 | a handle with an unverified commit cannot commit |
| `Runs.StaleStaysStale` | src/store.c:1816-1844 | and stays so in every run, restores of any other file included |
| `History.NameAdmitsCurrent` | src/store.c:1670-1704 | while the history holds, the name of the current generation admits the current snapshot |
| `History.SaveRecorded` | src/store.c:1638-1710 | every state of a save is recorded on the line extended by the new snapshot |
| `History.OrdinaryRuns` | src/store.c:1712-1854 | in runs without restore and crashes, backup `g` is snapshot `g`, and a save is refused over a name if and only if its backup was misread |
| `History.CrashRecorded` | src/store.c:837-982 | after a crash of a benign state the disk is recorded on the surviving part of the line |
| `History.CleanRuns` | src/store.c:1712-1854 | the same with crashes anywhere, if every save starts with the active file settled |
| `History.AcknowledgedRuns` | src/store.c:1712-1854 | the same with crashes anywhere, if every commit that returned reported success |
| `History.EmptyStarts` | src/store.c:1856-1924 | an empty disk satisfies the invariants of runs and of the history |
| `History.BenignExactly` | src/store.c:1670-1704 | every crash of a recorded state leaves a history if and only if no backup of a later generation than a possible active file is possible |
| `History.UncleanBackupNotBenign` | src/store.c:1773-1799 | a save started while a crash could undo the previous commit is not benign once its backup exists |
| `Orphans.SettledExactly` | src/store.c:1773-1799 | every crash in every state of a save leaves a history if and only if the active file was settled when the save began |
| `Orphans.UnsettledSaveLosesHistory` | src/store.c:1773-1799 | otherwise the state with the backup made, and a crash that undoes the last commit, lose it |
| `Orphans.BlockedOperation` | src/store.c:1681-1690 | with other bytes under the name its generation needs, no state of a save can show another active file, and the name is not freed |
| `Orphans.BlockedStep` | src/store.c:1681-1690 | no step but a restore or a crash changes that, and nothing commits |
| `Orphans.BlockedCrash` | src/store.c:1681-1690 | nor does a crash, once both entries are durable |
| `Orphans.BlockedRuns` | src/store.c:1712-1854 | so nothing commits in any run without restore and crash |
| `Orphans.BlockedForGoodRuns` | src/store.c:1712-1854 | nor, once both are durable, in any run without restore |
| `Orphans.OrphanBlocks` | src/store.c:1681-1690 | a save over a left-over backup of the next generation leads there |
| `Orphans.SaveHappens` | src/store.c:1712-1854 | a save in which every call succeeds, or only the last synchronisation fails, is a step of a run, with its effect on every entry |
| `Orphans.LostHistoryRun` | src/store.c:1712-1854 | from an empty disk, call by call: a creation, a save with a durability warning, a save cut by a crash, and after it no history, one more save, and the next refused over the name, for good |
| `Witnesses.MisreadRun` | src/store.c:590-598 | from an empty disk: a creation, a save that fails once its backup is made, and a save refused over that backup, which holds exactly the right bytes |
| `Witnesses.RevivedRun` | src/store.c:1816-1844 | from an empty disk: a creation, a save not read back, a restore of what was created, and a save of generation 3 over generation 1, backed up under the name of generation 2 |
| `Execution.SaveInRun` | src/store.c:1712-1854 | a call of the save method is an action of the run, with what it does to the backups, a step if and only if the invariant holds after it, and a crash in any state the disk passed through is a step |
| `Execution.CreateInRun` | src/store.c:1856-1924 | the same for creating |
| `Execution.RestoreInRun` | src/store.c:2277-2418 | the same for restoring an opened image |
| `BackupNames.ParseName` | src/store.c:1323-1374 | accepts exactly the names the formatter gives, with their vault and generation |
| `BackupNames.ParseExactly` | src/store.c:1296-1374 | formatting and parsing are inverse |
| `BackupNames.AutoNameInjective` | src/store.c:1296-1321 | a name belongs to one vault and one generation |
| `Wire.BackupNamed` | src/store.c:1296-1321 | the name, character by character: prefix, lower-case hexadecimal, twenty decimal digits, extension |
| `Wire.RandomPart` | src/store.c:856-869 | the random part of temporary and pre-restore names, digit by digit |
| `Wire.OtherNames` | src/store.c:2341-2350 | temporary and pre-restore names, part by part |
| `Wire.StoreNumbers` | src/store.c:856-869 | generations are 64-bit and thirty-two temporary names are tried |
| `BackupNames.TempNameIsTemp` | src/store.c:856-869 | temporary names are recognised and differ from their target |
| `BackupNames.PublishedNamesAreNotTemp` | src/store.c:2341-2350 | automatic and pre-restore names are never taken for temporary |
| `Arenas.Arena.Alloc` | src/arena.c:25-48 | succeeds exactly when the aligned block fits; the block is zeroed and nothing else changes |
| `Arenas.Arena.Copy` | src/arena.c:50-77 | a terminated private copy at the top of the arena; empty texts take nothing; refusals change nothing |
| `Arenas.Arena.Wipe` | src/model.c:428-446 | zeroes exactly the bytes of the given slices |
| `Arenas.AlignedUp` | src/arena.c:37-41 | blocks start at a multiple of their alignment |
| `Arenas.BlocksApart` | src/arena.c:25-48 | in any sequence of calls, blocks never overlap and stay below what is used |
| `Records.ValidateFields` | src/model.c:24-73 | OK exactly for records within every limit with valid text; otherwise the status of the first check that fails, limits before scalars before urls, tags and fields, and in a collection that of its first bad item |
| `Records.ValidateRecord` | src/model.c:75-86 | adds a non-zero revision and identifier, and the format status without them |
| `Wire.RecordLimits` | src/model.c:24-73 | accepted records are within the documented limits |
| `Wire.LimitsSuffice` | src/model.c:24-73 | and every record within them, with UTF-8 where text is asked for, is accepted |
| `Wire.RecordIdentity` | src/model.c:75-86 | identifier, revision and times of a valid record |
| `Wire.VaultLimits` | src/cbor_codec.c:157-188 | generation, device identifier, times and number of records of a valid vault |
| `Wire.ChangesRefused` | src/model.c:416-428 | what deleting and editing refuse, and the limit of each text |
| `Wire.AddRefused` | src/model.c:245-279 | what adding refuses |
| `Layout.ReserveKeepsBudget` | src/model.c:139-163 | doubling the record array keeps the budget, and never goes past 4096 records |
| `Layout.AddKeepsBudget` | src/model.c:245-335 | so does a record's texts and arrays |
| `Layout.ArenaExample` | src/model.c:139-163 | the arena in numbers: the first record array, its doubling, and a record with one of everything |
| `Model.ViewSame` | src/model.c:165-243 | a stored record denotes the same record while its own slices do |
| `Model.GrowthKeepsSound` | src/model.c:139-163 | allocation above what is used changes no record |
| `Model.AddKeepsSound` | src/model.c:245-335 | a record placed above keeps memory tidy, identifiers distinct and the budget |
| `Model.SwapKeepsSound` | src/cli.c:689-707 | replacing some slices of one record and wiping the old ones changes no other record and keeps the invariant |
| `Copying.CopySlices` | src/model.c:165-195 | the array and the texts are laid out one behind the other, exactly when they fit |
| `Copying.CopyFields` | src/model.c:197-243 | the same for custom fields, name before value |
| `Copying.CopyRecord` | src/model.c:285-327 | the copy denotes the source record, in fresh disjoint slices, exactly when it fits |
| `Vaults.Vault.constructor` | src/model.c:88-124 | an empty vault whose arena holds the first record array |
| `Vaults.Vault.FindId` | src/model.c:337-350 | finds the record with the identifier if and only if there is one |
| `Vaults.Vault.EnsureCapacity` | src/model.c:139-163 | room for one more record exactly when the doubled array fits; contents unchanged |
| `Vaults.Vault.Add` | src/model.c:245-335 | appends exactly one record: the source's contents, an identifier drawn if it had none, and for a new record revision 1 and the present for the times it does not bring; with the exact status of every refusal; a refused add leaves the records alone |
| `Vaults.Vault.Delete` | src/model.c:411-459 | the record keeps its identifier, title, creation time and favourite flag, is one revision later and marked deleted; everything else is gone from record and memory, no other record changes |
| `Vaults.Vault.Edit` | src/cli.c:689-758 | exactly one text of one record is replaced, one revision later; the old text is wiped; refusals change nothing |
| `Vaults.Vault.EditList` | src/cli.c:759-792 | the same for urls and tags |
| `Cloning.Clone` | src/model.c:461-491 | a copy with the same records in the arena a decoder would use, if and only if they are valid and fit that way; otherwise a limit or format status |
| `Cbor.HeadSound` | src/cbor_codec.c:233-278 | an accepted head is the shortest head of its value |
| `Cbor.HeadComplete` | src/cbor_codec.c:49-82 | every head written is read back |
| `Reference.HeadBytes` | src/cbor_codec.c:49-82 | of the bytes alone: the major type, one, two, four or eight bytes of argument as the initial byte says, the argument most significant byte first, and no shorter form |
| `Reference.HeadsOrdered` | src/cbor_codec.c:49-82 | larger numbers have bytewise later heads, the order map keys must have |
| `Reference.HeadsRefused` | src/cbor_codec.c:233-278 | exactly what starts with no shortest head of the major type is refused, as malformed |
| `Reference.StringsRefused` | src/cbor_codec.c:280-352 | a string or count over its limit, cut short or not UTF-8, each with its status |
| `Cbor.BlobSound` | src/cbor_codec.c:324-352 | an accepted string is within its limit, is UTF-8 where text is expected, and re-encodes to itself |
| `Cbor.BlobComplete` | src/cbor_codec.c:99-103 | every such string is read back |
| `Schema.FieldSound` | src/cbor_codec.c:354-379 | a field read is valid and was its own encoding |
| `Schema.FieldComplete` | src/cbor_codec.c:105-114 | every valid field is read back |
| `Schema.RecordSound` | src/cbor_codec.c:381-468 | a record read is valid and was its own encoding |
| `Schema.RecordComplete` | src/cbor_codec.c:116-155 | every valid record is read back |
| `Sizes.OneRecordSize` | src/cbor_codec.c:116-155 | a record encodes into at most 80 bytes more than it costs in the arena |
| `Sizes.AddAllBudget` | src/model.c:139-163 | a vault that was only added to keeps the budget and has at most 4096 records |
| `Plaintext.RecordsSound` | src/cbor_codec.c:562-568 | the record loop accepts only encodings of vaults it could build |
| `Plaintext.RecordsComplete` | src/cbor_codec.c:562-568 | and rebuilds every vault that was built by adding |
| `Plaintext.EncodingFits` | src/crypto.c:490-496 | encoded length plus four is at most the arena used, whatever operations led to it |
| `Plaintext.DecodeSound` | src/cbor_codec.c:510-579 | what is decoded is openable, and the input was its one encoding |
| `Plaintext.DecodeComplete` | src/cbor_codec.c:510-579 | every openable vault decodes from its encoding |
| `Plaintext.DecodeExactly` | src/cbor_codec.c:157-579 | both: decoding accepts exactly the encodings of openable vaults |
| `Plaintext.EncodingInjective` | src/cbor_codec.c:157-221 | valid vaults with the same encoding are the same |
| `Plaintext.DecodeOwn` | src/cbor_codec.c:510-579 | a valid vault is given back from its encoding or refused, and which of the two is decided by whether its records fit when laid out afresh |
| `Reference.FieldEncoded` | src/cbor_codec.c:105-114 | a custom field is written as the documented map |
| `Reference.RecordEncoded` | src/cbor_codec.c:116-155 | a record is written as the documented map |
| `Reference.PlainEncoded` | src/cbor_codec.c:190-221 | a vault is written as the deterministic encoding of the documented top-level map, all keys in order at every depth |
| `Reference.DecodesDocumented` | src/cbor_codec.c:510-579 | the decoder accepts exactly these encodings of openable vaults |
| `Reference.InputsRefused` | src/cbor_codec.c:510-579 | only an empty or oversized input is misuse; any other refusal is malformed or over a limit |
| `Writers.Writer.Raw` | src/cbor_codec.c:22-42 | appends exactly when it fits; a failed writer stays failed |
| `Writers.Writer.TypeValue` | src/cbor_codec.c:49-82 | writes the shortest head, most significant byte first |
| `Writers.Writer.PutField` | src/cbor_codec.c:105-114 | writes the encoding of a field |
| `Writers.Writer.PutRecord` | src/cbor_codec.c:116-155 | writes the encoding of a record |
| `Writers.WritePlain` | src/cbor_codec.c:190-221 | writes the encoding of the vault, or fails for size |
| `Writers.Encode` | src/cbor_codec.c:157-221 | succeeds exactly for valid vaults with secure memory to be had, never fails for size, and refuses with the right status |
| `Readers.Reader.Value` | src/cbor_codec.c:233-278 | reads exactly the shortest heads |
| `Readers.Reader.Slice` | src/cbor_codec.c:324-352 | reads a bounded string, limit before truncation before encoding errors |
| `Readers.Reader.DecodeField` | src/cbor_codec.c:354-379 | reads a field as the grammar says, with the exact status |
| `Readers.Reader.DecodeRecord` | src/cbor_codec.c:381-468 | reads a record, with the exact status |
| `Readers.DecodeOne` | src/cbor_codec.c:469-478 | adds the record read; a repeated identifier is a format error |
| `Readers.DecodeRecords` | src/cbor_codec.c:564-568 | the loop, record by record, with the exact status and arena |
| `Readers.Decode` | src/cbor_codec.c:510-579 | the vault is exactly what the bytes decode to, in the arena that adding its records one by one would use; refusals have the exact status |
| `Reopen.AddReopens` | src/model.c:245-335 | adding keeps a vault reopenable |
| `Reopen.DeleteReopens` | src/model.c:411-459 | deleting keeps it reopenable |
| `Reopen.ShorterEditReopens` | src/cli.c:689-707 | an edit that does not lengthen a text keeps it reopenable |
| `Reopen.ClearedListReopens` | src/cli.c:759-792 | so does clearing a list |
| `Reopen.SessionsReopen` | src/model.c:245-459 | from a vault just created or opened, any sequence of these operations leaves one that opens again |
| `Reopen.ReopensExactly` | src/cbor_codec.c:510-579 | a sound vault decodes from its own encoding if and only if its records fit when laid out afresh |
| `Reopen.LongerEditCanFail` | src/cli.c:689-707 | a concrete vault and a one-letter edit after which they do not |
| `Reopen.SavedButNotReopened` | src/cbor_codec.c:510-579 | that vault is valid and encodes, and the decoder refuses it |
| `Headers.PutLittle` | src/crypto.c:12-32 | the bytes of a number at an offset, least significant first |
| `Headers.FromLittleOf` | src/crypto.c:34-57 | reading a number back |
| `Headers.Encode` | src/crypto.c:59-84 | every field at its offset, nothing else |
| `Headers.FieldsOfBytes` | src/crypto.c:86-112 | the fields read back, whatever they are |
| `Headers.BytesOfFields` | src/crypto.c:59-112 | the bytes written back, whatever they are |
| `Headers.DecodeHeaderExactly` | src/crypto.c:86-146 | the strict decoder accepts exactly the encodings of strict headers |
| `Wire.LittleEndian` | src/crypto.c:12-57 | byte `k` of a number in the header has weight 256 to the `k` |
| `Wire.HeaderTable` | src/crypto.c:59-84 | every field at its documented offset and width |
| `Wire.AcceptedHeaders` | src/crypto.c:114-146 | the documented values, and only they, are accepted |
| `Wire.RefusedHeaders` | src/crypto.c:114-146 | another version is unsupported, anything else malformed |
| `Keyslots.FileHeader.RewrapPassword` | src/crypto.c:275-314 | on success the header with a slot for the password; on any failure nothing but the password slot has changed |
| `Keyslots.FileHeader.RewrapRecovery` | src/crypto.c:316-351 | the same for the recovery slot |
| `Keyslots.FileHeader.Create` | src/crypto.c:353-393 | a new header with both slots, keeping a requested identifier |
| `Keyslots.AadUnchanged` | src/crypto.c:10-11 | the authenticated prefixes depend only on the fields they cover |
| `Keyslots.AadCovers` | src/crypto.c:10-11 | and they cover those fields: equal prefixes mean equal fields, and equal headers are equal in whole |
| `Wire.PasswordSlotSealed` | src/crypto.c:275-314 | the password slot: costs 3 and 256 MiB, the key they give, and header bytes 0 to 75 as associated data |
| `Wire.RecoverySlotSealed` | src/crypto.c:316-351 | the recovery slot: the key derived with its own context, and header bytes 0 to 43 |
| `Wire.UnlocksExactly` | src/crypto.c:395-466 | a credential unlocks a vault key if and only if the slot is that key sealed under the credential's key, the recorded costs within bounds and that associated data |
| `Keyslots.PasswordRewrapped` | src/crypto.c:275-430 | the new password unlocks, and every recovery key does what it did before |
| `Keyslots.RecoveryRewrapped` | src/crypto.c:316-466 | the new recovery key unlocks, and every password does what it did before |
| `Keyslots.BodyKeepsSlots` | src/crypto.c:468-548 | sealing a body changes neither |
| `Keyslots.CreatedUnlocks` | src/crypto.c:353-393 | a created header opens with both credentials |
| `Keyslots.EitherCredentialUnlocks` | src/crypto.c:275-466 | after any sequence of changes the latest password and the latest recovery key unlock the same key |
| `Keyslots.FrameExactly` | src/crypto.c:603-620 | unframing accepts exactly the frames of non-empty plaintexts |
| `Keyslots.BodyExactly` | src/crypto.c:550-621 | decryption gives back what was sealed under the same header, and accepts nothing else |
| `Wire.BodySealed` | src/crypto.c:468-548 | the body: length, content and least padding to 4096 under the body key, with the whole header as associated data |
| `Wire.BodyRefused` | src/crypto.c:550-621 | which bodies are malformed and which fail to authenticate |
| `Keyslots.EncryptBody` | src/crypto.c:468-548 | pads to whole blocks, seals under the header it updates, and what it seals decrypts; with the exact status of every refusal |
| `Snapshots.SoundIsSealable` | src/crypto.c:490-496 | every vault in a sound state can be sealed, openable or not |
| `Snapshots.ImageOpens` | src/store.c:1966-2041 | what a save seals of any valid vault is a strict snapshot of the vault with its generation, and opens to what was saved if and only if the records fit when laid out afresh |
| `Snapshots.EitherCredentialOpens` | src/store.c:1966-2129 | after any sequence of changes, the file opens with either latest credential to exactly what was saved if and only if the records fit when laid out afresh; otherwise both are refused |
| `Snapshots.OpenedIsImage` | src/store.c:1966-2041 | opening accepts nothing but sealed encodings under a strict header |
| `Snapshots.CarriesOpens` | src/store.c:1966-2041 | a file authenticates to at most one vault, and opens to it if and only if its records fit when laid out afresh |
| `Snapshots.FormatIsLawful` | src/store.c:547-613 | the real format satisfies everything the store protocol assumes of a format |
| `Snapshots.ImageIsAdmissible` | src/store.c:1764-1772 | what a save seals of any valid vault is a snapshot of the vault and generation the runs speak of |
| `Lifetime.ActiveOpensExactly` | src/store.c:1712-1854 | throughout every run over the real files, crashes included, the active file carries one valid vault, and opens to it if and only if its records fit when laid out afresh |
| `Lifetime.AnyVaultCanLoseHistory` | src/store.c:1712-1854 | the run that loses its history exists for every vault and its saves |
| `Lifetime.AnyVaultCanMisreadAndRevive` | src/store.c:1712-1854 | so do the runs with a misread backup and with a revived handle |
| `Recovery.Base32Encode` | src/recovery.c:61-90 | the symbols carry exactly the bits of the bytes; the accumulator stays in 32 bits |
| `Recovery.Base32Decode` | src/recovery.c:107-135 | decodes exactly the symbols that carry that many bytes |
| `Recovery.CarriesUnique` | src/recovery.c:107-135 | symbols carry one byte string |
| `Recovery.SymbolsUnique` | src/recovery.c:107-135 | for the 37-byte material exactly one normalized symbol string carries each value |
| `Recovery.CarriesNumber` | src/recovery.c:61-135 | bit packing as numbers: the symbols in base 32 are the bytes in base 256 followed by zero bits |
| `Recovery.SymbolsRead` | src/recovery.c:92-105 | a character is read as a value exactly if it is that letter in either case, or O for 0, or I or L for 1 |
| `Wire.RecoveryMaterial` | src/recovery.c:150-166 | a key of 32 bytes and a checksum of five, in this order |
| `Recovery.EncodeKey` | src/recovery.c:137-195 | the text carries key and checksum in twelve groups of five letters behind the prefix, none of them I, L, O or U, and is given exactly to buffers above 77 characters; with the status of every refusal |
| `Recovery.DecodeKey` | src/recovery.c:211-274 | returns a key exactly when the text's symbols carry it and its checksum for this vault; otherwise, memory permitting, the authentication status |
| `Recovery.RecoveryLaw` | src/recovery.c:137-274 | the symbol values of a text carry one key, and only those symbol values carry it |
| `Recovery.HarmlessEdits` | src/recovery.c:92-105 | after the prefix, hyphens, spaces, case and the letters O, I and L change no symbol value |
| `Recovery.HarmlessEdit` | src/recovery.c:227-256 | nor do spaces before the prefix and its case: no harmless edit of the whole text changes a symbol value |
| `Recovery.HarmlessAll` | src/recovery.c:227-256 | nor any number of them |
| `Recovery.ReadBack` | src/recovery.c:137-274 | decoding after encoding returns the key, for every vault and key, however the text was harmlessly edited in between |
| `Utf8.ValidIsUtf8` | src/util.c:7-52 | the validity predicate is exactly "some scalar values encode to these bytes" |
| `Utf8.StandardExamples` | src/util.c:7-52 | the examples of RFC 3629 |
| `Utf8.Utf8Valid` | src/util.c:7-52 | the loop decides it |
| `Utf8.DecodeCodepoint` | src/util.c:62-96 | reads the first character exactly when there is one |
| `Text.SanitizeInto` | src/util.c:98-132 | the buffer holds the sanitized text, no longer than the input; a small buffer is refused untouched |
| `Text.SanitizeSafe` | src/util.c:98-132 | it holds no unsafe code point |
| `Text.SafeIsUtf8` | src/util.c:54-60 | it is valid UTF-8 |
| `Text.SanitizeIdempotent` | src/util.c:98-132 | sanitizing twice is sanitizing once |
| `Text.UnsafeClasses` | src/util.c:54-60 | exactly control, bidirectional, line-breaking and invisible characters are not shown |
| `Text.SanitizeMasks` | src/util.c:98-132 | of well-formed text exactly those characters change, each into one question mark |
| `Text.SanitizeBad` | src/util.c:98-132 | a byte that starts no character becomes one question mark |
| `Text.Print` | src/util.c:134-162 | the printer that batches runs emits the same bytes |
| `Clipboard.StepKeeps` | src/clipboard.c:1077-1496 | every step of client, worker, owner and world keeps the invariant |
| `Clipboard.RunKeeps` | src/clipboard.c:1077-1496 | it holds throughout every run |
| `Clipboard.SecretOnlyAfterReady` | src/clipboard.c:1256-1321 | no byte of the secret is written before owner and timer exist and READY has arrived |
| `Clipboard.SendOkIsAccepted` | src/clipboard.c:1436-1479 | success means everything was written, then DONE received, timer armed, owner seen alive, ACCEPTED sent and received, in this order |
| `Clipboard.NoOwnerLeft` | src/clipboard.c:880-919 | a worker that returns leaves an owner behind if and only if SIGKILL was refused |
| `Handoff.EventEarned` | src/clipboard.c:1077-1187 | every milestone in the log was set by a step of the run, in a state of client, worker, owner and timer that it names |
| `Handoff.SendOkMeans` | src/clipboard.c:1134-1177 | success means steps, in this order, that sent DONE after the whole secret, received it unstopped, armed the timer, looked and found the owner alive with the timer armed and no stop, sent ACCEPTED and received it |
| `Handoff.SecretMeans` | src/clipboard.c:1256-1321 | before any byte of the secret there were steps that spawned an owner of the right kind, made the timer and received READY |
| `Handoff.KillWaits` | src/clipboard.c:896-918 | SIGKILL comes only after twenty-five looks that found the owner still there |
| `Handoff.WorkerLeavesWith` | src/clipboard.c:1121-1187 | the status a worker leaves with at each step, and which failures the client is told of |
| `Handoff.ClientLeavesWith` | src/clipboard.c:1436-1479 | the status the client returns |
| `Handoff.TextOffered` | src/clipboard.c:1449-1454 | a secret is offered as text exactly if it has no zero byte and is UTF-8 |

## Left out

- Foreign code: libsodium's primitives are functions with stated laws (`Keyslots.Crypto.Lawful`, shown consistent by
  `Keyslots.LawsAreConsistent`); that a wrong key is refused is not among them. The hash is taken to be injective and never the zero digest.
  libcbor's streaming check in front of the decoder is not modelled; an input it refuses is refused with the format status.
- Path splitting, ownership and mode checks, revalidation, directory creation and locking are single calls that may fail; the `backups` directory
  is taken as durable; other programs do not touch the directories; inode numbers are not reused; interruptions are finitely many.
- `pv_store_save`'s early return for a clean vault, the plain backup and export commands, inspection and the doctor are left out: they read, or copy one file with the same writer that backups use.
- Runs.StepKeepsInv: a restore is of an image that was opened first, as the command line does; an action is a step only under the condition of `Runs.StepExactly`; handles do not survive a crash.
- Retention.RunsKeepNewest: runs with a crash or a restore are left out; a crash may bring back a backup whose removal was not yet synchronised, and a restore lowers the generation.
- Retention.SavesKeepNewest: takes as given that the saves are successive, which `Retention.RunsAreSuccessive` proves of runs.
- Retention.SavesConverge: takes the same as given.
- Witnesses.MisreadRun: as `Orphans.LostHistoryRun` below.
- Witnesses.RevivedRun: as `Orphans.LostHistoryRun` below, of the actions that `Runs.Acts` allows.
- Orphans.LostHistoryRun: the run is made of steps that `Runs.Does` allows, its states built from the effects of single calls; it is not an execution of the methods, whose calls fail nondeterministically.
- Store.ReadSnapshot: which bad files have an unsupported version is not told apart from the other bad ones; every caller treats the two alike. A file that grows while it is read is not modelled.
- Store.Restore: nothing is claimed about saves after a restore succeeding; a rolled-back vault can meet another snapshot under its generation's name, and the save is then refused.
- Arrays of structures inside the arena (records, slices, fields) are accounted for by their size and place; their bytes are values of the model, not bytes of the buffer. Sizes are those of a 64-bit target.
- Keyslots.FileHeader.RewrapPassword: after a failure the slot is half updated; results about unlocking are stated for successful changes only.
- Vaults.Vault.EditList: splitting the typed line into items is not part of the model; the limits it guarantees are preconditions. Toggling the favourite flag and searching are left out.
- Memory locking, page protection and process hardening appear only as calls that may fail.
- Clipboard: descriptors, signal masks, fork and exec are reduced to calls that may fail; the processes are a step system over values rather than objects; the experimental Wayland clearing is left out.
- Vaults.Vault.constructor: a vault for which memory cannot be had, or whose path is too long, is not modelled.
- Cloning.Clone: the vault identifier, the vault key, the source hash and the path are not part of the vault object and are not copied in the model; nor is memory running out.
- Readers.Decode: libcbor's own pass over the input is not modelled.
- Recovery.EncodeKey: a failing hash is not modelled.
- Recovery.DecodeKey: a failing hash is not modelled; the code reports it as a failed authentication.
- Command line, shell, terminal, configuration and password filter are left out: they parse and print, and reach the vault only through the operations above.

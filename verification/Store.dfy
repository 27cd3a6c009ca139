/** Opening, saving and restoring the vault file under its lock: `automatic_backup`, `save_locked`, `pv_store_restore`. */
module Store {
  import opened Prelude
  import opened FileSystem
  import opened Protocol
  import opened Disks
  import opened Publish
  import opened Prune

  /** The parts of an open vault that the store reads and writes. */
  datatype View = View(generation: nat, updated: int, source: Bytes, dirty: bool)

  class Handle {
    var generation: nat
    var updated: int
    var source: Bytes
    var dirty: bool

    constructor (generation: nat, updated: int, source: Bytes, dirty: bool)
      ensures Look() == View(generation, updated, source, dirty)
    {
      this.generation, this.updated, this.source, this.dirty := generation, updated, source, dirty;
    }

    function Look(): View
      reads this
    {
      View(generation, updated, source, dirty)
    }
  }

  /**
   read_disk_file_at: the bytes under a name, if they can be read and pass the strict format.  A read that fails just
   after the last byte is reported as a malformed file; `misread` says that this happened.
   */
  method ReadSnapshot(f: Format, disk: Disk, d: DirId, n: Name) returns (r: Result<Bytes>, ghost misread: bool)
    ensures r.Ok? ==> disk.fs.Content(d, n) == Some(r.value) && f.valid(r.value)
    ensures r.Err? ==> r.status in {IO, NoMem, FormatError, Unsupported}
    ensures r.Err? && r.status in {FormatError, Unsupported} ==>
              disk.fs.Content(d, n).Some? && (misread || !f.valid(disk.fs.Content(d, n).value))
    ensures misread <==> r == Err(FormatError) && disk.fs.Content(d, n).Some? && f.valid(disk.fs.Content(d, n).value)
    ensures misread ==> !disk.reliable && !disk.readable
    ensures disk.reliable || disk.readable ==> (r.Ok? <==> disk.fs.Content(d, n).Some? && f.valid(disk.fs.Content(d, n).value))
    ensures (disk.reliable || disk.readable) && r.Err? && disk.fs.Content(d, n).Some? ==> r.status in {FormatError, Unsupported}
  {
    misread := false;
    var failed := disk.ReadFails();    // open, read, close
    var content := disk.fs.Content(d, n);
    if failed || content.None? {
      r := Err(IO);
      return;
    }
    if !f.valid(content.value) {
      var version: bool := *;
      r := Err(if version then Unsupported else FormatError);
      return;
    }
    failed := disk.ReadFails();    // malloc
    if failed {
      r := Err(NoMem);
      return;
    }
    failed := disk.ReadFails();    // read, after the body
    if failed {
      misread := true;
      r := Err(FormatError);
      return;
    }
    r := Ok(content.value);
  }

  /** A durable entry that holds `b` in a synchronised inode is secured. */
  lemma DurableIsSecured(f: Format, z: Fs, n: Name, b: Bytes)
    requires z.Valid() && AllSynced(f, z) && f.Managed(Backups, n)
    requires Durable(z, Backups, n) && z.Content(Backups, n) == Some(b)
    ensures Secured(z, n, b)
  {
    assert z.May(Backups, n, z.Now(Backups, n));
  }

  /** The backup name is free, or already holds exactly these bytes. */
  predicate NameAdmits(fs: Fs, n: Name, b: Bytes) {
    fs.Now(Backups, n) == None || fs.Content(Backups, n) == Some(b)
  }

  /** Entry `n` of `backups` is as in `a`, and nothing else managed has changed. */
  ghost predicate KeptEntry(f: Format, a: Fs, z: Fs, n: Name) {
    OnlyEntry(f, a, z, Backups, n) && z.Now(Backups, n) == a.Now(Backups, n)
  }

  /** automatic_backup, when the name is taken: the entry there is accepted exactly when it holds the same bytes. */
  method AcceptExisting(f: Format, disk: Disk, n: Name, snapshot: Bytes, ghost op: Op) returns (st: Status, ghost misread: bool)
    requires op.f == f && f.Lawful() && op.Permits(disk.fs) && disk.fs.Valid() && AllSynced(f, disk.fs) && f.Managed(Backups, n)
    requires f.valid(snapshot) && f.vaultOf(snapshot) == f.vault && disk.fs.Now(Backups, n).Some?
    modifies disk
    ensures old(disk.trace) <= disk.trace && disk.Within(op, |old(disk.trace)|)
    ensures op.Permits(disk.fs) && KeptEntry(f, old(disk.fs), disk.fs, n)
    ensures st == OK ==> Secured(disk.fs, n, snapshot)
    ensures st != Durability && (misread ==> !disk.reliable && st == Exists)
    ensures NameAdmits(old(disk.fs), n, snapshot) ==> (st == Exists <==> misread)
    ensures disk.reliable ==> st == if NameAdmits(old(disk.fs), n, snapshot) then OK else Exists
  {
    NowHasContent(disk.fs, Backups, n);
    hide Evolves, Fs.Valid, AllSynced, Secured, Fs.May;
    OnlyEntryHere(f, disk.fs, Backups, n);
    var existing;
    existing, misread := ReadSnapshot(f, disk, Backups, n);
    if existing.Ok? {
      if f.vaultOf(existing.value) != f.vault || f.hash(existing.value) != f.hash(snapshot) {
        return Exists, misread;
      }
      ghost var before := disk.fs;
      var synced := disk.FsyncDir(Backups);
      if synced {
        EvolvesSyncDir(f, op.g, op.start, before, Backups);
        SyncedEntry(f, before, n, snapshot);
        st := OK;
      } else {
        st := IO;
      }
    } else if existing.status == FormatError || existing.status == Unsupported {
      st := Exists;
    } else {
      st := existing.status;
    }
  }

  lemma NowHasContent(z: Fs, d: DirId, n: Name)
    requires z.Valid() && z.Now(d, n).Some?
    ensures z.Content(d, n).Some?
  {
    assert z.May(d, n, z.Now(d, n));
  }

  lemma OnlyEntryHere(f: Format, z: Fs, d: DirId, n: Name)
    ensures OnlyEntry(f, z, z, d, n)
  {
  }

  lemma SyncedEntry(f: Format, z: Fs, n: Name, b: Bytes)
    requires z.Valid() && AllSynced(f, z) && f.Managed(Backups, n) && z.Content(Backups, n) == Some(b)
    ensures KeptEntry(f, z, SyncDir(z, Backups), n) && Secured(SyncDir(z, Backups), n, b)
  {
    SyncDirFrame(z, Backups);
  }

  /** The backup of `b` as `n` is in place: written now if the name was free, else the one that was there. */
  ghost predicate BackedUpAs(f: Format, a: Fs, z: Fs, n: Name, b: Bytes) {
    && OnlyEntry(f, a, z, Backups, n)
    && Secured(z, n, b)
    && if a.Now(Backups, n) == None then Published(a, z, Backups, n, b, false) else z.Now(Backups, n) == a.Now(Backups, n)
  }

  /**
   automatic_backup: make the snapshot about to be replaced durable under its generation's name.  An
   entry already there is accepted exactly when it holds the same bytes.
   */
  method AutomaticBackup(f: Format, disk: Disk, generation: nat, snapshot: Bytes, random: seq<nat>, ghost op: Op)
    returns (st: Status, ghost misread: bool)
    requires op.f == f && f.Lawful() && op.Permits(disk.fs) && op.start == disk.fs && disk.fs.Valid() && AllSynced(f, disk.fs)
    requires f.valid(snapshot) && f.vaultOf(snapshot) == f.vault
    requires 0 < generation < MaxGeneration ==> op.g.backup == Some((f.autoName(generation), snapshot))
    requires generation < MaxGeneration && |random| >= TempAttempts
    modifies disk
    ensures old(disk.trace) <= disk.trace && disk.Within(op, |old(disk.trace)|)
    ensures op.Permits(disk.fs) && OnlyEntry(f, old(disk.fs), disk.fs, Backups, f.autoName(generation))
    ensures st == OK ==> 0 < generation && BackedUpAs(f, old(disk.fs), disk.fs, f.autoName(generation), snapshot)
    ensures st != Durability && (misread ==> !disk.reliable && st == Exists)
    ensures st == Exists ==> 0 < generation && old(disk.fs).Now(Backups, f.autoName(generation)).Some?
    ensures NameAdmits(old(disk.fs), f.autoName(generation), snapshot) ==> (st == Exists <==> misread)
    ensures generation == 0 ==> st != OK && disk.fs == old(disk.fs) && disk.trace == old(disk.trace) && (disk.reliable ==> st == Usage)
    ensures disk.reliable && 0 < generation && HasFreeTemp(f, old(disk.fs), Backups, f.autoName(generation), random) ==>
              st == if NameAdmits(old(disk.fs), f.autoName(generation), snapshot) then OK else Exists
  {
    hide Evolves, Private, Fs.Valid, AllSynced, Secured, Fs.May;
    misread := false;
    var n := f.autoName(generation);
    OnlyEntryHere(f, disk.fs, Backups, n);
    var failed := disk.Fails();    // make_private_directory_at
    if failed {
      st := IO;
      return;
    }
    if generation == 0 {
      st := Usage;
      return;
    }
    ghost var base := disk.fs;
    assert snapshot[..HeaderLength] + snapshot[HeaderLength..] == snapshot;
    st := WriteSnapshotExclusive(f, disk, Backups, n, snapshot[..HeaderLength], snapshot[HeaderLength..], false, random, op);
    EvolvesSynced(f, op.g, op.start, disk.fs);
    EvolvesValid(f, op.g, op.start, disk.fs);
    if st == OK {
      DurableIsSecured(f, disk.fs, n, snapshot);
    } else if st == Durability {
      st := IO;
    } else if st == Exists {
      ghost var before := disk.fs;
      QuietEntry(op, base, before, n);
      st, misread := AcceptExisting(f, disk, n, snapshot, op);
      EntryStillKept(f, base, before, disk.fs, n);
    }
  }

  /** A failed attempt leaves the entry, and what it holds, as it was. */
  lemma QuietEntry(op: Op, base: Fs, z: Fs, n: Name)
    requires base.Valid() && Quiet(op, base, z, Backups, n)
    ensures z.Content(Backups, n) == base.Content(Backups, n) && z.Now(Backups, n) == base.Now(Backups, n)
  {
    assert base.May(Backups, n, base.Now(Backups, n));
  }

  lemma EntryStillKept(f: Format, a: Fs, m: Fs, z: Fs, n: Name)
    requires OnlyEntry(f, a, m, Backups, n) && KeptEntry(f, m, z, n)
    ensures OnlyEntry(f, a, z, Backups, n)
  {
  }

  // ---------- saving ----------

  /** The operation a save is: publish `sealed`, backing up what it replaces first. */
  ghost function SaveOp(f: Format, a: Fs, generation: nat, sealed: Bytes): Op {
    var replaced := a.Content(Main, f.active);
    Op(f, Grant(Some(sealed), if replaced.Some? then Some((f.autoName(generation), replaced.value)) else None, generation), a)
  }

  /** The active entry, and whatever it may be after a crash, are as in `a`. */
  ghost predicate ActiveUntouched(f: Format, a: Fs, z: Fs) {
    z.Now(Main, f.active) == a.Now(Main, f.active) && forall v :: z.May(Main, f.active, v) ==> a.May(Main, f.active, v)
  }

  predicate Committed(st: Status) {
    st == OK || st == Durability
  }

  /** The active file is the one this handle was opened from. */
  predicate IsCurrent(f: Format, a: Fs, h: View) {
    && a.Content(Main, f.active).Some?
    && f.hash(a.Content(Main, f.active).value) == h.source
    && f.vaultOf(a.Content(Main, f.active).value) == f.vault
  }

  /** The checks a save makes before it touches the disk. */
  predicate SaveStarted(f: Format, a: Fs, h: View, createOnly: bool) {
    if createOnly then a.Now(Main, f.active) == None else 0 < h.generation && IsCurrent(f, a, h)
  }

  /**
   The contract of a save, whatever fails: success or a durability warning mean exactly that the new
   bytes replaced the ones the handle was opened from, after a durable backup of those; any other
   status means that neither the active file nor the handle changed.  A save is refused over the
   backup's name only if the name is taken, and, if it holds the right bytes, exactly for a misread.
   */
  ghost predicate SaveOutcome(f: Format, a: Fs, h: View, sealed: Bytes, createOnly: bool, z: Fs, h': View, st: Status, misread: bool) {
    if Committed(st) then
      && !misread
      && Published(a, z, Main, f.active, sealed, false)
      && SaveStarted(f, a, h, createOnly)
      && (!createOnly ==> Secured(z, f.autoName(h.generation), a.Content(Main, f.active).value))
      && h'.generation == h.generation + 1
      && ((h'.source == f.hash(sealed) && !h'.dirty) || (h'.source == h.source && h'.dirty == h.dirty && st == Durability))
      && (st == OK ==> h'.source == f.hash(sealed) && Durable(z, Main, f.active))
    else
      && ActiveUntouched(f, a, z)
      && (!SaveStarted(f, a, h, createOnly) ==> z == a)
      && h' == h
      && (misread ==> st == Exists && !createOnly)
      && (st == Exists && !createOnly ==>
            && SaveStarted(f, a, h, false) && a.Now(Backups, f.autoName(h.generation)).Some?
            && (misread || !NameAdmits(a, f.autoName(h.generation), a.Content(Main, f.active).value)))
  }

  /** A save is refused over its backup's name never if the name is free, and exactly for a misread if it holds the right bytes. */
  lemma RefusedOverName(f: Format, a: Fs, h: View, sealed: Bytes, z: Fs, h': View, st: Status, misread: bool)
    requires SaveOutcome(f, a, h, sealed, false, z, h', st, misread)
    ensures a.Now(Backups, f.autoName(h.generation)) == None ==> st != Exists && !misread
    ensures SaveStarted(f, a, h, false) && NameAdmits(a, f.autoName(h.generation), a.Content(Main, f.active).value) ==> (st == Exists <==> misread)
    ensures misread ==> SaveStarted(f, a, h, false) && st == Exists
  {
    hide Published, Secured, Durable;
  }

  /** Nothing but a fault stops the backup of `b` as generation `g`. */
  predicate BackupAdmissible(f: Format, a: Fs, g: nat, b: Bytes, random: seq<nat>) {
    0 < g && HasFreeTemp(f, a, Backups, f.autoName(g), random) && NameAdmits(a, f.autoName(g), b)
  }

  /** The handle is of the active file, which nothing keeps from being replaced. */
  predicate Replaceable(f: Format, a: Fs, h: View) {
    && h.generation < MaxGeneration - 1
    && IsCurrent(f, a, h) && f.valid(a.Content(Main, f.active).value)
    && !a.inodes[a.Now(Main, f.active).value].pinned
  }

  /** Nothing but a fault stops this save. */
  predicate SaveAdmissible(f: Format, a: Fs, h: View, createOnly: bool, randomBackup: seq<nat>, randomActive: seq<nat>) {
    && h.generation < MaxGeneration - 1
    && HasFreeTemp(f, a, Main, f.active, randomActive)
    && if createOnly then a.Now(Main, f.active) == None
       else Replaceable(f, a, h) && BackupAdmissible(f, a, h.generation, a.Content(Main, f.active).value, randomBackup)
  }

  /** What a save answers when no call fails and temporary names are to be had. */
  predicate SaveAnswers(f: Format, a: Fs, h: View, sealed: Result<Bytes>, createOnly: bool, st: Status) {
    if !CheckAnswers(f, a, h, createOnly, OK) then CheckAnswers(f, a, h, createOnly, st)
    else if sealed.Err? then st == sealed.status
    else if createOnly then st == OK
    else if h.generation == 0 then st == Usage
    else st == if NameAdmits(a, f.autoName(h.generation), a.Content(Main, f.active).value) then OK else Exists
  }

  /** What its checks of the active file answer. */
  predicate CheckAnswers(f: Format, a: Fs, h: View, createOnly: bool, st: Status) {
    var active := a.Content(Main, f.active);
    if h.generation == MaxGeneration - 1 then st == Limit
    else if createOnly then st == if a.Now(Main, f.active).Some? then Exists else OK
    else if a.Now(Main, f.active).None? then st == Locked
    else if active.None? || !f.valid(active.value) then st == FormatError || st == Unsupported
    else if a.inodes[a.Now(Main, f.active).value].pinned then st == IO
    else st == if IsCurrent(f, a, h) then OK else Locked
  }

  /** Nothing but the backup name stops this save. */
  predicate NameRefuses(f: Format, a: Fs, h: View, randomBackup: seq<nat>) {
    && Replaceable(f, a, h) && 0 < h.generation && HasFreeTemp(f, a, Backups, f.autoName(h.generation), randomBackup)
    && !NameAdmits(a, f.autoName(h.generation), a.Content(Main, f.active).value)
  }

  // ---------- retention ----------

  /** The generations a save from `g` finds itself with once its own backup is made. */
  ghost function AllAt(f: Format, a: Fs, g: nat): set<nat> {
    Eligible(f, a, g) + if a.Now(Backups, f.autoName(g)) == None then {g} else {}
  }

  /**
   Of the generations `all`, exactly `removed` are gone in `z`: the lowest ones, never more than the retention
   asks for, and exactly as many if the pass is `complete`.
   */
  ghost predicate Retained(f: Format, all: set<nat>, z: Fs, g: nat, retention: nat, removed: set<nat>, complete: bool) {
    && Eligible(f, z, g) == all - removed
    && LowestOf(removed, all) && g !in removed
    && |removed| <= Excess(|all|, retention)
    && (complete ==> |removed| == Excess(|all|, retention))
  }

  /** Every backup but `n`, and but the automatic ones of generations in `removed`, is as in `a`, crashes included. */
  ghost predicate Spared(f: Format, a: Fs, z: Fs, n: Name, removed: set<nat>) {
    forall m: Name :: f.Managed(Backups, m) && m != n && !(f.parseAuto(m).Some? && f.parseAuto(m).value in removed) ==>
      z.Now(Backups, m) == a.Now(Backups, m) && forall v :: z.May(Backups, m, v) ==> a.May(Backups, m, v)
  }

  /** What a save from generation `g` does to the backups: if it is not committed, it removes none. */
  ghost predicate BackupsAfter(f: Format, a: Fs, g: nat, z: Fs, committed: bool, retention: nat, removed: set<nat>, complete: bool) {
    && Spared(f, a, z, f.autoName(g), removed)
    && if committed then Retained(f, AllAt(f, a, g), z, g, retention, removed, complete) else removed == {}
  }

  lemma OnlyEntrySpares(f: Format, a: Fs, z: Fs, n: Name)
    requires OnlyEntry(f, a, z, Backups, n)
    ensures Spared(f, a, z, n, {})
  {
  }

  lemma PruneSpares(f: Format, a: Fs, y: Fs, z: Fs, n: Name, removed: set<nat>)
    requires Spared(f, a, y, n, {}) && Removed(f, y, z, removed)
    ensures Spared(f, a, z, n, removed)
  {
  }

  /** An entry that is as it was is eligible, and vouched for, as before. */
  lemma SameEntry(f: Format, a: Fs, z: Fs, g: nat, n: Name)
    requires a.Valid() && z.Now(Backups, n) == a.Now(Backups, n)
    requires forall i :: i in a.inodes ==> i in z.inodes && z.inodes[i] == a.inodes[i]
    ensures (n in z.backups.now <==> n in a.backups.now) && (IsEligible(f, z, g, n) <==> IsEligible(f, a, g, n))
    ensures Authentic(f, z, n) <==> Authentic(f, a, n)
  {
    assert a.May(Backups, n, a.Now(Backups, n));
  }

  /** The new backup is eligible. */
  lemma NewEntry(f: Format, a: Fs, z: Fs, g: nat, b: Bytes)
    requires f.Lawful() && 0 < g < MaxGeneration && Published(a, z, Backups, f.autoName(g), b, false)
    ensures IsEligible(f, z, g, f.autoName(g)) && (Vouched(f, b, g) ==> Authentic(f, z, f.autoName(g)))
  {
  }

  lemma BackupIsEligible(f: Format, a: Fs, z: Fs, g: nat, b: Bytes)
    requires f.Lawful() && a.Valid() && 0 < g < MaxGeneration && BackedUpAs(f, a, z, f.autoName(g), b)
    ensures Eligible(f, z, g) == AllAt(f, a, g)
    ensures !Suspicious(f, a) && Vouched(f, b, g) ==> !Suspicious(f, z)
  {
    var m := f.autoName(g);
    assert f.parseAuto(m) == Some(g);
    hide Fs.Valid, IsEligible, Authentic, Secured, Fs.May;
    if a.Now(Backups, m) == None {
      NewEntry(f, a, z, g, b);
    } else {
      SameEntry(f, a, z, g, m);
    }
    forall n: Name | f.parseAuto(n).Some? && n != m
      ensures (n in z.backups.now <==> n in a.backups.now) && (IsEligible(f, z, g, n) <==> IsEligible(f, a, g, n))
      ensures Authentic(f, z, n) <==> Authentic(f, a, n)
    {
      SameEntry(f, a, z, g, n);
    }
    forall x
      ensures x in Eligible(f, z, g) <==> x in AllAt(f, a, g)
    {
      EligibleExactly(f, z, g, x);
      EligibleExactly(f, a, g, x);
    }
  }

  /** What happens in the vault's own directory concerns no backup. */
  lemma MainKeepsBackups(f: Format, a: Fs, z: Fs, g: nat, n: Name)
    requires a.Valid() && OnlyEntry(f, a, z, Main, n)
    ensures Eligible(f, z, g) == Eligible(f, a, g) && (Suspicious(f, z) <==> Suspicious(f, a))
  {
    assert z.In(Backups) == a.In(Backups);
    forall m: Name
      ensures (IsEligible(f, z, g, m) <==> IsEligible(f, a, g, m)) && (Authentic(f, z, m) <==> Authentic(f, a, m))
    {
      SameEntry(f, a, z, g, m);
    }
    hide IsEligible, Authentic, Fs.Valid;
  }

  /** After pruning, the active file and the backup just made are as they were. */
  lemma PruneKeepsCommit(f: Format, a: Fs, z: Fs, y: Fs, sealed: Bytes, generation: nat, removed: set<nat>, current: Bytes)
    requires f.Lawful() && 0 < generation < MaxGeneration
    requires Removed(f, z, y, removed) && generation !in removed
    ensures Published(a, z, Main, f.active, sealed, false) ==> Published(a, y, Main, f.active, sealed, false)
    ensures Durable(z, Main, f.active) ==> Durable(y, Main, f.active)
    ensures Secured(z, f.autoName(generation), current) ==> Secured(y, f.autoName(generation), current)
  {
    assert forall v :: y.May(Main, f.active, v) ==> z.May(Main, f.active, v);
  }

  /** What a committed save met after its rename: what reading back gave, and whether directory or location made trouble. */
  datatype Seen = Seen(readBack: Result<Bytes>, unsynced: bool, moved: bool)

  /**
   The handle after a commit: it takes the new hash and is clean if and only if the file was read back as published,
   whatever else went wrong; and the commit is a success if and only if nothing did.
   */
  predicate Settles(f: Format, sealed: Bytes, source: Bytes, dirty: bool, source': Bytes, dirty': bool, st: Status, seen: Seen) {
    && (seen.readBack.Ok? ==> seen.readBack.value == sealed)
    && (if seen.readBack.Ok? then source' == f.hash(sealed) && !dirty' else source' == source && dirty' == dirty)
    && st == if seen.readBack.Ok? && !seen.unsynced && !seen.moved then OK else Durability
  }

  /** After the rename: read the file back, settle the handle, and prune if nothing was amiss. */
  method Confirm(f: Format, disk: Disk, h: Handle, previous: nat, present: bool, current: Bytes, sealed: Bytes, retention: nat,
                 warned: bool, ghost op: Op)
    returns (st: Status, ghost removed: set<nat>, ghost complete: bool, ghost seen: Seen)
    requires op.f == f && op.Valid() && op.Permits(disk.fs) && disk.fs.Valid() && f.valid(sealed)
    requires Published(op.start, disk.fs, Main, f.active, sealed, false)
    requires !warned ==> Durable(disk.fs, Main, f.active)
    requires present ==> 0 < previous < MaxGeneration && 0 < retention && Secured(disk.fs, f.autoName(previous), current)
    requires present ==> op.g.dropBelow == previous && op.g.backup == Some((f.autoName(previous), current))
    modifies disk, h`source, h`dirty
    ensures old(disk.trace) <= disk.trace && disk.Within(op, |old(disk.trace)|)
    ensures op.Permits(disk.fs) && Published(op.start, disk.fs, Main, f.active, sealed, false)
    ensures present ==> Secured(disk.fs, f.autoName(previous), current)
    ensures present ==> Retained(f, Eligible(f, old(disk.fs), previous), disk.fs, previous, retention, removed, complete)
    ensures Removed(f, old(disk.fs), disk.fs, removed) && (!present ==> removed == {})
    ensures Settles(f, sealed, old(h.source), old(h.dirty), h.source, h.dirty, st, seen) && seen.unsynced == warned
    ensures disk.readable ==> seen.readBack.Ok?
    ensures st == OK ==> Durable(disk.fs, Main, f.active)
    ensures st != OK ==> removed == {} && !complete
    ensures disk.reliable && !warned ==> st == OK && (present && !Suspicious(f, old(disk.fs)) ==> complete)
  {
    hide Evolves, Private;
    removed, complete := {}, false;
    NothingRemoved(f, disk.fs, {});
    var warning := warned;
    var verified := false;
    var written;
    ghost var misread;
    written, misread := ReadSnapshot(f, disk, Main, f.active);
    if written.Ok? && written.value == sealed {
      h.source := f.hash(written.value);
      verified := true;
    } else {
      warning := true;
    }
    var failed := disk.Fails();    // revalidate_store_location
    if failed {
      warning := true;
    }
    seen := Seen(written, warned, failed);
    if verified {
      h.dirty := false;
      if !warning && present {
        ghost var before := disk.fs;
        var pruned;
        pruned, removed := PruneBackups(f, disk, previous, retention, op);
        complete := pruned == OK;
        PruneKeepsCommit(f, op.start, before, disk.fs, sealed, previous, removed, current);
        EligibleAfter(f, before, disk.fs, previous, removed);
      }
    }
    st := if warning || !verified then Durability else OK;
  }

  /** The last part of save_locked: replace the active file, read it back, prune. */
  method Replace(f: Format, disk: Disk, h: Handle, previous: nat, present: bool, current: Bytes, sealed: Bytes, retention: nat,
                 random: seq<nat>, ghost op: Op)
    returns (st: Status, ghost removed: set<nat>, ghost complete: bool, ghost seen: Seen)
    requires op.f == f && op.Valid() && op.Permits(disk.fs) && disk.fs.Valid() && f.valid(sealed) && 0 < retention
    requires op.g.newActive == Some(sealed) && op.start.next <= disk.fs.next && |random| >= TempAttempts
    requires if present
             then 0 < previous < MaxGeneration && op.g.dropBelow == previous && op.g.backup == Some((f.autoName(previous), current))
                  && Secured(disk.fs, f.autoName(previous), current)
             else op.g.backup.None?
    requires present == disk.fs.Now(Main, f.active).Some?
    modifies disk, h`source, h`dirty
    ensures old(disk.trace) <= disk.trace && disk.Within(op, |old(disk.trace)|)
    ensures op.Permits(disk.fs)
    ensures Committed(st) ==> Published(op.start, disk.fs, Main, f.active, sealed, false)
    ensures Committed(st) && present ==> Secured(disk.fs, f.autoName(previous), current)
    ensures Committed(st) && present ==> Retained(f, Eligible(f, old(disk.fs), previous), disk.fs, previous, retention, removed, complete)
    ensures Spared(f, old(disk.fs), disk.fs, f.autoName(previous), removed) && (!Committed(st) || !present ==> removed == {})
    ensures Committed(st) ==> Settles(f, sealed, old(h.source), old(h.dirty), h.source, h.dirty, st, seen) && (disk.readable ==> seen.readBack.Ok?)
    ensures st == OK ==> Durable(disk.fs, Main, f.active)
    ensures st != OK ==> removed == {} && !complete
    ensures !Committed(st) ==> ActiveUntouched(f, old(disk.fs), disk.fs) && h.source == old(h.source) && h.dirty == old(h.dirty)
    ensures st != Exists
    ensures disk.reliable && HasFreeTemp(f, old(disk.fs), Main, f.active, random) ==>
              st == OK && (present && !Suspicious(f, old(disk.fs)) ==> complete)
  {
    assert sealed[..HeaderLength] + sealed[HeaderLength..] == sealed;
    hide Evolves, Private, Format.Lawful, Fs.Valid, Retained, Eligible, Suspicious, Spared, Removed, OnlyEntry;
    removed, complete, seen := {}, false, Seen(Err(IO), false, false);
    OnlyEntryHere(f, disk.fs, Backups, f.autoName(previous));
    OnlyEntrySpares(f, disk.fs, disk.fs, f.autoName(previous));
    var failed := disk.Fails();    // revalidate_store_location
    if failed {
      st := Locked;
      return;
    }
    ghost var before := disk.fs;
    st := WriteAtomic(f, disk, sealed[..HeaderLength], sealed[HeaderLength..], !present, random, op);
    MainSpares(f, before, disk.fs, f.autoName(previous));
    if !Committed(st) {
      return;
    }
    EvolvesValid(f, op.g, op.start, disk.fs);
    ghost var replaced := disk.fs;
    MainKeepsBackups(f, before, disk.fs, previous, f.active);
    if present {
      SecuredFrame(f, before, disk.fs, Main, f.active, f.autoName(previous), current);
    }
    st, removed, complete, seen := Confirm(f, disk, h, previous, present, current, sealed, retention, st == Durability, op);
    PruneSpares(f, before, replaced, disk.fs, f.autoName(previous), removed);
  }

  lemma MainSpares(f: Format, a: Fs, z: Fs, n: Name)
    requires OnlyEntry(f, a, z, Main, f.active)
    ensures Spared(f, a, z, n, {})
  {
    assert z.In(Backups) == a.In(Backups);
  }

  lemma SparedTwice(f: Format, a: Fs, y: Fs, z: Fs, n: Name, removed: set<nat>)
    requires Spared(f, a, y, n, {}) && Spared(f, y, z, n, removed)
    ensures Spared(f, a, z, n, removed)
  {
  }

  /** The second half of save_locked: backup, replace, read back, prune. */
  method Commit(f: Format, disk: Disk, h: Handle, previous: nat, present: bool, current: Bytes, sealed: Bytes, retention: nat,
                randomBackup: seq<nat>, randomActive: seq<nat>, ghost op: Op)
    returns (st: Status, ghost misread: bool, ghost removed: set<nat>, ghost complete: bool, ghost seen: Seen)
    requires f.Lawful() && disk.fs.Valid() && AllSynced(f, disk.fs)
    requires op == SaveOp(f, disk.fs, previous, sealed) && previous < MaxGeneration && 0 < retention
    requires present == disk.fs.Now(Main, f.active).Some?
    requires present ==> disk.fs.Content(Main, f.active) == Some(current) && f.valid(current) && f.vaultOf(current) == f.vault
    requires f.valid(sealed)
    requires |randomBackup| >= TempAttempts && |randomActive| >= TempAttempts
    modifies disk, h`source, h`dirty
    ensures old(disk.trace) <= disk.trace && disk.Within(op, |old(disk.trace)|)
    ensures op.Permits(disk.fs)
    ensures disk.trace != old(disk.trace) && present ==> 0 < previous
    ensures present && previous == 0 ==> disk.fs == old(disk.fs)
    ensures Committed(st) ==> Published(old(disk.fs), disk.fs, Main, f.active, sealed, false)
    ensures Committed(st) && present ==> 0 < previous && Secured(disk.fs, f.autoName(previous), current)
    ensures Committed(st) && present ==> Retained(f, AllAt(f, old(disk.fs), previous), disk.fs, previous, retention, removed, complete)
    ensures Spared(f, old(disk.fs), disk.fs, f.autoName(previous), removed) && (!Committed(st) || !present ==> removed == {})
    ensures Committed(st) ==> Settles(f, sealed, old(h.source), old(h.dirty), h.source, h.dirty, st, seen) && (disk.readable ==> seen.readBack.Ok?)
    ensures st == OK ==> Durable(disk.fs, Main, f.active)
    ensures st != OK ==> removed == {} && !complete
    ensures !Committed(st) ==> ActiveUntouched(f, old(disk.fs), disk.fs) && h.source == old(h.source) && h.dirty == old(h.dirty)
    ensures st == Exists ==> present && 0 < previous && old(disk.fs).Now(Backups, f.autoName(previous)).Some?
    ensures misread ==> !disk.reliable && st == Exists
    ensures present && NameAdmits(old(disk.fs), f.autoName(previous), current) ==> (st == Exists <==> misread)
    ensures disk.reliable && HasFreeTemp(f, old(disk.fs), Main, f.active, randomActive)
            && (present ==> BackupAdmissible(f, old(disk.fs), previous, current, randomBackup))
            ==> st == OK && (present && !Suspicious(f, old(disk.fs)) && Vouched(f, current, previous) ==> complete)
    ensures disk.reliable && present && 0 < previous && HasFreeTemp(f, old(disk.fs), Backups, f.autoName(previous), randomBackup)
            && !NameAdmits(old(disk.fs), f.autoName(previous), current)
            ==> st == Exists
    ensures disk.reliable && present && previous == 0 ==> st == Usage
  {
    hide Evolves, Private, Format.Lawful, Fs.Valid, AllSynced, Retained, Eligible, Suspicious, BackedUpAs, Secured, Vouched, NameAdmits, Spared;
    misread, removed, complete, seen := false, {}, false, Seen(Err(IO), false, false);
    EvolvesInitially(f, op.g, disk.fs);
    OnlyEntryHere(f, disk.fs, Backups, f.autoName(previous));
    OnlyEntrySpares(f, disk.fs, disk.fs, f.autoName(previous));
    if present {
      st, misread := AutomaticBackup(f, disk, previous, current, randomBackup, op);
      BackupKeepsMain(f, op.start, disk.fs, f.autoName(previous));
      OnlyEntrySpares(f, op.start, disk.fs, f.autoName(previous));
      if st != OK {
        return;
      }
      BackupIsEligible(f, op.start, disk.fs, previous, current);
      BackupIsSecured(f, op.start, disk.fs, f.autoName(previous), current);
    }
    EvolvesValid(f, op.g, op.start, disk.fs);
    SaveOpValid(f, op.start, previous, sealed);
    ghost var ready := disk.fs;
    st, removed, complete, seen := Replace(f, disk, h, previous, present, current, sealed, retention, randomActive, op);
    SparedTwice(f, op.start, ready, disk.fs, f.autoName(previous), removed);
  }

  lemma SaveOpValid(f: Format, a: Fs, generation: nat, sealed: Bytes)
    requires f.Lawful() && a.Valid() && generation < MaxGeneration && (a.Content(Main, f.active).Some? ==> 0 < generation)
    ensures SaveOp(f, a, generation, sealed).Valid()
  {
  }

  lemma BackupKeepsMain(f: Format, a: Fs, z: Fs, n: Name)
    requires OnlyEntry(f, a, z, Backups, n)
    ensures z.In(Main) == a.In(Main) && a.next <= z.next && ActiveUntouched(f, a, z)
  {
  }

  lemma BackupIsSecured(f: Format, a: Fs, z: Fs, n: Name, b: Bytes)
    requires BackedUpAs(f, a, z, n, b)
    ensures Secured(z, n, b)
  {
  }

  lemma PresentHasContent(f: Format, z: Fs)
    requires z.Valid()
    ensures z.Now(Main, f.active).Some? ==> z.Content(Main, f.active).Some?
  {
    if z.Now(Main, f.active).Some? {
      NowHasContent(z, Main, f.active);
    }
  }

  /** The first part of save_locked: the active file is the one the handle is of, or is not there for a creation. */
  method CheckActive(f: Format, disk: Disk, h: Handle, createOnly: bool) returns (st: Status, present: bool, current: Bytes)
    requires disk.fs.Valid() && h.generation < MaxGeneration
    ensures st == OK ==> h.generation < MaxGeneration - 1 && present == disk.fs.Now(Main, f.active).Some? == !createOnly
    ensures st == OK && present ==> disk.fs.Content(Main, f.active) == Some(current) && f.valid(current) && IsCurrent(f, disk.fs, h.Look())
    ensures st != Durability && (st == Exists ==> createOnly)
    ensures disk.reliable ==> CheckAnswers(f, disk.fs, h.Look(), createOnly, st)
  {
    PresentHasContent(f, disk.fs);
    present, current := disk.fs.Now(Main, f.active).Some?, [];
    if h.generation == MaxGeneration - 1 {
      st := Limit;
      return;
    }
    var failed := disk.Fails();    // fstatat
    if failed {
      st := IO;
      return;
    }
    if createOnly && present {
      st := Exists;
      return;
    }
    if !createOnly && !present {
      st := Locked;
      return;
    }
    if present {
      var read;
      ghost var misread;
      read, misread := ReadSnapshot(f, disk, Main, f.active);
      if read.Err? {
        st := read.status;
        return;
      }
      current := read.value;
      if disk.fs.inodes[disk.fs.Now(Main, f.active).value].pinned {
        st := IO;
        return;
      }
      if f.hash(current) != h.source || f.vaultOf(current) != f.vault {
        st := Locked;
        return;
      }
    }
    st := OK;
  }

  /**
   save_locked, called with the lock held.  `sealed` is the file that encoding and encrypting the
   vault at its next generation gives, or the status with which that fails; `clock` is the time.
   Beside the status, for the specification: whether a read error passed for a malformed file, the
   backups that retention removed, and what was seen after the rename.
   */
  method SaveLocked(f: Format, disk: Disk, h: Handle, sealed: Result<Bytes>, clock: int, retention: nat, createOnly: bool,
                    randomBackup: seq<nat>, randomActive: seq<nat>)
    returns (st: Status, ghost misread: bool, ghost removed: set<nat>, ghost complete: bool, ghost seen: Seen)
    requires f.Lawful() && disk.fs.Valid() && AllSynced(f, disk.fs)
    requires h.generation < MaxGeneration && 0 < retention
    requires sealed.Ok? ==> f.valid(sealed.value)
    requires sealed.Err? ==> !Committed(sealed.status) && sealed.status != Exists
    requires |randomBackup| >= TempAttempts && |randomActive| >= TempAttempts
    modifies disk, h
    ensures old(disk.trace) <= disk.trace
    ensures sealed.Err? ==> disk.fs == old(disk.fs) && disk.trace == old(disk.trace) && !Committed(st)
    ensures sealed.Ok? ==> disk.Within(SaveOp(f, old(disk.fs), old(h.generation), sealed.value), |old(disk.trace)|)
    ensures sealed.Ok? ==> SaveOp(f, old(disk.fs), old(h.generation), sealed.value).Permits(disk.fs)
    ensures disk.trace != old(disk.trace) ==> SaveStarted(f, old(disk.fs), old(h.Look()), createOnly)
    ensures sealed.Ok? ==> SaveOutcome(f, old(disk.fs), old(h.Look()), sealed.value, createOnly, disk.fs, h.Look(), st, misread)
    ensures BackupsAfter(f, old(disk.fs), old(h.generation), disk.fs, Committed(st) && !createOnly, retention, removed, complete)
    ensures !Committed(st) ==> h.Look() == old(h.Look())
    ensures Committed(st) && sealed.Ok? ==> h.generation == old(h.generation) + 1 && h.updated == clock
    ensures Committed(st) && sealed.Ok? ==> Settles(f, sealed.value, old(h.source), old(h.dirty), h.source, h.dirty, st, seen)
    ensures Committed(st) && sealed.Ok? && disk.readable ==> h.source == f.hash(sealed.value) && !h.dirty
    ensures st != OK ==> removed == {}
    ensures misread ==> !disk.reliable
    ensures disk.reliable && sealed.Ok? && SaveAdmissible(f, old(disk.fs), old(h.Look()), createOnly, randomBackup, randomActive) ==>
              && st == OK
              && (!createOnly && !Suspicious(f, old(disk.fs)) && Vouched(f, old(disk.fs).Content(Main, f.active).value, old(h.generation)) ==> complete)
    ensures disk.reliable && sealed.Ok? && !createOnly && NameRefuses(f, old(disk.fs), old(h.Look()), randomBackup) ==> st == Exists
    ensures disk.reliable && HasFreeTemp(f, old(disk.fs), Main, f.active, randomActive)
            && (0 < old(h.generation) ==> HasFreeTemp(f, old(disk.fs), Backups, f.autoName(old(h.generation)), randomBackup))
            ==> SaveAnswers(f, old(disk.fs), old(h.Look()), sealed, createOnly, st)
  {
    hide Evolves, Retained, Suspicious, Vouched, Published, Secured, Durable, Fs.Valid, AllSynced, AllAt, Eligible, Format.Lawful;
    misread, removed, complete, seen := false, {}, false, Seen(Err(IO), false, false);
    if sealed.Ok? {
      EvolvesInitially(f, SaveOp(f, disk.fs, h.generation, sealed.value).g, disk.fs);
    }
    var present, current;
    st, present, current := CheckActive(f, disk, h, createOnly);
    if st != OK {
      return;
    }
    var previous, previousUpdated := h.generation, h.updated;
    h.generation, h.updated := h.generation + 1, clock;
    if sealed.Err? {
      h.generation, h.updated := previous, previousUpdated;
      st := sealed.status;
      return;
    }
    ghost var op := SaveOp(f, disk.fs, previous, sealed.value);
    st, misread, removed, complete, seen := Commit(f, disk, h, previous, present, current, sealed.value, retention, randomBackup, randomActive, op);
    if !Committed(st) {
      h.generation, h.updated := previous, previousUpdated;
    }
  }

  // ---------- restoring ----------

  /** The operation a restore is: publish `image`, copying what it replaces to `preName` first. */
  ghost function RestoreOp(f: Format, a: Fs, image: Bytes, preName: Name): Op {
    var replaced := a.Content(Main, f.active);
    Op(f, Grant(Some(image), if replaced.Some? then Some((preName, replaced.value)) else None, 0), a)
  }

  /** The checks a restore makes before it touches the disk. */
  predicate RestoreStarted(f: Format, a: Fs, image: Bytes, expected: Bytes) {
    && f.hash(image) == expected
    && (a.Now(Main, f.active).Some? ==>
          && a.Content(Main, f.active).Some?
          && f.valid(a.Content(Main, f.active).value)
          && f.vaultOf(a.Content(Main, f.active).value) == f.vaultOf(image))
  }

  /**
   The contract of a restore, whatever fails: the active file is replaced exactly on success or a
   durability warning, by the authenticated image, after a durable exact copy of a previous file of
   the same vault; otherwise it is untouched.
   */
  ghost predicate RestoreOutcome(f: Format, a: Fs, image: Bytes, expected: Bytes, preName: Name, z: Fs, st: Status) {
    if Committed(st) then
      && RestoreStarted(f, a, image, expected)
      && Published(a, z, Main, f.active, image, false)
      && (a.Now(Main, f.active).Some? ==>
            && a.Now(Backups, preName) == None
            && Secured(z, preName, a.Content(Main, f.active).value))
      && (st == OK ==> Durable(z, Main, f.active))
    else
      ActiveUntouched(f, a, z)
  }

  /** What a restore answers when no call fails and temporary names are to be had. */
  predicate RestoreAnswers(f: Format, a: Fs, image: Bytes, expected: Bytes, preName: Name, st: Status) {
    var active := a.Content(Main, f.active);
    if f.hash(image) != expected then st == Auth
    else if a.Now(Main, f.active).Some? && (active.None? || !f.valid(active.value)) then st == Exists
    else if a.Now(Main, f.active).Some? && f.vaultOf(active.value) != f.vaultOf(image) then st == Auth
    else if a.Now(Main, f.active).Some? && a.Now(Backups, preName).Some? then st == Exists
    else st == OK
  }

  /** The pre-restore copy: check that the active file is of the image's vault, and make a durable copy of it. */
  method KeepActive(f: Format, disk: Disk, image: Bytes, preName: Name, random: seq<nat>, ghost op: Op) returns (st: Status)
    requires f.Lawful() && disk.fs.Valid() && AllSynced(f, disk.fs) && f.Managed(Backups, preName)
    requires op == RestoreOp(f, disk.fs, image, preName) && op.Permits(disk.fs) && disk.fs.Now(Main, f.active).Some?
    requires |random| >= TempAttempts
    modifies disk
    ensures old(disk.trace) <= disk.trace && disk.Within(op, |old(disk.trace)|)
    ensures op.Permits(disk.fs) && OnlyEntry(f, old(disk.fs), disk.fs, Backups, preName)
    ensures disk.trace != old(disk.trace) || st == OK ==>
              && old(disk.fs).Content(Main, f.active).Some?
              && f.valid(old(disk.fs).Content(Main, f.active).value)
              && f.vaultOf(old(disk.fs).Content(Main, f.active).value) == f.vaultOf(image)
    ensures st == OK ==> old(disk.fs).Now(Backups, preName) == None && Secured(disk.fs, preName, old(disk.fs).Content(Main, f.active).value)
    ensures st != Durability
    ensures disk.reliable && old(disk.fs).Content(Main, f.active).Some? && f.valid(old(disk.fs).Content(Main, f.active).value)
            && f.vaultOf(old(disk.fs).Content(Main, f.active).value) == f.vaultOf(image)
            && old(disk.fs).Now(Backups, preName) == None && HasFreeTemp(f, old(disk.fs), Backups, preName, random)
            ==> st == OK
    ensures disk.reliable && HasFreeTemp(f, old(disk.fs), Backups, preName, random) ==>
              RestoreAnswers(f, old(disk.fs), image, f.hash(image), preName, st)
  {
    PresentHasContent(f, disk.fs);
    hide Evolves, Private;
    var active;
    ghost var misread;
    active, misread := ReadSnapshot(f, disk, Main, f.active);
    if active.Err? {
      return if active.status == FormatError || active.status == Unsupported then Exists else active.status;
    }
    if f.vaultOf(active.value) != f.vaultOf(image) {
      return Auth;
    }
    var failed := disk.Fails();    // make_private_directory_at
    if failed {
      return IO;
    }
    st := CopyActiveExclusive(f, disk, preName, random, op);
    if st == OK {
      EvolvesValid(f, op.g, op.start, disk.fs);
      EvolvesSynced(f, op.g, op.start, disk.fs);
      DurableIsSecured(f, disk.fs, preName, active.value);
    }
  }

  /** pv_store_restore once the image has been read; `preName` is the pre-restore name drawn for this call. */
  method Restore(f: Format, disk: Disk, image: Bytes, expected: Bytes, preName: Name, randomBackup: seq<nat>, randomActive: seq<nat>)
    returns (st: Status)
    requires f.Lawful() && disk.fs.Valid() && AllSynced(f, disk.fs)
    requires f.valid(image) && f.Managed(Backups, preName)
    requires |randomBackup| >= TempAttempts && |randomActive| >= TempAttempts
    modifies disk
    ensures old(disk.trace) <= disk.trace && disk.Within(RestoreOp(f, old(disk.fs), image, preName), |old(disk.trace)|)
    ensures RestoreOp(f, old(disk.fs), image, preName).Permits(disk.fs)
    ensures disk.trace != old(disk.trace) ==> RestoreStarted(f, old(disk.fs), image, expected)
    ensures RestoreOutcome(f, old(disk.fs), image, expected, preName, disk.fs, st)
    ensures disk.reliable && RestoreStarted(f, old(disk.fs), image, expected) && old(disk.fs).Now(Backups, preName) == None
            && HasFreeTemp(f, old(disk.fs), Main, f.active, randomActive)
            && HasFreeTemp(f, old(disk.fs), Backups, preName, randomBackup)
            ==> st == OK
    ensures f.hash(image) != expected ==> st == Auth && disk.fs == old(disk.fs)
    ensures disk.reliable && HasFreeTemp(f, old(disk.fs), Main, f.active, randomActive)
            && HasFreeTemp(f, old(disk.fs), Backups, preName, randomBackup)
            ==> RestoreAnswers(f, old(disk.fs), image, expected, preName, st)
  {
    assert image[..HeaderLength] + image[HeaderLength..] == image;
    hide Evolves, Private, Format.Lawful;
    ghost var op := RestoreOp(f, disk.fs, image, preName);
    EvolvesInitially(f, op.g, disk.fs);
    if f.hash(image) != expected {
      return Auth;
    }
    var failed := disk.Fails();    // lock_vault, fstatat
    if failed {
      return Locked;
    }
    var present := disk.fs.Now(Main, f.active).Some?;
    if present {
      st := KeepActive(f, disk, image, preName, randomBackup, op);
      if st != OK {
        return;
      }
      EvolvesValid(f, op.g, op.start, disk.fs);
    }
    failed := disk.Fails();    // revalidate_store_location
    if failed {
      return Locked;
    }
    ghost var ready := disk.fs;
    st := WriteAtomic(f, disk, image[..HeaderLength], image[HeaderLength..], !present, randomActive, op);
    if !Committed(st) {
      return;
    }
    if present {
      SecuredFrame(f, ready, disk.fs, Main, f.active, preName, op.g.backup.value.1);
    }
    st := ConfirmRestore(f, disk, image, st);
  }

  /** After the rename: anything amiss in the file read back is a durability warning. */
  method ConfirmRestore(f: Format, disk: Disk, image: Bytes, warned: Status) returns (st: Status)
    requires Committed(warned)
    ensures Committed(st) && (st == OK ==> warned == OK)
    ensures disk.reliable && disk.fs.Content(Main, f.active) == Some(image) && f.valid(image) ==> st == warned
  {
    st := warned;
    var written;
    ghost var misread;
    written, misread := ReadSnapshot(f, disk, Main, f.active);
    if written.Err? || written.value != image {
      st := Durability;
    }
    var failed := disk.Fails();    // revalidate_store_location
    if failed {
      st := Durability;
    }
  }
}

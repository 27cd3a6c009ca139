/**
 Where a crash breaks the history of backups: exactly which saves are exposed to it, a run in which it happens, and
 what the backup left over does to every save after it.
 */
module Orphans {
  import opened Prelude
  import opened FileSystem
  import opened Protocol
  import opened Disks
  import opened Publish
  import opened Store
  import opened Runs
  import opened History

  // ---------- publishing one file, call by call ----------

  /** The calls that publish `b` as `(d, n)`: create a temporary file, write it, synchronise it, rename it. */
  function Put(z: Fs, d: DirId, temp: Name, n: Name, b: Bytes): Fs {
    RenameEntry(SyncFile(Append(CreateEntry(z, d, temp), z.next, b), z.next), d, temp, n)
  }

  /** The state before the rename. */
  function Drafted(z: Fs, d: DirId, temp: Name, b: Bytes): Fs {
    var y := CreateEntry(z, d, temp);
    y.(inodes := y.inodes[z.next := Inode(b, true, false)])
  }

  lemma PutIsDraftedRenamed(z: Fs, d: DirId, temp: Name, n: Name, b: Bytes)
    ensures Put(z, d, temp, n, b) == RenameEntry(Drafted(z, d, temp, b), d, temp, n)
  {
    assert [] + b == b;
    var y := CreateEntry(z, d, temp);
    assert Append(y, z.next, b).inodes[z.next := Inode(b, true, false)] == y.inodes[z.next := Inode(b, true, false)];
  }

  lemma PutFrame(z: Fs, d: DirId, temp: Name, n: Name, b: Bytes)
    requires z.Valid() && temp != n
    ensures var y := Put(z, d, temp, n, b);
      && y.Valid() && y.next == z.next + 1 && y.inodes == z.inodes[z.next := Inode(b, true, false)]
      && (forall e: DirId, m: Name, v :: (e, m) != (d, temp) ==>
            (y.May(e, m, v) <==> z.May(e, m, v) || (e == d && m == n && v == Some(z.next))))
      && (forall e: DirId, m: Name :: (e, m) != (d, temp) && (e, m) != (d, n) ==> y.Now(e, m) == z.Now(e, m))
      && y.Now(d, n) == Some(z.next) && y.Now(d, temp) == None
      && (forall e: DirId :: e != d ==> y.In(e) == z.In(e))
  {
    PutIsDraftedRenamed(z, d, temp, n, b);
    CreateFrame(z, d, temp);
    InodeFrame(CreateEntry(z, d, temp), z.next, Inode(b, true, false));
    RenameFrame(Drafted(z, d, temp, b), d, temp, n);
  }

  lemma PutEvolves(f: Format, g: Grant, a: Fs, z: Fs, d: DirId, temp: Name, n: Name, b: Bytes)
    requires a.Valid() && Evolves(f, g, a, z)
    requires g.backup.Some? ==> f.Managed(Backups, g.backup.value.0)
    requires !f.Managed(d, temp) && f.Managed(d, n) && MayLink(f, g, d, n, b)
    requires d == Main && g.backup.Some? ==> Secured(z, g.backup.value.0, g.backup.value.1)
    requires d == Backups ==> z.Now(d, n) == None
    ensures Evolves(f, g, a, Put(z, d, temp, n, b))
  {
    hide Evolves, Secured, Private;
    EvolvesValid(f, g, a, z);
    assert a.next <= z.next by { EvolvesNext(f, g, a, z); }
    PutIsDraftedRenamed(z, d, temp, n, b);
    EvolvesCreate(f, g, a, z, d, temp);
    CreateFrame(z, d, temp);
    var y := CreateEntry(z, d, temp);
    EvolvesWrite(f, g, a, y, z.next, Inode(b, true, false));
    InodeFrame(y, z.next, Inode(b, true, false));
    if d == Main && g.backup.Some? {
      StillSecured(z, Drafted(z, d, temp, b), g.backup.value.0, g.backup.value.1);
    }
    EvolvesRename(f, g, a, Drafted(z, d, temp, b), d, temp, n, z.next);
  }

  lemma EvolvesNext(f: Format, g: Grant, a: Fs, z: Fs)
    requires Evolves(f, g, a, z)
    ensures a.next <= z.next
  {
  }

  lemma StillSecured(z: Fs, y: Fs, n: Name, b: Bytes)
    requires Secured(z, n, b)
    requires forall i :: i in z.inodes ==> i in y.inodes && y.inodes[i] == z.inodes[i]
    requires forall v :: y.May(Backups, n, v) ==> z.May(Backups, n, v)
    ensures Secured(y, n, b)
  {
  }

  // ---------- exactly which saves are exposed ----------

  /** The state a save is in once the backup of what it replaces is durable. */
  ghost function BackedUp(f: Format, a: Fs, n: Name, b: Bytes): Fs {
    SyncDir(if a.Now(Backups, n) == None then Put(a, Backups, f.tempName(n, 0), n, b) else a, Backups)
  }

  lemma BackedUpIsReached(f: Format, g: Grant, a: Fs, n: Name, b: Bytes)
    requires f.Lawful() && a.Valid() && AllSynced(f, a) && f.Managed(Backups, n) && NameAdmits(a, n, b) && g.backup == Some((n, b))
    ensures Evolves(f, g, a, BackedUp(f, a, n, b)) && OnlyEntry(f, a, BackedUp(f, a, n, b), Backups, n)
    ensures Secured(BackedUp(f, a, n, b), n, b)
  {
    hide Evolves, Put;
    var temp := f.tempName(n, 0);
    EvolvesInitially(f, g, a);
    if a.Now(Backups, n) == None {
      PutFrame(a, Backups, temp, n, b);
      PutEvolves(f, g, a, a, Backups, temp, n, b);
      EvolvesSyncDir(f, g, a, Put(a, Backups, temp, n, b), Backups);
      SyncDirFrame(Put(a, Backups, temp, n, b), Backups);
    } else {
      EvolvesSyncDir(f, g, a, a, Backups);
      SyncDirFrame(a, Backups);
      assert a.May(Backups, n, a.Now(Backups, n));
    }
  }

  /** An entry that could show other bytes shows an earlier snapshot. */
  lemma UnsettledIsOlder(f: Format, w: World, line: seq<Bytes>, v: Option<Ino>)
    requires HistoryInv(f, w, line) && w.fs.May(Main, f.active, v) && DataOf(w.fs, v) != Active(f, w.fs)
    ensures line != [] && GenerationOf(f, DataOf(w.fs, v)) < |line|
  {
    if v.Some? {
      var i := v.value;
      assert v == Some(i) && w.fs.May(Main, f.active, Some(i));
    }
  }

  /**
   A save is safe from crashes, in that every crash in every state of it leaves a history, if and only if the active
   file was settled when it began.
   */
  lemma SettledExactly(f: Format, w: World, line: seq<Bytes>, k: nat, sealed: Bytes)
    requires f.Lawful() && HistoryInv(f, w, line) && k in w.handles && w.handles[k].view.generation < MaxGeneration - 1
    requires SealedAt(f, sealed, w.handles[k].view.generation + 1) && SaveStarted(f, w.fs, w.handles[k].view, false)
    ensures Settled(f, w.fs) <==>
      forall m, y :: SaveOp(f, w.fs, w.handles[k].view.generation, sealed).Permits(m) && Crashed(m, y) ==> HasHistory(f, y)
  {
    hide Evolves, Format.Lawful, Inv, Recorded, Crashed, HasHistory, SaveStarted, Benign;
    SaveContinues(f, w, line, k, sealed);
    var g := SaveOp(f, w.fs, w.handles[k].view.generation, sealed).g;
    if Settled(f, w.fs) {
      forall m, y | Evolves(f, g, w.fs, m) && Crashed(m, y)
        ensures HasHistory(f, y)
      {
        SettledSaveKeepsHistory(f, w, line, g, sealed, m, y);
      }
    } else {
      var v :| w.fs.May(Main, f.active, v) && DataOf(w.fs, v) != Active(f, w.fs);
      var m, y := UnsettledSaveLosesHistory(f, w, line, k, sealed, v);
      assert SaveOp(f, w.fs, w.handles[k].view.generation, sealed).Permits(m);
    }
  }

  lemma SettledSaveKeepsHistory(f: Format, w: World, line: seq<Bytes>, g: Grant, sealed: Bytes, m: Fs, y: Fs)
    requires f.Lawful() && HistoryInv(f, w, line) && Settled(f, w.fs)
    requires Continues(f, line, sealed, g) && Evolves(f, g, w.fs, m) && Crashed(m, y)
    ensures HasHistory(f, y)
  {
    hide Evolves, Format.Lawful, Inv, Recorded, Crashed, Benign, Settled;
    CleanCrash(f, w, g, m, y, line, sealed);
  }

  /** The state and the crash that lose it: the backup made, the last commit undone. */
  lemma UnsettledSaveLosesHistory(f: Format, w: World, line: seq<Bytes>, k: nat, sealed: Bytes, v: Option<Ino>) returns (m: Fs, y: Fs)
    requires f.Lawful() && HistoryInv(f, w, line) && k in w.handles && w.handles[k].view.generation < MaxGeneration - 1
    requires SealedAt(f, sealed, w.handles[k].view.generation + 1) && SaveStarted(f, w.fs, w.handles[k].view, false)
    requires w.fs.May(Main, f.active, v) && DataOf(w.fs, v) != Active(f, w.fs)
    ensures Evolves(f, SaveOp(f, w.fs, w.handles[k].view.generation, sealed).g, w.fs, m) && Crashed(m, y) && !HasHistory(f, y)
  {
    SaveContinues(f, w, line, k, sealed);
    var n, b := f.autoName(|line|), line[|line| - 1];
    assert f.Managed(Backups, n);
    hide Evolves, Format.Lawful, Recorded, Crashed, Benign, BackedUp, HasHistory;
    var g := SaveOp(f, w.fs, w.handles[k].view.generation, sealed).g;
    m := BackedUp(f, w.fs, n, b);
    NameAdmitsCurrent(f, w, line);
    BackedUpIsReached(f, g, w.fs, n, b);
    UnsettledIsOlder(f, w, line, v);
    OperationSound(f, g, w.fs, m);
    UncleanBackupNotBenign(f, w, line, m, v);
    SaveRecorded(f, g, w.fs, m, line, sealed);
    BenignExactly(f, m, line + [sealed]);
    y :| Crashed(m, y) && !HasHistory(f, y);
  }

  // ---------- what a left-over backup does ----------

  function ActiveGeneration(f: Format, fs: Fs): nat {
    GenerationOf(f, Active(f, fs))
  }

  /** The backup name that the active file's generation needs holds other bytes. */
  predicate Blocked(f: Format, fs: Fs) {
    && 0 < ActiveGeneration(f, fs) < MaxGeneration
    && fs.Content(Backups, f.autoName(ActiveGeneration(f, fs))).Some?
    && fs.Content(Backups, f.autoName(ActiveGeneration(f, fs))) != Active(f, fs)
  }

  /** ... and no crash can change that. */
  ghost predicate BlockedForGood(f: Format, fs: Fs) {
    Blocked(f, fs) && Durable(fs, Main, f.active) && Durable(fs, Backups, f.autoName(ActiveGeneration(f, fs)))
  }

  /** Entry `(d, n)`, and what it may be after a crash, are as in `a`. */
  ghost predicate Untouched(a: Fs, z: Fs, d: DirId, n: Name) {
    z.Now(d, n) == a.Now(d, n) && z.Content(d, n) == a.Content(d, n) && forall v :: z.May(d, n, v) ==> a.May(d, n, v)
  }

  /** The backup in the way is neither replaced nor removed. */
  lemma BlockerStays(f: Format, g: Grant, a: Fs, m: Fs, generation: nat)
    requires f.Lawful() && a.Valid() && 0 < generation < MaxGeneration && Evolves(f, g, a, m) && g.dropBelow <= generation
    requires a.Now(Backups, f.autoName(generation)).Some?
    ensures Untouched(a, m, Backups, f.autoName(generation))
  {
    var n := f.autoName(generation);
    assert f.Managed(Backups, n) && f.parseAuto(n) == Some(generation);
    assert forall v :: !Granted(f, g, a, m, Backups, n, v);
    NowIsPossible(a, Backups, n);
  }

  /** In no state of a save from a blocked disk can the active file be another. */
  lemma BlockedOperation(f: Format, g: Grant, a: Fs, m: Fs)
    requires f.Lawful() && a.Valid() && Blocked(f, a) && Evolves(f, g, a, m) && g.dropBelow <= ActiveGeneration(f, a)
    requires g.backup == Some((f.autoName(ActiveGeneration(f, a)), Active(f, a).value))
    ensures Untouched(a, m, Main, f.active) && Untouched(a, m, Backups, f.autoName(ActiveGeneration(f, a)))
  {
    var n := f.autoName(ActiveGeneration(f, a));
    BlockerStays(f, g, a, m, ActiveGeneration(f, a));
    assert f.Managed(Main, f.active);
    assert m.May(Backups, n, m.Now(Backups, n));
    assert !Secured(m, n, Active(f, a).value);
    NowIsPossible(a, Main, f.active);
    forall v | m.May(Main, f.active, v)
      ensures a.May(Main, f.active, v)
    {
      if v.Some? {
        var i := v.value;
        assert v == Some(i);
      }
    }
    assert m.May(Main, f.active, m.Now(Main, f.active));
  }

  lemma UntouchedBlocks(f: Format, a: Fs, m: Fs)
    requires Blocked(f, a)
    requires Untouched(a, m, Main, f.active) && Untouched(a, m, Backups, f.autoName(ActiveGeneration(f, a)))
    ensures Blocked(f, m) && (BlockedForGood(f, a) ==> BlockedForGood(f, m))
  {
  }

  /** Every state of a save from a blocked disk is blocked. */
  lemma BlockedSave(f: Format, w: World, k: nat, sealed: Bytes, m: Fs)
    requires f.Lawful() && Inv(f, w) && Blocked(f, w.fs) && k in w.handles && SaveStarted(f, w.fs, w.handles[k].view, false)
    requires SaveOp(f, w.fs, w.handles[k].view.generation, sealed).Permits(m)
    ensures Untouched(w.fs, m, Main, f.active) && m.Valid()
    ensures Blocked(f, m) && (BlockedForGood(f, w.fs) ==> BlockedForGood(f, m))
  {
    SaveReplacesOrigin(f, w, k);
    hide Evolves, Format.Lawful, Untouched, Blocked, BlockedForGood, HandleSound, Chain, ActiveSound, AllSynced, Fs.Valid;
    var g := SaveOp(f, w.fs, w.handles[k].view.generation, sealed).g;
    EvolvesValid(f, g, w.fs, m);
    BlockedOperation(f, g, w.fs, m);
    UntouchedBlocks(f, w.fs, m);
  }

  lemma UntouchedIsNotPublished(f: Format, a: Fs, z: Fs, b: Bytes)
    requires a.Valid() && Untouched(a, z, Main, f.active)
    ensures !Published(a, z, Main, f.active, b, false)
  {
    NowIsPossible(a, Main, f.active);
    if a.Now(Main, f.active).Some? {
      var i := a.Now(Main, f.active).value;
      assert a.May(Main, f.active, Some(i));
    }
  }

  /** No step but a restore or a crash unblocks the disk, and no save or creation commits. */
  lemma BlockedStep(f: Format, w: World, a: Action, w2: World)
    requires f.Lawful() && Inv(f, w) && Blocked(f, w.fs) && Does(f, w, a, w2) && Ordinary(a)
    ensures Blocked(f, w2.fs) && (BlockedForGood(f, w.fs) ==> BlockedForGood(f, w2.fs))
    ensures a.Create? || a.Save? ==> !Committed(a.st)
  {
    hide Evolves, Format.Lawful, HandleSound, Chain, ActiveSound, AllSynced, Fs.Valid, BlockedForGood, Untouched, Published, Durable, Secured;
    if a.Save? && SaveStarted(f, w.fs, w.handles[a.k].view, false) {
      BlockedSave(f, w, a.k, a.sealed, a.z);
      if Committed(a.st) {
        UntouchedIsNotPublished(f, w.fs, a.z, a.sealed);
      }
    }
  }

  /** A crash, between operations or in any state of one, does not unblock a disk that is blocked for good. */
  lemma BlockedCrash(f: Format, w: World, a: Action, w2: World)
    requires f.Lawful() && Inv(f, w) && BlockedForGood(f, w.fs) && Does(f, w, a, w2) && IsCrash(a) && NoRestore(a)
    ensures BlockedForGood(f, w2.fs)
  {
    hide Evolves, Format.Lawful, HandleSound, Chain, ActiveSound, AllSynced, Fs.Valid, BlockedForGood, Untouched, Durable, Crashed, Blocked;
    match a
    case CrashIdle(y) => CrashKeepsBlocked(f, w.fs, y);
    case CrashInCreate(_, _, _) => NothingToCreate(f, w.fs);
    case CrashInSave(k, sealed, m, y) =>
      ForGood(f, w.fs);
      BlockedSave(f, w, k, sealed, m);
      OperationSound(f, SaveOp(f, w.fs, w.handles[k].view.generation, sealed).g, w.fs, m);
      CrashKeepsBlocked(f, m, y);
    case _ =>
  }

  lemma ForGood(f: Format, fs: Fs)
    requires BlockedForGood(f, fs)
    ensures Blocked(f, fs)
  {
  }

  lemma NothingToCreate(f: Format, fs: Fs)
    requires BlockedForGood(f, fs)
    ensures fs.Now(Main, f.active).Some?
  {
  }

  lemma CrashKeepsBlocked(f: Format, m: Fs, y: Fs)
    requires f.Lawful() && m.Valid() && AllSynced(f, m) && BlockedForGood(f, m) && Crashed(m, y)
    ensures BlockedForGood(f, y)
  {
    var n := f.autoName(ActiveGeneration(f, m));
    assert f.Managed(Main, f.active) && f.Managed(Backups, n);
    assert y.Valid() by { CrashedIsValid(m, y); }
    hide Format.Lawful, Fs.Valid, AllSynced, Crashed, Fs.May;
    NowIsPossible(y, Main, f.active);
    NowIsPossible(y, Backups, n);
    CrashedEntry(f, m, y, Main, f.active, y.Now(Main, f.active));
    CrashedEntry(f, m, y, Backups, n, y.Now(Backups, n));
    forall v | y.May(Main, f.active, v) ensures v == y.Now(Main, f.active) {
      CrashedEntry(f, m, y, Main, f.active, v);
    }
    forall v | y.May(Backups, n, v) ensures v == y.Now(Backups, n) {
      CrashedEntry(f, m, y, Backups, n, v);
    }
  }

  /** From a blocked disk no run without restore and crash commits anything. */
  lemma {:induction false} BlockedRuns(f: Format, ws: seq<World>, as_: seq<Action>, n: nat)
    requires f.Lawful() && IsRun(f, ws, as_) && Inv(f, ws[0]) && Blocked(f, ws[0].fs) && n < |ws|
    requires forall i :: 0 <= i < n ==> Ordinary(as_[i])
    ensures Blocked(f, ws[n].fs)
    ensures forall i :: 0 <= i < n && (as_[i].Create? || as_[i].Save?) ==> !Committed(as_[i].st)
    decreases n
  {
    hide Inv, Does, Blocked;
    if n > 0 {
      BlockedRuns(f, ws, as_, n - 1);
      RunsKeepInv(f, ws, as_, n - 1);
      BlockedStep(f, ws[n - 1], as_[n - 1], ws[n]);
    }
  }

  /** Once blocked for good, no run without restore commits anything, whatever handles are opened and wherever it crashes. */
  lemma {:induction false} BlockedForGoodRuns(f: Format, ws: seq<World>, as_: seq<Action>, n: nat)
    requires f.Lawful() && IsRun(f, ws, as_) && Inv(f, ws[0]) && BlockedForGood(f, ws[0].fs) && n < |ws|
    requires forall i :: 0 <= i < n ==> NoRestore(as_[i])
    ensures BlockedForGood(f, ws[n].fs)
    ensures forall i :: 0 <= i < n && (as_[i].Create? || as_[i].Save?) ==> !Committed(as_[i].st)
    decreases n
  {
    hide Inv, Does, BlockedForGood, Blocked;
    if n > 0 {
      BlockedForGoodRuns(f, ws, as_, n - 1);
      RunsKeepInv(f, ws, as_, n - 1);
      if IsCrash(as_[n - 1]) {
        BlockedCrash(f, ws[n - 1], as_[n - 1], ws[n]);
      } else {
        ForGood(f, ws[n - 1].fs);
        BlockedStep(f, ws[n - 1], as_[n - 1], ws[n]);
      }
    }
  }

  /** A save over a left-over backup of the next generation leaves the disk blocked; for good, once both are durable. */
  lemma OrphanBlocks(f: Format, w: World, a: Action, w1: World, orphan: Bytes)
    requires f.Lawful() && Inv(f, w) && Does(f, w, a, w1) && a.Save? && Committed(a.st)
    requires w.fs.Content(Backups, f.autoName(ActiveGeneration(f, w.fs) + 1)) == Some(orphan) && orphan != a.sealed
    ensures Blocked(f, w1.fs)
    ensures a.st == OK && Durable(w.fs, Backups, f.autoName(ActiveGeneration(f, w.fs) + 1)) ==> BlockedForGood(f, w1.fs)
  {
    hide Evolves, ActiveSound, AllSynced, Fs.Valid, Chain, Format.Lawful, HandleSound;
    SaveReplacesOrigin(f, w, a.k);
    var g := w.handles[a.k].view.generation;
    BlockerStays(f, SaveOp(f, w.fs, g, a.sealed).g, w.fs, a.z, g + 1);
  }

  // ---------- saves that happen ----------

  /** The disk after a save from `a` that backs `b` up as `n` and publishes `sealed`; `sync` if the last call succeeds. */
  ghost function AfterSave(f: Format, a: Fs, n: Name, b: Bytes, sealed: Bytes, sync: bool): Fs {
    var z := Put(BackedUp(f, a, n, b), Main, f.tempName(f.active, 0), f.active, sealed);
    if sync then SyncDir(z, Main) else z
  }

  /** What that save leaves in the two entries it touches, and in the other backups. */
  ghost predicate SaveEffect(f: Format, a: Fs, n: Name, b: Bytes, sealed: Bytes, sync: bool, z: Fs) {
    && Published(a, z, Main, f.active, sealed, false)
    && Secured(z, n, b) && z.Content(Backups, n) == Some(b)
    && (if sync then Durable(z, Main, f.active) else forall v :: a.May(Main, f.active, v) ==> z.May(Main, f.active, v))
    && (forall i :: i in a.inodes ==> i in z.inodes && z.inodes[i] == a.inodes[i])
    && (forall m: Name :: m != n && f.Managed(Backups, m) ==> Untouched(a, z, Backups, m))
  }

  lemma SaveIsPermitted(f: Format, g: Grant, a: Fs, n: Name, b: Bytes, sealed: Bytes, sync: bool)
    requires f.Lawful() && a.Valid() && AllSynced(f, a) && f.Managed(Backups, n) && NameAdmits(a, n, b)
    requires g.newActive == Some(sealed) && g.backup == Some((n, b))
    ensures Evolves(f, g, a, AfterSave(f, a, n, b, sealed, sync))
  {
    var m, temp := BackedUp(f, a, n, b), f.tempName(f.active, 0);
    assert f.Managed(Main, f.active) && !f.Managed(Main, temp);
    hide Put, BackedUp, Evolves;
    BackedUpIsReached(f, g, a, n, b);
    PutEvolves(f, g, a, m, Main, temp, f.active, sealed);
    EvolvesSyncDir(f, g, a, Put(m, Main, temp, f.active, sealed), Main);
  }

  lemma PutEffect(f: Format, a: Fs, m: Fs, n: Name, b: Bytes, temp: Name, sealed: Bytes)
    requires a.Valid() && m.Valid() && OnlyEntry(f, a, m, Backups, n) && Secured(m, n, b) && temp != f.active
    ensures SaveEffect(f, a, n, b, sealed, false, Put(m, Main, temp, f.active, sealed))
  {
    hide Put;
    var y := Put(m, Main, temp, f.active, sealed);
    PutFrame(m, Main, temp, f.active, sealed);
    assert y.In(Backups) == m.In(Backups) && m.In(Main) == a.In(Main);
    forall k: Name | k != n && f.Managed(Backups, k)
      ensures Untouched(a, y, Backups, k)
    {
      NowIsPossible(a, Backups, k);
    }
    NowIsPossible(m, Backups, n);
  }

  lemma SyncEffect(f: Format, a: Fs, y: Fs, n: Name, b: Bytes, sealed: Bytes)
    requires y.Valid() && SaveEffect(f, a, n, b, sealed, false, y)
    ensures SaveEffect(f, a, n, b, sealed, true, SyncDir(y, Main))
  {
    var z := SyncDir(y, Main);
    assert z.In(Backups) == y.In(Backups);
    assert forall v :: z.May(Main, f.active, v) ==> v == z.Now(Main, f.active);
    forall k: Name
      ensures Untouched(a, y, Backups, k) ==> Untouched(a, z, Backups, k)
    {
    }
  }

  lemma SaveHasEffect(f: Format, g: Grant, a: Fs, n: Name, b: Bytes, sealed: Bytes, sync: bool)
    requires f.Lawful() && a.Valid() && AllSynced(f, a) && f.Managed(Backups, n) && NameAdmits(a, n, b)
    requires g.newActive == Some(sealed) && g.backup == Some((n, b))
    ensures SaveEffect(f, a, n, b, sealed, sync, AfterSave(f, a, n, b, sealed, sync))
  {
    var m, temp := BackedUp(f, a, n, b), f.tempName(f.active, 0);
    assert temp != f.active;
    hide Put, BackedUp, Evolves, Format.Lawful, SaveEffect, SyncDir;
    BackedUpIsReached(f, g, a, n, b);
    EvolvesValid(f, g, a, m);
    PutFrame(m, Main, temp, f.active, sealed);
    PutEffect(f, a, m, n, b, temp, sealed);
    SyncEffect(f, a, Put(m, Main, temp, f.active, sealed), n, b, sealed);
  }

  /** The view of a handle whose save of `sealed` as generation `g` was read back. */
  function SavedView(f: Format, g: nat, updated: int, sealed: Bytes): View {
    View(g, updated, f.hash(sealed), false)
  }

  /** The save of `sealed` by handle `k` in which every call succeeds, except the last one unless `sync`. */
  ghost function SaveOf(f: Format, w: World, k: nat, sealed: Bytes, sync: bool): Action
    requires k in w.handles && Active(f, w.fs).Some?
  {
    var h := w.handles[k].view;
    Save(k, sealed, AfterSave(f, w.fs, f.autoName(h.generation), Active(f, w.fs).value, sealed, sync),
         SavedView(f, h.generation + 1, h.updated, sealed), if sync then OK else Durability, false)
  }

  ghost function SavedWorld(f: Format, w: World, k: nat, sealed: Bytes, sync: bool): World
    requires k in w.handles && Active(f, w.fs).Some?
  {
    var a := SaveOf(f, w, k, sealed, sync);
    World(w.first, a.z, w.handles[k := Session(a.view, Some(sealed))], w.log + [Saved(Active(f, w.fs).value, sealed)])
  }

  lemma EffectIsOutcome(f: Format, a: Fs, h: View, sealed: Bytes, sync: bool, z: Fs)
    requires 0 < h.generation && IsCurrent(f, a, h)
    requires SaveEffect(f, a, f.autoName(h.generation), Active(f, a).value, sealed, sync, z)
    ensures SaveOutcome(f, a, h, sealed, false, z, SavedView(f, h.generation + 1, h.updated, sealed), if sync then OK else Durability, false)
  {
    hide Published, Secured, Untouched;
  }

  lemma SaveIsStep(f: Format, w: World, k: nat, sealed: Bytes, z: Fs, view: View, st: Status)
    requires k in w.handles && w.handles[k].view.generation < MaxGeneration - 1 && Active(f, w.fs).Some?
    requires SealedAt(f, sealed, w.handles[k].view.generation + 1)
    requires SaveOp(f, w.fs, w.handles[k].view.generation, sealed).Permits(z)
    requires SaveOutcome(f, w.fs, w.handles[k].view, sealed, false, z, view, st, false) && Committed(st) && view.source == f.hash(sealed)
    ensures Acts(f, w, Save(k, sealed, z, view, st, false),
                 World(w.first, z, w.handles[k := Session(view, Some(sealed))], w.log + [Saved(Active(f, w.fs).value, sealed)]))
  {
    hide Evolves, SaveOutcome, Genuine;
  }

  /** Such a save is a step of the store. */
  lemma SaveHappens(f: Format, w: World, k: nat, sealed: Bytes, sync: bool)
    requires f.Lawful() && Inv(f, w) && k in w.handles && 0 < w.handles[k].view.generation < MaxGeneration - 1
    requires IsCurrent(f, w.fs, w.handles[k].view) && SealedAt(f, sealed, w.handles[k].view.generation + 1)
    requires NameAdmits(w.fs, f.autoName(w.handles[k].view.generation), Active(f, w.fs).value)
    ensures Acts(f, w, SaveOf(f, w, k, sealed, sync), SavedWorld(f, w, k, sealed, sync))
    ensures SaveEffect(f, w.fs, f.autoName(w.handles[k].view.generation), Active(f, w.fs).value, sealed, sync,
                       SavedWorld(f, w, k, sealed, sync).fs)
  {
    var h := w.handles[k].view;
    var n, b := f.autoName(h.generation), Active(f, w.fs).value;
    assert f.Managed(Backups, n);
    hide Evolves, Format.Lawful, AfterSave, Inv, Acts, SaveEffect, SaveOutcome, AllSynced, Fs.Valid, Genuine, NameAdmits;
    InvParts(f, w);
    SaveIsPermitted(f, SaveOp(f, w.fs, h.generation, sealed).g, w.fs, n, b, sealed, sync);
    SaveHasEffect(f, SaveOp(f, w.fs, h.generation, sealed).g, w.fs, n, b, sealed, sync);
    EffectIsOutcome(f, w.fs, h, sealed, sync, AfterSave(f, w.fs, n, b, sealed, sync));
    var a := SaveOf(f, w, k, sealed, sync);
    SaveIsStep(f, w, k, sealed, a.z, a.view, a.st);
  }

  ghost function AfterCreate(f: Format, a: Fs, sealed: Bytes): Fs {
    SyncDir(Put(a, Main, f.tempName(f.active, 0), f.active, sealed), Main)
  }

  ghost function CreateOf(f: Format, w: World, k: nat, sealed: Bytes, updated: int): Action {
    Create(k, sealed, updated, AfterCreate(f, w.fs, sealed), SavedView(f, 1, updated, sealed), OK)
  }

  ghost function CreatedWorld(f: Format, w: World, k: nat, sealed: Bytes, updated: int): World {
    World(w.first, AfterCreate(f, w.fs, sealed), w.handles[k := Session(SavedView(f, 1, updated, sealed), Some(sealed))],
          w.log + [Created(sealed)])
  }

  lemma CreateHasEffect(f: Format, a: Fs, sealed: Bytes)
    requires f.Lawful() && a.Valid() && a.Now(Main, f.active) == None
    ensures var z := AfterCreate(f, a, sealed);
      && Evolves(f, SaveOp(f, a, 0, sealed).g, a, z) && Published(a, z, Main, f.active, sealed, false)
      && Durable(z, Main, f.active) && z.In(Backups) == a.In(Backups)
  {
    var temp := f.tempName(f.active, 0);
    assert temp != f.active && f.Managed(Main, f.active);
    hide Evolves, Format.Lawful, Put, Fs.Valid;
    var g := SaveOp(f, a, 0, sealed).g;
    EvolvesInitially(f, g, a);
    PutFrame(a, Main, temp, f.active, sealed);
    PutEvolves(f, g, a, a, Main, temp, f.active, sealed);
    SyncDirFrame(Put(a, Main, temp, f.active, sealed), Main);
    EvolvesSyncDir(f, g, a, Put(a, Main, temp, f.active, sealed), Main);
  }

  lemma CreateHappens(f: Format, w: World, k: nat, sealed: Bytes, updated: int)
    requires f.Lawful() && Inv(f, w) && k !in w.handles && w.fs.Now(Main, f.active) == None && SealedAt(f, sealed, 1)
    ensures Acts(f, w, CreateOf(f, w, k, sealed, updated), CreatedWorld(f, w, k, sealed, updated))
    ensures AfterCreate(f, w.fs, sealed).In(Backups) == w.fs.In(Backups)
    ensures Active(f, AfterCreate(f, w.fs, sealed)) == Some(sealed)
  {
    hide Evolves, Format.Lawful, HandleSound, Chain, ActiveSound, AllSynced, Fs.Valid, AfterCreate, Genuine, Durable;
    CreateHasEffect(f, w.fs, sealed);
  }

  // ---------- a run that loses its history ----------

  const NewWorld: World := World(None, EmptyDisk, map[], [])

  /** `w` has one handle, a fresh one, on a disk whose active file is `b`, of generation `g`. */
  ghost predicate Working(f: Format, w: World, b: Bytes, g: nat) {
    && Inv(f, w) && SealedAt(f, b, g) && Active(f, w.fs) == Some(b)
    && w.handles.Keys == {0} && w.handles[0].view.generation == g && w.handles[0].view.source == f.hash(b) && w.handles[0].origin == Some(b)
  }

  lemma WorkingCreate(f: Format, s1: Bytes)
    requires f.Lawful() && SealedAt(f, s1, 1)
    ensures var w1 := CreatedWorld(f, NewWorld, 0, s1, 0);
      Does(f, NewWorld, CreateOf(f, NewWorld, 0, s1, 0), w1) && Working(f, w1, s1, 1) && w1.fs.In(Backups) == EmptyDisk.In(Backups)
  {
    hide Acts, Inv, AfterCreate, Format.Lawful, Genuine;
    EmptyStarts(f);
    CreateHappens(f, NewWorld, 0, s1, 0);
    assert Considerate(f, NewWorld, CreateOf(f, NewWorld, 0, s1, 0));
    StepKeepsInv(f, NewWorld, CreateOf(f, NewWorld, 0, s1, 0), CreatedWorld(f, NewWorld, 0, s1, 0));
  }

  lemma WorkingSave(f: Format, w: World, b: Bytes, g: nat, sealed: Bytes, sync: bool)
    requires f.Lawful() && Working(f, w, b, g) && 0 < g < MaxGeneration - 1 && SealedAt(f, sealed, g + 1)
    requires NameAdmits(w.fs, f.autoName(g), b)
    ensures var w2 := SavedWorld(f, w, 0, sealed, sync);
      && Does(f, w, SaveOf(f, w, 0, sealed, sync), w2) && Working(f, w2, sealed, g + 1)
      && SaveEffect(f, w.fs, f.autoName(g), b, sealed, sync, w2.fs)
  {
    hide Acts, Inv, AfterSave, Format.Lawful, NameAdmits, Secured, Untouched;
    SaveHappens(f, w, 0, sealed, sync);
    assert Considerate(f, w, SaveOf(f, w, 0, sealed, sync));
    StepKeepsInv(f, w, SaveOf(f, w, 0, sealed, sync), SavedWorld(f, w, 0, sealed, sync));
  }

  /** Create a vault; save it, with the final synchronisation failing: a crash may still show what was created. */
  lemma CreateThenSave(f: Format, s1: Bytes, s2: Bytes) returns (w1: World, w2: World)
    requires f.Lawful() && SealedAt(f, s1, 1) && SealedAt(f, s2, 2)
    ensures w1 == CreatedWorld(f, NewWorld, 0, s1, 0) && Does(f, NewWorld, CreateOf(f, NewWorld, 0, s1, 0), w1)
    ensures Working(f, w1, s1, 1) && w2 == SavedWorld(f, w1, 0, s2, false) && Does(f, w1, SaveOf(f, w1, 0, s2, false), w2)
    ensures Working(f, w2, s2, 2)
    ensures w2.fs.Now(Backups, f.autoName(2)) == None && Secured(w2.fs, f.autoName(1), s1)
    ensures exists v :: w2.fs.May(Main, f.active, v) && DataOf(w2.fs, v) == Some(s1)
  {
    TwoNames(f);
    hide Does, Inv, AfterCreate, AfterSave, Format.Lawful, SealedAt, CreatedWorld, CreateOf, SavedWorld, SaveOf, Secured;
    WorkingCreate(f, s1);
    w1 := CreatedWorld(f, NewWorld, 0, s1, 0);
    WorkingSave(f, w1, s1, 1, s2, false);
    w2 := SavedWorld(f, w1, 0, s2, false);
    InvParts(f, w1);
    NowIsPossible(w1.fs, Main, f.active);
    assert w2.fs.May(Main, f.active, w1.fs.Now(Main, f.active)) && DataOf(w2.fs, w1.fs.Now(Main, f.active)) == Some(s1);
  }

  /** Begin another save, and crash once its backup is made, back to what was created. */
  ghost function CrashOf(f: Format, w: World, s2: Bytes, s3: Bytes, v: Option<Ino>): Action {
    var m := BackedUp(f, w.fs, f.autoName(2), s2);
    CrashInSave(0, s3, m, ChosenCrash(m, f.active, v, f.autoName(2), w.fs.next))
  }

  ghost predicate CrashEffect(f: Format, y: Fs, s1: Bytes, s2: Bytes) {
    && Active(f, y) == Some(s1) && y.Content(Backups, f.autoName(1)) == Some(s1)
    && y.Content(Backups, f.autoName(2)) == Some(s2) && Durable(y, Backups, f.autoName(2)) && y.May(Backups, f.autoName(2), y.Now(Backups, f.autoName(2)))
  }

  lemma CrashHasEffect(f: Format, w: World, s1: Bytes, s2: Bytes, s3: Bytes, v: Option<Ino>)
    requires f.Lawful() && Working(f, w, s2, 2) && w.fs.Now(Backups, f.autoName(2)) == None && Secured(w.fs, f.autoName(1), s1)
    requires w.fs.May(Main, f.active, v) && DataOf(w.fs, v) == Some(s1)
    ensures var a := CrashOf(f, w, s2, s3, v);
      Evolves(f, SaveOp(f, w.fs, 2, s3).g, w.fs, a.m) && Crashed(a.m, a.y) && CrashEffect(f, a.y, s1, s2)
  {
    TwoNames(f);
    InvParts(f, w);
    var n1, n2 := f.autoName(1), f.autoName(2);
    var m := BackedUp(f, w.fs, n2, s2);
    hide Evolves, Format.Lawful, Inv, Put, AllSynced;
    var a := CrashOf(f, w, s2, s3, v);
    BackedUpIsReached(f, SaveOp(f, w.fs, 2, s3).g, w.fs, n2, s2);
    PutFrame(w.fs, Backups, f.tempName(n2, 0), n2, s2);
    SyncDirFrame(Put(w.fs, Backups, f.tempName(n2, 0), n2, s2), Backups);
    assert m.May(Backups, n2, Some(w.fs.next));
    assert m.In(Main) == w.fs.In(Main);
    ChosenCrashHappens(m, f.active, v, n2, w.fs.next);
    assert m.May(Backups, n1, a.y.Now(Backups, n1));
    assert w.fs.May(Backups, n1, a.y.Now(Backups, n1));
  }

  /** The crash is a step, and leaves a disk that no line of snapshots describes. */
  lemma CrashHappens(f: Format, w: World, s1: Bytes, s2: Bytes, s3: Bytes, v: Option<Ino>) returns (w3: World)
    requires f.Lawful() && Working(f, w, s2, 2) && w.fs.Now(Backups, f.autoName(2)) == None && Secured(w.fs, f.autoName(1), s1)
    requires w.fs.May(Main, f.active, v) && DataOf(w.fs, v) == Some(s1) && SealedAt(f, s1, 1) && SealedAt(f, s3, 3)
    ensures Does(f, w, CrashOf(f, w, s2, s3, v), w3) && Inv(f, w3) && w3.handles == map[]
    ensures CrashEffect(f, w3.fs, s1, s2) && !HasHistory(f, w3.fs)
  {
    hide Evolves, Crashed, Format.Lawful, Inv, BackedUp, ChosenCrash, Secured, HasHistory;
    CrashHasEffect(f, w, s1, s2, s3, v);
    var a := CrashOf(f, w, s2, s3, v);
    w3 := Rebooted(f, w, Progress(f, w, a.m, Saved(Active(f, w.fs).value, s3)), a.m, a.y);
    StepKeepsInv(f, w, a, w3);
    NoHistory(f, w3.fs, 2, w3.fs.Now(Backups, f.autoName(2)).value);
  }

  /** Open the vault again. */
  lemma OpenHappens(f: Format, w: World, s1: Bytes) returns (w4: World)
    requires f.Lawful() && Inv(f, w) && w.handles == map[] && Active(f, w.fs) == Some(s1) && SealedAt(f, s1, 1) && f.opens(s1)
    ensures Does(f, w, Open(0, 0), w4) && Working(f, w4, s1, 1) && w4.fs == w.fs
  {
    hide Inv, Format.Lawful, Genuine;
    w4 := w.(handles := w.handles[0 := Session(View(1, 0, f.hash(s1), false), Some(s1))]);
    StepKeepsInv(f, w, Open(0, 0), w4);
  }

  /** A save over the left-over backup goes through, and leaves the disk blocked for good. */
  lemma SaveOverOrphan(f: Format, w: World, s1: Bytes, s2: Bytes, t2: Bytes)
    requires f.Lawful() && Working(f, w, s1, 1) && SealedAt(f, t2, 2) && CrashEffect(f, w.fs, s1, s2) && s2 != t2
    ensures var w2 := SavedWorld(f, w, 0, t2, true);
      Does(f, w, SaveOf(f, w, 0, t2, true), w2) && Working(f, w2, t2, 2) && BlockedForGood(f, w2.fs)
  {
    hide Inv, Does, Format.Lawful, Genuine, AfterSave, SaveEffect, BlockedForGood, Durable;
    WorkingSave(f, w, s1, 1, t2, true);
    OrphanBlocks(f, w, SaveOf(f, w, 0, t2, true), SavedWorld(f, w, 0, t2, true), s2);
  }

  /** The next save is refused because of the name. */
  lemma RefusalHappens(f: Format, w: World, t2: Bytes, t3: Bytes) returns (w2: World)
    requires f.Lawful() && Working(f, w, t2, 2) && Blocked(f, w.fs) && SealedAt(f, t3, 3)
    ensures Does(f, w, Save(0, t3, w.fs, w.handles[0].view, Exists, false), w2)
  {
    InvParts(f, w);
    hide Inv, Evolves, Genuine, AllSynced, Fs.Valid;
    var h := w.handles[0];
    EvolvesInitially(f, SaveOp(f, w.fs, 2, t3).g, w.fs);
    assert !NameAdmits(w.fs, f.autoName(2), t2);
    w2 := World(w.first, w.fs, w.handles[0 := Session(h.view, OriginAfter(f, h.origin, t3, h.view))], w.log);
  }

  /**
   From an empty disk, with no restore: create; save, and let only the last synchronisation fail; save again, and crash
   once the backup is made; open; save; and the next save is refused over a backup's name.
   */
  ghost predicate LosesHistory(f: Format, ws: seq<World>, as_: seq<Action>) {
    && IsRun(f, ws, as_) && |as_| == 6 && ws[0] == NewWorld && (forall a :: a in as_ ==> NoRestore(a))
    && as_[0].Create? && as_[0].st == OK && as_[1].Save? && as_[1].st == Durability && as_[2].CrashInSave?
    && as_[3].Open? && as_[4].Save? && as_[4].st == OK && as_[5].Save? && as_[5].st == Exists && !as_[5].misread
    && !HasHistory(f, ws[3].fs) && Inv(f, ws[5]) && BlockedForGood(f, ws[5].fs)
  }

  lemma CreateOfIs(f: Format, s1: Bytes)
    ensures CreateOf(f, NewWorld, 0, s1, 0).Create? && CreateOf(f, NewWorld, 0, s1, 0).st == OK
  {
  }

  lemma SaveOfIs(f: Format, w: World, k: nat, sealed: Bytes, sync: bool)
    requires k in w.handles && Active(f, w.fs).Some?
    ensures SaveOf(f, w, k, sealed, sync).Save? && SaveOf(f, w, k, sealed, sync).st == if sync then OK else Durability
  {
  }

  lemma CrashOfIs(f: Format, w: World, s2: Bytes, s3: Bytes, v: Option<Ino>)
    ensures CrashOf(f, w, s2, s3, v).CrashInSave?
  {
  }

  lemma SixSteps(f: Format, w1: World, w2: World, w3: World, w4: World, w5: World, w6: World,
    a0: Action, a1: Action, a2: Action, a3: Action, a4: Action, a5: Action)
    requires Does(f, NewWorld, a0, w1) && Does(f, w1, a1, w2) && Does(f, w2, a2, w3)
    requires Does(f, w3, a3, w4) && Does(f, w4, a4, w5) && Does(f, w5, a5, w6)
    requires a0.Create? && a0.st == OK && a1.Save? && a1.st == Durability && a2.CrashInSave?
    requires a3.Open? && a4.Save? && a4.st == OK && a5.Save? && a5.st == Exists && !a5.misread
    requires !HasHistory(f, w3.fs) && Inv(f, w5) && BlockedForGood(f, w5.fs)
    ensures LosesHistory(f, [NewWorld, w1, w2, w3, w4, w5, w6], [a0, a1, a2, a3, a4, a5])
  {
    hide Does, HasHistory, Inv, BlockedForGood;
  }

  /** The second half: open, save over what was left, and be refused. */
  lemma OpenAndSaveTwice(f: Format, w3: World, s1: Bytes, s2: Bytes, t2: Bytes, t3: Bytes)
    returns (w4: World, a4: Action, w5: World, a5: Action, w6: World)
    requires f.Lawful() && SealedAt(f, s1, 1) && f.opens(s1) && SealedAt(f, t2, 2) && SealedAt(f, t3, 3) && s2 != t2
    requires Inv(f, w3) && w3.handles == map[] && CrashEffect(f, w3.fs, s1, s2)
    ensures Does(f, w3, Open(0, 0), w4) && Does(f, w4, a4, w5) && Does(f, w5, a5, w6)
    ensures a4.Save? && a4.st == OK && a5.Save? && a5.st == Exists && !a5.misread && Inv(f, w5) && BlockedForGood(f, w5.fs)
  {
    hide Does, Inv, Format.Lawful, SealedAt, SavedWorld, SaveOf, BlockedForGood, CrashEffect;
    CrashLeavesFirst(f, w3.fs, s1, s2);
    w4 := OpenHappens(f, w3, s1);
    SaveOverOrphan(f, w4, s1, s2, t2);
    SaveOfIs(f, w4, 0, t2, true);
    a4, w5 := SaveOf(f, w4, 0, t2, true), SavedWorld(f, w4, 0, t2, true);
    ForGood(f, w5.fs);
    w6 := RefusalHappens(f, w5, t2, t3);
    a5 := Save(0, t3, w5.fs, w5.handles[0].view, Exists, false);
  }

  /**
   The history can be lost: there is such a run.  After it, whatever is done but a restore, nothing is saved any more
   (`BlockedForGoodRuns`).
   */
  lemma LostHistoryRun(f: Format, s1: Bytes, s2: Bytes, s3: Bytes, t2: Bytes, t3: Bytes) returns (ws: seq<World>, as_: seq<Action>)
    requires f.Lawful() && SealedAt(f, s1, 1) && SealedAt(f, s2, 2) && SealedAt(f, s3, 3) && SealedAt(f, t2, 2) && SealedAt(f, t3, 3)
    requires f.opens(s1) && s2 != t2
    ensures LosesHistory(f, ws, as_)
  {
    hide Does, Inv, Format.Lawful, SealedAt, Secured, CreatedWorld, SavedWorld, HasHistory, BackedUp, ChosenCrash,
      BlockedForGood, CrashEffect, CreateOf, SaveOf, CrashOf, LosesHistory, Working;
    var w1, w2 := CreateThenSave(f, s1, s2);
    var v :| w2.fs.May(Main, f.active, v) && DataOf(w2.fs, v) == Some(s1);
    var w3 := CrashHappens(f, w2, s1, s2, s3, v);
    var w4, a4, w5, a5, w6 := OpenAndSaveTwice(f, w3, s1, s2, t2, t3);
    CreateOfIs(f, s1);
    WorkingHandle(f, w1, s1, 1);
    SaveOfIs(f, w1, 0, s2, false);
    CrashOfIs(f, w2, s2, s3, v);
    ws := [NewWorld, w1, w2, w3, w4, w5, w6];
    as_ := [CreateOf(f, NewWorld, 0, s1, 0), SaveOf(f, w1, 0, s2, false), CrashOf(f, w2, s2, s3, v), Open(0, 0), a4, a5];
    SixSteps(f, w1, w2, w3, w4, w5, w6, CreateOf(f, NewWorld, 0, s1, 0), SaveOf(f, w1, 0, s2, false), CrashOf(f, w2, s2, s3, v), Open(0, 0), a4, a5);
  }

  lemma WorkingHandle(f: Format, w: World, b: Bytes, g: nat)
    requires Working(f, w, b, g)
    ensures 0 in w.handles && Active(f, w.fs).Some?
  {
    hide Inv;
  }

  lemma CrashLeavesFirst(f: Format, y: Fs, s1: Bytes, s2: Bytes)
    requires CrashEffect(f, y, s1, s2)
    ensures Active(f, y) == Some(s1)
  {
  }

  lemma TwoNames(f: Format)
    requires f.Lawful()
    ensures f.autoName(1) != f.autoName(2) && f.Managed(Backups, f.autoName(1)) && f.Managed(Backups, f.autoName(2))
  {
    assert f.parseAuto(f.autoName(1)) == Some(1) && f.parseAuto(f.autoName(2)) == Some(2);
  }
}

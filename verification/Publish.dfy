/**
 Writing a complete file under a temporary name, synchronising it, and renaming it into place:
 `write_atomic_at`, `write_snapshot_exclusive_at` and `copy_file_exclusive_at`.
 */
module Publish {
  import opened Prelude
  import opened FileSystem
  import opened Protocol
  import opened Disks

  const TempAttempts: nat := 32

  /** One of the random suffixes drawn gives a temporary name not in use. */
  predicate HasFreeTemp(f: Format, fs: Fs, d: DirId, n: Name, random: seq<nat>) {
    |random| >= TempAttempts && exists k :: 0 <= k < TempAttempts && f.tempName(n, random[k]) !in fs.In(d).now
  }

  /** Entry `(d, n)` now names a new, complete inode holding `b`. */
  ghost predicate Published(a: Fs, z: Fs, d: DirId, n: Name, b: Bytes, pinned: bool) {
    && z.Now(d, n).Some?
    && a.next <= z.Now(d, n).value
    && Complete(z, z.Now(d, n).value, b)
    && z.inodes[z.Now(d, n).value].pinned == pinned
  }

  /** Whatever survives a crash, entry `(d, n)` is what is visible now. */
  ghost predicate Durable(z: Fs, d: DirId, n: Name) {
    forall v :: z.May(d, n, v) ==> v == z.Now(d, n)
  }

  lemma SecuredFrame(f: Format, a: Fs, z: Fs, d: DirId, n: Name, name: Name, b: Bytes)
    requires OnlyEntry(f, a, z, d, n) && f.Managed(Backups, name) && (Backups, name) != (d, n)
    requires Secured(a, name, b)
    ensures Secured(z, name, b)
  {
  }

  /** Since `base`, no managed entry has changed. */
  ghost predicate Quiet(op: Op, base: Fs, z: Fs, d: DirId, n: Name) {
    && op.Permits(z)
    && OnlyEntry(op.f, base, z, d, n)
    && z.Now(d, n) == base.Now(d, n)
    && (forall v :: z.May(d, n, v) ==> base.May(d, n, v))
  }

  /** A draft of `(d, n)`: an inode only the temporary name reaches, with nothing else changed since `base`. */
  ghost predicate Draft(op: Op, base: Fs, z: Fs, d: DirId, n: Name, temp: Name, i: Ino) {
    && Quiet(op, base, z, d, n)
    && op.start.next <= base.next <= i && i in z.inodes
    && Private(op.f, z, i)
    && z.Now(d, temp) == Some(i)
  }

  /** The draft has been renamed into place. */
  ghost predicate Landed(op: Op, base: Fs, z: Fs, d: DirId, n: Name, i: Ino, b: Bytes, pinned: bool) {
    && op.Permits(z)
    && OnlyEntry(op.f, base, z, d, n)
    && base.next <= i && z.Now(d, n) == Some(i) && Complete(z, i, b) && z.inodes[i].pinned == pinned
    && (forall v :: z.May(d, n, v) ==> base.May(d, n, v) || v == Some(i))
  }

  /** What the writers require of their target. */
  ghost predicate Target(op: Op, base: Fs, d: DirId, n: Name, b: Bytes) {
    && op.Valid() && base.Valid() && op.f.Managed(d, n)
    && MayLink(op.f, op.g, d, n, b)
    && (d == Main && op.g.backup.Some? ==> Secured(base, op.g.backup.value.0, op.g.backup.value.1))
  }

  lemma QuietHere(op: Op, z: Fs, d: DirId, n: Name)
    requires op.Permits(z)
    ensures Quiet(op, z, z, d, n)
  {
  }

  lemma DraftOpened(op: Op, z: Fs, d: DirId, n: Name, temp: Name)
    requires op.Valid() && op.Permits(z) && !op.f.Managed(d, temp) && temp != n
    ensures Draft(op, z, CreateEntry(z, d, temp), d, n, temp, z.next)
    ensures CreateEntry(z, d, temp).inodes[z.next] == Inode([], false, false)
  {
    EvolvesCreate(op.f, op.g, op.start, z, d, temp);
    CreateFrame(z, d, temp);
  }

  /** The loop over random temporary names: up to 32 attempts, stopping at any error but EEXIST. */
  method OpenTemp(f: Format, disk: Disk, d: DirId, n: Name, random: seq<nat>, ghost op: Op)
    returns (file: Option<Ino>, temp: Name)
    requires op.Valid() && op.f == f && op.Permits(disk.fs) && |random| >= TempAttempts
    requires f.Managed(d, n)
    modifies disk
    ensures old(disk.trace) <= disk.trace && disk.Within(op, |old(disk.trace)|)
    ensures old(disk.fs).Valid()
    ensures file.None? ==> disk.fs == old(disk.fs) && Quiet(op, old(disk.fs), disk.fs, d, n)
    ensures file.Some? ==>
              && !f.Managed(d, temp) && temp != n
              && Draft(op, old(disk.fs), disk.fs, d, n, temp, file.value)
              && disk.fs.inodes[file.value] == Inode([], false, false)
    ensures disk.reliable && HasFreeTemp(f, old(disk.fs), d, n, random) ==> file.Some?
  {
    hide Evolves, OnlyEntry, Private, Fs.Valid, CreateEntry;
    EvolvesValid(f, op.g, op.start, disk.fs);
    QuietHere(op, disk.fs, d, n);
    temp := "";
    var attempt := 0;
    while attempt < TempAttempts
      invariant 0 <= attempt <= TempAttempts
      invariant disk.fs == old(disk.fs) && disk.trace == old(disk.trace)
      invariant disk.reliable ==> forall k :: 0 <= k < attempt ==> f.tempName(n, random[k]) in disk.fs.In(d).now
    {
      temp := f.tempName(n, random[attempt]);
      ghost var before := disk.fs;
      var i, taken := disk.CreateExclusive(d, temp);
      if i.Some? {
        DraftOpened(op, before, d, n, temp);
        return i, temp;
      }
      if !taken {
        return None, temp;
      }
      attempt := attempt + 1;
    }
    return None, temp;
  }

  lemma DraftWritten(op: Op, base: Fs, z: Fs, d: DirId, n: Name, temp: Name, i: Ino, inode: Inode)
    requires op.Valid() && Draft(op, base, z, d, n, temp, i) && base.Valid()
    ensures Draft(op, base, z.(inodes := z.inodes[i := inode]), d, n, temp, i)
  {
    EvolvesWrite(op.f, op.g, op.start, z, i, inode);
    InodeFrame(z, i, inode);
  }

  lemma DraftRenamed(op: Op, base: Fs, z: Fs, d: DirId, n: Name, temp: Name, i: Ino, b: Bytes)
    requires Target(op, base, d, n, b) && Draft(op, base, z, d, n, temp, i) && Complete(z, i, b)
    requires !op.f.Managed(d, temp) && temp != n
    requires d == Backups ==> z.Now(d, n) == None
    ensures Landed(op, base, RenameEntry(z, d, temp, n), d, n, i, b, z.inodes[i].pinned)
  {
    hide Evolves, Format.Lawful;
    EvolvesValid(op.f, op.g, op.start, z);
    if d == Main && op.g.backup.Some? {
      SecuredFrame(op.f, base, z, d, n, op.g.backup.value.0, op.g.backup.value.1);
    }
    EvolvesRename(op.f, op.g, op.start, z, d, temp, n, i);
    RenameFrame(z, d, temp, n);
  }

  lemma LandedSynced(op: Op, base: Fs, z: Fs, d: DirId, n: Name, i: Ino, b: Bytes, pinned: bool)
    requires Landed(op, base, z, d, n, i, b, pinned)
    ensures Landed(op, base, SyncDir(z, d), d, n, i, b, pinned) && Durable(SyncDir(z, d), d, n)
  {
    EvolvesSyncDir(op.f, op.g, op.start, z, d);
    SyncDirFrame(z, d);
  }

  lemma DraftDiscarded(op: Op, base: Fs, z: Fs, d: DirId, n: Name, temp: Name, i: Ino)
    requires op.Valid() && Draft(op, base, z, d, n, temp, i)
    requires !op.f.Managed(d, temp) && temp != n
    ensures Quiet(op, base, UnlinkEntry(z, d, temp), d, n)
  {
    EvolvesUnlink(op.f, op.g, op.start, z, d, temp);
    UnlinkFrame(z, d, temp);
  }

  /**
   The steps the three writers share once the temporary file is written: synchronise it, close it,
   rename it into place, synchronise the directory; or remove it if anything failed.  `late` is the
   status for a failure after the rename.
   */
  method Settle(f: Format, disk: Disk, d: DirId, n: Name, temp: Name, i: Ino, written: Status,
                noReplace: bool, late: Status, ghost op: Op, ghost base: Fs, ghost b: Bytes)
    returns (st: Status, published: bool)
    requires op.f == f && Target(op, base, d, n, b) && Draft(op, base, disk.fs, d, n, temp, i)
    requires !f.Managed(d, temp) && temp != n
    requires written == OK ==> disk.fs.inodes[i].data == b
    requires (late == Durability || late == IO) && (d == Backups ==> noReplace)
    modifies disk
    ensures old(disk.trace) <= disk.trace && disk.Within(op, |old(disk.trace)|)
    ensures published ==> Landed(op, base, disk.fs, d, n, i, b, old(disk.fs).inodes[i].pinned)
    ensures !published ==> Quiet(op, base, disk.fs, d, n)
    ensures published ==> written == OK && (st == OK || st == late) && (noReplace ==> base.Now(d, n) == None)
    ensures !published ==> st == IO || (st == Exists && noReplace && base.Now(d, n).Some?) || st == written != OK
    ensures st == OK ==> Durable(disk.fs, d, n)
    ensures written != OK ==> st == written
    ensures written == OK && disk.reliable ==> st == if noReplace && base.Now(d, n).Some? then Exists else OK
  {
    hide Evolves, OnlyEntry, Private, Format.Lawful, Format.Managed, Fs.Valid;
    st, published := written, false;
    if st == OK {
      ghost var before := disk.fs;
      var synced := disk.FsyncFile(i);
      if synced {
        DraftWritten(op, base, before, d, n, temp, i, disk.fs.inodes[i]);
      } else {
        st := IO;
      }
    }
    if st == OK {
      var failed := disk.Fails();    // close
      if failed {
        st := IO;
      }
    }
    if st == OK {
      ghost var before := disk.fs;
      var ok, taken := disk.Rename(d, temp, n, noReplace);
      if ok {
        published := true;
        DraftRenamed(op, base, before, d, n, temp, i, b);
      } else {
        st := if taken then Exists else IO;
      }
    }
    if st == OK {
      ghost var before := disk.fs;
      var synced := disk.FsyncDir(d);
      if synced {
        LandedSynced(op, base, before, d, n, i, b, before.inodes[i].pinned);
      } else {
        st := late;
      }
    }
    if !published {
      ghost var before := disk.fs;
      var unlinked := disk.Unlink(d, temp);
      if unlinked {
        DraftDiscarded(op, base, before, d, n, temp, i);
      }
    }
  }

  /** A new complete file is in place at `(d, n)`, and nothing else changed since `base`. */
  ghost predicate InPlace(op: Op, base: Fs, z: Fs, d: DirId, n: Name, b: Bytes, pinned: bool) {
    && op.Permits(z)
    && OnlyEntry(op.f, base, z, d, n)
    && Published(base, z, d, n, b, pinned)
    && (forall v :: z.May(d, n, v) ==> base.May(d, n, v) || v == z.Now(d, n))
  }

  /** write_atomic_at: replace the active file, or create it when `noReplace`. */
  method WriteAtomic(f: Format, disk: Disk, header: Bytes, body: Bytes, noReplace: bool, random: seq<nat>, ghost op: Op)
    returns (st: Status)
    requires op.f == f && Target(op, disk.fs, Main, f.active, header + body) && op.Permits(disk.fs)
    requires |random| >= TempAttempts
    modifies disk
    ensures old(disk.trace) <= disk.trace && disk.Within(op, |old(disk.trace)|)
    ensures st == OK || st == Durability ==>
              InPlace(op, old(disk.fs), disk.fs, Main, f.active, header + body, false) && (noReplace ==> old(disk.fs).Now(Main, f.active) == None)
    ensures st != OK && st != Durability ==> Quiet(op, old(disk.fs), disk.fs, Main, f.active)
    ensures st == OK ==> Durable(disk.fs, Main, f.active)
    ensures st == Exists ==> noReplace && old(disk.fs).Now(Main, f.active).Some?
    ensures disk.reliable && HasFreeTemp(f, old(disk.fs), Main, f.active, random) && body != [] ==>
              st == if noReplace && old(disk.fs).Now(Main, f.active).Some? then Exists else OK
  {
    hide Evolves, OnlyEntry, Private, Format.Lawful, Fs.Valid;
    if body == [] {
      QuietHere(op, disk.fs, Main, f.active);
      return Usage;
    }
    ghost var base := disk.fs;
    var file, temp := OpenTemp(f, disk, Main, f.active, random, op);
    if file.None? {
      return IO;
    }
    var i := file.value;
    var bad := disk.Fails();    // fstat
    if bad {
      ghost var before := disk.fs;
      var unlinked := disk.Unlink(Main, temp);
      if unlinked {
        DraftDiscarded(op, base, before, Main, f.active, temp, i);
      }
      return IO;
    }
    var written := WriteDraft(f, disk, Main, f.active, temp, i, header, body, op, base);
    if written == OK {
      bad := disk.Fails();    // fstat
      if bad {
        written := IO;
      }
    }
    var published;
    st, published := Settle(f, disk, Main, f.active, temp, i, written, noReplace, Durability, op, base, header + body);
  }

  /** Header, then body, into the temporary file. */
  method WriteDraft(f: Format, disk: Disk, d: DirId, n: Name, temp: Name, i: Ino, header: Bytes, body: Bytes, ghost op: Op, ghost base: Fs)
    returns (st: Status)
    requires op.f == f && op.Valid() && base.Valid() && Draft(op, base, disk.fs, d, n, temp, i)
    requires disk.fs.inodes[i].data == []
    modifies disk
    ensures old(disk.trace) <= disk.trace && disk.Within(op, |old(disk.trace)|)
    ensures Draft(op, base, disk.fs, d, n, temp, i) && disk.fs.inodes[i].pinned == old(disk.fs).inodes[i].pinned
    ensures st == OK || st == IO
    ensures st == OK ==> disk.fs.inodes[i].data == header + body
    ensures disk.reliable ==> st == OK
  {
    hide Evolves, Format.Lawful, Fs.Valid;
    ghost var start := disk.fs;
    st := disk.WriteAll(i, header, op);
    DraftWritten(op, base, start, d, n, temp, i, disk.fs.inodes[i]);
    if st == OK {
      ghost var middle := disk.fs;
      st := disk.WriteAll(i, body, op);
      DraftWritten(op, base, middle, d, n, temp, i, disk.fs.inodes[i]);
      assert [] + header + body == header + body;
    }
  }

  /** write_snapshot_exclusive_at: a new file that never replaces one, pinned (0400) or not (0600). */
  method WriteSnapshotExclusive(f: Format, disk: Disk, d: DirId, n: Name, header: Bytes, body: Bytes, pinned: bool, random: seq<nat>, ghost op: Op)
    returns (st: Status)
    requires op.f == f && Target(op, disk.fs, d, n, header + body) && op.Permits(disk.fs)
    requires |random| >= TempAttempts
    modifies disk
    ensures old(disk.trace) <= disk.trace && disk.Within(op, |old(disk.trace)|)
    ensures st == OK || st == Durability ==>
              InPlace(op, old(disk.fs), disk.fs, d, n, header + body, pinned) && old(disk.fs).Now(d, n) == None
    ensures st != OK && st != Durability ==> Quiet(op, old(disk.fs), disk.fs, d, n)
    ensures st == OK ==> Durable(disk.fs, d, n)
    ensures st == Exists ==> old(disk.fs).Now(d, n).Some?
    ensures disk.reliable && HasFreeTemp(f, old(disk.fs), d, n, random) && body != [] ==>
              st == if old(disk.fs).Now(d, n).Some? then Exists else OK
  {
    hide Evolves, OnlyEntry, Private, Format.Lawful, Fs.Valid;
    if body == [] {
      QuietHere(op, disk.fs, d, n);
      return Usage;
    }
    ghost var base := disk.fs;
    var file, temp := OpenTemp(f, disk, d, n, random, op);
    if file.None? {
      return IO;
    }
    var i := file.value;
    var written := OK;
    var bad := disk.Fails();    // fstat
    if bad {
      written := IO;
    } else {
      written := WriteDraft(f, disk, d, n, temp, i, header, body, op, base);
    }
    if written == OK && pinned {
      ghost var before := disk.fs;
      var changed := disk.Chmod0400(i);
      if changed {
        DraftWritten(op, base, before, d, n, temp, i, disk.fs.inodes[i]);
      } else {
        written := IO;
      }
    }
    if written == OK {
      bad := disk.Fails();    // fstat
      if bad {
        written := IO;
      }
    }
    var published;
    st, published := Settle(f, disk, d, n, temp, i, written, true, Durability, op, base, header + body);
  }

  /** The copy loop: read a chunk of any size, write all of it. */
  method CopyChunks(disk: Disk, source: Ino, n: Name, temp: Name, i: Ino, ghost op: Op, ghost base: Fs, ghost all: Bytes)
    returns (st: Status)
    requires op.Valid() && base.Valid() && Draft(op, base, disk.fs, Backups, n, temp, i)
    requires source in base.inodes && base.inodes[source].data == all && disk.fs.inodes[i] == Inode([], false, false)
    modifies disk
    ensures old(disk.trace) <= disk.trace && disk.Within(op, |old(disk.trace)|)
    ensures Draft(op, base, disk.fs, Backups, n, temp, i) && !disk.fs.inodes[i].pinned
    ensures st == OK || st == IO
    ensures st == OK ==> disk.fs.inodes[i].data == all
    ensures disk.reliable ==> st == OK
  {
    SourceKept(op, base, disk.fs, n, temp, i, source);
    hide Evolves, Format.Lawful, Fs.Valid, Private, Draft;
    var done := 0;
    while done < |disk.fs.inodes[source].data|
      invariant i in disk.fs.inodes && Draft(op, base, disk.fs, Backups, n, temp, i)
      invariant old(disk.trace) <= disk.trace && disk.Within(op, |old(disk.trace)|)
      invariant source in disk.fs.inodes && disk.fs.inodes[source].data == all
      invariant 0 <= done <= |all| && disk.fs.inodes[i].data == all[..done] && !disk.fs.inodes[i].pinned
      decreases |all| - done
    {
      var failed := disk.Fails();    // read
      if failed {
        return IO;
      }
      var got: nat :| 0 < got <= |disk.fs.inodes[source].data| - done;
      ghost var before := disk.fs;
      DraftIsPrivate(op, base, before, n, temp, i);
      st := disk.WriteAll(i, disk.fs.inodes[source].data[done..done + got], op);
      DraftWritten(op, base, before, Backups, n, temp, i, disk.fs.inodes[i]);
      if st != OK {
        return;
      }
      assert all[..done] + all[done..done + got] == all[..done + got];
      done := done + got;
    }
    assert all[..done] == all;
    return OK;
  }

  lemma SourceKept(op: Op, base: Fs, z: Fs, n: Name, temp: Name, i: Ino, source: Ino)
    requires base.Valid() && Draft(op, base, z, Backups, n, temp, i) && source in base.inodes
    ensures source != i && source in z.inodes && z.inodes[source] == base.inodes[source]
  {
  }

  lemma DraftIsPrivate(op: Op, base: Fs, z: Fs, n: Name, temp: Name, i: Ino)
    requires Draft(op, base, z, Backups, n, temp, i)
    ensures op.Permits(z) && op.start.next <= i && i in z.inodes && Private(op.f, z, i)
  {
  }

  /**
   copy_file_exclusive_at: a byte-exact copy of the active file into `backups`, read in chunks of any
   size.  Success means the copy is durable; a failure may come after it was published.
   */
  method CopyActiveExclusive(f: Format, disk: Disk, n: Name, random: seq<nat>, ghost op: Op)
    returns (st: Status)
    requires op.f == f && op.Valid() && op.Permits(disk.fs) && f.Managed(Backups, n)
    requires disk.fs.Content(Main, f.active).Some? ==> Target(op, disk.fs, Backups, n, disk.fs.Content(Main, f.active).value)
    requires |random| >= TempAttempts
    modifies disk
    ensures old(disk.trace) <= disk.trace && disk.Within(op, |old(disk.trace)|)
    ensures Quiet(op, old(disk.fs), disk.fs, Backups, n) ||
            (old(disk.fs).Content(Main, f.active).Some? && old(disk.fs).Now(Backups, n) == None &&
             InPlace(op, old(disk.fs), disk.fs, Backups, n, old(disk.fs).Content(Main, f.active).value, false))
    ensures st != Durability
    ensures st == OK ==>
              && old(disk.fs).Content(Main, f.active).Some?
              && old(disk.fs).Now(Backups, n) == None
              && InPlace(op, old(disk.fs), disk.fs, Backups, n, old(disk.fs).Content(Main, f.active).value, false)
              && Durable(disk.fs, Backups, n)
    ensures disk.reliable && HasFreeTemp(f, old(disk.fs), Backups, n, random) && old(disk.fs).Content(Main, f.active).Some? ==>
              st == if old(disk.fs).Now(Backups, n).Some? then Exists else OK
  {
    hide Evolves, Format.Lawful, Fs.Valid, Private, OnlyEntry;
    var failed := disk.Fails();
    var source := disk.fs.Now(Main, f.active);
    QuietHere(op, disk.fs, Backups, n);
    if failed || source.None? || source.value !in disk.fs.inodes {
      return IO;
    }
    ghost var base := disk.fs;
    ghost var all := base.inodes[source.value].data;
    var file, temp := OpenTemp(f, disk, Backups, n, random, op);
    if file.None? {
      return IO;
    }
    var i := file.value;
    var written := OK;
    var bad := disk.Fails();    // fstat
    if bad {
      written := IO;
    } else {
      written := CopyChunks(disk, source.value, n, temp, i, op, base, all);
    }
    if written == OK {
      bad := disk.Fails();    // fstat
      if bad {
        written := IO;
      }
    }
    var published;
    st, published := Settle(f, disk, Backups, n, temp, i, written, true, IO, op, base, all);
  }
}

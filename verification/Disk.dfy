/**
 The system calls the store makes, any of which may fail, and `write_all`.  The disk remembers, for
 the specification only, every state it has been in.
 */
module Disks {
  import opened Prelude
  import opened FileSystem
  import opened Protocol

  /** An operation in progress: what it is permitted, and the state it started from. */
  datatype Op = Op(f: Format, g: Grant, start: Fs) {
    ghost predicate Valid() {
      && f.Lawful()
      && start.Valid()
      && (g.backup.Some? ==> f.Managed(Backups, g.backup.value.0))
    }

    ghost predicate Permits(z: Fs) {
      Evolves(f, g, start, z)
    }
  }

  datatype WriteOutcome = Wrote(count: nat) | Interrupted | WriteFailed

  /** Only inode `i` differs between `a` and `z`. */
  ghost predicate OnlyInode(a: Fs, z: Fs, i: Ino) {
    i in z.inodes && z == a.(inodes := a.inodes[i := z.inodes[i]])
  }

  /** Among managed entries, only `(d, n)` may differ; the other directory and the old inodes are unchanged. */
  ghost predicate OnlyEntry(f: Format, a: Fs, z: Fs, d: DirId, n: Name) {
    && a.next <= z.next
    && (forall e: DirId :: e != d ==> z.In(e) == a.In(e))
    && (forall i :: i in a.inodes ==> i in z.inodes && z.inodes[i] == a.inodes[i])
    && (forall e: DirId, m: Name :: f.Managed(e, m) && (e, m) != (d, n) ==> z.Now(e, m) == a.Now(e, m))
    && (forall e: DirId, m: Name, v :: f.Managed(e, m) && (e, m) != (d, n) && z.May(e, m, v) ==> a.May(e, m, v))
  }

  class Disk {
    var fs: Fs
    ghost var trace: seq<Fs>
    /** When set, no call fails and no temporary name is taken; writes may still be short. */
    const reliable: bool
    /** When set, no file fails to be read, whatever else fails. */
    const readable: bool

    constructor (fs: Fs, reliable: bool, readable: bool)
      ensures this.fs == fs && trace == [fs] && this.reliable == reliable && this.readable == readable
    {
      this.fs := fs;
      this.trace := [fs];
      this.reliable := reliable;
      this.readable := readable;
    }

    /** Every state since position `k` is one the operation may be in. */
    ghost predicate Within(op: Op, k: nat)
      reads this
    {
      k <= |trace| && forall j :: k <= j < |trace| ==> op.Permits(trace[j])
    }

    method Fails() returns (failed: bool)
      ensures reliable ==> !failed
    {
      failed := *;
      if reliable {
        failed := false;
      }
    }

    /** A call on the way of reading a file. */
    method ReadFails() returns (failed: bool)
      ensures reliable || readable ==> !failed
    {
      failed := *;
      if reliable || readable {
        failed := false;
      }
    }

    /** openat with O_CREAT | O_EXCL. */
    method CreateExclusive(d: DirId, n: Name) returns (i: Option<Ino>, taken: bool)
      modifies this
      ensures taken == (n in old(fs).In(d).now)
      ensures i.Some? ==> !taken && i.value == old(fs).next && fs == CreateEntry(old(fs), d, n) && trace == old(trace) + [fs]
      ensures i.None? ==> fs == old(fs) && trace == old(trace)
      ensures reliable && !taken ==> i.Some?
    {
      taken := n in fs.In(d).now;
      var failed := Fails();
      if taken || failed {
        return None, taken;
      }
      i := Some(fs.next);
      fs := CreateEntry(fs, d, n);
      trace := trace + [fs];
    }

    /** write: some prefix of the data, or an error that may be a mere interruption. */
    method Write(i: Ino, data: Bytes, mayInterrupt: bool) returns (r: WriteOutcome)
      requires i in fs.inodes && data != []
      modifies this
      ensures r.Wrote? ==> r.count <= |data| && fs == Append(old(fs), i, data[..r.count]) && trace == old(trace) + [fs]
      ensures !r.Wrote? ==> fs == old(fs) && trace == old(trace)
      ensures r.Interrupted? ==> mayInterrupt
      ensures reliable ==> r.Interrupted? || (r.Wrote? && r.count > 0)
    {
      var failed := Fails();
      var interrupted: bool := *;
      if interrupted && mayInterrupt {
        return Interrupted;
      }
      if failed {
        return WriteFailed;
      }
      var count: nat :| 0 <= count <= |data|;
      if reliable && count == 0 {
        count := 1;
      }
      fs := Append(fs, i, data[..count]);
      trace := trace + [fs];
      return Wrote(count);
    }

    method Chmod0400(i: Ino) returns (ok: bool)
      requires i in fs.inodes
      modifies this
      ensures ok ==> fs == Pin(old(fs), i) && trace == old(trace) + [fs]
      ensures !ok ==> fs == old(fs) && trace == old(trace)
      ensures reliable ==> ok
    {
      var failed := Fails();
      ok := !failed;
      if ok {
        fs := Pin(fs, i);
        trace := trace + [fs];
      }
    }

    method FsyncFile(i: Ino) returns (ok: bool)
      requires i in fs.inodes
      modifies this
      ensures ok ==> fs == SyncFile(old(fs), i) && trace == old(trace) + [fs]
      ensures !ok ==> fs == old(fs) && trace == old(trace)
      ensures reliable ==> ok
    {
      var failed := Fails();
      ok := !failed;
      if ok {
        fs := SyncFile(fs, i);
        trace := trace + [fs];
      }
    }

    method FsyncDir(d: DirId) returns (ok: bool)
      modifies this
      ensures ok ==> fs == SyncDir(old(fs), d) && trace == old(trace) + [fs]
      ensures !ok ==> fs == old(fs) && trace == old(trace)
      ensures reliable ==> ok
    {
      var failed := Fails();
      ok := !failed;
      if ok {
        fs := SyncDir(fs, d);
        trace := trace + [fs];
      }
    }

    /** renameat2, with or without RENAME_NOREPLACE. */
    method Rename(d: DirId, from: Name, to: Name, noReplace: bool) returns (ok: bool, taken: bool)
      requires from in fs.In(d).now
      modifies this
      ensures ok ==> fs == RenameEntry(old(fs), d, from, to) && trace == old(trace) + [fs]
      ensures !ok ==> fs == old(fs) && trace == old(trace)
      ensures taken ==> !ok
      ensures noReplace && to in old(fs).In(d).now ==> !ok
      ensures taken ==> noReplace && to in old(fs).In(d).now
      ensures reliable ==> ok || taken
    {
      var failed := Fails();
      if failed {
        return false, false;
      }
      if noReplace && to in fs.In(d).now {
        return false, true;
      }
      fs := RenameEntry(fs, d, from, to);
      trace := trace + [fs];
      return true, false;
    }

    method Unlink(d: DirId, n: Name) returns (ok: bool)
      requires n in fs.In(d).now
      modifies this
      ensures ok ==> fs == UnlinkEntry(old(fs), d, n) && trace == old(trace) + [fs]
      ensures !ok ==> fs == old(fs) && trace == old(trace)
      ensures reliable ==> ok
    {
      var failed := Fails();
      ok := !failed;
      if ok {
        fs := UnlinkEntry(fs, d, n);
        trace := trace + [fs];
      }
    }

    /**
     write_all: short writes are continued and interruptions retried.  Interruptions are finitely
     many.  The inode is one no managed name can reach, so every state is permitted.
     */
    method WriteAll(i: Ino, data: Bytes, ghost op: Op) returns (st: Status)
      requires op.Valid() && op.Permits(fs)
      requires op.start.next <= i && i in fs.inodes && Private(op.f, fs, i)
      modifies this
      ensures old(trace) <= trace && Within(op, |old(trace)|)
      ensures op.Permits(fs) && Private(op.f, fs, i) && OnlyInode(old(fs), fs, i)
      ensures fs.inodes[i].pinned == old(fs).inodes[i].pinned
      ensures st == OK || st == IO
      ensures st == OK ==> fs.inodes[i].data == old(fs).inodes[i].data + data
      ensures reliable ==> st == OK
    {
      hide Evolves, Private, Format.Lawful, Fs.Valid;
      var cursor := 0;
      var interrupts: nat :| true;
      while cursor < |data|
        invariant 0 <= cursor <= |data|
        invariant old(trace) <= trace && Within(op, |old(trace)|)
        invariant op.Permits(fs) && i in fs.inodes && Private(op.f, fs, i) && OnlyInode(old(fs), fs, i)
        invariant fs.inodes[i].pinned == old(fs).inodes[i].pinned
        invariant fs.inodes[i].data == old(fs).inodes[i].data + data[..cursor]
        decreases |data| - cursor, interrupts
      {
        ghost var before := fs;
        var r := Write(i, data[cursor..], interrupts > 0);
        if r.Interrupted? {
          interrupts := interrupts - 1;
          continue;
        }
        if r.WriteFailed? {
          return IO;
        }
        EvolvesWrite(op.f, op.g, op.start, before, i, fs.inodes[i]);
        assert fs == before.(inodes := before.inodes[i := fs.inodes[i]]);
        if r.count == 0 {
          return IO;
        }
        assert data[..cursor] + data[cursor..][..r.count] == data[..cursor + r.count];
        cursor := cursor + r.count;
      }
      assert data[..cursor] == data;
      return OK;
    }
  }
}

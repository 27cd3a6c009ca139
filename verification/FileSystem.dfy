/**
 A small file system: inodes with contents and a synced flag, and two directories (the vault's own
 and its `backups`), each with the entries a running process sees, the entries already on disk, and
 the changes made since the directory was last synchronised.  A crash may keep or lose each of
 those changes separately.
 */
module FileSystem {
  import opened Prelude

  datatype DirId = Main | Backups

  type Name = string

  type Ino = int

  /** `pinned` is mode 0400; otherwise the mode is 0600. */
  datatype Inode = Inode(data: Bytes, synced: bool, pinned: bool)

  datatype Dir = Dir(now: map<Name, Ino>, stable: map<Name, Ino>, pending: set<(Name, Option<Ino>)>)

  function At(m: map<Name, Ino>, n: Name): Option<Ino> {
    if n in m then Some(m[n]) else None
  }

  datatype Fs = Fs(inodes: map<Ino, Inode>, next: Ino, main: Dir, backups: Dir) {
    function In(d: DirId): Dir {
      if d.Main? then main else backups
    }

    function With(d: DirId, dir: Dir): Fs {
      if d.Main? then this.(main := dir) else this.(backups := dir)
    }

    function Now(d: DirId, n: Name): Option<Ino> {
      At(In(d).now, n)
    }

    /** After a crash, entry `n` may turn out to be `v`. */
    predicate May(d: DirId, n: Name, v: Option<Ino>) {
      v == At(In(d).stable, n) || (n, v) in In(d).pending
    }

    /** What a reader finds under a name, if anything. */
    function Content(d: DirId, n: Name): Option<Bytes> {
      match Now(d, n)
      case None => None
      case Some(i) => if i in inodes then Some(inodes[i].data) else None
    }

    /** What is visible may survive, and every inode a name can reach exists. */
    ghost predicate Valid() {
      && (forall i :: i in inodes ==> i < next)
      && (forall d: DirId, n: Name :: May(d, n, Now(d, n)))
      && (forall d: DirId, n: Name, i: Ino :: May(d, n, Some(i)) ==> i in inodes)
    }
  }

  // ---------- the effect of each call that succeeds ----------

  function CreateEntry(fs: Fs, d: DirId, n: Name): Fs {
    var dir := fs.In(d);
    fs.With(d, dir.(now := dir.now[n := fs.next], pending := dir.pending + {(n, Some(fs.next))}))
    .(inodes := fs.inodes[fs.next := Inode([], false, false)], next := fs.next + 1)
  }

  function Append(fs: Fs, i: Ino, data: Bytes): Fs
    requires i in fs.inodes
  {
    fs.(inodes := fs.inodes[i := fs.inodes[i].(data := fs.inodes[i].data + data, synced := false)])
  }

  function Pin(fs: Fs, i: Ino): Fs
    requires i in fs.inodes
  {
    fs.(inodes := fs.inodes[i := fs.inodes[i].(pinned := true, synced := false)])
  }

  function SyncFile(fs: Fs, i: Ino): Fs
    requires i in fs.inodes
  {
    fs.(inodes := fs.inodes[i := fs.inodes[i].(synced := true)])
  }

  function RenameEntry(fs: Fs, d: DirId, from: Name, to: Name): Fs
    requires from in fs.In(d).now
  {
    var dir := fs.In(d);
    var i := dir.now[from];
    fs.With(d, dir.(now := (dir.now - {from})[to := i], pending := dir.pending + {(from, None), (to, Some(i))}))
  }

  function UnlinkEntry(fs: Fs, d: DirId, n: Name): Fs {
    var dir := fs.In(d);
    fs.With(d, dir.(now := dir.now - {n}, pending := dir.pending + {(n, None)}))
  }

  function SyncDir(fs: Fs, d: DirId): Fs {
    var dir := fs.In(d);
    fs.With(d, Dir(dir.now, dir.now, {}))
  }

  // ---------- what each effect changes, entry by entry ----------

  /** Validity from the entry-level effect of a step. */
  lemma ValidStep(z: Fs, y: Fs)
    requires z.Valid() && z.next <= y.next
    requires forall i :: i in y.inodes ==> i < y.next
    requires forall i :: i in z.inodes ==> i in y.inodes
    requires forall d: DirId, n: Name :: y.Now(d, n) == z.Now(d, n) || y.May(d, n, y.Now(d, n))
    requires forall d: DirId, n: Name :: y.Now(d, n) == z.Now(d, n) && z.May(d, n, z.Now(d, n)) ==> y.May(d, n, z.Now(d, n))
    requires forall d: DirId, n: Name, i: Ino :: y.May(d, n, Some(i)) ==> z.May(d, n, Some(i)) || i in y.inodes
    ensures y.Valid()
  {
    forall d: DirId, n: Name
      ensures y.May(d, n, y.Now(d, n))
    {
      assert z.May(d, n, z.Now(d, n));
    }
  }

  lemma CreateFrame(z: Fs, d: DirId, n: Name)
    requires z.Valid()
    ensures var y := CreateEntry(z, d, n);
      && y.Valid()
      && (forall e: DirId, m: Name, v :: y.May(e, m, v) <==> z.May(e, m, v) || (e == d && m == n && v == Some(z.next)))
      && (forall e: DirId, m: Name :: (e, m) != (d, n) ==> y.Now(e, m) == z.Now(e, m))
      && y.Now(d, n) == Some(z.next)
  {
    var y := CreateEntry(z, d, n);
    assert y.In(d) == z.In(d).(now := z.In(d).now[n := z.next], pending := z.In(d).pending + {(n, Some(z.next))});
    assert forall e: DirId :: e != d ==> y.In(e) == z.In(e);
    assert forall e: DirId, m: Name, v :: y.May(e, m, v) <==> z.May(e, m, v) || (e == d && m == n && v == Some(z.next));
    ValidStep(z, y);
  }

  lemma InodeFrame(z: Fs, i: Ino, inode: Inode)
    requires z.Valid() && i in z.inodes
    ensures var y := z.(inodes := z.inodes[i := inode]);
      && y.Valid()
      && (forall e: DirId, m: Name, v :: y.May(e, m, v) <==> z.May(e, m, v))
      && (forall e: DirId, m: Name :: y.Now(e, m) == z.Now(e, m))
  {
    var y := z.(inodes := z.inodes[i := inode]);
    assert forall e: DirId :: y.In(e) == z.In(e);
    assert forall e: DirId, m: Name, v :: y.May(e, m, v) <==> z.May(e, m, v);
    ValidStep(z, y);
  }

  lemma RenameFrame(z: Fs, d: DirId, from: Name, to: Name)
    requires z.Valid() && from in z.In(d).now && from != to
    ensures var y := RenameEntry(z, d, from, to);
      && y.Valid()
      && (forall e: DirId, m: Name, v :: y.May(e, m, v) <==>
            z.May(e, m, v) || (e == d && m == from && v == None) || (e == d && m == to && v == z.Now(d, from)))
      && (forall e: DirId, m: Name :: (e, m) != (d, from) && (e, m) != (d, to) ==> y.Now(e, m) == z.Now(e, m))
      && y.Now(d, from) == None && y.Now(d, to) == z.Now(d, from)
  {
    var y := RenameEntry(z, d, from, to);
    assert forall e: DirId :: e != d ==> y.In(e) == z.In(e);
    assert z.May(d, from, z.Now(d, from));
    assert forall e: DirId, m: Name, v :: y.May(e, m, v) <==>
        z.May(e, m, v) || (e == d && m == from && v == None) || (e == d && m == to && v == z.Now(d, from));
    ValidStep(z, y);
  }

  lemma UnlinkFrame(z: Fs, d: DirId, n: Name)
    requires z.Valid()
    ensures var y := UnlinkEntry(z, d, n);
      && y.Valid()
      && (forall e: DirId, m: Name, v :: y.May(e, m, v) <==> z.May(e, m, v) || (e == d && m == n && v == None))
      && (forall e: DirId, m: Name :: (e, m) != (d, n) ==> y.Now(e, m) == z.Now(e, m))
      && y.Now(d, n) == None
  {
    var y := UnlinkEntry(z, d, n);
    assert forall e: DirId :: e != d ==> y.In(e) == z.In(e);
    assert forall e: DirId, m: Name, v :: y.May(e, m, v) <==> z.May(e, m, v) || (e == d && m == n && v == None);
    ValidStep(z, y);
  }

  lemma SyncDirFrame(z: Fs, d: DirId)
    requires z.Valid()
    ensures var y := SyncDir(z, d);
      && y.Valid()
      && (forall e: DirId, m: Name, v :: y.May(e, m, v) <==> if e == d then v == z.Now(d, m) else z.May(e, m, v))
      && (forall e: DirId, m: Name, v :: y.May(e, m, v) ==> z.May(e, m, v))
      && (forall e: DirId, m: Name :: y.Now(e, m) == z.Now(e, m))
  {
    var y := SyncDir(z, d);
    assert forall e: DirId :: e != d ==> y.In(e) == z.In(e);
    assert forall e: DirId, m: Name, v :: y.May(e, m, v) <==> if e == d then v == z.Now(d, m) else z.May(e, m, v);
    assert forall m: Name :: z.May(d, m, z.Now(d, m));
    ValidStep(z, y);
  }

  /**
   `z` is a state the disk may be in after a crash in `a`: every entry is one it may be, a synced
   inode is intact, and an inode that was not synced holds anything.
   */
  ghost predicate Crashed(a: Fs, z: Fs) {
    && z.next == a.next
    && z.inodes.Keys == a.inodes.Keys
    && (forall i :: i in a.inodes && a.inodes[i].synced ==> z.inodes[i] == a.inodes[i])
    && (forall d: DirId, n: Name :: a.May(d, n, z.Now(d, n)))
    && (forall d: DirId :: z.In(d).stable == z.In(d).now && z.In(d).pending == {})
  }

  lemma CrashedIsValid(a: Fs, z: Fs)
    requires a.Valid() && Crashed(a, z)
    ensures z.Valid()
    ensures forall d: DirId, n: Name, v :: z.May(d, n, v) ==> v == z.Now(d, n) && a.May(d, n, v)
  {
    forall d: DirId, n: Name
      ensures z.May(d, n, z.Now(d, n))
    {
      assert z.In(d).stable == z.In(d).now;
    }
    forall d: DirId, n: Name, v | z.May(d, n, v)
      ensures v == z.Now(d, n) && a.May(d, n, v)
    {
      assert z.In(d).stable == z.In(d).now;
    }
  }
}

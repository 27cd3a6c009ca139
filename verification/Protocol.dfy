/**
 What one operation of the store may do to the disk.  `Evolves` holds of every state an operation
 passes through, so it bounds what a crash can expose at any step.
 */
module Protocol {
  import opened Prelude
  import opened FileSystem

  /**
   The byte formats and names the protocol relies on, for one vault: its file name and ID, the
   strict snapshot check, the ID in the clear header, the generation that the authenticated body
   carries, whether the body decodes to the end, the file hash, and the automatic backup names.
   */
  datatype Format = Format(
    active: Name,
    vault: Bytes,
    valid: Bytes -> bool,
    vaultOf: Bytes -> Bytes,
    gen: Bytes -> Option<nat>,
    opens: Bytes -> bool,
    hash: Bytes -> Bytes,
    zero: Bytes,
    autoName: nat -> Name,
    parseAuto: Name -> Option<nat>,
    isTemp: Name -> bool,
    tempName: (Name, nat) -> Name)
  {
    /** Names a reader can meet: the vault file, and anything in `backups` that is not temporary. */
    ghost predicate Managed(d: DirId, n: Name) {
      (d == Main && n == active) || (d == Backups && !isTemp(n))
    }

    ghost predicate Lawful() {
      && (forall x, y :: hash(x) == hash(y) ==> x == y)
      && (forall x :: hash(x) != zero)
      && (forall x :: valid(x) ==> |x| > HeaderLength)
      && (forall x :: opens(x) ==> gen(x).Some?)
      && (forall n, s: nat :: tempName(n, s) != n && isTemp(tempName(n, s)))
      && (forall g: nat :: 0 < g < MaxGeneration ==> parseAuto(autoName(g)) == Some(g) && !isTemp(autoName(g)))
      && (forall n :: parseAuto(n).Some? ==> 0 < parseAuto(n).value < MaxGeneration && n == autoName(parseAuto(n).value))
    }
  }

  /** Generations are 64-bit. */
  const MaxGeneration: nat := Uint64

  /**
   What an operation is permitted: the bytes it may publish as the active file, the backup it must
   first make durable, and the generation below which it may delete automatic backups.
   */
  datatype Grant = Grant(newActive: Option<Bytes>, backup: Option<(Name, Bytes)>, dropBelow: nat)

  /** Inode `i` is completely written, synchronised, and holds `b`. */
  predicate Complete(fs: Fs, i: Ino, b: Bytes) {
    i in fs.inodes && fs.inodes[i].synced && fs.inodes[i].data == b
  }

  predicate MayLink(f: Format, g: Grant, d: DirId, n: Name, b: Bytes) {
    || (d == Main && n == f.active && g.newActive == Some(b))
    || (d == Backups && g.backup == Some((n, b)))
  }

  predicate MayDrop(f: Format, g: Grant, d: DirId, n: Name) {
    && d == Backups
    && f.parseAuto(n).Some?
    && f.parseAuto(n).value < g.dropBelow
    && (g.backup.Some? ==> g.backup.value.0 != n)
  }

  /** The operation that began in `a` may have made entry `n` be `v`.  Backups never replace an entry. */
  ghost predicate Granted(f: Format, g: Grant, a: Fs, z: Fs, d: DirId, n: Name, v: Option<Ino>) {
    match v
    case None => MayDrop(f, g, d, n)
    case Some(i) =>
      && a.next <= i && i in z.inodes && z.inodes[i].synced
      && MayLink(f, g, d, n, z.inodes[i].data)
      && (d == Backups ==> a.Now(d, n) == None)
  }

  /** Whatever survives a crash, name `n` in `backups` holds exactly `b`. */
  ghost predicate Secured(fs: Fs, n: Name, b: Bytes) {
    forall v :: fs.May(Backups, n, v) ==> v.Some? && Complete(fs, v.value, b)
  }

  /** `z` is a state that an operation permitted `g` can be in, having started in `a`. */
  ghost predicate Evolves(f: Format, g: Grant, a: Fs, z: Fs) {
    && z.Valid()
    && a.next <= z.next
    && (forall i :: i in a.inodes ==> i in z.inodes && z.inodes[i] == a.inodes[i])
    && (forall d: DirId, n: Name, v :: f.Managed(d, n) && z.May(d, n, v) ==>
          a.May(d, n, v) || Granted(f, g, a, z, d, n, v))
    && (forall d: DirId, n: Name :: f.Managed(d, n) && z.Now(d, n) != a.Now(d, n) ==>
          Granted(f, g, a, z, d, n, z.Now(d, n)))
    && (g.backup.Some? ==> forall i :: a.next <= i && z.May(Main, f.active, Some(i)) ==>
          Secured(z, g.backup.value.0, g.backup.value.1))
  }

  /** No managed name can resolve to `i`. */
  ghost predicate Private(f: Format, fs: Fs, i: Ino) {
    forall d: DirId, n: Name :: f.Managed(d, n) ==> !fs.May(d, n, Some(i))
  }

  // ---------- each call keeps to the grant ----------

  lemma EvolvesInitially(f: Format, g: Grant, a: Fs)
    requires a.Valid()
    ensures Evolves(f, g, a, a)
  {
  }

  /** A step that changes no inode `z` has, and no managed entry beyond the grant. */
  lemma EvolvesStep(f: Format, g: Grant, a: Fs, z: Fs, y: Fs)
    requires Evolves(f, g, a, z) && y.Valid() && z.next <= y.next
    requires forall i :: i in z.inodes ==> i in y.inodes && y.inodes[i] == z.inodes[i]
    requires forall d: DirId, n: Name, v :: f.Managed(d, n) && y.May(d, n, v) ==>
        z.May(d, n, v) || Granted(f, g, a, y, d, n, v)
    requires forall d: DirId, n: Name :: f.Managed(d, n) && y.Now(d, n) != z.Now(d, n) ==>
        Granted(f, g, a, y, d, n, y.Now(d, n))
    requires g.backup.Some? ==>
        || Secured(y, g.backup.value.0, g.backup.value.1)
        || ((forall i :: y.May(Main, f.active, Some(i)) ==> z.May(Main, f.active, Some(i)))
            && !Secured(z, g.backup.value.0, g.backup.value.1))
    ensures Evolves(f, g, a, y)
  {
    assert forall d: DirId, n: Name, v :: Granted(f, g, a, z, d, n, v) ==> Granted(f, g, a, y, d, n, v);
  }

  lemma EvolvesCreate(f: Format, g: Grant, a: Fs, z: Fs, d: DirId, n: Name)
    requires Evolves(f, g, a, z) && !f.Managed(d, n)
    requires g.backup.Some? ==> f.Managed(Backups, g.backup.value.0)
    ensures Evolves(f, g, a, CreateEntry(z, d, n))
    ensures Private(f, CreateEntry(z, d, n), z.next)
  {
    var y := CreateEntry(z, d, n);
    CreateFrame(z, d, n);
    EvolvesStep(f, g, a, z, y);
  }

  lemma EvolvesWrite(f: Format, g: Grant, a: Fs, z: Fs, i: Ino, inode: Inode)
    requires a.Valid() && Evolves(f, g, a, z)
    requires g.backup.Some? ==> f.Managed(Backups, g.backup.value.0)
    requires a.next <= i && i in z.inodes && Private(f, z, i)
    ensures Evolves(f, g, a, z.(inodes := z.inodes[i := inode]))
    ensures Private(f, z.(inodes := z.inodes[i := inode]), i)
  {
    var y := z.(inodes := z.inodes[i := inode]);
    InodeFrame(z, i, inode);
    forall d: DirId, n: Name, v | f.Managed(d, n) && y.May(d, n, v)
      ensures a.May(d, n, v) || Granted(f, g, a, y, d, n, v)
    {
    }
    forall d: DirId, n: Name | f.Managed(d, n) && y.Now(d, n) != a.Now(d, n)
      ensures Granted(f, g, a, y, d, n, y.Now(d, n))
    {
      assert z.May(d, n, z.Now(d, n));
    }
  }

  lemma EvolvesSyncDir(f: Format, g: Grant, a: Fs, z: Fs, d: DirId)
    requires Evolves(f, g, a, z)
    ensures Evolves(f, g, a, SyncDir(z, d))
  {
    SyncDirFrame(z, d);
    EvolvesStep(f, g, a, z, SyncDir(z, d));
  }

  lemma EvolvesUnlink(f: Format, g: Grant, a: Fs, z: Fs, d: DirId, n: Name)
    requires Evolves(f, g, a, z)
    requires g.backup.Some? ==> f.Managed(Backups, g.backup.value.0)
    requires !f.Managed(d, n) || MayDrop(f, g, d, n)
    ensures Evolves(f, g, a, UnlinkEntry(z, d, n))
  {
    UnlinkFrame(z, d, n);
    EvolvesStep(f, g, a, z, UnlinkEntry(z, d, n));
  }

  /** Publishing: a complete inode moves from a temporary name to a granted one. */
  lemma EvolvesRename(f: Format, g: Grant, a: Fs, z: Fs, d: DirId, from: Name, to: Name, i: Ino)
    requires Evolves(f, g, a, z)
    requires g.backup.Some? ==> f.Managed(Backups, g.backup.value.0)
    requires !f.Managed(d, from) && from != to && z.Now(d, from) == Some(i)
    requires a.next <= i && i in z.inodes && z.inodes[i].synced && MayLink(f, g, d, to, z.inodes[i].data)
    requires d == Main && g.backup.Some? ==> Secured(z, g.backup.value.0, g.backup.value.1)
    requires d == Backups ==> z.Now(d, to) == None && f.Managed(d, to)
    ensures Evolves(f, g, a, RenameEntry(z, d, from, to))
  {
    assert d == Backups ==> a.Now(d, to) == None;
    RenameFrame(z, d, from, to);
    EvolvesStep(f, g, a, z, RenameEntry(z, d, from, to));
  }

  /** Every inode a managed name can reach was synchronised. */
  ghost predicate AllSynced(f: Format, fs: Fs) {
    forall d: DirId, n: Name, i: Ino :: f.Managed(d, n) && fs.May(d, n, Some(i)) ==> i in fs.inodes && fs.inodes[i].synced
  }

  lemma EvolvesSynced(f: Format, g: Grant, a: Fs, z: Fs)
    requires a.Valid() && AllSynced(f, a) && Evolves(f, g, a, z)
    ensures AllSynced(f, z)
  {
    forall d: DirId, n: Name, i: Ino | f.Managed(d, n) && z.May(d, n, Some(i))
      ensures i in z.inodes && z.inodes[i].synced
    {
      assert a.May(d, n, Some(i)) || Granted(f, g, a, z, d, n, Some(i));
    }
  }

  lemma EvolvesValid(f: Format, g: Grant, a: Fs, z: Fs)
    requires Evolves(f, g, a, z)
    ensures z.Valid()
  {
  }
}

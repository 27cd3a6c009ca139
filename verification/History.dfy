/**
 Runs without restore: automatic backups as a history of the vault.  `line` is the sequence of
 snapshots committed so far; the one at position `g - 1` has generation `g`.
 */
module History {
  import opened Prelude
  import opened FileSystem
  import opened Protocol
  import opened Disks
  import opened Publish
  import opened Store
  import opened Runs

  /** A line of snapshots, numbered from generation 1. */
  ghost predicate IsLine(f: Format, line: seq<Bytes>) {
    |line| < MaxGeneration && forall k :: 0 <= k < |line| ==> Genuine(f, line[k]) && f.gen(line[k]) == Some(k + 1)
  }

  /** `b` is on the line, at the place its generation says. */
  ghost predicate OnLine(f: Format, line: seq<Bytes>, b: Bytes) {
    f.gen(b).Some? && 0 < f.gen(b).value <= |line| && line[f.gen(b).value - 1] == b
  }

  /** Everything the active name or an automatic backup name can resolve to is on the line, at its own generation. */
  ghost predicate Recorded(f: Format, fs: Fs, line: seq<Bytes>) {
    && IsLine(f, line)
    && (forall i :: fs.May(Main, f.active, Some(i)) ==> i in fs.inodes && OnLine(f, line, fs.inodes[i].data))
    && (forall g: nat, i :: 0 < g < MaxGeneration && fs.May(Backups, f.autoName(g), Some(i)) ==>
          i in fs.inodes && g <= |line| && fs.inodes[i].data == line[g - 1])
  }

  /** The history invariant: the active file is the end of the line, and backup `g` holds snapshot `g`. */
  ghost predicate HistoryInv(f: Format, w: World, line: seq<Bytes>) {
    && Inv(f, w)
    && Recorded(f, w.fs, line)
    && Active(f, w.fs) == if line == [] then None else Some(line[|line| - 1])
  }

  function GenerationOf(f: Format, b: Option<Bytes>): nat {
    if b.Some? && f.gen(b.value).Some? then f.gen(b.value).value else 0
  }

  /** No crash can leave an automatic backup of a later generation than the active file. */
  ghost predicate Benign(f: Format, fs: Fs) {
    forall v, g: nat, j :: fs.May(Main, f.active, v) && 0 < g < MaxGeneration && fs.May(Backups, f.autoName(g), Some(j)) ==>
      g <= GenerationOf(f, DataOf(fs, v))
  }

  /** While `Recorded`, the collision path cannot refuse: the name of the current generation admits the current snapshot. */
  lemma NameAdmitsCurrent(f: Format, w: World, line: seq<Bytes>)
    requires HistoryInv(f, w, line) && line != []
    ensures NameAdmits(w.fs, f.autoName(|line|), line[|line| - 1])
  {
    var n := f.autoName(|line|);
    assert w.fs.May(Backups, n, w.fs.Now(Backups, n));
  }

  /** The grant of a save from the end of the line. */
  ghost predicate Continues(f: Format, line: seq<Bytes>, sealed: Bytes, g: Grant) {
    && IsLine(f, line) && |line| < MaxGeneration - 1 && SealedAt(f, sealed, |line| + 1)
    && g.newActive == Some(sealed)
    && (g.backup.Some? ==> line != [] && g.backup.value == (f.autoName(|line|), line[|line| - 1]))
  }

  lemma ActiveRecorded(f: Format, g: Grant, a: Fs, m: Fs, line: seq<Bytes>, sealed: Bytes, i: Ino)
    requires Recorded(f, a, line) && Continues(f, line, sealed, g) && Evolves(f, g, a, m) && m.May(Main, f.active, Some(i))
    ensures i in m.inodes && OnLine(f, line + [sealed], m.inodes[i].data)
    ensures if a.May(Main, f.active, Some(i)) then OnLine(f, line, m.inodes[i].data) else m.inodes[i].data == sealed
  {
    assert f.Managed(Main, f.active);
    if !a.May(Main, f.active, Some(i)) {
      assert Granted(f, g, a, m, Main, f.active, Some(i));
    }
  }

  lemma BackupRecorded(f: Format, g: Grant, a: Fs, m: Fs, line: seq<Bytes>, sealed: Bytes, k: nat, i: Ino)
    requires f.Lawful() && Recorded(f, a, line) && Continues(f, line, sealed, g) && Evolves(f, g, a, m)
    requires 0 < k < MaxGeneration && m.May(Backups, f.autoName(k), Some(i))
    ensures i in m.inodes && k <= |line| && m.inodes[i].data == line[k - 1]
  {
    var n := f.autoName(k);
    assert f.parseAuto(n) == Some(k);
    assert f.Managed(Backups, n);
    if !a.May(Backups, n, Some(i)) {
      assert Granted(f, g, a, m, Backups, n, Some(i));
      assert f.parseAuto(f.autoName(|line|)) == Some(|line|);
    }
  }

  /** Every state of a save from the end of the line is recorded on the line extended by the new snapshot. */
  lemma SaveRecorded(f: Format, g: Grant, a: Fs, m: Fs, line: seq<Bytes>, sealed: Bytes)
    requires f.Lawful() && Recorded(f, a, line) && Continues(f, line, sealed, g) && Evolves(f, g, a, m)
    ensures Recorded(f, m, line + [sealed])
    ensures (forall v :: m.May(Main, f.active, v) ==> a.May(Main, f.active, v)) ==> Recorded(f, m, line)
  {
    hide Evolves, Format.Lawful;
    forall i | m.May(Main, f.active, Some(i))
      ensures i in m.inodes && OnLine(f, line + [sealed], m.inodes[i].data)
      ensures a.May(Main, f.active, Some(i)) ==> OnLine(f, line, m.inodes[i].data)
    {
      ActiveRecorded(f, g, a, m, line, sealed, i);
    }
    forall k: nat, i | 0 < k < MaxGeneration && m.May(Backups, f.autoName(k), Some(i))
      ensures i in m.inodes && k <= |line| && m.inodes[i].data == line[k - 1]
    {
      BackupRecorded(f, g, a, m, line, sealed, k, i);
    }
  }

  lemma KeptData(f: Format, g: Grant, a: Fs, m: Fs, v: Option<Ino>)
    requires a.Valid() && Evolves(f, g, a, m) && a.May(Main, f.active, v)
    ensures DataOf(m, v) == DataOf(a, v)
  {
    if v.Some? {
      var i := v.value;
      assert v == Some(i) && a.May(Main, f.active, Some(i));
    }
  }

  /** Whatever a crash leaves under the active name, its bytes are those of the active file now. */
  ghost predicate Settled(f: Format, fs: Fs) {
    forall v :: fs.May(Main, f.active, v) ==> DataOf(fs, v) == Active(f, fs)
  }

  lemma DurableIsSettled(f: Format, fs: Fs)
    ensures Durable(fs, Main, f.active) ==> Settled(f, fs)
  {
  }

  /** While settled, the active file is the latest of the recorded ones. */
  lemma SettledIsBenign(f: Format, w: World, line: seq<Bytes>)
    requires HistoryInv(f, w, line) && Settled(f, w.fs)
    ensures Benign(f, w.fs)
  {
  }

  lemma BenignFromClean(f: Format, g: Grant, a: Fs, m: Fs, line: seq<Bytes>, sealed: Bytes)
    requires f.Lawful() && a.Valid() && Recorded(f, a, line) && Continues(f, line, sealed, g) && Evolves(f, g, a, m)
    requires Settled(f, a) && Active(f, a) == if line == [] then None else Some(line[|line| - 1])
    ensures Benign(f, m)
  {
    forall v, k: nat, j | m.May(Main, f.active, v) && 0 < k < MaxGeneration && m.May(Backups, f.autoName(k), Some(j))
      ensures k <= GenerationOf(f, DataOf(m, v))
    {
      BackupRecorded(f, g, a, m, line, sealed, k, j);
      assert f.Managed(Main, f.active);
      if a.May(Main, f.active, v) {
        KeptData(f, g, a, m, v);
      } else {
        assert Granted(f, g, a, m, Main, f.active, v);
      }
    }
  }

  /** The part of the line that survives a crash. */
  function Surviving(f: Format, y: Fs, line: seq<Bytes>): seq<Bytes> {
    if GenerationOf(f, Active(f, y)) <= |line| then line[..GenerationOf(f, Active(f, y))] else line
  }

  lemma NowIsPossible(y: Fs, d: DirId, n: Name)
    requires y.Valid()
    ensures y.May(d, n, y.Now(d, n))
  {
  }

  lemma CrashedEntry(f: Format, m: Fs, y: Fs, d: DirId, n: Name, v: Option<Ino>)
    requires m.Valid() && AllSynced(f, m) && Crashed(m, y) && f.Managed(d, n) && y.May(d, n, v)
    ensures v == y.Now(d, n) && m.May(d, n, v) && DataOf(y, v) == DataOf(m, v) && (v.Some? ==> v.value in y.inodes)
  {
    CrashedIsValid(m, y);
    assert v == y.Now(d, n) && m.May(d, n, v);
    if v.Some? {
      var i := v.value;
      assert v == Some(i);
      assert i in m.inodes && m.inodes[i].synced;
      assert i in m.inodes.Keys && i in y.inodes.Keys;
    }
  }

  lemma Truncated(f: Format, y: Fs, line: seq<Bytes>)
    requires IsLine(f, line)
    requires forall u :: y.May(Main, f.active, u) ==> u == y.Now(Main, f.active)
    requires y.Now(Main, f.active).Some? ==> Active(f, y).Some? && OnLine(f, line, Active(f, y).value)
    requires forall k: nat, i :: 0 < k < MaxGeneration && y.May(Backups, f.autoName(k), Some(i)) ==>
        i in y.inodes && k <= GenerationOf(f, Active(f, y)) && y.inodes[i].data == line[k - 1]
    ensures var rest := Surviving(f, y, line);
      Recorded(f, y, rest) && Benign(f, y) && Active(f, y) == if rest == [] then None else Some(rest[|rest| - 1])
  {
    hide Genuine, Fs.May;
    var g, rest := GenerationOf(f, Active(f, y)), Surviving(f, y, line);
    LastSurvives(f, y, line);
    forall i | y.May(Main, f.active, Some(i))
      ensures i in y.inodes && OnLine(f, rest, y.inodes[i].data)
    {
      assert y.Now(Main, f.active) == Some(i);
    }
    forall k: nat, i | 0 < k < MaxGeneration && y.May(Backups, f.autoName(k), Some(i))
      ensures i in y.inodes && k <= |rest| && y.inodes[i].data == rest[k - 1]
    {
    }
    forall v, k: nat, j | y.May(Main, f.active, v) && 0 < k < MaxGeneration && y.May(Backups, f.autoName(k), Some(j))
      ensures k <= GenerationOf(f, DataOf(y, v))
    {
      assert v == y.Now(Main, f.active);
      assert DataOf(y, v) == Active(f, y);
    }
  }

  /** The surviving part is a line that ends at the active file. */
  lemma LastSurvives(f: Format, y: Fs, line: seq<Bytes>)
    requires IsLine(f, line)
    requires y.Now(Main, f.active).Some? ==> Active(f, y).Some? && OnLine(f, line, Active(f, y).value)
    ensures var g, rest := GenerationOf(f, Active(f, y)), Surviving(f, y, line);
      && g <= |line| && rest == line[..g] && IsLine(f, rest)
      && Active(f, y) == (if rest == [] then None else Some(rest[|rest| - 1]))
      && (Active(f, y).Some? ==> OnLine(f, rest, Active(f, y).value))
  {
    hide Genuine;
    var g, rest := GenerationOf(f, Active(f, y)), Surviving(f, y, line);
    if y.Now(Main, f.active).Some? {
      assert line[g - 1] == Active(f, y).value;
      assert rest[g - 1] == line[g - 1];
    }
    forall k | 0 <= k < |rest| ensures Genuine(f, rest[k]) && f.gen(rest[k]) == Some(k + 1) {
      assert rest[k] == line[k];
    }
  }

  lemma CrashedActive(f: Format, m: Fs, y: Fs, line: seq<Bytes>)
    requires m.Valid() && AllSynced(f, m) && Recorded(f, m, line) && Crashed(m, y)
    ensures forall u :: y.May(Main, f.active, u) ==> u == y.Now(Main, f.active)
    ensures m.May(Main, f.active, y.Now(Main, f.active)) && DataOf(m, y.Now(Main, f.active)) == Active(f, y)
    ensures y.Now(Main, f.active).Some? ==> Active(f, y).Some? && OnLine(f, line, Active(f, y).value)
  {
    assert y.Valid() by { CrashedIsValid(m, y); }
    assert f.Managed(Main, f.active);
    hide Crashed, AllSynced, Fs.Valid, IsLine, OnLine, Fs.May;
    var v := y.Now(Main, f.active);
    NowIsPossible(y, Main, f.active);
    CrashedEntry(f, m, y, Main, f.active, v);
    forall u | y.May(Main, f.active, u)
      ensures u == v
    {
      CrashedEntry(f, m, y, Main, f.active, u);
    }
    if v.Some? {
      var i := v.value;
      assert v == Some(i);
    }
  }

  lemma CrashedBackup(f: Format, m: Fs, y: Fs, line: seq<Bytes>, k: nat, i: Ino)
    requires f.Lawful() && m.Valid() && AllSynced(f, m) && Recorded(f, m, line) && Benign(f, m) && Crashed(m, y)
    requires 0 < k < MaxGeneration && y.May(Backups, f.autoName(k), Some(i))
    ensures i in y.inodes && k <= |line| && k <= GenerationOf(f, Active(f, y)) && y.inodes[i].data == line[k - 1]
  {
    assert f.Managed(Backups, f.autoName(k));
    hide Format.Lawful, Crashed, AllSynced, Fs.Valid, IsLine, OnLine, Fs.May;
    CrashedActive(f, m, y, line);
    CrashedEntry(f, m, y, Backups, f.autoName(k), Some(i));
  }

  /** After a benign crash the disk is recorded on what survives of the line, which ends at the active file. */
  lemma CrashRecorded(f: Format, m: Fs, y: Fs, line: seq<Bytes>)
    requires f.Lawful() && m.Valid() && AllSynced(f, m) && Recorded(f, m, line) && Benign(f, m) && Crashed(m, y)
    ensures var rest := Surviving(f, y, line);
      Recorded(f, y, rest) && Benign(f, y) && Active(f, y) == if rest == [] then None else Some(rest[|rest| - 1])
  {
    hide Format.Lawful, Crashed, AllSynced, Fs.Valid, IsLine, OnLine, Surviving, Fs.May, Benign;
    CrashedActive(f, m, y, line);
    forall k: nat, i | 0 < k < MaxGeneration && y.May(Backups, f.autoName(k), Some(i))
      ensures i in y.inodes && k <= |line| && k <= GenerationOf(f, Active(f, y)) && y.inodes[i].data == line[k - 1]
    {
      CrashedBackup(f, m, y, line, k, i);
    }
    Truncated(f, y, line);
  }

  // ---------- steps ----------

  /** An action of the store that neither restores nor crashes. */
  predicate Ordinary(a: Action) {
    a.Open? || a.Edit? || a.Drop? || a.Create? || a.Save?
  }

  function NextLine(a: Action, line: seq<Bytes>): seq<Bytes> {
    if (a.Create? || a.Save?) && Committed(a.st) then line + [a.sealed] else line
  }

  /** A save that passes its checks continues the line. */
  lemma SaveContinues(f: Format, w: World, line: seq<Bytes>, k: nat, sealed: Bytes)
    requires f.Lawful() && HistoryInv(f, w, line) && k in w.handles && w.handles[k].view.generation < MaxGeneration - 1
    requires SealedAt(f, sealed, w.handles[k].view.generation + 1) && SaveStarted(f, w.fs, w.handles[k].view, false)
    ensures w.handles[k].view.generation == |line|
    ensures Continues(f, line, sealed, SaveOp(f, w.fs, w.handles[k].view.generation, sealed).g)
  {
    SaveReplacesOrigin(f, w, k);
  }

  lemma CreateContinues(f: Format, w: World, line: seq<Bytes>, sealed: Bytes)
    requires HistoryInv(f, w, line) && SealedAt(f, sealed, 1) && SaveStarted(f, w.fs, Blank(f, 0), true)
    ensures line == [] && Continues(f, line, sealed, SaveOp(f, w.fs, 0, sealed).g) && Settled(f, w.fs)
  {
    forall v | w.fs.May(Main, f.active, v)
      ensures v == None
    {
      match v
      case None =>
      case Some(i) => assert false;
    }
  }

  /** The history invariant survives every ordinary step, and no save is refused over a backup name. */
  lemma OrdinaryStep(f: Format, w: World, a: Action, w2: World, line: seq<Bytes>)
    requires f.Lawful() && HistoryInv(f, w, line) && Does(f, w, a, w2) && Ordinary(a)
    ensures HistoryInv(f, w2, NextLine(a, line))
    ensures a.Save? ==> (a.st == Exists <==> a.misread)
  {
    StepKeepsInv(f, w, a, w2);
    if a.Save? {
      SaveHistory(f, w, a, w2, line);
    } else if a.Create? {
      CreateHistory(f, w, a, w2, line);
    }
  }

  lemma SaveHistory(f: Format, w: World, a: Action, w2: World, line: seq<Bytes>)
    requires f.Lawful() && HistoryInv(f, w, line) && Does(f, w, a, w2) && a.Save?
    ensures Recorded(f, a.z, NextLine(a, line)) && (a.st == Exists <==> a.misread)
    ensures Active(f, a.z) == var next := NextLine(a, line); if next == [] then None else Some(next[|next| - 1])
  {
    hide Format.Lawful, Inv, Recorded, Evolves;
    var h := w.handles[a.k].view;
    if SaveStarted(f, w.fs, h, false) {
      SaveContinues(f, w, line, a.k, a.sealed);
      SaveRecorded(f, SaveOp(f, w.fs, h.generation, a.sealed).g, w.fs, a.z, line, a.sealed);
      NameAdmitsCurrent(f, w, line);
      SameActive(f, w, SaveOp(f, w.fs, h.generation, a.sealed).g, a.z);
    }
  }

  lemma CreateHistory(f: Format, w: World, a: Action, w2: World, line: seq<Bytes>)
    requires f.Lawful() && HistoryInv(f, w, line) && Does(f, w, a, w2) && a.Create?
    ensures Recorded(f, a.z, NextLine(a, line))
    ensures Active(f, a.z) == var next := NextLine(a, line); if next == [] then None else Some(next[|next| - 1])
  {
    hide Format.Lawful, Inv, Recorded, Evolves;
    if SaveStarted(f, w.fs, Blank(f, a.updated), true) {
      CreateContinues(f, w, line, a.sealed);
      SaveRecorded(f, SaveOp(f, w.fs, 0, a.sealed).g, w.fs, a.z, line, a.sealed);
      SameActive(f, w, SaveOp(f, w.fs, 0, a.sealed).g, a.z);
    }
  }

  lemma SameActive(f: Format, w: World, g: Grant, z: Fs)
    requires Inv(f, w) && Evolves(f, g, w.fs, z)
    ensures z.Now(Main, f.active) == w.fs.Now(Main, f.active) ==> Active(f, z) == Active(f, w.fs)
  {
    NowIsPossible(w.fs, Main, f.active);
  }

  // ---------- whole runs ----------

  /** The line at the end of a run of ordinary steps. */
  ghost function LineAfter(as_: seq<Action>, n: nat, line: seq<Bytes>): seq<Bytes>
    requires n <= |as_|
  {
    if n == 0 then line else NextLine(as_[n - 1], LineAfter(as_, n - 1, line))
  }

  /**
   In any run without restore or crash, whatever calls fail, every automatic backup holds the
   snapshot of its generation, the active file is the last one, and no save is refused over a name.
   */
  lemma {:induction false} OrdinaryRuns(f: Format, ws: seq<World>, as_: seq<Action>, n: nat, line: seq<Bytes>)
    requires f.Lawful() && IsRun(f, ws, as_) && HistoryInv(f, ws[0], line) && n < |ws|
    requires forall i :: 0 <= i < n ==> Ordinary(as_[i])
    ensures HistoryInv(f, ws[n], LineAfter(as_, n, line))
    ensures forall i :: 0 <= i < n && as_[i].Save? ==> (as_[i].st == Exists <==> as_[i].misread)
    decreases n
  {
    hide HistoryInv, Does;
    if n > 0 {
      OrdinaryRuns(f, ws, as_, n - 1, line);
      OrdinaryStep(f, ws[n - 1], as_[n - 1], ws[n], LineAfter(as_, n - 1, line));
    }
  }

  /** A save, finished or cut short by a crash, begins with the active file settled. */
  ghost predicate StartsClean(f: Format, w: World, a: Action) {
    a.Save? || a.CrashInSave? ==> Settled(f, w.fs)
  }

  predicate NoRestore(a: Action) {
    !a.Restore? && !a.CrashInRestore?
  }

  lemma CleanOrdinaryBenign(f: Format, w: World, a: Action, w2: World, line: seq<Bytes>)
    requires f.Lawful() && HistoryInv(f, w, line) && Benign(f, w.fs) && Does(f, w, a, w2) && Ordinary(a) && StartsClean(f, w, a)
    ensures Benign(f, w2.fs)
  {
    hide Format.Lawful, Recorded, Evolves, Benign;
    if a.Save? && SaveStarted(f, w.fs, w.handles[a.k].view, false) {
      SaveContinues(f, w, line, a.k, a.sealed);
      BenignFromClean(f, SaveOp(f, w.fs, w.handles[a.k].view.generation, a.sealed).g, w.fs, a.z, line, a.sealed);
    } else if a.Create? && SaveStarted(f, w.fs, Blank(f, a.updated), true) {
      CreateContinues(f, w, line, a.sealed);
      BenignFromClean(f, SaveOp(f, w.fs, 0, a.sealed).g, w.fs, a.z, line, a.sealed);
    }
  }

  /** A crash in a save or creation that started clean: what survives of the extended line is the new history. */
  lemma CleanCrash(f: Format, w: World, g: Grant, m: Fs, y: Fs, line: seq<Bytes>, sealed: Bytes)
    requires f.Lawful() && HistoryInv(f, w, line) && Settled(f, w.fs)
    requires Continues(f, line, sealed, g) && Evolves(f, g, w.fs, m) && Crashed(m, y)
    ensures var rest := Surviving(f, y, line + [sealed]);
      Recorded(f, y, rest) && Benign(f, y) && Active(f, y) == if rest == [] then None else Some(rest[|rest| - 1])
  {
    hide Format.Lawful, Benign, Crashed, Surviving;
    SaveRecorded(f, g, w.fs, m, line, sealed);
    BenignFromClean(f, g, w.fs, m, line, sealed);
    OperationSound(f, g, w.fs, m);
    CrashRecorded(f, m, y, line + [sealed]);
  }

  /** A crash in a run: there is again a line that the disk follows. */
  lemma CleanCrashStep(f: Format, w: World, a: Action, w2: World, line: seq<Bytes>) returns (next: seq<Bytes>)
    requires f.Lawful() && HistoryInv(f, w, line) && Benign(f, w.fs) && Does(f, w, a, w2) && IsCrash(a) && NoRestore(a) && StartsClean(f, w, a)
    ensures Recorded(f, w2.fs, next) && Benign(f, w2.fs) && Active(f, w2.fs) == if next == [] then None else Some(next[|next| - 1])
  {
    hide Format.Lawful, Inv, Recorded, Evolves, Benign, Crashed, Surviving, SealedAt, SaveStarted, Settled, Active, Progress;
    match a
    case CrashIdle(y) =>
      next := Surviving(f, y, line);
      IdleCrash(f, w, y, line);
    case CrashInCreate(sealed, m, y) =>
      CreateContinues(f, w, line, sealed);
      next := Surviving(f, y, line + [sealed]);
      CleanCrash(f, w, SaveOp(f, w.fs, 0, sealed).g, m, y, line, sealed);
    case CrashInSave(k, sealed, m, y) =>
      SaveContinues(f, w, line, k, sealed);
      next := Surviving(f, y, line + [sealed]);
      CleanCrash(f, w, SaveOp(f, w.fs, w.handles[k].view.generation, sealed).g, m, y, line, sealed);
    case _ =>
      next := line;
  }

  /** One step of a run with crashes. */
  lemma CleanStep(f: Format, w: World, a: Action, w2: World, line: seq<Bytes>) returns (next: seq<Bytes>)
    requires f.Lawful() && HistoryInv(f, w, line) && Benign(f, w.fs) && Does(f, w, a, w2) && NoRestore(a) && StartsClean(f, w, a)
    ensures HistoryInv(f, w2, next) && Benign(f, w2.fs)
    ensures a.Save? ==> (a.st == Exists <==> a.misread)
  {
    hide Format.Lawful, Inv, Recorded, Benign, Does, StartsClean, Active;
    StepKeepsInv(f, w, a, w2);
    if IsCrash(a) {
      next := CleanCrashStep(f, w, a, w2, line);
    } else {
      next := NextLine(a, line);
      OrdinaryStep(f, w, a, w2, line);
      CleanOrdinaryBenign(f, w, a, w2, line);
    }
  }

  lemma IdleCrash(f: Format, w: World, y: Fs, line: seq<Bytes>)
    requires f.Lawful() && HistoryInv(f, w, line) && Benign(f, w.fs) && Crashed(w.fs, y)
    ensures var rest := Surviving(f, y, line);
      Recorded(f, y, rest) && Benign(f, y) && Active(f, y) == if rest == [] then None else Some(rest[|rest| - 1])
  {
    hide Format.Lawful, Recorded, Benign, Crashed, Surviving;
    CrashRecorded(f, w.fs, y, line);
  }

  /**
   In any run without restore, with crashes anywhere: if every save starts with the active file
   settled, the history invariant holds for some line throughout, and no save is refused over a name.
   */
  lemma {:induction false} CleanRuns(f: Format, ws: seq<World>, as_: seq<Action>, n: nat, line: seq<Bytes>) returns (last: seq<Bytes>)
    requires f.Lawful() && IsRun(f, ws, as_) && HistoryInv(f, ws[0], line) && Benign(f, ws[0].fs) && n < |ws|
    requires forall i :: 0 <= i < n ==> NoRestore(as_[i]) && StartsClean(f, ws[i], as_[i])
    ensures HistoryInv(f, ws[n], last) && Benign(f, ws[n].fs)
    ensures forall i :: 0 <= i < n && as_[i].Save? ==> (as_[i].st == Exists <==> as_[i].misread)
    decreases n
  {
    hide HistoryInv, Does, Benign, StartsClean;
    if n == 0 {
      last := line;
    } else {
      var middle := CleanRuns(f, ws, as_, n - 1, line);
      last := CleanStep(f, ws[n - 1], as_[n - 1], ws[n], middle);
    }
  }

  /** A commit that reports success, rather than a durability warning. */
  predicate Acknowledged(a: Action) {
    (a.Create? || a.Save?) && Committed(a.st) ==> a.st == OK
  }

  lemma AcknowledgedStep(f: Format, w: World, a: Action, w2: World)
    requires Inv(f, w) && Durable(w.fs, Main, f.active) && Does(f, w, a, w2) && NoRestore(a) && Acknowledged(a)
    ensures Durable(w2.fs, Main, f.active)
  {
    hide Evolves, Chain, HandleSound, AllSynced, ActiveSound;
    match a
    case CrashIdle(y) => CrashedIsValid(w.fs, y);
    case CrashInCreate(_, m, y) => PermittedCrash(f, SaveOp(f, w.fs, 0, a.sealed).g, w.fs, m, y);
    case CrashInSave(k, _, m, y) => PermittedCrash(f, SaveOp(f, w.fs, w.handles[k].view.generation, a.sealed).g, w.fs, m, y);
    case _ =>
  }

  /** After a crash, every entry is durable. */
  lemma PermittedCrash(f: Format, g: Grant, a: Fs, m: Fs, y: Fs)
    requires Evolves(f, g, a, m) && Crashed(m, y)
    ensures y.Valid() && forall d: DirId, n: Name :: Durable(y, d, n)
  {
    CrashedIsValid(m, y);
  }

  /**
   In any run without restore, with crashes anywhere, in which every commit that returned reported success: the
   history invariant holds for some line throughout, and no save is refused over a name.
   */
  lemma {:induction false} AcknowledgedRuns(f: Format, ws: seq<World>, as_: seq<Action>, n: nat, line: seq<Bytes>) returns (last: seq<Bytes>)
    requires f.Lawful() && IsRun(f, ws, as_) && HistoryInv(f, ws[0], line) && Durable(ws[0].fs, Main, f.active) && n < |ws|
    requires forall i :: 0 <= i < n ==> NoRestore(as_[i]) && Acknowledged(as_[i])
    ensures HistoryInv(f, ws[n], last) && Durable(ws[n].fs, Main, f.active)
    ensures forall i :: 0 <= i < n && as_[i].Save? ==> (as_[i].st == Exists <==> as_[i].misread)
    decreases n
  {
    hide Does, Benign, Durable, Inv, Recorded, Settled;
    if n == 0 {
      last := line;
    } else {
      var middle := AcknowledgedRuns(f, ws, as_, n - 1, line);
      DurableIsSettled(f, ws[n - 1].fs);
      SettledIsBenign(f, ws[n - 1], middle);
      last := CleanStep(f, ws[n - 1], as_[n - 1], ws[n], middle);
      AcknowledgedStep(f, ws[n - 1], as_[n - 1], ws[n]);
    }
  }

  /** A disk with nothing on it. */
  const EmptyDisk: Fs := Fs(map[], 0, Dir(map[], map[], {}), Dir(map[], map[], {}))

  /** Every history can start from an empty disk. */
  lemma EmptyStarts(f: Format)
    ensures HistoryInv(f, World(None, EmptyDisk, map[], []), []) && Durable(EmptyDisk, Main, f.active)
  {
  }

  // ---------- exactly when a crash keeps the history ----------

  /** Some line records the disk and ends at the active file. */
  ghost predicate HasHistory(f: Format, y: Fs) {
    exists line :: Recorded(f, y, line) && Active(f, y) == if line == [] then None else Some(line[|line| - 1])
  }

  function Replaced(m: map<Name, Ino>, n: Name, v: Option<Ino>): map<Name, Ino> {
    if v.Some? then m[n := v.value] else m - {n}
  }

  /** The crash that keeps one given entry in each directory and otherwise only what was synchronised. */
  ghost function ChosenCrash(m: Fs, n: Name, v: Option<Ino>, b: Name, j: Ino): Fs {
    var main := Replaced(m.main.stable, n, v);
    var backups := m.backups.stable[b := j];
    Fs(m.inodes, m.next, Dir(main, main, {}), Dir(backups, backups, {}))
  }

  lemma ChosenCrashHappens(m: Fs, n: Name, v: Option<Ino>, b: Name, j: Ino)
    requires m.May(Main, n, v) && m.May(Backups, b, Some(j))
    ensures var y := ChosenCrash(m, n, v, b, j);
      Crashed(m, y) && y.Now(Main, n) == v && y.Now(Backups, b) == Some(j) && y.May(Main, n, v) && y.May(Backups, b, Some(j))
  {
    var y := ChosenCrash(m, n, v, b, j);
    forall d: DirId, e: Name
      ensures m.May(d, e, y.Now(d, e))
    {
      assert m.May(d, e, At(m.In(d).stable, e));
    }
    forall d: DirId
      ensures y.In(d).stable == y.In(d).now && y.In(d).pending == {}
    {
    }
  }

  /** From a recorded state, every crash leaves a history if and only if the state is benign. */
  lemma BenignExactly(f: Format, m: Fs, line: seq<Bytes>)
    requires f.Lawful() && m.Valid() && AllSynced(f, m) && Recorded(f, m, line)
    ensures Benign(f, m) <==> forall y :: Crashed(m, y) ==> HasHistory(f, y)
  {
    hide Format.Lawful, AllSynced, Fs.Valid;
    if Benign(f, m) {
      forall y | Crashed(m, y)
        ensures HasHistory(f, y)
      {
        CrashRecorded(f, m, y, line);
      }
    } else {
      var v, g: nat, j :| m.May(Main, f.active, v) && 0 < g < MaxGeneration && m.May(Backups, f.autoName(g), Some(j))
                          && GenerationOf(f, DataOf(m, v)) < g;
      var y := ChosenCrash(m, f.active, v, f.autoName(g), j);
      ChosenCrashHappens(m, f.active, v, f.autoName(g), j);
      NoHistory(f, y, g, j);
      assert Crashed(m, y) && !HasHistory(f, y);
    }
  }

  lemma NoHistory(f: Format, y: Fs, g: nat, j: Ino)
    requires 0 < g < MaxGeneration && y.May(Backups, f.autoName(g), Some(j)) && GenerationOf(f, Active(f, y)) < g
    ensures !HasHistory(f, y)
  {
    hide Fs.May;
    forall line | Recorded(f, y, line) && line != []
      ensures f.gen(line[|line| - 1]) == Some(|line|) && g <= |line|
    {
    }
  }

  /**
   Where the condition fails: a save that starts while a crash could still undo the previous commit,
   and gets as far as its backup, is in a state that is not benign.
   */
  lemma UncleanBackupNotBenign(f: Format, w: World, line: seq<Bytes>, m: Fs, v: Option<Ino>)
    requires HistoryInv(f, w, line) && line != [] && m.Valid()
    requires w.fs.May(Main, f.active, v) && GenerationOf(f, DataOf(w.fs, v)) < |line|
    requires OnlyEntry(f, w.fs, m, Backups, f.autoName(|line|)) && Secured(m, f.autoName(|line|), line[|line| - 1])
    ensures !Benign(f, m)
  {
    var n := f.autoName(|line|);
    NowIsPossible(m, Backups, n);
    assert m.In(Main) == w.fs.In(Main);
    assert m.May(Main, f.active, v);
    if v.Some? {
      var i := v.value;
      assert v == Some(i) && w.fs.May(Main, f.active, Some(i));
      assert i in w.fs.inodes;
    }
    assert DataOf(m, v) == DataOf(w.fs, v);
  }
}

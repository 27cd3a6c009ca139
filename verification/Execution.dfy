/**
 The methods that save and restore, as steps of a run: what a call leaves is an action, a step if and only if the
 invariant holds after it, and a crash in any state the disk was in during the call is always a step.
 */
module Execution {
  import opened Prelude
  import opened FileSystem
  import opened Protocol
  import opened Disks
  import opened Publish
  import opened Store
  import opened Runs

  /** `a` is a step from `w` that keeps the invariant and leaves the disk as `y`. */
  ghost predicate IsStep(f: Format, w: World, a: Action, y: Fs) {
    exists w2 :: Does(f, w, a, w2) && Inv(f, w2) && w2.fs == y
  }

  /** Every crash in a state of the disk since position `from` is a step from `w`. */
  ghost predicate CrashesAreSteps(f: Format, w: World, trace: seq<Fs>, from: nat, crash: (Fs, Fs) -> Action) {
    forall j, y :: from <= j < |trace| && Crashed(trace[j], y) ==> IsStep(f, w, crash(trace[j], y), y)
  }

  lemma SaveCrash(f: Format, w: World, k: nat, sealed: Bytes, m: Fs, y: Fs)
    requires f.Lawful() && Inv(f, w) && k in w.handles && w.handles[k].view.generation < MaxGeneration - 1
    requires SealedAt(f, sealed, w.handles[k].view.generation + 1) && SaveStarted(f, w.fs, w.handles[k].view, false)
    requires SaveOp(f, w.fs, w.handles[k].view.generation, sealed).Permits(m) && Crashed(m, y)
    ensures IsStep(f, w, CrashInSave(k, sealed, m, y), y)
  {
    hide Inv, Format.Lawful, Evolves, Crashed, SealedAt;
    var w2 := Rebooted(f, w, Progress(f, w, m, Saved(Active(f, w.fs).value, sealed)), m, y);
    StepKeepsInv(f, w, CrashInSave(k, sealed, m, y), w2);
  }

  lemma CreateCrash(f: Format, w: World, sealed: Bytes, m: Fs, y: Fs)
    requires f.Lawful() && Inv(f, w) && SealedAt(f, sealed, 1) && SaveStarted(f, w.fs, Blank(f, 0), true)
    requires SaveOp(f, w.fs, 0, sealed).Permits(m) && Crashed(m, y)
    ensures IsStep(f, w, CrashInCreate(sealed, m, y), y)
  {
    hide Inv, Format.Lawful, Evolves, Crashed, SealedAt;
    var w2 := Rebooted(f, w, Progress(f, w, m, Created(sealed)), m, y);
    StepKeepsInv(f, w, CrashInCreate(sealed, m, y), w2);
  }

  lemma RestoreCrash(f: Format, w: World, image: Bytes, expected: Bytes, preName: Name, m: Fs, y: Fs)
    requires f.Lawful() && Inv(f, w) && Genuine(f, image) && f.opens(image) && f.Managed(Backups, preName)
    requires RestoreStarted(f, w.fs, image, expected) && RestoreOp(f, w.fs, image, preName).Permits(m) && Crashed(m, y)
    ensures IsStep(f, w, CrashInRestore(image, expected, preName, m, y), y)
  {
    hide Inv, Format.Lawful, Evolves, Crashed, Genuine;
    var w2 := Rebooted(f, w, Progress(f, w, m, Restored(Active(f, w.fs), image)), m, y);
    StepKeepsInv(f, w, CrashInRestore(image, expected, preName, m, y), w2);
  }

  /** What saving with handle `k` leaves. */
  function SaveResult(f: Format, w: World, k: nat, sealed: Bytes, z: Fs, view: View, st: Status): World
    requires k in w.handles
  {
    World(w.first, z, w.handles[k := Session(view, OriginAfter(f, w.handles[k].origin, sealed, view))],
          if Committed(st) && Active(f, w.fs).Some? then w.log + [Saved(Active(f, w.fs).value, sealed)] else w.log)
  }

  lemma SaveReturns(f: Format, w: World, k: nat, sealed: Bytes, z: Fs, view: View, st: Status, misread: bool)
    requires f.Lawful() && Inv(f, w) && k in w.handles && w.handles[k].view.generation < MaxGeneration - 1
    requires SealedAt(f, sealed, w.handles[k].view.generation + 1)
    requires SaveOp(f, w.fs, w.handles[k].view.generation, sealed).Permits(z)
    requires SaveOutcome(f, w.fs, w.handles[k].view, sealed, false, z, view, st, misread)
    ensures var a, w2 := Save(k, sealed, z, view, st, misread), SaveResult(f, w, k, sealed, z, view, st);
      Acts(f, w, a, w2) && (Inv(f, w2) <==> Considerate(f, w, a))
  {
    hide Inv, Format.Lawful, Evolves, SealedAt, SaveOutcome, Considerate;
    StepExactly(f, w, Save(k, sealed, z, view, st, misread), SaveResult(f, w, k, sealed, z, view, st));
  }

  /** Saving with handle `k` of the run. */
  method SaveInRun(f: Format, disk: Disk, h: Handle, sealed: Bytes, clock: int, retention: nat,
                   randomBackup: seq<nat>, randomActive: seq<nat>, ghost w: World, ghost k: nat)
    returns (st: Status, ghost misread: bool, ghost removed: set<nat>, ghost complete: bool, ghost w2: World)
    requires f.Lawful() && Inv(f, w) && disk.fs == w.fs && k in w.handles && h.Look() == w.handles[k].view
    requires h.generation < MaxGeneration - 1 && SealedAt(f, sealed, h.generation + 1) && 0 < retention
    requires |randomBackup| >= TempAttempts && |randomActive| >= TempAttempts
    modifies disk, h
    ensures Acts(f, w, Save(k, sealed, disk.fs, h.Look(), st, misread), w2)
    ensures Inv(f, w2) <==> Considerate(f, w, Save(k, sealed, disk.fs, h.Look(), st, misread))
    ensures w2.fs == disk.fs && w2.handles[k].view == h.Look() && (Committed(st) ==> h.updated == clock)
    ensures BackupsAfter(f, w.fs, old(h.generation), disk.fs, Committed(st), retention, removed, complete)
    ensures old(disk.trace) <= disk.trace
    ensures CrashesAreSteps(f, w, disk.trace, |old(disk.trace)|, (m, y) => CrashInSave(k, sealed, m, y))
  {
    InvParts(f, w);
    hide Inv, Acts, Considerate, IsStep, Fs.Valid, AllSynced, Format.Lawful, Evolves, SaveOutcome, Crashed, SaveStarted, BackupsAfter;
    ghost var seen;
    st, misread, removed, complete, seen := SaveLocked(f, disk, h, Ok(sealed), clock, retention, false, randomBackup, randomActive);
    w2 := SaveResult(f, w, k, sealed, disk.fs, h.Look(), st);
    SaveReturns(f, w, k, sealed, disk.fs, h.Look(), st, misread);
    forall j, y | |old(disk.trace)| <= j < |disk.trace| && Crashed(disk.trace[j], y)
      ensures IsStep(f, w, CrashInSave(k, sealed, disk.trace[j], y), y)
    {
      SaveCrash(f, w, k, sealed, disk.trace[j], y);
    }
  }

  /** What creating the vault with a new handle `k` leaves. */
  function CreateResult(f: Format, w: World, k: nat, sealed: Bytes, z: Fs, view: View, st: Status): World {
    if Committed(st) then World(w.first, z, w.handles[k := Session(view, OriginAfter(f, None, sealed, view))], w.log + [Created(sealed)])
    else w.(fs := z)
  }

  lemma CreateReturns(f: Format, w: World, k: nat, sealed: Bytes, updated: int, z: Fs, view: View, st: Status, misread: bool)
    requires f.Lawful() && Inv(f, w) && k !in w.handles && SealedAt(f, sealed, 1) && SaveOp(f, w.fs, 0, sealed).Permits(z)
    requires SaveOutcome(f, w.fs, Blank(f, updated), sealed, true, z, view, st, misread)
    ensures var w2 := CreateResult(f, w, k, sealed, z, view, st); Does(f, w, Create(k, sealed, updated, z, view, st), w2) && Inv(f, w2)
  {
    hide Inv, Format.Lawful, Evolves, SealedAt, Published, Secured, Durable, Considerate;
    NothingStale(f, w, Create(k, sealed, updated, z, view, st), CreateResult(f, w, k, sealed, z, view, st));
    StepKeepsInv(f, w, Create(k, sealed, updated, z, view, st), CreateResult(f, w, k, sealed, z, view, st));
  }

  /** Creating the vault, with a new handle `k` of the run. */
  method CreateInRun(f: Format, disk: Disk, h: Handle, sealed: Bytes, clock: int, retention: nat,
                     randomBackup: seq<nat>, randomActive: seq<nat>, ghost w: World, ghost k: nat)
    returns (st: Status, ghost w2: World)
    requires f.Lawful() && Inv(f, w) && disk.fs == w.fs && k !in w.handles && h.Look() == Blank(f, h.updated)
    requires SealedAt(f, sealed, 1) && 0 < retention
    requires |randomBackup| >= TempAttempts && |randomActive| >= TempAttempts
    modifies disk, h
    ensures Does(f, w, Create(k, sealed, old(h.updated), disk.fs, h.Look(), st), w2) && Inv(f, w2)
    ensures w2.fs == disk.fs && (Committed(st) ==> k in w2.handles && w2.handles[k].view == h.Look())
    ensures old(disk.trace) <= disk.trace
    ensures CrashesAreSteps(f, w, disk.trace, |old(disk.trace)|, (m, y) => CrashInCreate(sealed, m, y))
  {
    InvParts(f, w);
    hide Inv, Does, IsStep, Fs.Valid, AllSynced, Format.Lawful, Evolves, SaveOutcome, Crashed;
    ghost var misread, removed, complete, seen;
    st, misread, removed, complete, seen := SaveLocked(f, disk, h, Ok(sealed), clock, retention, true, randomBackup, randomActive);
    w2 := CreateResult(f, w, k, sealed, disk.fs, h.Look(), st);
    CreateReturns(f, w, k, sealed, old(h.updated), disk.fs, h.Look(), st, misread);
    forall j, y | |old(disk.trace)| <= j < |disk.trace| && Crashed(disk.trace[j], y)
      ensures IsStep(f, w, CrashInCreate(sealed, disk.trace[j], y), y)
    {
      CreateCrash(f, w, sealed, disk.trace[j], y);
    }
  }

  lemma RestoreReturns(f: Format, w: World, image: Bytes, expected: Bytes, preName: Name, z: Fs, st: Status) returns (w2: World)
    requires f.Lawful() && Inv(f, w) && Genuine(f, image) && f.opens(image) && f.Managed(Backups, preName)
    requires RestoreOp(f, w.fs, image, preName).Permits(z) && RestoreOutcome(f, w.fs, image, expected, preName, z, st)
    ensures Acts(f, w, Runs.Restore(image, expected, preName, z, st), w2) && w2.fs == z && w2.handles == w.handles
    ensures Inv(f, w2) <==> Considerate(f, w, Runs.Restore(image, expected, preName, z, st))
  {
    hide Inv, Format.Lawful, Evolves, RestoreOutcome, Genuine, Considerate;
    w2 := w.(fs := z, log := if Committed(st) then w.log + [Restored(Active(f, w.fs), image)] else w.log);
    StepExactly(f, w, Runs.Restore(image, expected, preName, z, st), w2);
  }

  /** Restoring an image that was opened. */
  method RestoreInRun(f: Format, disk: Disk, image: Bytes, expected: Bytes, preName: Name,
                      randomBackup: seq<nat>, randomActive: seq<nat>, ghost w: World)
    returns (st: Status, ghost w2: World)
    requires f.Lawful() && Inv(f, w) && disk.fs == w.fs && Genuine(f, image) && f.opens(image) && f.Managed(Backups, preName)
    requires |randomBackup| >= TempAttempts && |randomActive| >= TempAttempts
    modifies disk
    ensures Acts(f, w, Runs.Restore(image, expected, preName, disk.fs, st), w2) && w2.fs == disk.fs
    ensures Inv(f, w2) <==> Considerate(f, w, Runs.Restore(image, expected, preName, disk.fs, st))
    ensures old(disk.trace) <= disk.trace
    ensures CrashesAreSteps(f, w, disk.trace, |old(disk.trace)|, (m, y) => CrashInRestore(image, expected, preName, m, y))
  {
    InvParts(f, w);
    hide Inv, Acts, Considerate, IsStep, Fs.Valid, AllSynced, Format.Lawful, Evolves, RestoreOutcome, RestoreStarted, Crashed;
    st := Store.Restore(f, disk, image, expected, preName, randomBackup, randomActive);
    w2 := RestoreReturns(f, w, image, expected, preName, disk.fs, st);
    forall j, y | |old(disk.trace)| <= j < |disk.trace| && Crashed(disk.trace[j], y)
      ensures IsStep(f, w, CrashInRestore(image, expected, preName, disk.trace[j], y), y)
    {
      RestoreCrash(f, w, image, expected, preName, disk.trace[j], y);
    }
  }
}

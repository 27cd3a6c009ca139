/** Two more runs, call by call from an empty disk: a save refused over its own backup, and a handle that a restore revives. */
module Witnesses {
  import opened Prelude
  import opened FileSystem
  import opened Protocol
  import opened Disks
  import opened Publish
  import opened Store
  import opened Runs
  import opened History
  import opened Orphans
  import opened Execution

  // ---------- a read error that passes for a foreign backup ----------

  lemma WorkingName(f: Format, w: World, b: Bytes, g: nat)
    requires f.Lawful() && Working(f, w, b, g) && 0 < g < MaxGeneration - 1
    ensures f.Managed(Backups, f.autoName(g)) && IsCurrent(f, w.fs, w.handles[0].view) && w.fs.Valid() && AllSynced(f, w.fs)
  {
    InvParts(f, w);
  }

  /** The save that makes its backup and then finds the directory replaced: nothing else changes. */
  lemma FailedSaveHappens(f: Format, w: World, b: Bytes, g: nat, sealed: Bytes)
    requires f.Lawful() && Working(f, w, b, g) && 0 < g < MaxGeneration - 1 && SealedAt(f, sealed, g + 1)
    requires NameAdmits(w.fs, f.autoName(g), b)
    ensures var w2 := w.(fs := BackedUp(f, w.fs, f.autoName(g), b));
      && Does(f, w, Save(0, sealed, w2.fs, w.handles[0].view, Locked, false), w2)
      && Working(f, w2, b, g) && w2.fs.Content(Backups, f.autoName(g)) == Some(b)
  {
    var n := f.autoName(g);
    var z := BackedUp(f, w.fs, n, b);
    WorkingName(f, w, b, g);
    OriginKept(f, w.fs, w.handles[0], sealed);
    hide Evolves, Inv, BackedUp, NameAdmits, Format.Lawful, AllSynced, SealedAt, HandleSound;
    var op := SaveOp(f, w.fs, g, sealed);
    BackedUpIsReached(f, op.g, w.fs, n, b);
    EvolvesValid(f, op.g, w.fs, z);
    BackupKeepsMain(f, w.fs, z, n);
    SecuredContent(f, z, n, b);
    SameActive(f, w, op.g, z);
    var a, w2 := Save(0, sealed, z, w.handles[0].view, Locked, false), w.(fs := z);
    assert w2.handles == w.handles[0 := w.handles[0]];
    assert Does(f, w, a, w2);
    StepKeepsInv(f, w, a, w2);
  }

  lemma SecuredContent(f: Format, z: Fs, n: Name, b: Bytes)
    requires z.Valid() && Secured(z, n, b)
    ensures z.Content(Backups, n) == Some(b)
  {
    NowIsPossible(z, Backups, n);
  }

  /** The save that then misreads the very backup it needs. */
  lemma MisreadHappens(f: Format, w: World, b: Bytes, g: nat, sealed: Bytes)
    requires f.Lawful() && Working(f, w, b, g) && 0 < g < MaxGeneration - 1 && SealedAt(f, sealed, g + 1)
    requires w.fs.Content(Backups, f.autoName(g)) == Some(b)
    ensures Does(f, w, Save(0, sealed, w.fs, w.handles[0].view, Exists, true), w)
  {
    WorkingName(f, w, b, g);
    OriginKept(f, w.fs, w.handles[0], sealed);
    hide Evolves, Inv, Format.Lawful, AllSynced, SealedAt, HandleSound, Fs.Valid;
    EvolvesInitially(f, SaveOp(f, w.fs, g, sealed).g, w.fs);
    assert w.handles == w.handles[0 := w.handles[0]];
  }

  /**
   From an empty disk: create; save, and fail once the backup is made; save again, and let only the read behind the last
   byte of that backup fail: the save is refused over a name that holds exactly the right bytes.
   */
  ghost predicate Misreads(f: Format, ws: seq<World>, as_: seq<Action>, s1: Bytes) {
    && IsRun(f, ws, as_) && |as_| == 3 && ws[0] == NewWorld
    && as_[0].Create? && as_[0].st == OK && as_[1].Save? && as_[1].st == Locked
    && as_[2].Save? && as_[2].st == Exists && as_[2].misread
    && Active(f, ws[2].fs) == Some(s1) && NameAdmits(ws[2].fs, f.autoName(1), s1)
  }

  lemma ThreeSteps(f: Format, ws: seq<World>, as_: seq<Action>)
    requires |ws| == 4 && |as_| == 3
    requires Does(f, ws[0], as_[0], ws[1]) && Does(f, ws[1], as_[1], ws[2]) && Does(f, ws[2], as_[2], ws[3])
    ensures IsRun(f, ws, as_)
  {
    hide Does;
  }

  /** A read error can pass for a foreign backup: there is such a run. */
  lemma MisreadRun(f: Format, s1: Bytes, s2: Bytes, t2: Bytes) returns (ws: seq<World>, as_: seq<Action>)
    requires f.Lawful() && SealedAt(f, s1, 1) && SealedAt(f, s2, 2) && SealedAt(f, t2, 2)
    ensures Misreads(f, ws, as_, s1)
  {
    hide Does, Inv, Format.Lawful, SealedAt, CreatedWorld, CreateOf, BackedUp, IsRun;
    WorkingCreate(f, s1);
    CreateOfIs(f, s1);
    var w1 := CreatedWorld(f, NewWorld, 0, s1, 0);
    FailedSaveHappens(f, w1, s1, 1, s2);
    var w2 := w1.(fs := BackedUp(f, w1.fs, f.autoName(1), s1));
    MisreadHappens(f, w2, s1, 1, t2);
    ws := [NewWorld, w1, w2, w2];
    as_ := [CreateOf(f, NewWorld, 0, s1, 0), Save(0, s2, w2.fs, w1.handles[0].view, Locked, false),
            Save(0, t2, w2.fs, w2.handles[0].view, Exists, true)];
    ThreeSteps(f, ws, as_);
  }

  // ---------- a handle that a restore revives ----------

  /** A handle that saved generation 2 over `s1` but could not read it back. */
  ghost predicate Unverified(f: Format, w: World, s1: Bytes, s2: Bytes) {
    && Inv(f, w) && Active(f, w.fs) == Some(s2) && 0 in w.handles
    && w.handles[0].view.generation == 2 && w.handles[0].view.source == f.hash(s1) && w.handles[0].origin == Some(s1)
    && w.fs.Content(Backups, f.autoName(1)) == Some(s1)
  }

  lemma WorkingIsConsiderate(f: Format, w: World, b: Bytes, g: nat, a: Action)
    requires Working(f, w, b, g)
    ensures Considerate(f, w, a)
  {
    hide Inv;
  }

  /** The world after the save. */
  lemma UnverifiedWorld(f: Format, w: World, s1: Bytes, s2: Bytes, z: Fs)
    requires f.Lawful() && Working(f, w, s1, 1) && SealedAt(f, s2, 2)
    ensures var view := w.handles[0].view.(generation := 2); var w2 := SaveResult(f, w, 0, s2, z, view, Durability);
      w2.fs == z && 0 in w2.handles && w2.handles[0] == Session(view, Some(s1))
  {
    hide Inv;
  }

  lemma UnverifiedOutcome(f: Format, a: Fs, h: View, sealed: Bytes, z: Fs)
    requires 0 < h.generation && IsCurrent(f, a, h)
    requires SaveEffect(f, a, f.autoName(h.generation), Active(f, a).value, sealed, true, z)
    ensures SaveOutcome(f, a, h, sealed, false, z, h.(generation := h.generation + 1), Durability, false)
    ensures Active(f, z) == Some(sealed) && z.Content(Backups, f.autoName(h.generation)) == Active(f, a)
  {
    hide Secured, Untouched, Durable;
  }

  /** What the save in which everything works but reading the new file back leaves. */
  lemma UnverifiedEffect(f: Format, w: World, s1: Bytes, s2: Bytes)
    requires f.Lawful() && Working(f, w, s1, 1) && NameAdmits(w.fs, f.autoName(1), s1)
    ensures var z, h := AfterSave(f, w.fs, f.autoName(1), s1, s2, true), w.handles[0].view;
      && SaveOp(f, w.fs, 1, s2).Permits(z) && SaveEffect(f, w.fs, f.autoName(1), s1, s2, true, z)
      && SaveOutcome(f, w.fs, h, s2, false, z, h.(generation := 2), Durability, false)
      && Active(f, z) == Some(s2) && z.Content(Backups, f.autoName(1)) == Some(s1)
  {
    hide Evolves, Inv, Format.Lawful, AllSynced, AfterSave, NameAdmits, Fs.Valid, SaveEffect, SaveOutcome, SealedAt, IsCurrent;
    WorkingName(f, w, s1, 1);
    var z := AfterSave(f, w.fs, f.autoName(1), s1, s2, true);
    SaveIsPermitted(f, SaveOp(f, w.fs, 1, s2).g, w.fs, f.autoName(1), s1, s2, true);
    SaveHasEffect(f, SaveOp(f, w.fs, 1, s2).g, w.fs, f.autoName(1), s1, s2, true);
    UnverifiedOutcome(f, w.fs, w.handles[0].view, s2, z);
  }

  lemma UnverifiedSaveHappens(f: Format, w: World, s1: Bytes, s2: Bytes) returns (a: Action, w2: World)
    requires f.Lawful() && Working(f, w, s1, 1) && SealedAt(f, s2, 2) && NameAdmits(w.fs, f.autoName(1), s1)
    ensures a.Save? && a.st == Durability && Does(f, w, a, w2) && Unverified(f, w2, s1, s2)
    ensures SaveEffect(f, w.fs, f.autoName(1), s1, s2, true, w2.fs)
  {
    hide Evolves, Inv, Acts, Format.Lawful, AfterSave, NameAdmits, SaveEffect, SaveOutcome, SaveResult, SealedAt, Considerate;
    UnverifiedEffect(f, w, s1, s2);
    var z, view := AfterSave(f, w.fs, f.autoName(1), s1, s2, true), w.handles[0].view.(generation := 2);
    a := Save(0, s2, z, view, Durability, false);
    w2 := SaveResult(f, w, 0, s2, z, view, Durability);
    SaveReturns(f, w, 0, s2, z, view, Durability, false);
    WorkingIsConsiderate(f, w, s1, 1, a);
    UnverifiedWorld(f, w, s1, s2, z);
  }

  lemma RestoreReached(f: Format, a: Fs, image: Bytes, current: Bytes, preName: Name, z: Fs)
    requires Active(f, a) == Some(current) && f.valid(current) && f.vaultOf(current) == f.vaultOf(image)
    requires a.Now(Backups, preName) == None && SaveEffect(f, a, preName, current, image, true, z)
    ensures RestoreOutcome(f, a, image, f.hash(image), preName, z, OK)
    ensures Active(f, z) == Some(image)
  {
    hide Untouched;
  }

  /** Restoring the file that the unverified save replaced, from its backup: the handle is current again. */
  lemma RevivalHappens(f: Format, w: World, s1: Bytes, s2: Bytes, preName: Name) returns (a: Action, w2: World)
    requires f.Lawful() && Unverified(f, w, s1, s2) && SealedAt(f, s1, 1) && SealedAt(f, s2, 2) && f.opens(s1)
    requires f.Managed(Backups, preName) && f.parseAuto(preName).None? && w.fs.Now(Backups, preName) == None
    requires w.fs.Now(Backups, f.autoName(2)) == None
    ensures a.Restore? && a.st == OK && a.image == s1 && Acts(f, w, a, w2) && !Inv(f, w2)
    ensures w2.handles == w.handles && Active(f, w2.fs) == Some(s1) && w2.fs.Valid() && AllSynced(f, w2.fs)
    ensures w2.fs.Now(Backups, f.autoName(2)) == None
  {
    TwoNames(f);
    InvParts(f, w);
    assert preName != f.autoName(2) by { assert f.parseAuto(f.autoName(2)) == Some(2); }
    var op := RestoreOp(f, w.fs, s1, preName);
    var z := AfterSave(f, w.fs, preName, s2, s1, true);
    assert Stale(f, w.handles[0]);
    hide Evolves, Inv, Acts, Format.Lawful, AfterSave, SaveEffect, RestoreOutcome, Fs.Valid, AllSynced, Stale;
    SaveIsPermitted(f, op.g, w.fs, preName, s2, s1, true);
    SaveHasEffect(f, op.g, w.fs, preName, s2, s1, true);
    OperationSoundly(f, op.g, w.fs, z);
    OtherNameFree(f, w.fs, preName, s2, s1, z, f.autoName(2));
    RestoreReached(f, w.fs, s1, s2, preName, z);
    a := Runs.Restore(s1, f.hash(s1), preName, z, OK);
    w2 := RestoreReturns(f, w, s1, f.hash(s1), preName, z, OK);
  }

  /** A save or restore that backs up under one name takes no other. */
  lemma OtherNameFree(f: Format, a: Fs, n: Name, b: Bytes, sealed: Bytes, z: Fs, m: Name)
    requires SaveEffect(f, a, n, b, sealed, true, z) && m != n && f.Managed(Backups, m) && a.Now(Backups, m) == None
    ensures z.Now(Backups, m) == None
  {
    assert Untouched(a, z, Backups, m);
  }

  lemma OperationSoundly(f: Format, g: Grant, a: Fs, z: Fs)
    requires a.Valid() && AllSynced(f, a) && Evolves(f, g, a, z)
    ensures z.Valid() && AllSynced(f, z)
  {
    EvolvesValid(f, g, a, z);
    EvolvesSynced(f, g, a, z);
  }

  /** The revived handle saves: generation 3 over generation 1, which is backed up as generation 2. */
  lemma RevivedSaveHappens(f: Format, w: World, s1: Bytes, s3: Bytes) returns (a: Action, w2: World)
    requires f.Lawful() && SealedAt(f, s1, 1) && SealedAt(f, s3, 3) && 0 in w.handles && w.handles[0].view.generation == 2
    requires w.handles[0].view.source == f.hash(s1) && Active(f, w.fs) == Some(s1) && w.fs.Valid() && AllSynced(f, w.fs)
    requires w.fs.Now(Backups, f.autoName(2)) == None
    ensures a.Save? && a.k == 0 && a.st == OK && a.sealed == s3 && Acts(f, w, a, w2)
    ensures Active(f, w2.fs) == Some(s3) && w2.fs.Content(Backups, f.autoName(2)) == Some(s1)
  {
    TwoNames(f);
    var n, h := f.autoName(2), w.handles[0].view;
    var z := AfterSave(f, w.fs, n, s1, s3, true);
    hide Evolves, Acts, Format.Lawful, AfterSave, Fs.Valid, AllSynced, SaveOutcome, SaveEffect;
    SaveIsPermitted(f, SaveOp(f, w.fs, 2, s3).g, w.fs, n, s1, s3, true);
    SaveHasEffect(f, SaveOp(f, w.fs, 2, s3).g, w.fs, n, s1, s3, true);
    EffectIsOutcome(f, w.fs, h, s3, true, z);
    UnverifiedOutcome(f, w.fs, h, s3, z);
    a := SaveOf(f, w, 0, s3, true);
    w2 := SavedWorld(f, w, 0, s3, true);
    SaveIsStep(f, w, 0, s3, a.z, a.view, a.st);
  }

  /** The worlds after the creation and after the save that could not be read back. */
  lemma UnverifiedReached(f: Format, s1: Bytes, s2: Bytes, preName: Name) returns (w1: World, a: Action, w2: World)
    requires f.Lawful() && SealedAt(f, s1, 1) && SealedAt(f, s2, 2) && f.Managed(Backups, preName) && f.parseAuto(preName).None?
    ensures Does(f, NewWorld, CreateOf(f, NewWorld, 0, s1, 0), w1)
    ensures a.Save? && a.st == Durability && Does(f, w1, a, w2) && Unverified(f, w2, s1, s2)
    ensures w2.fs.Now(Backups, preName) == None && w2.fs.Now(Backups, f.autoName(2)) == None
  {
    TwoNames(f);
    assert preName != f.autoName(1) by { assert f.parseAuto(f.autoName(1)) == Some(1); }
    hide Does, Inv, Format.Lawful, SealedAt, CreatedWorld, CreateOf, SaveEffect, Working, Unverified;
    WorkingCreate(f, s1);
    w1 := CreatedWorld(f, NewWorld, 0, s1, 0);
    assert forall n: Name :: w1.fs.Now(Backups, n) == None;
    a, w2 := UnverifiedSaveHappens(f, w1, s1, s2);
    OtherNameFree(f, w1.fs, f.autoName(1), s1, s2, w2.fs, preName);
    OtherNameFree(f, w1.fs, f.autoName(1), s1, s2, w2.fs, f.autoName(2));
  }

  lemma FourActs(f: Format, ws: seq<World>, as_: seq<Action>)
    requires |ws| == 5 && |as_| == 4
    requires Acts(f, ws[0], as_[0], ws[1]) && Acts(f, ws[1], as_[1], ws[2]) && Acts(f, ws[2], as_[2], ws[3]) && Acts(f, ws[3], as_[3], ws[4])
    ensures IsActRun(f, ws, as_)
  {
    hide Acts;
  }

  /**
   From an empty disk: create; save, with only the reading back failing; restore what was created, from its backup; and
   the handle saves again: a file of generation 3 replaces one of generation 1, and the backup named for generation 2
   holds generation 1.
   */
  ghost predicate Revives(f: Format, ws: seq<World>, as_: seq<Action>, s1: Bytes, s3: Bytes) {
    && IsActRun(f, ws, as_) && |as_| == 4 && ws[0] == NewWorld
    && as_[0].Create? && as_[0].st == OK && as_[1].Save? && as_[1].st == Durability
    && as_[2].Restore? && as_[2].st == OK && as_[2].image == s1 && ws[2].fs.Content(Backups, f.autoName(1)) == Some(s1)
    && Inv(f, ws[2]) && !Inv(f, ws[3]) && Active(f, ws[3].fs) == Some(s1) && f.gen(s1) == Some(1)
    && as_[3].Save? && as_[3].k == 0 && as_[3].st == OK && Active(f, ws[4].fs) == Some(s3) && f.gen(s3) == Some(3)
    && ws[4].fs.Content(Backups, f.autoName(2)) == Some(s1)
  }

  /** A restore can revive a handle: there is such a run. */
  lemma RevivedRun(f: Format, s1: Bytes, s2: Bytes, s3: Bytes, preName: Name) returns (ws: seq<World>, as_: seq<Action>)
    requires f.Lawful() && SealedAt(f, s1, 1) && SealedAt(f, s2, 2) && SealedAt(f, s3, 3) && f.opens(s1)
    requires f.Managed(Backups, preName) && f.parseAuto(preName).None?
    ensures Revives(f, ws, as_, s1, s3)
  {
    hide Acts, Considerate, Inv, Format.Lawful, Genuine, CreatedWorld, CreateOf, IsActRun;
    CreateOfIs(f, s1);
    var w1, a1, w2 := UnverifiedReached(f, s1, s2, preName);
    var a2, w3 := RevivalHappens(f, w2, s1, s2, preName);
    var a3, w4 := RevivedSaveHappens(f, w3, s1, s3);
    ws := [NewWorld, w1, w2, w3, w4];
    as_ := [CreateOf(f, NewWorld, 0, s1, 0), a1, a2, a3];
    FourActs(f, ws, as_);
  }
}

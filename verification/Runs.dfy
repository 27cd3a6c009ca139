/**
 Whole runs of the store on one vault: any number of handles, each save or restore holding the lock,
 and a crash possible at every state any operation passes through.
 */
module Runs {
  import opened Prelude
  import opened FileSystem
  import opened Protocol
  import opened Disks
  import opened Publish
  import opened Store

  /** What happened to the active file, in order. */
  datatype Event =
    | Created(new_: Bytes)
    | Saved(old_: Bytes, new_: Bytes)
    | Restored(was: Option<Bytes>, new_: Bytes)
    | Crash(was: Option<Bytes>, now: Option<Bytes>)
  {
    function Before(): Option<Bytes> {
      match this
      case Created(_) => None
      case Saved(o, _) => Some(o)
      case Restored(w, _) => w
      case Crash(w, _) => w
    }

    function After(): Option<Bytes> {
      match this
      case Crash(_, n) => n
      case _ => Some(new_)
    }
  }

  /** An open vault, and the bytes of the snapshot its source hash is of (none for an unverified creation). */
  datatype Session = Session(view: View, origin: Option<Bytes>)

  /** `first` is the active file at the start of the run; the log is of what has happened since. */
  datatype World = World(first: Option<Bytes>, fs: Fs, handles: map<nat, Session>, log: seq<Event>)

  datatype Action =
    | Open(k: nat, updated: int)
    | Edit(k: nat, updated: int)
    | Drop(k: nat)
    | Create(k: nat, sealed: Bytes, updated: int, z: Fs, view: View, st: Status)
    | Save(k: nat, sealed: Bytes, z: Fs, view: View, st: Status, misread: bool)
    | Restore(image: Bytes, expected: Bytes, preName: Name, z: Fs, st: Status)
    | CrashIdle(y: Fs)
    | CrashInCreate(sealed: Bytes, m: Fs, y: Fs)
    | CrashInSave(k: nat, sealed: Bytes, m: Fs, y: Fs)
    | CrashInRestore(image: Bytes, expected: Bytes, preName: Name, m: Fs, y: Fs)

  /** A snapshot of this vault that passes the strict format and whose body authenticates and carries a generation. */
  predicate Genuine(f: Format, b: Bytes) {
    f.valid(b) && f.vaultOf(b) == f.vault && f.gen(b).Some?
  }

  /** What encoding and encrypting the vault at generation `g` gives. */
  predicate SealedAt(f: Format, sealed: Bytes, g: nat) {
    Genuine(f, sealed) && f.gen(sealed) == Some(g)
  }

  /** The view `create_common` starts from. */
  function Blank(f: Format, updated: int): View {
    View(0, updated, f.zero, true)
  }

  /** The origin of a handle after a save of `sealed` left it as `view`. */
  function OriginAfter(f: Format, origin: Option<Bytes>, sealed: Bytes, view: View): Option<Bytes> {
    if view.source == f.hash(sealed) then Some(sealed) else origin
  }

  /** The log of a world whose active entry an operation is changing: the event counts once the entry has changed. */
  function Progress(f: Format, w: World, m: Fs, e: Event): seq<Event> {
    if m.Now(Main, f.active) == w.fs.Now(Main, f.active) then w.log else w.log + [e]
  }

  function Active(f: Format, fs: Fs): Option<Bytes> {
    fs.Content(Main, f.active)
  }

  /** The world after a crash: every handle is gone. */
  function Rebooted(f: Format, w: World, log: seq<Event>, m: Fs, y: Fs): World {
    World(w.first, y, map[], log + [Crash(Active(f, m), Active(f, y))])
  }

  /** A handle whose generation is that of the snapshot it was opened from. */
  predicate Fresh(f: Format, s: Session) {
    s.origin.Some? && f.gen(s.origin.value) == Some(s.view.generation)
  }

  /** A handle whose last commit was not verified: its generation is no longer that of the snapshot it holds the hash of. */
  predicate Stale(f: Format, s: Session) {
    s.origin.Some? && !Fresh(f, s)
  }

  /** No stale handle came from `b`. */
  ghost predicate NoStaleOrigin(f: Format, w: World, b: Bytes) {
    forall k :: k in w.handles && Stale(f, w.handles[k]) ==> w.handles[k].origin != Some(b)
  }

  /** What the action makes the active file, if it commits. */
  function CommittedFile(a: Action): Option<Bytes> {
    match a
    case Create(_, sealed, _, _, _, st) => if Committed(st) then Some(sealed) else None
    case Save(_, sealed, _, _, st, _) => if Committed(st) then Some(sealed) else None
    case Restore(image, _, _, _, st) => if Committed(st) then Some(image) else None
    case _ => None
  }

  /** The action does not bring back the very file that a stale handle came from. */
  ghost predicate Considerate(f: Format, w: World, a: Action) {
    CommittedFile(a).Some? ==> NoStaleOrigin(f, w, CommittedFile(a).value)
  }

  /** A step of a run: an action that brings back no stale handle's file. */
  ghost predicate Does(f: Format, w: World, a: Action, w2: World) {
    Acts(f, w, a, w2) && Considerate(f, w, a)
  }

  /** `w2` is what action `a` makes of `w`. */
  ghost predicate Acts(f: Format, w: World, a: Action, w2: World) {
    match a
    case Open(k, updated) =>
      && k !in w.handles && Active(f, w.fs).Some? && Genuine(f, Active(f, w.fs).value) && f.opens(Active(f, w.fs).value)
      && var b := Active(f, w.fs).value;
      w2 == w.(handles := w.handles[k := Session(View(f.gen(b).value, updated, f.hash(b), false), Some(b))])
    case Edit(k, updated) =>
      && k in w.handles
      && w2 == w.(handles := w.handles[k := w.handles[k].(view := w.handles[k].view.(updated := updated, dirty := true))])
    case Drop(k) =>
      w2 == w.(handles := w.handles - {k})
    case Create(k, sealed, updated, z, view, st) =>
      && k !in w.handles && SealedAt(f, sealed, 1)
      && SaveOp(f, w.fs, 0, sealed).Permits(z)
      && SaveOutcome(f, w.fs, Blank(f, updated), sealed, true, z, view, st, false)
      && w2 == if Committed(st)
               then World(w.first, z, w.handles[k := Session(view, OriginAfter(f, None, sealed, view))], w.log + [Created(sealed)])
               else w.(fs := z)
    case Save(k, sealed, z, view, st, misread) =>
      && k in w.handles && w.handles[k].view.generation < MaxGeneration - 1
      && var h := w.handles[k];
      && SealedAt(f, sealed, h.view.generation + 1)
      && SaveOp(f, w.fs, h.view.generation, sealed).Permits(z)
      && SaveOutcome(f, w.fs, h.view, sealed, false, z, view, st, misread)
      && w2 == World(w.first, z, w.handles[k := Session(view, OriginAfter(f, h.origin, sealed, view))],
                     if Committed(st) && Active(f, w.fs).Some? then w.log + [Saved(Active(f, w.fs).value, sealed)] else w.log)
    case Restore(image, expected, preName, z, st) =>
      && Genuine(f, image) && f.opens(image) && f.Managed(Backups, preName)
      && RestoreOp(f, w.fs, image, preName).Permits(z)
      && RestoreOutcome(f, w.fs, image, expected, preName, z, st)
      && w2 == w.(fs := z, log := if Committed(st) then w.log + [Restored(Active(f, w.fs), image)] else w.log)
    case CrashIdle(y) =>
      Crashed(w.fs, y) && w2 == Rebooted(f, w, w.log, w.fs, y)
    case CrashInCreate(sealed, m, y) =>
      && SealedAt(f, sealed, 1) && SaveStarted(f, w.fs, Blank(f, 0), true)
      && SaveOp(f, w.fs, 0, sealed).Permits(m)
      && Crashed(m, y) && w2 == Rebooted(f, w, Progress(f, w, m, Created(sealed)), m, y)
    case CrashInSave(k, sealed, m, y) =>
      && k in w.handles && w.handles[k].view.generation < MaxGeneration - 1
      && var h := w.handles[k];
      && SealedAt(f, sealed, h.view.generation + 1) && SaveStarted(f, w.fs, h.view, false)
      && SaveOp(f, w.fs, h.view.generation, sealed).Permits(m)
      && Crashed(m, y) && w2 == Rebooted(f, w, Progress(f, w, m, Saved(Active(f, w.fs).value, sealed)), m, y)
    case CrashInRestore(image, expected, preName, m, y) =>
      && Genuine(f, image) && f.opens(image) && f.Managed(Backups, preName) && RestoreStarted(f, w.fs, image, expected)
      && RestoreOp(f, w.fs, image, preName).Permits(m)
      && Crashed(m, y) && w2 == Rebooted(f, w, Progress(f, w, m, Restored(Active(f, w.fs), image)), m, y)
  }

  // ---------- the invariant ----------

  /** Whatever survives a crash, the active name resolves to a genuine, synchronised snapshot or to nothing. */
  ghost predicate ActiveSound(f: Format, fs: Fs) {
    forall i :: fs.May(Main, f.active, Some(i)) ==> i in fs.inodes && Genuine(f, fs.inodes[i].data)
  }

  /**
   A handle is fresh; or its last commit was not verified, and then its hash is not of the active
   file; or it was created and never verified.
   */
  ghost predicate HandleSound(f: Format, fs: Fs, s: Session) {
    match s.origin
    case None => s.view.source == f.zero
    case Some(b) =>
      && s.view.source == f.hash(b) && f.gen(b).Some?
      && (f.gen(b).value == s.view.generation || (Active(f, fs).Some? && Active(f, fs) != Some(b)))
  }

  /** The events form one chain that ends at the active file, and every save adds one to the generation. */
  ghost predicate Chain(f: Format, first: Option<Bytes>, log: seq<Event>, end: Option<Bytes>) {
    && (if log == [] then first == end else log[0].Before() == first && log[|log| - 1].After() == end)
    && (forall i :: 0 < i < |log| ==> log[i].Before() == log[i - 1].After())
    && (forall i :: 0 <= i < |log| && log[i].Saved? ==>
          f.gen(log[i].old_).Some? && f.gen(log[i].new_) == Some(f.gen(log[i].old_).value + 1))
  }

  ghost predicate Inv(f: Format, w: World) {
    && w.fs.Valid()
    && AllSynced(f, w.fs)
    && ActiveSound(f, w.fs)
    && (forall k :: k in w.handles ==> HandleSound(f, w.fs, w.handles[k]))
    && Chain(f, w.first, w.log, Active(f, w.fs))
  }

  // ---------- preservation ----------

  lemma InvParts(f: Format, w: World)
    requires Inv(f, w)
    ensures w.fs.Valid() && AllSynced(f, w.fs)
  {
  }

  /** Every state of an operation that publishes a genuine snapshot is sound, and shows the old or the new active file. */
  lemma OperationSound(f: Format, g: Grant, a: Fs, m: Fs)
    requires a.Valid() && AllSynced(f, a) && ActiveSound(f, a) && Evolves(f, g, a, m)
    requires g.newActive.Some? ==> Genuine(f, g.newActive.value)
    ensures m.Valid() && AllSynced(f, m) && ActiveSound(f, m)
    ensures Active(f, m) == if m.Now(Main, f.active) == a.Now(Main, f.active) then Active(f, a) else g.newActive
    ensures forall i :: m.May(Main, f.active, Some(i)) ==>
        a.May(Main, f.active, Some(i)) || (Complete(m, i, m.inodes[i].data) && g.newActive == Some(m.inodes[i].data))
  {
    EvolvesSynced(f, g, a, m);
    assert f.Managed(Main, f.active);
    forall i | m.May(Main, f.active, Some(i))
      ensures i in m.inodes && Genuine(f, m.inodes[i].data)
      ensures a.May(Main, f.active, Some(i)) || (Complete(m, i, m.inodes[i].data) && g.newActive == Some(m.inodes[i].data))
    {
      assert a.May(Main, f.active, Some(i)) || Granted(f, g, a, m, Main, f.active, Some(i));
    }
    assert a.May(Main, f.active, a.Now(Main, f.active));
    if m.Now(Main, f.active) != a.Now(Main, f.active) {
      assert Granted(f, g, a, m, Main, f.active, m.Now(Main, f.active));
    }
  }

  /** A crash of a sound disk leaves a sound disk. */
  lemma CrashSound(f: Format, m: Fs, y: Fs)
    requires m.Valid() && AllSynced(f, m) && ActiveSound(f, m) && Crashed(m, y)
    ensures y.Valid() && AllSynced(f, y) && ActiveSound(f, y)
    ensures Active(f, y).Some? ==> Genuine(f, Active(f, y).value)
  {
    CrashedIsValid(m, y);
    assert f.Managed(Main, f.active);
  }

  lemma ChainExtends(f: Format, first: Option<Bytes>, log: seq<Event>, e: Event)
    requires Chain(f, first, log, e.Before())
    requires e.Saved? ==> f.gen(e.old_).Some? && f.gen(e.new_) == Some(f.gen(e.old_).value + 1)
    ensures Chain(f, first, log + [e], e.After())
  {
  }

  lemma CrashStep(f: Format, w: World, g: Grant, m: Fs, y: Fs, e: Event)
    requires Inv(f, w) && Evolves(f, g, w.fs, m) && Crashed(m, y)
    requires g.newActive.Some? && Genuine(f, g.newActive.value) && e.Before() == Active(f, w.fs) && e.After() == g.newActive
    requires e.Saved? ==> f.gen(e.old_).Some? && f.gen(e.new_) == Some(f.gen(e.old_).value + 1)
    ensures Inv(f, Rebooted(f, w, Progress(f, w, m, e), m, y))
  {
    OperationSound(f, g, w.fs, m);
    CrashSound(f, m, y);
    ChainExtends(f, w.first, w.log, e);
    ChainExtends(f, w.first, Progress(f, w, m, e), Crash(Active(f, m), Active(f, y)));
  }

  /** What a fresh save replaces: exactly the bytes its handle came from, one generation earlier. */
  lemma SaveReplacesOrigin(f: Format, w: World, k: nat)
    requires f.Lawful() && Inv(f, w) && k in w.handles && IsCurrent(f, w.fs, w.handles[k].view)
    ensures w.handles[k].origin == Active(f, w.fs) && Fresh(f, w.handles[k])
  {
    assert HandleSound(f, w.fs, w.handles[k]);
  }

  /** The generation of `z` is one more than that of `a`. */
  predicate Succeeds(f: Format, a: Bytes, z: Bytes) {
    f.gen(a).Some? && f.gen(z) == Some(f.gen(a).value + 1)
  }

  /** A handle stays sound when the active file keeps its bytes, or becomes one that a stale handle did not come from. */
  lemma HandleStays(f: Format, a: Fs, z: Fs, s: Session)
    requires HandleSound(f, a, s)
    requires Active(f, z) == Active(f, a) || (Active(f, z).Some? && (Stale(f, s) ==> s.origin != Active(f, z)))
    ensures HandleSound(f, z, s)
  {
  }

  /** The handle that saved: it is of the new snapshot, or keeps the hash of the one it replaced. */
  lemma SavedHandle(f: Format, w: World, a: Action)
    requires f.Lawful() && Inv(f, w) && a.Save? && a.k in w.handles && Committed(a.st)
    requires SealedAt(f, a.sealed, w.handles[a.k].view.generation + 1)
    requires SaveOutcome(f, w.fs, w.handles[a.k].view, a.sealed, false, a.z, a.view, a.st, a.misread)
    ensures Active(f, w.fs).Some? && Active(f, a.z) == Some(a.sealed) && Succeeds(f, Active(f, w.fs).value, a.sealed)
    ensures HandleSound(f, a.z, Session(a.view, OriginAfter(f, w.handles[a.k].origin, a.sealed, a.view)))
  {
    hide Fs.Valid, AllSynced, ActiveSound, Secured, NameAdmits, Durable, Chain;
    SaveReplacesOrigin(f, w, a.k);
  }

  lemma HandlesStay(f: Format, w: World, z: Fs)
    requires Inv(f, w) && (Active(f, z) == Active(f, w.fs) || (Active(f, z).Some? && NoStaleOrigin(f, w, Active(f, z).value)))
    ensures forall k :: k in w.handles ==> HandleSound(f, z, w.handles[k])
  {
    hide HandleSound, Stale;
    forall k | k in w.handles
      ensures HandleSound(f, z, w.handles[k])
    {
      HandleStays(f, w.fs, z, w.handles[k]);
    }
  }

  lemma OriginKept(f: Format, fs: Fs, s: Session, sealed: Bytes)
    requires f.Lawful() && HandleSound(f, fs, s)
    ensures OriginAfter(f, s.origin, sealed, s.view) == s.origin
  {
  }

  lemma SaveStep(f: Format, w: World, a: Action, w2: World)
    requires f.Lawful() && Inv(f, w) && Does(f, w, a, w2) && a.Save?
    ensures Inv(f, w2)
  {
    hide Evolves, Fs.Valid, AllSynced, ActiveSound, Secured, NameAdmits, Durable, Chain, HandleSound, Format.Lawful;
    OperationSound(f, SaveOp(f, w.fs, w.handles[a.k].view.generation, a.sealed).g, w.fs, a.z);
    if Committed(a.st) {
      SavedHandle(f, w, a);
      ChainExtends(f, w.first, w.log, Saved(Active(f, w.fs).value, a.sealed));
    } else {
      OriginKept(f, w.fs, w.handles[a.k], a.sealed);
    }
    HandlesStay(f, w, a.z);
  }

  lemma CreateStep(f: Format, w: World, a: Action, w2: World)
    requires f.Lawful() && Inv(f, w) && Does(f, w, a, w2) && a.Create?
    ensures Inv(f, w2)
  {
    hide Evolves, Fs.Valid, AllSynced, ActiveSound, Format.Lawful, Secured, NameAdmits, Durable, Chain, NoStaleOrigin;
    OperationSound(f, SaveOp(f, w.fs, 0, a.sealed).g, w.fs, a.z);
    HandlesStay(f, w, a.z);
    if Committed(a.st) {
      ChainExtends(f, w.first, w.log, Created(a.sealed));
    }
  }

  lemma RestoreStep(f: Format, w: World, a: Action, w2: World)
    requires f.Lawful() && Inv(f, w) && Does(f, w, a, w2) && a.Restore?
    ensures Inv(f, w2)
  {
    hide Evolves, Format.Lawful, Fs.Valid, AllSynced, ActiveSound, Chain, HandleSound, NoStaleOrigin;
    OperationSound(f, RestoreOp(f, w.fs, a.image, a.preName).g, w.fs, a.z);
    HandlesStay(f, w, a.z);
    if Committed(a.st) {
      ChainExtends(f, w.first, w.log, Restored(Active(f, w.fs), a.image));
    }
  }

  /** Opening, editing and dropping handles. */
  lemma HandleStep(f: Format, w: World, a: Action, w2: World)
    requires Inv(f, w) && Does(f, w, a, w2) && (a.Open? || a.Edit? || a.Drop?)
    ensures Inv(f, w2)
  {
    hide Evolves, Fs.Valid, AllSynced, ActiveSound, Chain;
  }

  predicate IsCrash(a: Action) {
    a.CrashIdle? || a.CrashInCreate? || a.CrashInSave? || a.CrashInRestore?
  }

  /** A crash, between operations or in any state of one. */
  lemma AnyCrashStep(f: Format, w: World, a: Action, w2: World)
    requires f.Lawful() && Inv(f, w) && Does(f, w, a, w2) && IsCrash(a)
    ensures Inv(f, w2)
  {
    hide Evolves, Crashed, Fs.Valid, AllSynced, ActiveSound, Chain, Format.Lawful;
    match a
    case CrashIdle(y) =>
      CrashSound(f, w.fs, y);
      ChainExtends(f, w.first, w.log, Crash(Active(f, w.fs), Active(f, y)));
    case CrashInCreate(sealed, m, y) =>
      CrashStep(f, w, SaveOp(f, w.fs, 0, sealed).g, m, y, Created(sealed));
    case CrashInSave(k, sealed, m, y) =>
      SaveReplacesOrigin(f, w, k);
      CrashStep(f, w, SaveOp(f, w.fs, w.handles[k].view.generation, sealed).g, m, y, Saved(Active(f, w.fs).value, sealed));
    case CrashInRestore(image, _, preName, m, y) =>
      CrashStep(f, w, RestoreOp(f, w.fs, image, preName).g, m, y, Restored(Active(f, w.fs), image));
  }

  lemma StepKeepsInv(f: Format, w: World, a: Action, w2: World)
    requires f.Lawful() && Inv(f, w) && Does(f, w, a, w2)
    ensures Inv(f, w2)
  {
    hide Does, Inv, Format.Lawful;
    if IsCrash(a) {
      AnyCrashStep(f, w, a, w2);
    } else if a.Create? {
      CreateStep(f, w, a, w2);
    } else if a.Save? {
      SaveStep(f, w, a, w2);
    } else if a.Restore? {
      RestoreStep(f, w, a, w2);
    } else {
      HandleStep(f, w, a, w2);
    }
  }

  /** A stale handle that another one's commit brings the file back of is no longer sound. */
  lemma RevivedNotSound(f: Format, z: Fs, s: Session)
    requires Stale(f, s) && s.origin == Active(f, z)
    ensures !HandleSound(f, z, s)
  {
  }

  /** The handle that commits is not stale. */
  lemma CommitterFresh(f: Format, w: World, a: Action, w2: World, k: nat)
    requires f.Lawful() && Inv(f, w) && Acts(f, w, a, w2) && CommittedFile(a).Some?
    requires k in w.handles && Stale(f, w.handles[k])
    ensures Active(f, w2.fs) == CommittedFile(a) && k in w2.handles && w2.handles[k] == w.handles[k]
  {
    hide Evolves, Fs.Valid, AllSynced, ActiveSound, Chain, Secured, Durable, NameAdmits;
    if a.Save? {
      SaveReplacesOrigin(f, w, a.k);
    }
  }

  /** A save that does not commit leaves the active file. */
  lemma UncommittedActive(f: Format, w: World, a: Action)
    requires Inv(f, w) && a.Save? && a.k in w.handles && SaveOp(f, w.fs, w.handles[a.k].view.generation, a.sealed).Permits(a.z)
    requires Genuine(f, a.sealed) && SaveOutcome(f, w.fs, w.handles[a.k].view, a.sealed, false, a.z, a.view, a.st, a.misread)
    ensures !Committed(a.st) ==> Active(f, a.z) == Active(f, w.fs)
  {
    hide Evolves, Fs.Valid, AllSynced, ActiveSound, Chain, Secured, Durable, NameAdmits;
    OperationSound(f, SaveOp(f, w.fs, w.handles[a.k].view.generation, a.sealed).g, w.fs, a.z);
  }

  /** Nothing is stale while there is no active file, so a creation is always considerate. */
  lemma NothingStale(f: Format, w: World, a: Action, w2: World)
    requires Inv(f, w) && Acts(f, w, a, w2) && a.Create?
    ensures Considerate(f, w, a)
  {
    hide Evolves, Fs.Valid, AllSynced, ActiveSound, Chain, Secured, Durable, NameAdmits;
  }

  /** The side condition of a step is exact: an action keeps the invariant if and only if it brings back no stale handle's file. */
  lemma StepExactly(f: Format, w: World, a: Action, w2: World)
    requires f.Lawful() && Inv(f, w) && Acts(f, w, a, w2)
    ensures Inv(f, w2) <==> Considerate(f, w, a)
  {
    if Considerate(f, w, a) {
      StepKeepsInv(f, w, a, w2);
    } else {
      var k :| k in w.handles && Stale(f, w.handles[k]) && w.handles[k].origin == CommittedFile(a);
      hide Acts, HandleSound, Format.Lawful, Fs.Valid, AllSynced, ActiveSound, Chain;
      CommitterFresh(f, w, a, w2, k);
      RevivedNotSound(f, w2.fs, w.handles[k]);
    }
  }

  /**
   What goes wrong otherwise: after an action that commits, exactly the handles that came from the committed file can
   save, and what they then save is of the next generation if and only if they are not stale.
   */
  lemma CommitRevives(f: Format, w: World, a: Action, w2: World, k: nat, sealed: Bytes)
    requires f.Lawful() && Inv(f, w) && Acts(f, w, a, w2) && CommittedFile(a).Some? && k in w2.handles && k in w.handles
    requires w2.handles[k] == w.handles[k]
    ensures IsCurrent(f, w2.fs, w.handles[k].view) <==> w.handles[k].origin == CommittedFile(a)
    ensures IsCurrent(f, w2.fs, w.handles[k].view) && SealedAt(f, sealed, w.handles[k].view.generation + 1) ==>
              (Succeeds(f, CommittedFile(a).value, sealed) <==> !Stale(f, w.handles[k]))
  {
    hide Evolves, Fs.Valid, AllSynced, ActiveSound, Chain, Secured, Durable, NameAdmits;
    assert HandleSound(f, w.fs, w.handles[k]);
  }

  // ---------- the side condition without restores ----------

  /** Every stale handle is of a generation before the active one. */
  ghost predicate StaleAreOlder(f: Format, w: World) {
    forall k :: k in w.handles && Stale(f, w.handles[k]) ==> IsOlder(f, w.handles[k].origin, Active(f, w.fs))
  }

  predicate IsOlder(f: Format, a: Option<Bytes>, b: Option<Bytes>) {
    a.Some? && b.Some? && f.gen(a.value).Some? && f.gen(b.value).Some? && f.gen(a.value).value < f.gen(b.value).value
  }

  /** Then no save can bring back a stale handle's file: what it seals is of a later generation. */
  lemma OlderIsConsiderate(f: Format, w: World, a: Action, w2: World)
    requires f.Lawful() && Inv(f, w) && StaleAreOlder(f, w) && Acts(f, w, a, w2) && !a.Restore?
    ensures Considerate(f, w, a)
  {
    hide Evolves, Fs.Valid, AllSynced, ActiveSound, Chain, Secured, Durable, NameAdmits;
    if a.Save? && Committed(a.st) {
      SaveReplacesOrigin(f, w, a.k);
    }
  }

  lemma OlderStep(f: Format, w: World, a: Action, w2: World)
    requires f.Lawful() && Inv(f, w) && StaleAreOlder(f, w) && Acts(f, w, a, w2) && !a.Restore?
    ensures StaleAreOlder(f, w2)
  {
    hide Evolves, Fs.Valid, AllSynced, ActiveSound, Chain, Secured, Durable, NameAdmits;
    if a.Save? {
      UncommittedActive(f, w, a);
      if Committed(a.st) {
        SavedHandle(f, w, a);
        SaveReplacesOrigin(f, w, a.k);
      } else {
        OriginKept(f, w.fs, w.handles[a.k], a.sealed);
      }
    }
  }

  /** A run of actions, whatever they bring back. */
  ghost predicate IsActRun(f: Format, ws: seq<World>, as_: seq<Action>) {
    |ws| == |as_| + 1 && forall i :: 0 <= i < |as_| ==> Acts(f, ws[i], as_[i], ws[i + 1])
  }

  /** Without restores the side condition holds by itself: every run of actions is a run. */
  lemma {:induction false} NoRestoreNoStale(f: Format, ws: seq<World>, as_: seq<Action>, n: nat)
    requires f.Lawful() && IsActRun(f, ws, as_) && Inv(f, ws[0]) && StaleAreOlder(f, ws[0]) && n < |ws|
    requires forall i :: 0 <= i < n ==> !as_[i].Restore?
    ensures Inv(f, ws[n]) && StaleAreOlder(f, ws[n]) && forall i :: 0 <= i < n ==> Does(f, ws[i], as_[i], ws[i + 1])
    decreases n
  {
    hide Inv, Acts, StaleAreOlder, Considerate;
    if n > 0 {
      NoRestoreNoStale(f, ws, as_, n - 1);
      OlderIsConsiderate(f, ws[n - 1], as_[n - 1], ws[n]);
      StepKeepsInv(f, ws[n - 1], as_[n - 1], ws[n]);
      OlderStep(f, ws[n - 1], as_[n - 1], ws[n]);
    }
  }

  // ---------- runs ----------

  /** A run: a sequence of worlds, each made from the one before by the action between them. */
  ghost predicate IsRun(f: Format, ws: seq<World>, as_: seq<Action>) {
    |ws| == |as_| + 1 && forall i :: 0 <= i < |as_| ==> Does(f, ws[i], as_[i], ws[i + 1])
  }

  /** The invariant holds throughout every run that starts with it. */
  lemma {:induction false} RunsKeepInv(f: Format, ws: seq<World>, as_: seq<Action>, n: nat)
    requires f.Lawful() && IsRun(f, ws, as_) && Inv(f, ws[0]) && n < |ws|
    ensures Inv(f, ws[n])
    decreases n
  {
    hide Inv, Does;
    if n > 0 {
      RunsKeepInv(f, ws, as_, n - 1);
      StepKeepsInv(f, ws[n - 1], as_[n - 1], ws[n]);
    }
  }

  // ---------- properties of everything published ----------

  /** Whatever survives a crash, the active file is in `p`, if there is one. */
  ghost predicate ActiveWithin(f: Format, fs: Fs, p: iset<Bytes>) {
    forall i :: fs.May(Main, f.active, Some(i)) ==> i in fs.inodes && fs.inodes[i].data in p
  }

  /** What the action may publish, finished or not, is in `p`. */
  ghost predicate Publishes(a: Action, p: iset<Bytes>) {
    match a
    case Create(_, sealed, _, _, _, _) => sealed in p
    case Save(_, sealed, _, _, _, _) => sealed in p
    case Restore(image, _, _, _, _) => image in p
    case CrashInCreate(sealed, _, _) => sealed in p
    case CrashInSave(_, sealed, _, _) => sealed in p
    case CrashInRestore(image, _, _, _, _) => image in p
    case _ => true
  }

  lemma OperationWithin(f: Format, g: Grant, a: Fs, m: Fs, p: iset<Bytes>)
    requires a.Valid() && AllSynced(f, a) && ActiveSound(f, a) && Evolves(f, g, a, m) && ActiveWithin(f, a, p)
    requires g.newActive.Some? && Genuine(f, g.newActive.value) && g.newActive.value in p
    ensures ActiveWithin(f, m, p) && m.Valid() && AllSynced(f, m) && ActiveSound(f, m)
  {
    OperationSound(f, g, a, m);
  }

  lemma CrashWithin(f: Format, m: Fs, y: Fs, p: iset<Bytes>)
    requires m.Valid() && AllSynced(f, m) && ActiveSound(f, m) && ActiveWithin(f, m, p) && Crashed(m, y)
    ensures ActiveWithin(f, y, p)
  {
    CrashedIsValid(m, y);
    assert f.Managed(Main, f.active);
  }

  lemma StepWithin(f: Format, w: World, a: Action, w2: World, p: iset<Bytes>)
    requires f.Lawful() && Inv(f, w) && Does(f, w, a, w2) && ActiveWithin(f, w.fs, p) && Publishes(a, p)
    ensures ActiveWithin(f, w2.fs, p)
  {
    hide Evolves, Fs.Valid, AllSynced, ActiveSound, ActiveWithin, Crashed, Chain, HandleSound, Format.Lawful, SaveOutcome, RestoreOutcome;
    match a
    case Create(_, sealed, _, z, _, _) =>
      OperationWithin(f, SaveOp(f, w.fs, 0, sealed).g, w.fs, z, p);
    case Save(k, sealed, z, _, _, _) =>
      OperationWithin(f, SaveOp(f, w.fs, w.handles[k].view.generation, sealed).g, w.fs, z, p);
    case Restore(image, _, preName, z, _) =>
      OperationWithin(f, RestoreOp(f, w.fs, image, preName).g, w.fs, z, p);
    case CrashIdle(y) =>
      CrashWithin(f, w.fs, y, p);
    case CrashInCreate(sealed, m, y) =>
      OperationWithin(f, SaveOp(f, w.fs, 0, sealed).g, w.fs, m, p);
      CrashWithin(f, m, y, p);
    case CrashInSave(k, sealed, m, y) =>
      OperationWithin(f, SaveOp(f, w.fs, w.handles[k].view.generation, sealed).g, w.fs, m, p);
      CrashWithin(f, m, y, p);
    case CrashInRestore(image, _, preName, m, y) =>
      OperationWithin(f, RestoreOp(f, w.fs, image, preName).g, w.fs, m, p);
      CrashWithin(f, m, y, p);
    case _ =>
  }

  /** What holds of every snapshot that is sealed or restored holds of the active file, throughout every run. */
  lemma {:induction false} RunsStayWithin(f: Format, ws: seq<World>, as_: seq<Action>, n: nat, p: iset<Bytes>)
    requires f.Lawful() && IsRun(f, ws, as_) && Inv(f, ws[0]) && ActiveWithin(f, ws[0].fs, p) && n < |ws|
    requires forall i :: 0 <= i < n ==> Publishes(as_[i], p)
    ensures ActiveWithin(f, ws[n].fs, p)
    decreases n
  {
    hide Inv, Does, ActiveWithin, Publishes;
    if n > 0 {
      RunsStayWithin(f, ws, as_, n - 1, p);
      RunsKeepInv(f, ws, as_, n - 1);
      StepWithin(f, ws[n - 1], as_[n - 1], ws[n], p);
    }
  }

  lemma ActiveIsWithin(f: Format, w: World, p: iset<Bytes>)
    requires Inv(f, w) && ActiveWithin(f, w.fs, p)
    ensures Active(f, w.fs).Some? ==> Active(f, w.fs).value in p
  {
    assert w.fs.May(Main, f.active, w.fs.Now(Main, f.active));
  }

  // ---------- what the invariant gives ----------

  /** Entry `v` of the active name, as bytes. */
  ghost function DataOf(fs: Fs, v: Option<Ino>): Option<Bytes> {
    if v.Some? && v.value in fs.inodes then Some(fs.inodes[v.value].data) else None
  }

  /**
   Crash safety: interrupt an operation in any state `m` it passes through, and the active file is
   either one that a crash before the operation could have left, or exactly the new snapshot.  When
   the active entry was durable, that is the old file or the new one.
   */
  lemma CrashShowsOldOrNew(f: Format, w: World, g: Grant, m: Fs, y: Fs)
    requires Inv(f, w) && Evolves(f, g, w.fs, m) && Crashed(m, y)
    requires g.newActive.Some? && Genuine(f, g.newActive.value)
    ensures Active(f, y).Some? ==> Genuine(f, Active(f, y).value)
    ensures Active(f, y) == g.newActive ||
            (w.fs.May(Main, f.active, y.Now(Main, f.active)) && Active(f, y) == DataOf(w.fs, y.Now(Main, f.active)))
    ensures Durable(w.fs, Main, f.active) ==> Active(f, y) == g.newActive || Active(f, y) == Active(f, w.fs)
  {
    OperationSound(f, g, w.fs, m);
    CrashSound(f, m, y);
    var v := y.Now(Main, f.active);
    assert m.May(Main, f.active, v);
    assert f.Managed(Main, f.active);
    if !w.fs.May(Main, f.active, v) {
      assert Granted(f, g, w.fs, m, Main, f.active, v);
    }
  }

  /**
   Backup before replace: if a crash anywhere in an operation can show the new snapshot, then what it
   replaced is on disk, byte for byte, under the backup name.
   */
  lemma ReplacedIsBackedUp(f: Format, w: World, g: Grant, m: Fs, y: Fs)
    requires Inv(f, w) && Evolves(f, g, w.fs, m) && Crashed(m, y)
    requires g.backup.Some? && f.Managed(Backups, g.backup.value.0)
    requires y.Now(Main, f.active) != None && !w.fs.May(Main, f.active, y.Now(Main, f.active))
    ensures y.Content(Backups, g.backup.value.0) == Some(g.backup.value.1)
  {
    var v := y.Now(Main, f.active);
    assert m.May(Main, f.active, v);
    assert f.Managed(Main, f.active);
    assert Granted(f, g, w.fs, m, Main, f.active, v);
    assert Secured(m, g.backup.value.0, g.backup.value.1);
    assert m.May(Backups, g.backup.value.0, y.Now(Backups, g.backup.value.0));
  }

  /** A commit is admitted only if the backup name was free or held the very bytes being replaced. */
  lemma CommitWasAdmitted(f: Format, a: Fs, h: View, sealed: Bytes, z: Fs, h': View, st: Status, misread: bool)
    requires f.Lawful() && a.Valid() && h.generation < MaxGeneration
    requires SaveOp(f, a, h.generation, sealed).Permits(z) && SaveOutcome(f, a, h, sealed, false, z, h', st, misread) && Committed(st)
    ensures NameAdmits(a, f.autoName(h.generation), Active(f, a).value)
  {
    var n := f.autoName(h.generation);
    assert f.Managed(Backups, n);
    assert a.May(Backups, n, a.Now(Backups, n));
    assert z.May(Backups, n, z.Now(Backups, n));
  }

  /** A handle left with an unverified commit cannot commit. */
  lemma StaleCannotCommit(f: Format, w: World, a: Action, w2: World)
    requires f.Lawful() && Inv(f, w) && Does(f, w, a, w2) && a.Save? && !Fresh(f, w.handles[a.k])
    ensures !Committed(a.st) && w2.handles[a.k].view == w.handles[a.k].view
  {
    hide Evolves, AllSynced, ActiveSound, Fs.Valid;
    if Committed(a.st) {
      SaveReplacesOrigin(f, w, a.k);
    }
  }

  /** ... and nothing but dropping it changes that, in any run. */
  lemma {:induction false} StaleStaysStale(f: Format, ws: seq<World>, as_: seq<Action>, k: nat, n: nat, m: nat)
    requires f.Lawful() && IsRun(f, ws, as_) && Inv(f, ws[0]) && n <= m < |ws|
    requires forall j :: n <= j <= m ==> k in ws[j].handles
    requires !Fresh(f, ws[n].handles[k])
    ensures !Fresh(f, ws[m].handles[k])
    decreases m
  {
    hide Inv, Does;
    if n < m {
      StaleStaysStale(f, ws, as_, k, n, m - 1);
      RunsKeepInv(f, ws, as_, m - 1);
      OneStepStale(f, ws[m - 1], as_[m - 1], ws[m], k);
    }
  }

  lemma OneStepStale(f: Format, w: World, a: Action, w2: World, k: nat)
    requires f.Lawful() && Inv(f, w) && Does(f, w, a, w2) && k in w.handles && k in w2.handles && !Fresh(f, w.handles[k])
    ensures !Fresh(f, w2.handles[k])
  {
    hide Evolves, AllSynced, ActiveSound, Fs.Valid;
    if a.Save? && a.k == k {
      StaleCannotCommit(f, w, a, w2);
    }
  }
}

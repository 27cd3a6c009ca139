/**
 Retention over any number of saves, each of which backs up what it replaces and then prunes, completely, in part or
 not at all.
 */
module Retention {
  import opened Prelude
  import opened FileSystem
  import opened Protocol
  import opened Prune
  import opened Disks
  import opened Store
  import opened Publish
  import opened Runs
  import opened History

  /** A committed save from `generation`: the disk before and after it, and what its pruning removed. */
  datatype Pass = Pass(start: Fs, end: Fs, generation: nat, removed: set<nat>, complete: bool)

  /** The generations the pass finds, its own backup included. */
  ghost function Found(f: Format, p: Pass): set<nat> {
    AllAt(f, p.start, p.generation)
  }

  ghost function Left(f: Format, p: Pass): set<nat> {
    Eligible(f, p.end, p.generation)
  }

  /**
   Saves of rising generations, between which nothing touches the automatic backups up to the generation of the last
   one.  A save that fails in between may already have made its own backup.
   */
  ghost predicate Successive(f: Format, retention: nat, ps: seq<Pass>) {
    && (forall i :: 0 <= i < |ps| ==>
          Retained(f, Found(f, ps[i]), ps[i].end, ps[i].generation, retention, ps[i].removed, ps[i].complete))
    && (forall i :: 0 < i < |ps| ==>
          ps[i - 1].generation < ps[i].generation && Eligible(f, ps[i].start, ps[i - 1].generation) == Left(f, ps[i - 1]))
  }

  /** Every generation that any of the first passes, up to `n`, found. */
  ghost function Made(f: Format, ps: seq<Pass>, n: nat): set<nat>
    requires n < |ps|
  {
    if n == 0 then Found(f, ps[0]) else Made(f, ps, n - 1) + Found(f, ps[n])
  }

  function Least(a: nat, b: nat): nat {
    if a <= b then a else b
  }

  /** `left` is the newest part of `made`, and no smaller than the retention allows. */
  ghost predicate Newest(left: set<nat>, made: set<nat>, retention: nat) {
    left <= made && LowestOf(made - left, made) && Least(|made|, retention) <= |left|
  }

  lemma LeftSize(found: set<nat>, removed: set<nat>, retention: nat)
    requires removed <= found && |removed| <= Excess(|found|, retention)
    ensures Least(|found|, retention) <= |found - removed|
    ensures |removed| == Excess(|found|, retention) ==> |found - removed| == Least(|found|, retention)
  {
    assert found == (found - removed) + removed;
  }

  /** One more pass over what an earlier one left, together with generations above all earlier ones. */
  lemma NewestStays(made: set<nat>, left: set<nat>, found: set<nat>, removed: set<nat>, g: nat, retention: nat)
    requires Newest(left, made, retention) && (forall x :: x in made ==> x <= g)
    requires left == set x | x in found && x <= g
    requires LowestOf(removed, found) && |removed| <= Excess(|found|, retention)
    ensures Newest(found - removed, made + found, retention)
    ensures |removed| == Excess(|found|, retention) ==> |found - removed| == Least(|made + found|, retention)
  {
    LeftSize(found, removed, retention);
    SubsetSize(found, made + found);
    if |found| < retention {
      SubsetSize(left, found);
      SubsetSize(left, made);
      assert made + found == found;
    }
    forall x, y | x in made + found && x !in found - removed && y in found - removed
      ensures x < y
    {
      if x in found {
        assert x in removed;
      } else {
        assert x in made - left;
        assert y <= g ==> y in left;
      }
    }
  }

  /** What the next save finds is what the last one left, and generations above it. */
  lemma FoundSplits(f: Format, retention: nat, ps: seq<Pass>, n: nat)
    requires Successive(f, retention, ps) && 0 < n < |ps|
    ensures Left(f, ps[n - 1]) == set x | x in Found(f, ps[n]) && x <= ps[n - 1].generation
  {
    var a, g, next := ps[n].start, ps[n - 1].generation, ps[n].generation;
    forall m: Name
      ensures IsEligible(f, a, g, m) <==> IsEligible(f, a, next, m) && f.parseAuto(m).value <= g
    {
    }
    hide IsEligible;
    assert forall x :: x in Eligible(f, a, g) <==> x in Eligible(f, a, next) && x <= g;
  }

  lemma FoundBounded(f: Format, p: Pass)
    ensures forall x :: x in Found(f, p) ==> x <= p.generation
  {
  }

  lemma Rises(f: Format, retention: nat, ps: seq<Pass>, n: nat)
    requires Successive(f, retention, ps) && 0 < n < |ps|
    ensures ps[n - 1].generation < ps[n].generation
  {
    hide Retained, Eligible, Left, Found;
  }

  lemma {:induction false} MadeBounded(f: Format, retention: nat, ps: seq<Pass>, n: nat)
    requires Successive(f, retention, ps) && n < |ps|
    ensures forall x :: x in Made(f, ps, n) ==> x <= ps[n].generation
    decreases n
  {
    hide Successive, Found;
    FoundBounded(f, ps[n]);
    if n > 0 {
      Rises(f, retention, ps, n);
      MadeBounded(f, retention, ps, n - 1);
    }
  }

  /** What one pass does, as sets. */
  lemma OnePass(f: Format, retention: nat, ps: seq<Pass>, n: nat)
    requires Successive(f, retention, ps) && n < |ps|
    ensures Left(f, ps[n]) == Found(f, ps[n]) - ps[n].removed
    ensures LowestOf(ps[n].removed, Found(f, ps[n])) && |ps[n].removed| <= Excess(|Found(f, ps[n])|, retention)
    ensures ps[n].complete ==> |ps[n].removed| == Excess(|Found(f, ps[n])|, retention)
  {
    hide AllAt, Eligible, LowestOf;
  }

  lemma FirstPass(found: set<nat>, removed: set<nat>, retention: nat)
    requires LowestOf(removed, found) && |removed| <= Excess(|found|, retention)
    ensures Newest(found - removed, found, retention)
    ensures |removed| == Excess(|found|, retention) ==> |found - removed| == Least(|found|, retention)
  {
    LeftSize(found, removed, retention);
    assert found - (found - removed) == removed;
  }

  /** After every save, whatever passes stopped early, the backups left are the newest of all ever made. */
  lemma {:induction false} SavesKeepNewest(f: Format, retention: nat, ps: seq<Pass>, n: nat)
    requires Successive(f, retention, ps) && n < |ps|
    ensures Newest(Left(f, ps[n]), Made(f, ps, n), retention)
    ensures ps[n].complete ==> |Left(f, ps[n])| == Least(|Made(f, ps, n)|, retention)
    decreases n
  {
    hide Successive, Left, Found, Newest, LowestOf, Excess, Least;
    OnePass(f, retention, ps, n);
    if n == 0 {
      FirstPass(Found(f, ps[0]), ps[0].removed, retention);
    } else {
      SavesKeepNewest(f, retention, ps, n - 1);
      MadeBounded(f, retention, ps, n - 1);
      FoundSplits(f, retention, ps, n);
      NewestStays(Made(f, ps, n - 1), Left(f, ps[n - 1]), Found(f, ps[n]), ps[n].removed, ps[n - 1].generation, retention);
    }
  }

  /**
   Convergence: after any number of saves whose pruning stopped anywhere, one that prunes completely leaves exactly what
   a single complete pass over every backup ever made would leave: the newest, as many as the retention allows.
   */
  lemma SavesConverge(f: Format, retention: nat, ps: seq<Pass>, n: nat, once: set<nat>)
    requires Successive(f, retention, ps) && n < |ps| && ps[n].complete
    requires LowestOf(once, Made(f, ps, n)) && |once| == Excess(|Made(f, ps, n)|, retention)
    ensures Left(f, ps[n]) == Made(f, ps, n) - once && |Left(f, ps[n])| == Least(|Made(f, ps, n)|, retention)
  {
    hide Successive, Left, Made;
    SavesKeepNewest(f, retention, ps, n);
    var left, made := Left(f, ps[n]), Made(f, ps, n);
    assert |made - left| == |made| - |left| by { assert made == left + (made - left); }
    LowestUnique(made - left, once, made);
    assert left == made - (made - left);
  }

  // ---------- the saves of a run ----------

  /** What a save removed, and whether its pruning completed. */
  datatype Pruning = Pruning(removed: set<nat>, complete: bool)

  /** The generation of the handle that the save at position `i` is by. */
  function SavedFrom(ws: seq<World>, as_: seq<Action>, i: nat): nat
    requires i < |as_| && i < |ws|
  {
    if as_[i].Save? && as_[i].k in ws[i].handles then ws[i].handles[as_[i].k].view.generation else 0
  }

  /** A run in which every save, committed or not, does to the backups what a call of the method does. */
  ghost predicate IsPruningRun(f: Format, retention: nat, ws: seq<World>, as_: seq<Action>, ps: seq<Pruning>) {
    && IsRun(f, ws, as_) && |ps| == |as_|
    && forall i :: 0 <= i < |as_| && as_[i].Save? ==>
         BackupsAfter(f, ws[i].fs, SavedFrom(ws, as_, i), as_[i].z, Committed(as_[i].st), retention, ps[i].removed, ps[i].complete)
  }

  predicate IsCommit(a: Action) {
    a.Save? && Committed(a.st)
  }

  /** The committed saves among the first `n` actions. */
  ghost function PassesOf(ws: seq<World>, as_: seq<Action>, ps: seq<Pruning>, n: nat): seq<Pass>
    requires |ws| == |as_| + 1 && |ps| == |as_| && n <= |as_|
  {
    if n == 0 then []
    else
      PassesOf(ws, as_, ps, n - 1) +
      if IsCommit(as_[n - 1]) then [Pass(ws[n - 1].fs, as_[n - 1].z, SavedFrom(ws, as_, n - 1), ps[n - 1].removed, ps[n - 1].complete)] else []
  }

  /** The passes so far are successive, and since the last one nothing has touched the backups up to its generation. */
  ghost predicate PassesHold(f: Format, retention: nat, passes: seq<Pass>, fs: Fs) {
    && Successive(f, retention, passes)
    && (passes != [] ==>
          var p := passes[|passes| - 1];
          p.generation < GenerationOf(f, Active(f, fs)) && Eligible(f, fs, p.generation) == Left(f, p))
  }

  /** A save that does not commit leaves the backups of earlier generations. */
  lemma UncommittedSpares(f: Format, a: Fs, z: Fs, g: nat, x: nat)
    requires f.Lawful() && a.Valid() && Spared(f, a, z, f.autoName(g), {}) && x < g < MaxGeneration
    requires forall i :: i in a.inodes ==> i in z.inodes && z.inodes[i] == a.inodes[i]
    ensures Eligible(f, z, x) == Eligible(f, a, x)
  {
    assert f.parseAuto(f.autoName(g)) == Some(g);
    forall n: Name | f.parseAuto(n).Some? && f.parseAuto(n).value <= x
      ensures IsEligible(f, z, x, n) <==> IsEligible(f, a, x, n)
    {
      assert n != f.autoName(g) && f.Managed(Backups, n);
      SameEntry(f, a, z, x, n);
    }
    forall y
      ensures y in Eligible(f, z, x) <==> y in Eligible(f, a, x)
    {
      EligibleExactly(f, z, x, y);
      EligibleExactly(f, a, x, y);
      assert IsEligible(f, z, x, f.autoName(y)) ==> f.parseAuto(f.autoName(y)).Some? && f.parseAuto(f.autoName(y)).value <= x;
    }
  }

  lemma EvolvesKeepsInodes(f: Format, g: Grant, a: Fs, z: Fs)
    requires Evolves(f, g, a, z)
    ensures forall i :: i in a.inodes ==> i in z.inodes && z.inodes[i] == a.inodes[i]
  {
  }

  lemma Appended(f: Format, retention: nat, passes: seq<Pass>, p: Pass)
    requires Successive(f, retention, passes)
    requires Retained(f, Found(f, p), p.end, p.generation, retention, p.removed, p.complete)
    requires passes != [] ==> passes[|passes| - 1].generation < p.generation
    requires passes != [] ==> Eligible(f, p.start, passes[|passes| - 1].generation) == Left(f, passes[|passes| - 1])
    ensures Successive(f, retention, passes + [p])
  {
    hide Retained, Found, Left, Eligible;
  }

  /** A save is from the generation of the active file, which it raises. */
  lemma CommitRaises(f: Format, w: World, a: Action, w2: World)
    requires f.Lawful() && Inv(f, w) && Does(f, w, a, w2) && IsCommit(a)
    ensures w2.fs == a.z && w.handles[a.k].view.generation == GenerationOf(f, Active(f, w.fs)) < GenerationOf(f, Active(f, w2.fs))
  {
    hide Evolves, Inv, Format.Lawful;
    SaveReplacesOrigin(f, w, a.k);
  }

  /** A save that commits is one more pass. */
  lemma CommitHolds(f: Format, retention: nat, w: World, a: Action, w2: World, passes: seq<Pass>, q: Pruning)
    requires f.Lawful() && Inv(f, w) && Does(f, w, a, w2) && IsCommit(a) && PassesHold(f, retention, passes, w.fs)
    requires BackupsAfter(f, w.fs, w.handles[a.k].view.generation, a.z, true, retention, q.removed, q.complete)
    ensures PassesHold(f, retention, passes + [Pass(w.fs, a.z, w.handles[a.k].view.generation, q.removed, q.complete)], w2.fs)
  {
    hide Successive, Eligible, Retained, Spared, Does, Inv, Format.Lawful, AllAt, Active;
    SavesHaveHandles(f, w, a, w2);
    CommitRaises(f, w, a, w2);
    var p := Pass(w.fs, a.z, w.handles[a.k].view.generation, q.removed, q.complete);
    Appended(f, retention, passes, p);
  }

  /** A save that does not commit, and any step that is no save, leaves the passes as they are. */
  lemma OtherHolds(f: Format, retention: nat, w: World, a: Action, w2: World, passes: seq<Pass>, removed: set<nat>, complete: bool)
    requires f.Lawful() && Inv(f, w) && Does(f, w, a, w2) && Ordinary(a) && !IsCommit(a) && PassesHold(f, retention, passes, w.fs)
    requires a.Save? ==> BackupsAfter(f, w.fs, w.handles[a.k].view.generation, a.z, false, retention, removed, complete)
    ensures PassesHold(f, retention, passes, w2.fs)
  {
    hide Successive, Eligible, Retained, Spared, Evolves, Format.Lawful, AllAt, Secured, Durable, Fs.Valid, AllSynced, ActiveSound, Chain, HandleSound;
    if a.Save? && SaveStarted(f, w.fs, w.handles[a.k].view, false) {
      SaveReplacesOrigin(f, w, a.k);
      var g := SaveOp(f, w.fs, w.handles[a.k].view.generation, a.sealed).g;
      UncommittedActive(f, w, a);
      EvolvesKeepsInodes(f, g, w.fs, a.z);
      if passes != [] {
        UncommittedSpares(f, w.fs, a.z, w.handles[a.k].view.generation, passes[|passes| - 1].generation);
      }
    }
  }

  /** The committed saves of every run without restore and crash, failed saves in between, are successive. */
  lemma {:induction false} RunsAreSuccessive(f: Format, retention: nat, ws: seq<World>, as_: seq<Action>, ps: seq<Pruning>, n: nat)
    requires f.Lawful() && IsPruningRun(f, retention, ws, as_, ps) && Inv(f, ws[0]) && n < |ws|
    requires forall i :: 0 <= i < n ==> Ordinary(as_[i])
    ensures PassesHold(f, retention, PassesOf(ws, as_, ps, n), ws[n].fs)
    decreases n
  {
    hide Inv, Does, BackupsAfter, PassesHold, Ordinary;
    if n == 0 {
      NoPasses(f, retention, ws[0].fs);
    } else {
      RunsAreSuccessive(f, retention, ws, as_, ps, n - 1);
      RunsKeepInv(f, ws, as_, n - 1);
      var w, a, q := ws[n - 1], as_[n - 1], ps[n - 1];
      SavesHaveHandles(f, w, a, ws[n]);
      if IsCommit(a) {
        CommitHolds(f, retention, w, a, ws[n], PassesOf(ws, as_, ps, n - 1), q);
      } else {
        OtherHolds(f, retention, w, a, ws[n], PassesOf(ws, as_, ps, n - 1), q.removed, q.complete);
        assert PassesOf(ws, as_, ps, n) == PassesOf(ws, as_, ps, n - 1);
      }
    }
  }

  lemma NoPasses(f: Format, retention: nat, fs: Fs)
    ensures PassesHold(f, retention, [], fs)
  {
  }

  lemma SavesHaveHandles(f: Format, w: World, a: Action, w2: World)
    requires Does(f, w, a, w2)
    ensures a.Save? ==> a.k in w.handles
  {
  }

  /**
   Retention in runs: at every point of a run without restore and crash, the automatic backups up to the last generation
   saved over are the newest of all the saves ever found, and after a complete pass as many as the retention allows.
   */
  lemma RunsKeepNewest(f: Format, retention: nat, ws: seq<World>, as_: seq<Action>, ps: seq<Pruning>, n: nat)
    requires f.Lawful() && IsPruningRun(f, retention, ws, as_, ps) && Inv(f, ws[0]) && n < |ws|
    requires forall i :: 0 <= i < n ==> Ordinary(as_[i])
    ensures var passes := PassesOf(ws, as_, ps, n);
      passes != [] ==>
        && var last := passes[|passes| - 1];
        && var made := Made(f, passes, |passes| - 1);
        && Newest(Eligible(f, ws[n].fs, last.generation), made, retention)
        && (last.complete ==> |Eligible(f, ws[n].fs, last.generation)| == Least(|made|, retention))
  {
    hide Inv, Does, Newest, Eligible, Successive, BackupsAfter, SavedFrom;
    RunsAreSuccessive(f, retention, ws, as_, ps, n);
    var passes := PassesOf(ws, as_, ps, n);
    if passes != [] {
      SavesKeepNewest(f, retention, passes, |passes| - 1);
    }
  }
}

/** Retention of automatic backups: `prune_automatic_backups`. */
module Prune {
  import opened Prelude
  import opened FileSystem
  import opened Protocol
  import opened Disks

  datatype Candidate = Candidate(name: Name, generation: nat, inode: Ino)

  /** `n` is an automatic backup of this vault, not pinned, of a generation up to `maxGen`. */
  predicate IsEligible(f: Format, fs: Fs, maxGen: nat, n: Name) {
    && n in fs.backups.now
    && f.parseAuto(n).Some?
    && f.parseAuto(n).value <= maxGen
    && fs.backups.now[n] in fs.inodes
    && !fs.inodes[fs.backups.now[n]].pinned
  }

  /** The generations retention may act on. */
  ghost function Eligible(f: Format, fs: Fs, maxGen: nat): set<nat> {
    set n | n in fs.backups.now && IsEligible(f, fs, maxGen, n) :: f.parseAuto(n).value
  }

  /** The entry passes the strict format, is this vault's, and opens with the generation in its name. */
  predicate Authentic(f: Format, fs: Fs, n: Name) {
    match fs.Content(Backups, n)
    case None => false
    case Some(b) => f.valid(b) && f.vaultOf(b) == f.vault && f.opens(b) && f.gen(b) == f.parseAuto(n)
  }

  /** Some automatic backup name of this vault holds something else. */
  ghost predicate Suspicious(f: Format, fs: Fs) {
    exists n :: n in fs.backups.now && f.parseAuto(n).Some? && !Authentic(f, fs, n)
  }

  /** How many of `count` eligible backups exceed the retention. */
  function Excess(count: nat, retention: nat): nat {
    if count <= retention then 0 else count - retention
  }

  /** `removed` is a set of lowest elements of `all`. */
  ghost predicate LowestOf(removed: set<nat>, all: set<nat>) {
    removed <= all && forall x, y :: x in removed && y in all && y !in removed ==> x < y
  }

  /** Exactly the automatic backups of the generations in `removed` are gone from `a` to `z`. */
  ghost predicate Removed(f: Format, a: Fs, z: Fs, removed: set<nat>) {
    && z.inodes == a.inodes && z.next == a.next && z.main == a.main
    && (forall n: Name :: z.Now(Backups, n) == if f.parseAuto(n).Some? && f.parseAuto(n).value in removed then None else a.Now(Backups, n))
    && (forall n: Name, v :: z.May(Backups, n, v) ==>
          a.May(Backups, n, v) || (v == None && f.parseAuto(n).Some? && f.parseAuto(n).value in removed))
  }

  // ---------- sorting ----------

  function Insert(c: Candidate, s: seq<Candidate>): seq<Candidate> {
    if s == [] then [c]
    else if c.generation <= s[0].generation then [c] + s
    else [s[0]] + Insert(c, s[1..])
  }

  /** qsort by generation. */
  function Sort(s: seq<Candidate>): seq<Candidate> {
    if s == [] then [] else Insert(s[0], Sort(s[1..]))
  }

  ghost function Generations(s: seq<Candidate>): set<nat> {
    set c | c in s :: c.generation
  }

  ghost predicate Ascending(s: seq<Candidate>) {
    forall i, j :: 0 <= i < j < |s| ==> s[i].generation < s[j].generation
  }

  ghost predicate Distinct(s: seq<Candidate>) {
    forall i, j :: 0 <= i < j < |s| ==> s[i].generation != s[j].generation
  }

  lemma {:induction false} InsertMembers(c: Candidate, s: seq<Candidate>)
    ensures |Insert(c, s)| == |s| + 1 && forall x :: x in Insert(c, s) <==> x == c || x in s
  {
    if s != [] && c.generation > s[0].generation {
      InsertMembers(c, s[1..]);
      assert s == [s[0]] + s[1..];
    }
  }

  lemma {:induction false} InsertAscends(c: Candidate, s: seq<Candidate>)
    requires Ascending(s) && forall x :: x in s ==> x.generation != c.generation
    ensures Ascending(Insert(c, s))
  {
    if s != [] && c.generation > s[0].generation {
      InsertAscends(c, s[1..]);
      InsertMembers(c, s[1..]);
      var r := Insert(c, s[1..]);
      assert forall k :: 0 <= k < |r| ==> r[k] in r;
    } else {
      assert forall k :: 0 <= k < |s| ==> s[k] in s;
    }
  }

  /** Sorting candidates of distinct generations puts exactly them in strictly ascending order. */
  lemma {:induction false} SortAscends(s: seq<Candidate>)
    requires Distinct(s)
    ensures Ascending(Sort(s)) && |Sort(s)| == |s| && forall x :: x in Sort(s) <==> x in s
  {
    if s != [] {
      assert s == [s[0]] + s[1..];
      SortAscends(s[1..]);
      InsertMembers(s[0], Sort(s[1..]));
      InsertAscends(s[0], Sort(s[1..]));
    }
  }

  lemma {:induction false} GenerationsSize(s: seq<Candidate>)
    requires Distinct(s)
    ensures |Generations(s)| == |s|
  {
    if s == [] {
      assert Generations(s) == {};
    } else {
      var t := s[..|s| - 1];
      GenerationsSize(t);
      assert Generations(s) == Generations(t) + {s[|s| - 1].generation};
    }
  }

  // ---------- the pruning pass ----------

  /** `c` describes an eligible entry. */
  ghost predicate Describes(f: Format, fs: Fs, maxGen: nat, c: Candidate) {
    && IsEligible(f, fs, maxGen, c.name)
    && f.parseAuto(c.name) == Some(c.generation)
    && fs.backups.now[c.name] == c.inode
  }

  /** `cs` lists exactly the eligible entries among `seen`, and no other automatic backup there is suspicious. */
  ghost predicate Lists(f: Format, fs: Fs, maxGen: nat, seen: set<Name>, cs: seq<Candidate>) {
    && Distinct(cs)
    && (forall c :: c in cs ==> Describes(f, fs, maxGen, c) && c.name in seen)
    && (forall n :: n in seen && IsEligible(f, fs, maxGen, n) ==> f.parseAuto(n).value in Generations(cs))
    && (forall n :: n in seen && n in fs.backups.now && f.parseAuto(n).Some? ==> Authentic(f, fs, n))
  }

  lemma ListsMore(f: Format, fs: Fs, maxGen: nat, seen: set<Name>, cs: seq<Candidate>, n: Name)
    requires f.Lawful() && Lists(f, fs, maxGen, seen, cs) && n !in seen && IsEligible(f, fs, maxGen, n) && Authentic(f, fs, n)
    ensures Lists(f, fs, maxGen, seen + {n}, cs + [Candidate(n, f.parseAuto(n).value, fs.backups.now[n])])
  {
    var c := Candidate(n, f.parseAuto(n).value, fs.backups.now[n]);
    var more := cs + [c];
    assert Generations(more) == Generations(cs) + {c.generation} by {
      assert forall x :: x in more <==> x in cs || x == c;
    }
  }

  lemma ListsAll(f: Format, fs: Fs, maxGen: nat, cs: seq<Candidate>)
    requires f.Lawful() && Lists(f, fs, maxGen, fs.backups.now.Keys, cs)
    ensures !Suspicious(f, fs) && Generations(cs) == Eligible(f, fs, maxGen)
  {
  }

  /**
   The directory scan, in whatever order the entries come.  It succeeds only if every automatic
   backup of this vault authenticates, and then lists exactly the eligible ones.
   */
  method Scan(f: Format, disk: Disk, maxGen: nat) returns (st: Status, cs: seq<Candidate>)
    requires f.Lawful() && disk.fs.Valid()
    ensures st == OK ==> !Suspicious(f, disk.fs)
    ensures st == OK ==> Distinct(cs) && Generations(cs) == Eligible(f, disk.fs, maxGen)
    ensures st == OK ==> forall c :: c in cs ==> Describes(f, disk.fs, maxGen, c)
    ensures disk.reliable ==> (st == OK <==> !Suspicious(f, disk.fs))
  {
    cs := [];
    var failed := disk.Fails();    // fstat, openat, fdopendir
    if failed {
      return IO, [];
    }
    var fs := disk.fs;
    var left := fs.backups.now.Keys;
    ghost var seen: set<Name> := {};
    while left != {}
      invariant seen + left == fs.backups.now.Keys && seen !! left
      invariant Lists(f, fs, maxGen, seen, cs)
    {
      hide Describes, Distinct, Generations;
      failed := disk.Fails();    // readdir
      if failed {
        return IO, [];
      }
      var n :| n in left;
      left := left - {n};
      if f.parseAuto(n).None? {
        seen := seen + {n};
        continue;
      }
      failed := disk.Fails();    // fstatat, open, read
      if failed {
        return IO, [];
      }
      if !Authentic(f, fs, n) {
        return Auth, [];
      }
      if IsEligible(f, fs, maxGen, n) {
        failed := disk.Fails();    // realloc
        if failed {
          return NoMem, [];
        }
        ListsMore(f, fs, maxGen, seen, cs, n);
        cs := cs + [Candidate(n, f.parseAuto(n).value, fs.backups.now[n])];
      }
      seen := seen + {n};
    }
    assert seen == fs.backups.now.Keys;
    ListsAll(f, fs, maxGen, cs);
    return OK, cs;
  }

  lemma RemovedNone(f: Format, a: Fs, sorted: seq<Candidate>)
    ensures Removed(f, a, a, Generations(sorted[..0]))
  {
  }

  lemma RemovedOne(f: Format, a: Fs, z: Fs, removed: set<nat>, n: Name, g: nat)
    requires f.Lawful() && z.Valid() && Removed(f, a, z, removed) && f.parseAuto(n) == Some(g)
    ensures Removed(f, a, UnlinkEntry(z, Backups, n), removed + {g})
  {
    UnlinkFrame(z, Backups, n);
    assert forall m :: m != n && f.parseAuto(m).Some? ==> f.parseAuto(m).value != g;
  }

  lemma RemovedSynced(f: Format, a: Fs, z: Fs, removed: set<nat>)
    requires z.Valid() && Removed(f, a, z, removed)
    ensures Removed(f, a, SyncDir(z, Backups), removed)
  {
    SyncDirFrame(z, Backups);
  }

  /** An entry at position `k` of the sorted list is still there after the first `k` are gone, and may be dropped. */
  lemma NextToRemove(f: Format, op: Op, a: Fs, z: Fs, maxGen: nat, sorted: seq<Candidate>, k: nat)
    requires op.f == f && op.Valid() && 0 < maxGen < MaxGeneration
    requires op.g.dropBelow == maxGen && (op.g.backup.Some? ==> op.g.backup.value.0 == f.autoName(maxGen))
    requires Ascending(sorted) && forall c :: c in sorted ==> Describes(f, a, maxGen, c)
    requires k + 1 < |sorted| && Removed(f, a, z, Generations(sorted[..k]))
    ensures sorted[k].name in z.In(Backups).now && z.Now(Backups, sorted[k].name) == Some(sorted[k].inode)
    ensures MayDrop(f, op.g, Backups, sorted[k].name) && f.parseAuto(sorted[k].name) == Some(sorted[k].generation)
    ensures Generations(sorted[..k + 1]) == Generations(sorted[..k]) + {sorted[k].generation}
  {
    assert sorted[k] in sorted && sorted[k + 1] in sorted;
    assert Describes(f, a, maxGen, sorted[k]) && Describes(f, a, maxGen, sorted[k + 1]);
    assert sorted[..k + 1] == sorted[..k] + [sorted[k]];
    assert forall j :: 0 <= j < k ==> sorted[..k][j] == sorted[j];
    assert sorted[k].generation !in Generations(sorted[..k]);
    assert z.Now(Backups, sorted[k].name) == a.Now(Backups, sorted[k].name);
  }

  /** The unlink loop over the sorted candidates; any failure stops it, and what was deleted is synchronised. */
  method RemoveOldest(f: Format, disk: Disk, maxGen: nat, sorted: seq<Candidate>, count: nat, ghost op: Op)
    returns (st: Status, ghost done: nat)
    requires op.f == f && op.Valid() && op.Permits(disk.fs) && disk.fs.Valid()
    requires op.g.dropBelow == maxGen && (op.g.backup.Some? ==> op.g.backup.value.0 == f.autoName(maxGen))
    requires 0 < maxGen < MaxGeneration && count < |sorted|
    requires Ascending(sorted) && forall c :: c in sorted ==> Describes(f, disk.fs, maxGen, c)
    modifies disk
    ensures old(disk.trace) <= disk.trace && disk.Within(op, |old(disk.trace)|)
    ensures op.Permits(disk.fs) && done <= count
    ensures Removed(f, old(disk.fs), disk.fs, Generations(sorted[..done]))
    ensures st == OK ==> done == count
    ensures disk.reliable ==> st == OK
  {
    hide Evolves, Removed, Describes, Ascending, Generations, MayDrop, Format.Lawful;
    ghost var a := disk.fs;
    RemovedNone(f, a, sorted);
    st := OK;
    var index := 0;
    while index < count
      invariant 0 <= index <= count
      invariant old(disk.trace) <= disk.trace && disk.Within(op, |old(disk.trace)|)
      invariant op.Permits(disk.fs) && disk.fs.Valid() && Removed(f, a, disk.fs, Generations(sorted[..index]))
      invariant disk.reliable ==> st == OK
      invariant st == OK
    {
      NextToRemove(f, op, a, disk.fs, maxGen, sorted, index);
      var failed := disk.Fails();    // fstatat
      if failed || disk.fs.Now(Backups, sorted[index].name) != Some(sorted[index].inode) {
        st := IO;
        break;
      }
      ghost var before := disk.fs;
      var unlinked := disk.Unlink(Backups, sorted[index].name);
      if !unlinked {
        st := IO;
        break;
      }
      EvolvesUnlink(f, op.g, op.start, before, Backups, sorted[index].name);
      UnlinkFrame(before, Backups, sorted[index].name);
      RemovedOne(f, a, before, Generations(sorted[..index]), sorted[index].name, sorted[index].generation);
      index := index + 1;
    }
    done := index;
    if index > 0 {
      ghost var before := disk.fs;
      var synced := disk.FsyncDir(Backups);
      if synced {
        EvolvesSyncDir(f, op.g, op.start, before, Backups);
        RemovedSynced(f, a, before, Generations(sorted[..done]));
      } else if st == OK {
        st := Durability;
      }
    }
    var failed := disk.Fails();    // closedir
    if failed && st == OK {
      st := IO;
    }
  }

  /** The first `k` of the sorted candidates are the lowest of them, and there are `k` of them. */
  lemma PrefixIsLowest(sorted: seq<Candidate>, k: nat)
    requires Ascending(sorted) && k < |sorted|
    ensures LowestOf(Generations(sorted[..k]), Generations(sorted)) && |Generations(sorted[..k])| == k
    ensures forall g :: g in Generations(sorted[..k]) ==> g < sorted[k].generation
  {
    var low := sorted[..k];
    GenerationsSize(low);
    assert forall j :: 0 <= j < k ==> low[j] == sorted[j];
    forall x, y | x in Generations(low) && y in Generations(sorted) && y !in Generations(low)
      ensures x < y
    {
      var i :| 0 <= i < k && low[i].generation == x;
      var j :| 0 <= j < |sorted| && sorted[j].generation == y;
    }
  }

  /** The second look at every candidate, before the first one is deleted. */
  method StillThere(disk: Disk, sorted: seq<Candidate>, count: nat) returns (ok: bool)
    requires count <= |sorted|
    ensures ok ==> forall k :: 0 <= k < count ==> disk.fs.Now(Backups, sorted[k].name) == Some(sorted[k].inode)
    ensures disk.reliable && (forall k :: 0 <= k < count ==> disk.fs.Now(Backups, sorted[k].name) == Some(sorted[k].inode)) ==> ok
  {
    for index := 0 to count
      invariant forall k :: 0 <= k < index ==> disk.fs.Now(Backups, sorted[k].name) == Some(sorted[k].inode)
    {
      var failed := disk.Fails();    // fstatat
      if failed || disk.fs.Now(Backups, sorted[index].name) != Some(sorted[index].inode) {
        return false;
      }
    }
    return true;
  }

  /** Sorting the candidates loses none of what is known of them. */
  lemma SortedDescribed(f: Format, fs: Fs, maxGen: nat, cs: seq<Candidate>)
    requires Distinct(cs) && forall c :: c in cs ==> Describes(f, fs, maxGen, c)
    ensures Ascending(Sort(cs)) && |Sort(cs)| == |cs| && Generations(Sort(cs)) == Generations(cs) && |Generations(cs)| == |cs|
    ensures forall c :: c in Sort(cs) ==> Describes(f, fs, maxGen, c)
    ensures forall k :: 0 <= k < |cs| ==> fs.Now(Backups, Sort(cs)[k].name) == Some(Sort(cs)[k].inode) && Sort(cs)[k].generation <= maxGen
  {
    hide Ascending, Distinct, Sort;
    SortAscends(cs);
    GenerationsSize(cs);
    forall k | 0 <= k < |cs|
      ensures fs.Now(Backups, Sort(cs)[k].name) == Some(Sort(cs)[k].inode) && Sort(cs)[k].generation <= maxGen
    {
      assert Sort(cs)[k] in Sort(cs);
    }
  }

  lemma NothingRemoved(f: Format, a: Fs, all: set<nat>)
    ensures Removed(f, a, a, {}) && LowestOf({}, all)
  {
  }

  /** `b` is a snapshot that pruning would vouch for as generation `g`. */
  predicate Vouched(f: Format, b: Bytes, g: nat) {
    f.valid(b) && f.vaultOf(b) == f.vault && f.opens(b) && f.gen(b) == Some(g)
  }

  /** Every automatic backup of this vault opens, with the vault key, as the generation in its name. */
  ghost predicate AllVouched(f: Format, fs: Fs) {
    forall n: Name :: fs.Now(Backups, n).Some? && f.parseAuto(n).Some? ==>
      fs.Content(Backups, n).Some? && Vouched(f, fs.Content(Backups, n).value, f.parseAuto(n).value)
  }

  /** `n` is an automatic backup of a generation below `maxGen` whose mode is not 0400. */
  ghost predicate MayGo(f: Format, fs: Fs, n: Name, maxGen: nat) {
    && f.parseAuto(n).Some? && f.parseAuto(n).value < maxGen
    && fs.Now(Backups, n).Some? && fs.Now(Backups, n).value in fs.inodes && !fs.inodes[fs.Now(Backups, n).value].pinned
  }

  lemma UnsuspiciousIsVouched(f: Format, fs: Fs)
    requires !Suspicious(f, fs)
    ensures AllVouched(f, fs)
  {
    forall n: Name | fs.Now(Backups, n).Some? && f.parseAuto(n).Some?
      ensures fs.Content(Backups, n).Some? && Vouched(f, fs.Content(Backups, n).value, f.parseAuto(n).value)
    {
      assert n in fs.backups.now;
    }
  }

  lemma RemovedMayGo(f: Format, a: Fs, z: Fs, removed: set<nat>, maxGen: nat)
    requires f.Lawful() && Removed(f, a, z, removed) && removed <= Eligible(f, a, maxGen) && maxGen !in removed
    ensures forall n: Name :: z.Now(Backups, n) != a.Now(Backups, n) ==> MayGo(f, a, n, maxGen)
  {
    forall n: Name | z.Now(Backups, n) != a.Now(Backups, n)
      ensures MayGo(f, a, n, maxGen)
    {
      EligibleExactly(f, a, maxGen, f.parseAuto(n).value);
    }
  }

  /** prune_automatic_backups, run after a save whose replaced snapshot had generation `maxGen`. */
  method PruneBackups(f: Format, disk: Disk, maxGen: nat, retention: nat, ghost op: Op)
    returns (st: Status, ghost removed: set<nat>)
    requires op.f == f && op.Valid() && op.Permits(disk.fs) && disk.fs.Valid()
    requires op.g.dropBelow == maxGen && (op.g.backup.Some? ==> op.g.backup.value.0 == f.autoName(maxGen))
    requires 0 < maxGen < MaxGeneration && 0 < retention
    modifies disk
    ensures old(disk.trace) <= disk.trace && disk.Within(op, |old(disk.trace)|)
    ensures op.Permits(disk.fs) && Removed(f, old(disk.fs), disk.fs, removed)
    ensures LowestOf(removed, Eligible(f, old(disk.fs), maxGen)) && maxGen !in removed
    ensures |removed| <= Excess(|Eligible(f, old(disk.fs), maxGen)|, retention)
    ensures st == OK ==> |removed| == Excess(|Eligible(f, old(disk.fs), maxGen)|, retention)
    ensures Suspicious(f, old(disk.fs)) ==> removed == {} && st != OK
    ensures st == OK || removed != {} ==> AllVouched(f, old(disk.fs))
    ensures forall n: Name :: disk.fs.Now(Backups, n) != old(disk.fs).Now(Backups, n) ==> MayGo(f, old(disk.fs), n, maxGen)
    ensures disk.reliable ==> (st == OK <==> !Suspicious(f, old(disk.fs)))
  {
    hide Evolves, Removed, Describes, Ascending, Distinct, Generations, Eligible, Suspicious, LowestOf, Sort, Format.Lawful, Fs.Valid,
      AllVouched, MayGo;
    removed := {};
    ghost var a := disk.fs;
    NothingRemoved(f, a, Eligible(f, a, maxGen));
    var cs;
    st, cs := Scan(f, disk, maxGen);
    if st != OK {
      return;
    }
    UnsuspiciousIsVouched(f, a);
    SortedDescribed(f, disk.fs, maxGen, cs);
    if |cs| <= retention {
      return;
    }
    var sorted := Sort(cs);
    var count := |cs| - retention;
    var there := StillThere(disk, sorted, count);
    if !there {
      st := IO;
      return;
    }
    ghost var done;
    st, done := RemoveOldest(f, disk, maxGen, sorted, count, op);
    removed := Generations(sorted[..done]);
    PrefixIsLowest(sorted, done);
    LowestIsPart(removed, Eligible(f, a, maxGen));
    RemovedMayGo(f, a, disk.fs, removed, maxGen);
  }

  lemma LowestIsPart(removed: set<nat>, all: set<nat>)
    requires LowestOf(removed, all)
    ensures removed <= all
  {
  }

  // ---------- the eligible set after a pass ----------

  /** A pass takes its removals out of the eligible set and adds nothing to it. */
  lemma EligibleAfter(f: Format, a: Fs, z: Fs, maxGen: nat, removed: set<nat>)
    requires f.Lawful() && Removed(f, a, z, removed)
    ensures Eligible(f, z, maxGen) == Eligible(f, a, maxGen) - removed
  {
    forall n: Name
      ensures IsEligible(f, z, maxGen, n) <==> IsEligible(f, a, maxGen, n) && f.parseAuto(n).value !in removed
    {
      assert z.Now(Backups, n) == if f.parseAuto(n).Some? && f.parseAuto(n).value in removed then None else a.Now(Backups, n);
    }
  }

  /** A generation is eligible when the entry under its name is. */
  lemma EligibleExactly(f: Format, fs: Fs, maxGen: nat, x: nat)
    requires f.Lawful()
    ensures x in Eligible(f, fs, maxGen) <==> 0 < x < MaxGeneration && IsEligible(f, fs, maxGen, f.autoName(x))
    ensures x in Eligible(f, fs, maxGen) <==>
      && 0 < x < MaxGeneration && x <= maxGen && fs.Now(Backups, f.autoName(x)).Some?
      && fs.Now(Backups, f.autoName(x)).value in fs.inodes && !fs.inodes[fs.Now(Backups, f.autoName(x)).value].pinned
  {
  }

  lemma LowestUnique(p: set<nat>, q: set<nat>, all: set<nat>)
    requires LowestOf(p, all) && LowestOf(q, all) && |p| == |q|
    ensures p == q
  {
    if p != q {
      if x :| x in p && x !in q {
        assert q <= p;
        SubsetSize(q, p);
      } else {
        assert p <= q;
        SubsetSize(p, q);
      }
    }
  }

  lemma {:induction false} SubsetSize(p: set<nat>, q: set<nat>)
    requires p <= q
    ensures |p| <= |q| && (|p| == |q| ==> p == q)
    decreases p
  {
    if p != {} {
      var x :| x in p;
      SubsetSize(p - {x}, q - {x});
    }
  }
}

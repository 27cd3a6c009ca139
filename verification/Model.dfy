/**
 The in-memory vault (src/model.c and the edit operations of src/cli.c): records whose texts are slices of
 one arena.  Every operation is stated as a change of the record sequence those slices denote.
 */
module Model {
  import opened Prelude
  import opened Records
  import opened Layout
  import opened Memory
  import opened Arenas

  /** pv_custom_field and pv_record, with texts as arena slices. */
  datatype StoredField = StoredField(name: Slice, value: Slice, flags: nat)

  datatype Stored = Stored(
    id: Bytes, revision: nat, created: int, updated: int, flags: nat,
    title: Slice, username: Slice, password: Slice, notes: Slice,
    urls: seq<Slice>, tags: seq<Slice>, fields: seq<StoredField>)

  function FieldSlices(fs: seq<StoredField>): seq<Slice> {
    if fs == [] then [] else FieldSlices(fs[..|fs| - 1]) + [fs[|fs| - 1].name, fs[|fs| - 1].value]
  }

  function Slices(r: Stored): seq<Slice> {
    [r.title, r.username, r.password, r.notes] + r.urls + r.tags + FieldSlices(r.fields)
  }

  function FieldsView(mem: Bytes, fs: seq<StoredField>): (v: seq<Field>)
    ensures |v| == |fs|
  {
    seq(|fs|, k requires 0 <= k < |fs| => Field(Text(mem, fs[k].name), Text(mem, fs[k].value), fs[k].flags))
  }

  /** The record that a stored record denotes. */
  function View(mem: Bytes, r: Stored): Record {
    Record(r.id, r.revision, r.created, r.updated, r.flags,
      Text(mem, r.title), Text(mem, r.username), Text(mem, r.password), Text(mem, r.notes),
      Texts(mem, r.urls), Texts(mem, r.tags), FieldsView(mem, r.fields))
  }

  function Views(mem: Bytes, rs: seq<Stored>): (v: seq<Record>)
    ensures |v| == |rs|
  {
    seq(|rs|, k requires 0 <= k < |rs| => View(mem, rs[k]))
  }

  // ---------- a view depends only on the record's own slices ----------

  lemma {:induction false} FieldsViewSame(mem: Bytes, later: Bytes, fs: seq<StoredField>)
    requires Texts(later, FieldSlices(fs)) == Texts(mem, FieldSlices(fs))
    ensures FieldsView(later, fs) == FieldsView(mem, fs)
  {
    hide Text;
    if fs != [] {
      var n := |fs| - 1;
      var a := FieldSlices(fs[..n]);
      var last := [fs[n].name, fs[n].value];
      TextsSplit(mem, a, last);
      TextsSplit(later, a, last);
      LastTwo(Texts(mem, a), Texts(mem, last), Texts(later, a), Texts(later, last));
      assert Texts(mem, last)[0] == Text(mem, fs[n].name) && Texts(mem, last)[1] == Text(mem, fs[n].value);
      assert Texts(later, last)[0] == Text(later, fs[n].name) && Texts(later, last)[1] == Text(later, fs[n].value);
      FieldsViewSame(mem, later, fs[..n]);
      FieldsViewAppend(mem, fs, n);
      FieldsViewAppend(later, fs, n);
    }
  }

  lemma LastTwo(a: seq<Bytes>, x: seq<Bytes>, b: seq<Bytes>, y: seq<Bytes>)
    requires a + x == b + y && |x| == |y|
    ensures a == b && x == y
  {
    assert a == (a + x)[..|a|] && b == (b + y)[..|b|];
    assert x == (a + x)[|a|..] && y == (b + y)[|b|..];
  }

  lemma FieldsViewAppend(mem: Bytes, stored: seq<StoredField>, n: nat)
    requires |stored| == n + 1
    ensures FieldsView(mem, stored)
      == FieldsView(mem, stored[..n]) + [Field(Text(mem, stored[n].name), Text(mem, stored[n].value), stored[n].flags)]
  {
  }

  lemma TextsSplit(mem: Bytes, a: seq<Slice>, b: seq<Slice>)
    ensures Texts(mem, a + b) == Texts(mem, a) + Texts(mem, b)
    ensures Texts(mem, a + b)[..|a|] == Texts(mem, a) && Texts(mem, a + b)[|a|..] == Texts(mem, b)
  {
  }

  /** The four texts, urls, tags and field texts, as groups. */
  lemma SlicesSplit(mem: Bytes, r: Stored)
    ensures var four := [r.title, r.username, r.password, r.notes];
      Texts(mem, Slices(r)) == Texts(mem, four) + Texts(mem, r.urls) + Texts(mem, r.tags) + Texts(mem, FieldSlices(r.fields))
    ensures Texts(mem, [r.title, r.username, r.password, r.notes])
      == [Text(mem, r.title), Text(mem, r.username), Text(mem, r.password), Text(mem, r.notes)]
  {
    var four := [r.title, r.username, r.password, r.notes];
    TextsSplit(mem, four, r.urls);
    TextsSplit(mem, four + r.urls, r.tags);
    TextsSplit(mem, four + r.urls + r.tags, FieldSlices(r.fields));
  }

  lemma FourParts<T>(a: seq<T>, b: seq<T>, c: seq<T>, d: seq<T>, x: seq<T>, y: seq<T>, z: seq<T>, w: seq<T>)
    requires a + b + c + d == x + y + z + w && |a| == |x| && |b| == |y| && |c| == |z|
    ensures a == x && b == y && c == z && d == w
  {
    var s, t := a + b + c + d, x + y + z + w;
    assert a == s[..|a|] && x == t[..|a|];
    assert b == s[|a|..|a| + |b|] && y == t[|a|..|a| + |b|];
    assert c == s[|a| + |b|..|a| + |b| + |c|] && z == t[|a| + |b|..|a| + |b| + |c|];
    assert d == s[|a| + |b| + |c|..] && w == t[|a| + |b| + |c|..];
  }

  lemma ViewSame(mem: Bytes, later: Bytes, r: Stored)
    requires Texts(later, Slices(r)) == Texts(mem, Slices(r))
    ensures View(later, r) == View(mem, r)
  {
    SlicesSplit(mem, r);
    SlicesSplit(later, r);
    var four := [r.title, r.username, r.password, r.notes];
    hide Slices, Texts, Text, FieldSlices;
    FourParts(Texts(mem, four), Texts(mem, r.urls), Texts(mem, r.tags), Texts(mem, FieldSlices(r.fields)),
      Texts(later, four), Texts(later, r.urls), Texts(later, r.tags), Texts(later, FieldSlices(r.fields)));
    FieldsViewSame(mem, later, r.fields);
    assert Text(mem, r.title) == Texts(mem, four)[0] && Text(later, r.title) == Texts(later, four)[0];
    assert Text(mem, r.username) == Texts(mem, four)[1] && Text(later, r.username) == Texts(later, four)[1];
    assert Text(mem, r.password) == Texts(mem, four)[2] && Text(later, r.password) == Texts(later, four)[2];
    assert Text(mem, r.notes) == Texts(mem, four)[3] && Text(later, r.notes) == Texts(later, four)[3];
  }

  // ---------- the invariant of the memory ----------

  /** All slices lie in the used part, and no two of them overlap. */
  predicate Tidy(used: nat, rs: seq<Stored>) {
    && (forall i :: 0 <= i < |rs| ==> AllBetween(Slices(rs[i]), 0, used) && Disjoint(Slices(rs[i])))
    && forall i, j :: 0 <= i < |rs| && 0 <= j < |rs| && i != j ==> Separate(Slices(rs[i]), Slices(rs[j]))
  }

  /** What every operation keeps: tidy memory, distinct non-zero ids, and an arena that pays for all that is live. */
  predicate Sound(mem: Bytes, used: nat, cap: nat, rs: seq<Stored>) {
    && |mem| == ArenaCapacity && used <= ArenaCapacity
    && Tidy(used, rs) && IdsSound(Views(mem, rs))
    && Budget(used, cap, Views(mem, rs))
  }

  predicate IdsSound(rs: seq<Record>) {
    && DistinctIds(rs)
    && forall k :: 0 <= k < |rs| ==> Typed(rs[k]) && !IsZero(rs[k].id) && rs[k].revision != 0
  }

  /** Growth above `used` leaves the records as they were. */
  lemma GrowthKeepsViews(mem: Bytes, later: Bytes, used: nat, rs: seq<Stored>)
    requires Tidy(used, rs) && SameBelow(mem, later, used) && used <= |mem|
    ensures Views(later, rs) == Views(mem, rs)
  {
    forall i | 0 <= i < |rs| ensures View(later, rs[i]) == View(mem, rs[i]) {
      TextsKept(mem, later, Slices(rs[i]), 0, used);
      ViewSame(mem, later, rs[i]);
    }
  }

  lemma BetweenWeaken(ss: seq<Slice>, lo: nat, hi: nat, lower: nat, higher: nat)
    requires AllBetween(ss, lo, hi) && lower <= lo && hi <= higher
    ensures AllBetween(ss, lower, higher)
  {
    forall k | 0 <= k < |ss| ensures Between(ss[k], lower, higher) {
      assert Between(ss[k], lo, hi);
    }
  }

  lemma TidyWeaken(used: nat, later: nat, rs: seq<Stored>)
    requires Tidy(used, rs) && used <= later
    ensures Tidy(later, rs)
  {
    forall i | 0 <= i < |rs| ensures AllBetween(Slices(rs[i]), 0, later) {
      BetweenWeaken(Slices(rs[i]), 0, used, 0, later);
    }
  }

  /** A failed operation may have used up arena space; nothing else. */
  lemma GrowthKeepsSound(mem: Bytes, later: Bytes, used: nat, laterUsed: nat, cap: nat, rs: seq<Stored>)
    requires Sound(mem, used, cap, rs) && SameBelow(mem, later, used) && used <= laterUsed <= ArenaCapacity
    ensures Sound(later, laterUsed, cap, rs) && Views(later, rs) == Views(mem, rs)
  {
    GrowthKeepsViews(mem, later, used, rs);
    TidyWeaken(used, laterUsed, rs);
  }

  // ---------- adding ----------

  /** A record placed above everything used so far keeps the invariant and becomes the last one. */
  lemma AddKeepsSound(mem: Bytes, later: Bytes, used: nat, cap: nat, rs: seq<Stored>, r: Stored, hi: nat)
    requires Sound(mem, used, cap, rs) && |rs| < cap && SameBelow(mem, later, used)
    requires AllBetween(Slices(r), used, hi) && Disjoint(Slices(r))
    requires PutRecord(used, View(later, r)) == Some(hi)
    requires Typed(View(later, r)) && !IsZero(r.id) && r.revision != 0
    requires forall k :: 0 <= k < |rs| ==> rs[k].id != r.id
    ensures Sound(later, hi, cap, rs + [r]) && Views(later, rs + [r]) == Views(mem, rs) + [View(later, r)]
  {
    assert |later| == |mem|;
    ViewId(later, r);
    hide Slices, Tidy, Budget, IdsSound, SameBelow, Views, PutRecord, RecordCost, View, Typed, IsZero, Disjoint, AllBetween;
    GrowthKeepsViews(mem, later, used, rs);
    ViewsAppend(later, rs, r);
    ViewsIds(mem, rs);
    AddKeepsBudget(used, cap, Views(mem, rs), View(later, r));
    AddKeepsIds(Views(mem, rs), View(later, r));
    AddKeepsTidy(used, rs, r, hi);
  }

  lemma ViewsAppend(mem: Bytes, rs: seq<Stored>, r: Stored)
    ensures Views(mem, rs + [r]) == Views(mem, rs) + [View(mem, r)]
  {
    hide View;
  }

  lemma ViewsIds(mem: Bytes, rs: seq<Stored>)
    ensures forall k :: 0 <= k < |rs| ==> Views(mem, rs)[k].id == rs[k].id
  {
  }

  lemma ViewId(mem: Bytes, r: Stored)
    ensures View(mem, r).id == r.id && View(mem, r).revision == r.revision
  {
  }

  lemma AddKeepsIds(rs: seq<Record>, r: Record)
    requires IdsSound(rs) && Typed(r) && !IsZero(r.id) && r.revision != 0
    requires forall k :: 0 <= k < |rs| ==> rs[k].id != r.id
    ensures IdsSound(rs + [r])
  {
  }

  lemma ChangeKeepsIds(rs: seq<Record>, k: nat, r: Record)
    requires IdsSound(rs) && k < |rs| && r.id == rs[k].id && Typed(r) && r.revision != 0
    ensures IdsSound(rs[k := r])
  {
    var changed := rs[k := r];
    forall i, j | 0 <= i < j < |rs| ensures changed[i].id != changed[j].id {
      assert rs[i].id != rs[j].id;
    }
  }

  lemma AddKeepsTidy(used: nat, rs: seq<Stored>, r: Stored, hi: nat)
    requires Tidy(used, rs) && used <= hi && AllBetween(Slices(r), used, hi) && Disjoint(Slices(r))
    ensures Tidy(hi, rs + [r])
  {
    hide Slices;
    TidyWeaken(used, hi, rs);
    BetweenWeaken(Slices(r), used, hi, 0, hi);
    forall i | 0 <= i < |rs| ensures Separate(Slices(rs[i]), Slices(r)) && Separate(Slices(r), Slices(rs[i])) {
      SidesSeparate(Slices(rs[i]), Slices(r), 0, used, hi);
    }
  }

  // ---------- changing one record ----------

  /** Every slice is empty, one of `own`, or freshly allocated. */
  predicate Derived(ss: seq<Slice>, own: seq<Slice>, used: nat, later: nat) {
    forall k :: 0 <= k < |ss| ==> ss[k].len == 0 || ss[k] in own || Between(ss[k], used, later)
  }

  lemma DerivedSeparate(ss: seq<Slice>, own: seq<Slice>, other: seq<Slice>, used: nat, later: nat)
    requires Derived(ss, own, used, later) && Separate(other, own) && AllBetween(other, 0, used)
    ensures Separate(other, ss) && Separate(ss, other)
  {
    forall i, j | 0 <= i < |other| && 0 <= j < |ss| ensures Apart(other[i], ss[j]) && Apart(ss[j], other[i]) {
      assert Between(other[i], 0, used);
      if ss[j] in own {
        var k :| 0 <= k < |own| && own[k] == ss[j];
        assert Apart(other[i], own[k]);
      }
    }
  }

  lemma ChangeKeepsTidy(used: nat, later: nat, rs: seq<Stored>, k: nat, r: Stored)
    requires Tidy(used, rs) && k < |rs| && used <= later
    requires Derived(Slices(r), Slices(rs[k]), used, later)
    requires AllBetween(Slices(r), 0, later) && Disjoint(Slices(r))
    ensures Tidy(later, rs[k := r])
  {
    hide Slices;
    TidyWeaken(used, later, rs);
    forall i | 0 <= i < |rs| && i != k ensures Separate(Slices(rs[i]), Slices(r)) && Separate(Slices(r), Slices(rs[i])) {
      DerivedSeparate(Slices(r), Slices(rs[k]), Slices(rs[i]), used, later);
    }
  }

  /** Wiping slices of record `k` leaves every other record's texts alone. */
  lemma WipeKeepsOthers(mem: Bytes, mid: Bytes, zs: seq<Slice>, used: nat, rs: seq<Stored>, k: nat, i: nat)
    requires Tidy(used, rs) && k < |rs| && i < |rs| && i != k && used <= |mem|
    requires SameBelow(mem, mid, used) && Derived(zs, Slices(rs[k]), used, used)
    ensures View(Wiped(mid, zs), rs[i]) == View(mem, rs[i])
  {
    TextsKept(mem, mid, Slices(rs[i]), 0, used);
    DerivedSeparate(zs, Slices(rs[k]), Slices(rs[i]), used, used);
    WipedKeepsAll(mid, zs, Slices(rs[i]));
    ViewSame(mem, Wiped(mid, zs), rs[i]);
  }

  lemma {:induction false} ChangedCost(rs: seq<Record>, k: nat, r: Record)
    requires k < |rs|
    ensures RecordsCost(rs[k := r]) == RecordsCost(rs) - RecordCost(rs[k]) + RecordCost(r)
  {
    hide RecordCost;
    var n := |rs| - 1;
    if k == n {
      assert rs[k := r][..n] == rs[..n];
    } else {
      ChangedCost(rs[..n], k, r);
      assert rs[k := r][..n] == rs[..n][k := r];
    }
  }

  /** Record `k` changed and its dropped texts wiped: the invariant holds and nobody else has changed. */
  lemma ChangeKeepsSound(mem: Bytes, mid: Bytes, zs: seq<Slice>, used: nat, later: nat, cap: nat, rs: seq<Stored>, k: nat, r: Stored)
    requires Sound(mem, used, cap, rs) && k < |rs| && used <= later <= ArenaCapacity
    requires SameBelow(mem, mid, used) && Derived(zs, Slices(rs[k]), used, used)
    requires Derived(Slices(r), Slices(rs[k]), used, later)
    requires AllBetween(Slices(r), 0, later) && Disjoint(Slices(r))
    requires r.id == rs[k].id && Typed(View(Wiped(mid, zs), r)) && r.revision != 0
    requires RecordCost(View(Wiped(mid, zs), r)) <= RecordCost(View(mem, rs[k])) + (later - used)
    ensures Sound(Wiped(mid, zs), later, cap, rs[k := r])
    ensures Views(Wiped(mid, zs), rs[k := r]) == Views(mem, rs)[k := View(Wiped(mid, zs), r)]
  {
    var w := Wiped(mid, zs);
    ChangeKeepsIds(Views(mem, rs), k, View(w, r));
    hide Slices, RecordCost, IdsSound, Tidy, Wiped, SameBelow, Derived, Disjoint, AllBetween, View, Typed;
    forall i | 0 <= i < |rs| && i != k ensures View(w, rs[i]) == View(mem, rs[i]) {
      WipeKeepsOthers(mem, mid, zs, used, rs, k, i);
    }
    assert Views(w, rs[k := r]) == Views(mem, rs)[k := View(w, r)];
    ChangedCost(Views(mem, rs), k, View(w, r));
    ChangeKeepsTidy(used, later, rs, k, r);
  }

  // ---------- replacing a stretch of a record's slices ----------

  /** A middle stretch replaced by added slices: what `ChangeKeepsSound` needs. */
  lemma SwapMiddle(pre: seq<Slice>, mid: seq<Slice>, added: seq<Slice>, post: seq<Slice>, used: nat, later: nat)
    requires Disjoint(pre + mid + post) && AllBetween(pre + mid + post, 0, used) && used <= later
    requires Disjoint(added) && AllBetween(added, used, later)
    ensures Derived(pre + added + post, pre + mid + post, used, later) && Derived(mid, pre + mid + post, used, used)
    ensures AllBetween(pre + added + post, 0, later) && Disjoint(pre + added + post)
    ensures Separate(pre + added + post, mid)
  {
    var a, b := pre + mid + post, pre + added + post;
    var shift := |mid| - |added|;
    forall i | 0 <= i < |b| && !(|pre| <= i < |pre| + |added|)
      ensures var o := if i < |pre| then i else i + shift; 0 <= o < |a| && b[i] == a[o] && !(|pre| <= o < |pre| + |mid|) {
    }
    forall i | 0 <= i < |added| ensures b[|pre| + i] == added[i] && Between(added[i], used, later) {
    }
    forall i | 0 <= i < |mid| ensures a[|pre| + i] == mid[i] && mid[i] in a && Between(mid[i], 0, used) {
      assert Between(a[|pre| + i], 0, used);
    }
    forall i | 0 <= i < |a| ensures Between(a[i], 0, used) {
    }
    SwapApart(pre, mid, added, post, used, later);
  }

  lemma DisjointPair(a: seq<Slice>, i: nat, j: nat)
    requires Disjoint(a) && i < |a| && j < |a| && i != j
    ensures Apart(a[i], a[j])
  {
    assert Apart(a[if i < j then i else j], a[if i < j then j else i]);
  }

  lemma SwapApart(pre: seq<Slice>, mid: seq<Slice>, added: seq<Slice>, post: seq<Slice>, used: nat, later: nat)
    requires Disjoint(pre + mid + post) && AllBetween(pre + mid + post, 0, used) && used <= later
    requires Disjoint(added) && AllBetween(added, used, later)
    ensures Disjoint(pre + added + post) && Separate(pre + added + post, mid)
  {
    var a, b := pre + mid + post, pre + added + post;
    var origin := (i: int) => if i < |pre| then i else i + |mid| - |added|;
    forall i, j | 0 <= i < j < |b| ensures Apart(b[i], b[j]) {
      if |pre| <= i < |pre| + |added| {
        assert b[i] == added[i - |pre|] && Between(b[i], used, later);
        if j < |pre| + |added| {
          assert b[j] == added[j - |pre|];
        } else {
          assert b[j] == a[origin(j)] && Between(a[origin(j)], 0, used);
        }
      } else if |pre| <= j < |pre| + |added| {
        assert b[j] == added[j - |pre|] && Between(b[j], used, later);
        assert b[i] == a[origin(i)] && Between(a[origin(i)], 0, used);
      } else {
        assert b[i] == a[origin(i)] && b[j] == a[origin(j)];
      }
    }
    forall i, j | 0 <= i < |b| && 0 <= j < |mid| ensures Apart(b[i], mid[j]) {
      assert mid[j] == a[|pre| + j] && Between(a[|pre| + j], 0, used);
      if |pre| <= i < |pre| + |added| {
        assert Between(added[i - |pre|], used, later);
      } else {
        var o := origin(i);
        assert b[i] == a[o] && o != |pre| + j;
        DisjointPair(a, o, |pre| + j);
      }
    }
  }

  /** The slices `mid` of record `k` dropped and wiped, `added` ones in their place. */
  lemma SwapKeepsSound(mem: Bytes, grown: Bytes, used: nat, later: nat, cap: nat, rs: seq<Stored>, k: nat, r: Stored,
    pre: seq<Slice>, mid: seq<Slice>, added: seq<Slice>, post: seq<Slice>)
    requires Sound(mem, used, cap, rs) && k < |rs| && SameBelow(mem, grown, used) && used <= later <= ArenaCapacity
    requires Slices(rs[k]) == pre + mid + post && Slices(r) == pre + added + post
    requires Disjoint(added) && AllBetween(added, used, later)
    requires r.id == rs[k].id && Typed(View(grown, r)) && r.revision != 0
    requires RecordCost(View(grown, r)) <= RecordCost(View(mem, rs[k])) + (later - used)
    ensures Sound(Wiped(grown, mid), later, cap, rs[k := r])
    ensures Views(Wiped(grown, mid), rs[k := r]) == Views(mem, rs)[k := View(grown, r)]
  {
    assert AllBetween(Slices(rs[k]), 0, used) && Disjoint(Slices(rs[k]));
    hide Slices, Sound, RecordCost, View, Typed, Tidy, SameBelow, Wiped, Texts, Views;
    SwapMiddle(pre, mid, added, post, used, later);
    WipedKeepsAll(grown, mid, Slices(r));
    ViewSame(grown, Wiped(grown, mid), r);
    ChangeKeepsSound(mem, grown, mid, used, later, cap, rs, k, r);
  }

  /** Growth leaves record `k` itself as it was. */
  lemma OwnViewKept(mem: Bytes, grown: Bytes, used: nat, rs: seq<Stored>, k: nat)
    requires Tidy(used, rs) && k < |rs| && SameBelow(mem, grown, used) && used <= |mem|
    ensures View(grown, rs[k]) == View(mem, rs[k])
  {
    TextsKept(mem, grown, Slices(rs[k]), 0, used);
    ViewSame(mem, grown, rs[k]);
  }
}

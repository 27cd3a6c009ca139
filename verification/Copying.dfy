/** Copying a record's texts into the arena (copy_slices, copy_fields and the body of pv_model_add_record). */
module Copying {
  import opened Prelude
  import opened Records
  import opened Layout
  import opened Memory
  import opened Arenas
  import opened Model
  import Utf8

  // ---------- what the loops rely on ----------

  lemma SameBelowTrans(a: Bytes, b: Bytes, c: Bytes, lo: nat, hi: nat)
    requires SameBelow(a, b, lo) && SameBelow(b, c, hi) && lo <= hi
    ensures SameBelow(a, c, lo)
  {
  }

  predicate AllAtMost(ts: seq<Bytes>, max: nat) {
    forall k :: 0 <= k < |ts| ==> |ts[k]| <= max
  }

  lemma {:induction false} PutTextsPrefix(u: nat, ts: seq<Bytes>, k: nat)
    requires k <= |ts| && PutTexts(u, ts).Some?
    ensures PutTexts(u, ts[..k]).Some?
    decreases |ts| - k
  {
    if k < |ts| {
      PutTextsPrefix(u, ts, k + 1);
      assert ts[..k + 1][..k] == ts[..k];
    } else {
      assert ts[..k] == ts;
    }
  }

  lemma {:induction false} PutFieldsPrefix(u: nat, fs: seq<Field>, k: nat)
    requires k <= |fs| && PutFields(u, fs).Some?
    ensures PutFields(u, fs[..k]).Some?
    decreases |fs| - k
  {
    if k < |fs| {
      PutFieldsPrefix(u, fs, k + 1);
      assert fs[..k + 1][..k] == fs[..k];
    } else {
      assert fs[..k] == fs;
    }
  }

  lemma PutTextsStep(u: nat, ts: seq<Bytes>, k: nat)
    requires k < |ts| && PutTexts(u, ts[..k]).Some?
    ensures PutTexts(u, ts[..k + 1]) == PutText(PutTexts(u, ts[..k]).value, ts[k])
    ensures ts[..k + 1] == ts[..k] + [ts[k]]
  {
    assert ts[..k + 1][..k] == ts[..k];
  }

  lemma PutFieldsStep(u: nat, fs: seq<Field>, k: nat)
    requires k < |fs| && PutFields(u, fs[..k]).Some?
    ensures PutFields(u, fs[..k + 1]) == PutField(PutFields(u, fs[..k]).value, fs[k])
    ensures fs[..k + 1] == fs[..k] + [fs[k]]
  {
    assert fs[..k + 1][..k] == fs[..k];
  }

  /** Ready for allocation: writable, and of the size every vault uses. */
  ghost predicate Open(arena: Arena)
    reads arena
  {
    arena.Valid() && !arena.readonly && arena.buf.Length == ArenaCapacity
  }

  /** The loop of copy_slices. */
  method CopyTexts(arena: Arena, ts: seq<Bytes>, max: nat) returns (st: Status, ss: seq<Slice>)
    requires Open(arena) && AllAtMost(ts, max)
    modifies arena`used, arena.buf
    ensures Open(arena) && old(arena.used) <= arena.used
    ensures SameBelow(old(arena.buf[..]), arena.buf[..], old(arena.used))
    ensures st == OK <==> PutTexts(old(arena.used), ts).Some?
    ensures st == OK ==> arena.used == PutTexts(old(arena.used), ts).value
    ensures st == OK ==> Placed(arena.buf[..], ss, ts, old(arena.used), arena.used)
    ensures st == OK || st == Limit
  {
    hide Placed, PutText, SameBelow;
    ss := [];
    ghost var u, before := arena.used, arena.buf[..];
    PlacedNone(before, u);
    SameBelowSelf(before, u);
    for k := 0 to |ts|
      invariant Open(arena) && u <= arena.used && SameBelow(before, arena.buf[..], u)
      invariant PutTexts(u, ts[..k]) == Some(arena.used)
      invariant Placed(arena.buf[..], ss, ts[..k], u, arena.used)
    {
      ghost var v, mid := arena.used, arena.buf[..];
      PutTextsStep(u, ts, k);
      PutTextWhen(v, ts[k]);
      var s;
      st, s := arena.Copy(ts[k], max);
      SameBelowTrans(before, mid, arena.buf[..], u, v);
      if st != OK {
        if PutTexts(u, ts).Some? {
          PutTextsPrefix(u, ts, k + 1);
        }
        return;
      }
      PlacedConcat(mid, arena.buf[..], ss, ts[..k], [s], [ts[k]], u, v, arena.used);
      ss := ss + [s];
    }
    assert ts[..|ts|] == ts;
    st := OK;
  }

  lemma SameBelowSelf(mem: Bytes, hi: nat)
    ensures SameBelow(mem, mem, hi)
  {
  }

  /** When the arena takes a text, and what it then has used. */
  lemma PutTextWhen(u: nat, t: Bytes)
    ensures PutText(u, t) == if t == [] || u + |t| + 1 <= ArenaCapacity then Some(u + TextCost(t)) else None
  {
  }

  /** copy_slices. */
  method CopySlices(arena: Arena, ts: seq<Bytes>, max: nat) returns (st: Status, ss: seq<Slice>)
    requires Open(arena) && AllAtMost(ts, max)
    modifies arena`used, arena.buf
    ensures Open(arena) && old(arena.used) <= arena.used
    ensures SameBelow(old(arena.buf[..]), arena.buf[..], old(arena.used))
    ensures st == OK <==> |ts| <= MaxItems && PutSlices(old(arena.used), ts).Some?
    ensures st == OK ==> arena.used == PutSlices(old(arena.used), ts).value
    ensures st == OK ==> Placed(arena.buf[..], ss, ts, old(arena.used), arena.used)
    ensures st == OK || st == Limit
  {
    hide PutTexts;
    ss := [];
    ghost var u, before := arena.used, arena.buf[..];
    if ts == [] {
      PlacedNone(arena.buf[..], u);
      PutTextsNone(u);
      return OK, [];
    }
    if |ts| > MaxItems {
      return Limit, [];
    }
    var at := arena.Alloc(|ts| * SliceSize, 8);
    if at.None? {
      return Limit, [];
    }
    ghost var mid := arena.buf[..];
    ghost var v := arena.used;
    st, ss := CopyTexts(arena, ts, max);
    SameBelowTrans(before, mid, arena.buf[..], u, v);
    if st == OK {
      PlacedLower(arena.buf[..], ss, ts, u, v, arena.used);
    }
  }

  lemma PutTextsNone(u: nat)
    ensures PutTexts(u, []) == Some(u)
  {
  }

  lemma PlacedLower(mem: Bytes, ss: seq<Slice>, ts: seq<Bytes>, lower: nat, lo: nat, hi: nat)
    requires Placed(mem, ss, ts, lo, hi) && lower <= lo
    ensures Placed(mem, ss, ts, lower, hi)
  {
    BetweenWeaken(ss, lo, hi, lower, hi);
  }

  // ---------- custom fields ----------

  function FieldTexts(fs: seq<Field>): seq<Bytes> {
    if fs == [] then [] else FieldTexts(fs[..|fs| - 1]) + [fs[|fs| - 1].name, fs[|fs| - 1].value]
  }

  predicate SameFlags(stored: seq<StoredField>, fs: seq<Field>) {
    && |stored| == |fs|
    && forall k :: 0 <= k < |fs| ==> stored[k].flags == fs[k].flags
  }

  lemma FieldSlicesStep(stored: seq<StoredField>, f: StoredField)
    ensures FieldSlices(stored + [f]) == FieldSlices(stored) + [f.name, f.value]
  {
    assert (stored + [f])[..|stored|] == stored;
  }

  lemma FieldTextsStep(fs: seq<Field>, k: nat)
    requires k < |fs|
    ensures FieldTexts(fs[..k + 1]) == FieldTexts(fs[..k]) + [fs[k].name, fs[k].value]
  {
    assert fs[..k + 1][..k] == fs[..k];
  }

  lemma {:induction false} FieldsFromTexts(mem: Bytes, stored: seq<StoredField>, fs: seq<Field>)
    requires SameFlags(stored, fs) && Texts(mem, FieldSlices(stored)) == FieldTexts(fs)
    ensures FieldsView(mem, stored) == fs
  {
    hide Text;
    if fs != [] {
      var n := |fs| - 1;
      var a := FieldSlices(stored[..n]);
      var last := [stored[n].name, stored[n].value];
      TextsSplit(mem, a, last);
      LastTwo(Texts(mem, a), Texts(mem, last), FieldTexts(fs[..n]), [fs[n].name, fs[n].value]);
      assert Texts(mem, last)[0] == Text(mem, stored[n].name) && Texts(mem, last)[1] == Text(mem, stored[n].value);
      FieldsFromTexts(mem, stored[..n], fs[..n]);
      FieldsViewAppend(mem, stored, n);
      assert fs == fs[..n] + [fs[n]];
    }
  }

  /** One field: its name, then its value. */
  method CopyField(arena: Arena, f: Field) returns (st: Status, stored: StoredField)
    requires Open(arena) && FieldValid(f)
    modifies arena`used, arena.buf
    ensures Open(arena) && old(arena.used) <= arena.used
    ensures SameBelow(old(arena.buf[..]), arena.buf[..], old(arena.used))
    ensures st == OK <==> PutField(old(arena.used), f).Some?
    ensures st == OK ==> arena.used == PutField(old(arena.used), f).value && stored.flags == f.flags
    ensures st == OK ==>
      Placed(arena.buf[..], [stored.name, stored.value], [f.name, f.value], old(arena.used), arena.used)
    ensures st == OK || st == Limit
  {
    hide Placed, PutText, SameBelow, Utf8.Valid, Text, Texts;
    ghost var v, before := arena.used, arena.buf[..];
    stored := StoredField(Nothing, Nothing, f.flags);
    PutTextWhen(v, f.name);
    var name, value;
    st, name := arena.Copy(f.name, MaxFieldName);
    if st != OK {
      return;
    }
    ghost var w, mid := arena.used, arena.buf[..];
    PutTextWhen(w, f.value);
    st, value := arena.Copy(f.value, MaxFieldValue);
    SameBelowTrans(before, mid, arena.buf[..], v, w);
    if st == OK {
      PlacedConcat(mid, arena.buf[..], [name], [f.name], [value], [f.value], v, w, arena.used);
      assert [name] + [value] == [name, value] && [f.name] + [f.value] == [f.name, f.value];
      stored := StoredField(name, value, f.flags);
    }
  }

  /** The loop of copy_fields: each field's name, then its value. */
  method CopyFieldTexts(arena: Arena, fs: seq<Field>) returns (st: Status, stored: seq<StoredField>)
    requires Open(arena) && FieldsValid(fs)
    modifies arena`used, arena.buf
    ensures Open(arena) && old(arena.used) <= arena.used
    ensures SameBelow(old(arena.buf[..]), arena.buf[..], old(arena.used))
    ensures st == OK <==> PutFields(old(arena.used), fs).Some?
    ensures st == OK ==> arena.used == PutFields(old(arena.used), fs).value && SameFlags(stored, fs)
    ensures st == OK ==> Placed(arena.buf[..], FieldSlices(stored), FieldTexts(fs), old(arena.used), arena.used)
    ensures st == OK || st == Limit
  {
    stored := [];
    ghost var u, before := arena.used, arena.buf[..];
    PlacedNone(before, u);
    SameBelowSelf(before, u);
    assert FieldSlices([]) == [] && FieldTexts(fs[..0]) == [] && SameFlags([], fs[..0]);
    hide Placed, PutField, SameBelow, FieldSlices, FieldTexts, PutFields, FieldValid, SameFlags;
    PutFieldsNone(u);
    assert fs[..0] == [];
    for k := 0 to |fs|
      invariant Open(arena) && u <= arena.used && SameBelow(before, arena.buf[..], u)
      invariant PutFields(u, fs[..k]) == Some(arena.used) && SameFlags(stored, fs[..k])
      invariant Placed(arena.buf[..], FieldSlices(stored), FieldTexts(fs[..k]), u, arena.used)
    {
      ghost var v, mid := arena.used, arena.buf[..];
      PutFieldsStep(u, fs, k);
      if PutFields(u, fs).Some? {
        PutFieldsPrefix(u, fs, k + 1);
      }
      assert FieldValid(fs[k]);
      var f;
      st, f := CopyField(arena, fs[k]);
      SameBelowTrans(before, mid, arena.buf[..], u, v);
      if st != OK {
        return;
      }
      PlacedConcat(mid, arena.buf[..], FieldSlices(stored), FieldTexts(fs[..k]),
        [f.name, f.value], [fs[k].name, fs[k].value], u, v, arena.used);
      FieldSlicesStep(stored, f);
      FieldTextsStep(fs, k);
      SameFlagsStep(stored, fs, k, f);
      stored := stored + [f];
    }
    assert fs[..|fs|] == fs;
    st := OK;
  }

  lemma SameFlagsStep(stored: seq<StoredField>, fs: seq<Field>, k: nat, f: StoredField)
    requires k < |fs| && SameFlags(stored, fs[..k]) && f.flags == fs[k].flags
    ensures SameFlags(stored + [f], fs[..k + 1])
  {
    forall i | 0 <= i <= k ensures (stored + [f])[i].flags == fs[..k + 1][i].flags {
      if i < k {
        assert stored[i].flags == fs[..k][i].flags;
      }
    }
  }

  lemma PutFieldsNone(u: nat)
    ensures PutFields(u, []) == Some(u)
  {
  }

  /** copy_fields. */
  method CopyFields(arena: Arena, fs: seq<Field>) returns (st: Status, stored: seq<StoredField>)
    requires Open(arena) && FieldsValid(fs)
    modifies arena`used, arena.buf
    ensures Open(arena) && old(arena.used) <= arena.used
    ensures SameBelow(old(arena.buf[..]), arena.buf[..], old(arena.used))
    ensures st == OK <==> |fs| <= MaxItems && PutFieldArray(old(arena.used), fs).Some?
    ensures st == OK ==> arena.used == PutFieldArray(old(arena.used), fs).value && SameFlags(stored, fs)
    ensures st == OK ==> Placed(arena.buf[..], FieldSlices(stored), FieldTexts(fs), old(arena.used), arena.used)
    ensures st == OK || st == Limit
  {
    ghost var u, before := arena.used, arena.buf[..];
    if fs == [] {
      PlacedNone(arena.buf[..], u);
      PutFieldsNone(u);
      return OK, [];
    }
    stored := [];
    if |fs| > MaxItems {
      return Limit, [];
    }
    hide PutFields, FieldTexts, FieldSlices, FieldsValid;
    var at := arena.Alloc(|fs| * FieldSize, 8);
    if at.None? {
      return Limit, [];
    }
    ghost var v, mid := arena.used, arena.buf[..];
    st, stored := CopyFieldTexts(arena, fs);
    SameBelowTrans(before, mid, arena.buf[..], u, v);
    if st == OK {
      PlacedLower(arena.buf[..], FieldSlices(stored), FieldTexts(fs), u, v, arena.used);
    }
  }

  // ---------- whole records ----------

  /** Title, username, password and notes, in this order. */
  method CopyFour(arena: Arena, r: Record) returns (st: Status, a: Slice, b: Slice, c: Slice, d: Slice)
    requires Open(arena) && WithinLimits(r)
    modifies arena`used, arena.buf
    ensures Open(arena) && old(arena.used) <= arena.used
    ensures SameBelow(old(arena.buf[..]), arena.buf[..], old(arena.used))
    ensures st == OK <==> PutFour(old(arena.used), r).Some?
    ensures st == OK ==> arena.used == PutFour(old(arena.used), r).value
    ensures st == OK ==> Placed(arena.buf[..], [a] + [b] + [c] + [d], [r.title] + [r.username] + [r.password] + [r.notes],
        old(arena.used), arena.used)
    ensures st == OK || st == Limit
  {
    hide Placed, PutText, SameBelow, Text, Texts;
    a, b, c, d := Nothing, Nothing, Nothing, Nothing;
    ghost var u, m0 := arena.used, arena.buf[..];
    PutTextWhen(u, r.title);
    st, a := arena.Copy(r.title, MaxTitle);
    if st != OK {
      return;
    }
    ghost var u1, m1 := arena.used, arena.buf[..];
    PutTextWhen(u1, r.username);
    st, b := arena.Copy(r.username, MaxUsername);
    SameBelowTrans(m0, m1, arena.buf[..], u, u1);
    if st != OK {
      return;
    }
    ghost var u2, m2 := arena.used, arena.buf[..];
    PlacedConcat(m1, m2, [a], [r.title], [b], [r.username], u, u1, u2);
    PutTextWhen(u2, r.password);
    st, c := arena.Copy(r.password, MaxPassword);
    SameBelowTrans(m0, m2, arena.buf[..], u, u2);
    if st != OK {
      return;
    }
    ghost var u3, m3 := arena.used, arena.buf[..];
    PlacedConcat(m2, m3, [a] + [b], [r.title] + [r.username], [c], [r.password], u, u2, u3);
    PutTextWhen(u3, r.notes);
    st, d := arena.Copy(r.notes, MaxNotes);
    SameBelowTrans(m0, m3, arena.buf[..], u, u3);
    if st != OK {
      return;
    }
    PlacedConcat(m3, arena.buf[..], [a] + [b] + [c], [r.title] + [r.username] + [r.password], [d], [r.notes], u, u3, arena.used);
  }

  lemma RecordPlaced(mem: Bytes, r: Stored, src: Record, lo: nat, hi: nat)
    requires r.id == src.id && r.revision == src.revision && r.created == src.created && r.updated == src.updated
    requires r.flags == src.flags && SameFlags(r.fields, src.fields) && |r.urls| == |src.urls| && |r.tags| == |src.tags|
    requires Placed(mem, [r.title] + [r.username] + [r.password] + [r.notes] + r.urls + r.tags + FieldSlices(r.fields),
      [src.title] + [src.username] + [src.password] + [src.notes] + src.urls + src.tags + FieldTexts(src.fields), lo, hi)
    ensures View(mem, r) == src && AllBetween(Slices(r), lo, hi) && Disjoint(Slices(r))
  {
    var four := [r.title, r.username, r.password, r.notes];
    var texts := [src.title, src.username, src.password, src.notes];
    assert [r.title] + [r.username] + [r.password] + [r.notes] == four;
    assert [src.title] + [src.username] + [src.password] + [src.notes] == texts;
    SlicesSplit(mem, r);
    FourParts(Texts(mem, four), Texts(mem, r.urls), Texts(mem, r.tags), Texts(mem, FieldSlices(r.fields)),
      texts, src.urls, src.tags, FieldTexts(src.fields));
    FieldsFromTexts(mem, r.fields, src.fields);
    hide FieldSlices, FieldTexts, Slices;
    assert Text(mem, r.title) == texts[0] && Text(mem, r.username) == texts[1];
    assert Text(mem, r.password) == texts[2] && Text(mem, r.notes) == texts[3];
  }

  /** What the copying relies on; nothing about the times. */
  predicate Copyable(r: Record) {
    WithinLimits(r) && AllAtMost(r.urls, MaxUrl) && AllAtMost(r.tags, MaxTag) && FieldsValid(r.fields)
  }

  /** Everything of a record, in the order of pv_model_add_record. */
  method CopyRecord(arena: Arena, src: Record) returns (st: Status, r: Stored)
    requires Open(arena) && Copyable(src)
    modifies arena`used, arena.buf
    ensures Open(arena) && old(arena.used) <= arena.used
    ensures SameBelow(old(arena.buf[..]), arena.buf[..], old(arena.used))
    ensures st == OK <==> PutRecord(old(arena.used), src).Some?
    ensures st == OK ==> arena.used == PutRecord(old(arena.used), src).value
    ensures st == OK ==> View(arena.buf[..], r) == src
    ensures st == OK ==> AllBetween(Slices(r), old(arena.used), arena.used) && Disjoint(Slices(r))
    ensures st == OK || st == Limit
  {
    hide Placed, PutFour, PutSlices, PutFieldArray, SameBelow, Text, Texts, View, Slices, FieldSlices, FieldTexts, Disjoint,
      AllBetween, AllAtMost, FieldsValid, TextsValid, Utf8.Valid;
    var title, username, password, notes;
    ghost var u, m0 := arena.used, arena.buf[..];
    st, title, username, password, notes := CopyFour(arena, src);
    r := Stored(src.id, src.revision, src.created, src.updated, src.flags, title, username, password, notes, [], [], []);
    if st != OK {
      return;
    }
    ghost var four := [title] + [username] + [password] + [notes];
    ghost var texts := [src.title] + [src.username] + [src.password] + [src.notes];
    ghost var u1, m1 := arena.used, arena.buf[..];
    var urls;
    st, urls := CopySlices(arena, src.urls, MaxUrl);
    SameBelowTrans(m0, m1, arena.buf[..], u, u1);
    if st != OK {
      return;
    }
    ghost var u2, m2 := arena.used, arena.buf[..];
    PlacedConcat(m1, m2, four, texts, urls, src.urls, u, u1, u2);
    var tags;
    st, tags := CopySlices(arena, src.tags, MaxTag);
    SameBelowTrans(m0, m2, arena.buf[..], u, u2);
    if st != OK {
      return;
    }
    ghost var u3, m3 := arena.used, arena.buf[..];
    PlacedConcat(m2, m3, four + urls, texts + src.urls, tags, src.tags, u, u2, u3);
    var fields;
    st, fields := CopyFields(arena, src.fields);
    SameBelowTrans(m0, m3, arena.buf[..], u, u3);
    if st != OK {
      return;
    }
    PlacedConcat(m3, arena.buf[..], four + urls + tags, texts + src.urls + src.tags, FieldSlices(fields), FieldTexts(src.fields), u, u3, arena.used);
    r := r.(urls := urls, tags := tags, fields := fields);
    PlacedLength(m2, urls, src.urls, u1, u2);
    PlacedLength(m3, tags, src.tags, u2, u3);
    RecordPlaced(arena.buf[..], r, src, u, arena.used);
  }

  lemma PlacedLength(mem: Bytes, ss: seq<Slice>, ts: seq<Bytes>, lo: nat, hi: nat)
    requires Placed(mem, ss, ts, lo, hi)
    ensures |ss| == |ts|
  {
  }
}

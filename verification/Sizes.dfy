/** How long encodings are, against what the arena pays for the same contents. */
module Sizes {
  import opened Prelude
  import opened Records
  import opened Layout
  import opened Cbor
  import opened Schema
  import Utf8

  // ---------- encodings grow at the end ----------

  lemma {:induction false} EncTextsAppend(ts: seq<Bytes>, t: Bytes)
    ensures EncTexts(ts + [t]) == EncTexts(ts) + Blob(3, t)
  {
    hide Blob;
    var all := ts + [t];
    if ts == [] {
      assert all[1..] == [] && all[0] == t;
      assert Blob(3, t) + [] == [] + Blob(3, t);
    } else {
      assert all[1..] == ts[1..] + [t];
      EncTextsAppend(ts[1..], t);
      Assoc(Blob(3, ts[0]), EncTexts(ts[1..]), Blob(3, t));
    }
  }

  lemma {:induction false} EncFieldsAppend(fs: seq<Field>, f: Field)
    ensures EncFields(fs + [f]) == EncFields(fs) + EncField(f)
  {
    hide EncField;
    var all := fs + [f];
    if fs == [] {
      assert all[1..] == [] && all[0] == f;
      assert EncField(f) + [] == [] + EncField(f);
    } else {
      assert all[1..] == fs[1..] + [f];
      EncFieldsAppend(fs[1..], f);
      Assoc(EncField(fs[0]), EncFields(fs[1..]), EncField(f));
    }
  }

  lemma {:induction false} EncRecordsAppend(rs: seq<Record>, r: Record)
    requires AllTimed(rs) && Timed(r)
    ensures AllTimed(rs + [r]) && EncRecords(rs + [r]) == EncRecords(rs) + EncRecord(r)
  {
    hide EncRecord;
    var all := rs + [r];
    if rs == [] {
      assert all[1..] == [] && all[0] == r;
      assert EncRecord(r) + [] == [] + EncRecord(r);
    } else {
      assert all[1..] == rs[1..] + [r];
      EncRecordsAppend(rs[1..], r);
      Assoc(EncRecord(rs[0]), EncRecords(rs[1..]), EncRecord(r));
    }
  }

  // ---------- sizes ----------

  lemma {:induction false} TextsSize(ts: seq<Bytes>, max: nat)
    requires TextsValid(ts, max) && max < 0x1_0000
    ensures |EncTexts(ts)| <= SliceSize * |ts| + TextsCost(ts)
  {
    if ts != [] {
      var n := |ts| - 1;
      TextsSize(ts[..n], max);
      EncTextsAppend(ts[..n], ts[n]);
      assert ts == ts[..n] + [ts[n]];
    }
  }

  lemma OneFieldSize(f: Field)
    requires FieldValid(f)
    ensures |EncField(f)| <= 13 + |f.name| + |f.value|
  {
  }

  lemma {:induction false} FieldsSize(fs: seq<Field>)
    requires FieldsValid(fs)
    ensures |EncFields(fs)| <= FieldSize * |fs| + FieldTextsCost(fs)
  {
    hide EncField;
    if fs != [] {
      var n := |fs| - 1;
      FieldsSize(fs[..n]);
      OneFieldSize(fs[n]);
      EncFieldsAppend(fs[..n], fs[n]);
      assert fs == fs[..n] + [fs[n]];
    }
  }

  lemma FactsSize(r: Record)
    requires FactsValid(r)
    ensures |EncFacts(r)| <= 51
  {
  }

  lemma EntrySizes(k: nat, major: nat, t: Bytes, ts: seq<Bytes>, fs: seq<Field>)
    requires k < 24 && major < 8 && |ts| <= MaxItems && |fs| <= MaxItems
    ensures |EntryBlob(k, major, t)| == 2 + Width(|t|) + |t|
    ensures |EntryTexts(k, ts)| <= 3 + |EncTexts(ts)| && |EntryFields(k, fs)| <= 3 + |EncFields(fs)|
  {
    hide EncTexts, EncFields;
  }

  lemma ContentSize(r: Record)
    requires TextValid(r)
    ensures |EncContent(r)| <= 29 + RecordCost(r)
  {
    hide EntryBlob, EntryTexts, EntryFields, EncTexts, EncFields, TextsCost, FieldTextsCost, TextsValid, FieldsValid, Utf8.Valid;
    TextsSize(r.urls, MaxUrl);
    TextsSize(r.tags, MaxTag);
    FieldsSize(r.fields);
    EntrySizes(5, 3, r.title, r.urls, r.fields);
    EntrySizes(6, 3, r.username, [], []);
    EntrySizes(7, 2, r.password, [], []);
    EntrySizes(8, 2, [], r.urls, []);
    EntrySizes(9, 3, r.notes, [], []);
    EntrySizes(10, 3, [], r.tags, []);
    EntrySizes(11, 3, [], [], r.fields);
  }

  /** A record encodes into at most 80 bytes more than its texts and arrays take in the arena. */
  lemma OneRecordSize(r: Record)
    requires RecordValid(r)
    ensures Timed(r) && |EncRecord(r)| <= 80 + RecordCost(r)
  {
    ValidInParts(r);
    hide EncFacts, EncContent, RecordCost, RecordValid;
    FactsSize(r);
    ContentSize(r);
  }

  lemma {:induction false} RecordsSize(rs: seq<Record>)
    requires RecordsValid(rs)
    ensures AllTimed(rs) && |EncRecords(rs)| <= 80 * |rs| + RecordsCost(rs)
  {
    hide EncRecord, RecordCost, RecordValid;
    TimedIfValid(rs);
    if rs != [] {
      var n := |rs| - 1;
      RecordsSize(rs[..n]);
      OneRecordSize(rs[n]);
      EncRecordsAppend(rs[..n], rs[n]);
      assert rs == rs[..n] + [rs[n]];
    }
  }

  // ---------- the arena of an add-only vault ----------

  /** A vault that was only added to keeps the budget, and so holds at most 4096 records. */
  lemma {:induction false} AddAllBudget(rs: seq<Record>)
    requires AddAll(rs).Some?
    ensures var (u, c) := AddAll(rs).value; Budget(u, c, rs) && |rs| <= 4096
  {
    hide PutRecord, RecordCost, AlignUp;
    if rs != [] {
      var n := |rs| - 1;
      AddAllBudget(rs[..n]);
      var (u, c) := AddAll(rs[..n]).value;
      ReserveKeepsBudget(u, c, rs[..n]);
      var (v, d) := Reserve(u, c, n).value;
      AddKeepsBudget(v, d, rs[..n], rs[n]);
      assert rs == rs[..n] + [rs[n]];
    }
  }
}

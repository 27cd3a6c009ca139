/** The bounded CBOR writer and pv_cbor_encode. */
module Writers {
  import opened Prelude
  import opened Buffers
  import opened Records
  import opened Layout
  import opened Cbor
  import opened Schema
  import opened Sizes
  import opened Vaults
  import opened Plaintext
  import Model
  import Utf8

  /** What a writer holds: the bytes so far, and a status that stays once it is not OK. */
  datatype Output = Output(data: Bytes, status: Status)

  /** From `a`, exactly `e` was appended if it fits `cap`; otherwise the writer has failed. */
  predicate Emits(a: Output, b: Output, e: Bytes, cap: nat) {
    if a.status != OK then b == a
    else if |a.data| + |e| <= cap then b == Output(a.data + e, OK)
    else b.status == Limit
  }

  lemma EmitsThen(a: Output, b: Output, c: Output, e: Bytes, f: Bytes, cap: nat)
    requires Emits(a, b, e, cap) && Emits(b, c, f, cap)
    ensures Emits(a, c, e + f, cap)
  {
    Assoc(a.data, e, f);
  }

  lemma EmitsNone(a: Output, cap: nat)
    requires |a.data| <= cap
    ensures Emits(a, a, [], cap)
  {
    assert a.data + [] == a.data;
  }

  class Writer {
    const buf: array<byte>
    var len: nat
    var status: Status

    ghost predicate Valid()
      reads this
    {
      len <= buf.Length
    }

    ghost function State(): Output
      reads this, buf
      requires Valid()
    {
      Output(buf[..len], status)
    }

    constructor (cap: nat)
      ensures Valid() && fresh(buf) && buf.Length == cap && State() == Output([], OK)
    {
      buf := new byte[cap](_ => 0);
      len := 0;
      status := OK;
    }

    /** writer_bytes. */
    method Raw(e: Bytes)
      requires Valid()
      modifies this, buf
      ensures Valid() && Emits(old(State()), State(), e, buf.Length)
    {
      if status != OK {
        return;
      }
      if e == [] {
        EmitsNone(State(), buf.Length);
        return;
      }
      if len + |e| > buf.Length {
        status := Limit;
        return;
      }
      SpliceParts(buf[..], len, e);
      SplicePrefix(buf[..], len, e);
      CopyInto(buf, len, e);
      len := len + |e|;
    }

    /** writer_type_value: the shortest form, most significant byte first. */
    method TypeValue(major: nat, v: nat)
      requires Valid() && major < 8 && v < Uint64
      modifies this, buf
      ensures Valid() && Emits(old(State()), State(), Head(major, v), buf.Length)
    {
      hide Emits;
      if v < 24 {
        Raw([major * 32 + v]);
        return;
      }
      var width := if v <= 0xff then 1 else if v <= 0xffff then 2 else if v <= 0xffff_ffff then 4 else 8;
      var bytes: Bytes := [];
      var n := v;
      ghost var a := State();
      assert Big(n, width) + bytes == Big(n, width);
      for i := 0 to width
        invariant Valid() && State() == a
        invariant Big(v, width) == Big(n, width - i) + bytes && n >= 0
      {
        Assoc(Big(n / 256, width - i - 1), [n % 256], bytes);
        bytes := [n % 256] + bytes;
        n := n / 256;
      }
      assert Big(n, 0) + bytes == bytes;
      Raw([major * 32 + Additional(width)] + bytes);
    }

    /** writer_blob. */
    method PutBlob(major: nat, t: Bytes)
      requires Valid() && major < 8 && |t| < Uint64
      modifies this, buf
      ensures Valid() && Emits(old(State()), State(), Blob(major, t), buf.Length)
    {
      hide Emits, Head;
      ghost var a := State();
      TypeValue(major, |t|);
      ghost var b := State();
      Raw(t);
      EmitsThen(a, b, State(), Head(major, |t|), t, buf.Length);
    }

    method PutEntryUint(k: nat, v: nat)
      requires Valid() && k < Uint64 && v < Uint64
      modifies this, buf
      ensures Valid() && Emits(old(State()), State(), EntryUint(k, v), buf.Length)
    {
      hide Emits, Head;
      ghost var a := State();
      TypeValue(0, k);
      ghost var b := State();
      TypeValue(0, v);
      EmitsThen(a, b, State(), Head(0, k), Head(0, v), buf.Length);
    }

    method PutEntryBlob(k: nat, major: nat, t: Bytes)
      requires Valid() && k < Uint64 && major < 8 && |t| < Uint64
      modifies this, buf
      ensures Valid() && Emits(old(State()), State(), EntryBlob(k, major, t), buf.Length)
    {
      hide Emits, Head, Blob;
      ghost var a := State();
      TypeValue(0, k);
      ghost var b := State();
      PutBlob(major, t);
      EmitsThen(a, b, State(), Head(0, k), Blob(major, t), buf.Length);
    }

    method PutEntryTexts(k: nat, ts: seq<Bytes>, max: nat)
      requires Valid() && k < Uint64 && |ts| < Uint64 && TextsValid(ts, max) && max < Uint64
      modifies this, buf
      ensures Valid() && Emits(old(State()), State(), EntryTexts(k, ts), buf.Length)
    {
      hide Emits, Head, Blob, EncTexts, Utf8.Valid;
      ghost var a := State();
      TypeValue(0, k);
      ghost var b := State();
      TypeValue(4, |ts|);
      ghost var c := State();
      EmitsThen(a, b, c, Head(0, k), Head(4, |ts|), buf.Length);
      EmitsNone(c, buf.Length);
      EncNoTexts();
      for i := 0 to |ts|
        invariant Valid() && Emits(c, State(), EncTexts(ts[..i]), buf.Length)
      {
        ghost var d := State();
        PutBlob(3, ts[i]);
        EmitsThen(c, d, State(), EncTexts(ts[..i]), Blob(3, ts[i]), buf.Length);
        EncTextsAppend(ts[..i], ts[i]);
        assert ts[..i + 1] == ts[..i] + [ts[i]];
      }
      assert ts[..|ts|] == ts;
      EmitsThen(a, c, State(), Head(0, k) + Head(4, |ts|), EncTexts(ts), buf.Length);
    }

    /** encode_field. */
    method PutField(f: Field)
      requires Valid() && FieldValid(f)
      modifies this, buf
      ensures Valid() && Emits(old(State()), State(), EncField(f), buf.Length)
    {
      hide Emits, Head, EntryBlob, EntryUint, Utf8.Valid;
      ghost var a := State();
      TypeValue(5, 3);
      ghost var b, e := State(), Head(5, 3);
      PutEntryBlob(0, 3, f.name);
      EmitsThen(a, b, State(), e, EntryBlob(0, 3, f.name), buf.Length);
      b, e := State(), e + EntryBlob(0, 3, f.name);
      PutEntryBlob(1, 2, f.value);
      EmitsThen(a, b, State(), e, EntryBlob(1, 2, f.value), buf.Length);
      b, e := State(), e + EntryBlob(1, 2, f.value);
      PutEntryUint(2, f.flags);
      EmitsThen(a, b, State(), e, EntryUint(2, f.flags), buf.Length);
    }

    method PutEntryFields(k: nat, fs: seq<Field>)
      requires Valid() && k < Uint64 && |fs| < Uint64 && FieldsValid(fs)
      modifies this, buf
      ensures Valid() && Emits(old(State()), State(), EntryFields(k, fs), buf.Length)
    {
      hide Emits, Head, EncField, EncFields, FieldValid;
      ghost var a := State();
      TypeValue(0, k);
      ghost var b := State();
      TypeValue(4, |fs|);
      ghost var c := State();
      EmitsThen(a, b, c, Head(0, k), Head(4, |fs|), buf.Length);
      EmitsNone(c, buf.Length);
      EncNoTexts();
      for i := 0 to |fs|
        invariant Valid() && Emits(c, State(), EncFields(fs[..i]), buf.Length)
      {
        ghost var d := State();
        PutField(fs[i]);
        EmitsThen(c, d, State(), EncFields(fs[..i]), EncField(fs[i]), buf.Length);
        EncFieldsAppend(fs[..i], fs[i]);
        assert fs[..i + 1] == fs[..i] + [fs[i]];
      }
      assert fs[..|fs|] == fs;
      EmitsThen(a, c, State(), Head(0, k) + Head(4, |fs|), EncFields(fs), buf.Length);
    }

    method PutFacts(r: Record)
      requires Valid() && FactsValid(r)
      modifies this, buf
      ensures Valid() && Emits(old(State()), State(), EncFacts(r), buf.Length)
    {
      hide Emits, Head, EntryBlob, EntryUint, IsZero;
      ghost var a := State();
      TypeValue(5, 12);
      ghost var b, e := State(), Head(5, 12);
      PutEntryBlob(0, 2, r.id);
      EmitsThen(a, b, State(), e, EntryBlob(0, 2, r.id), buf.Length);
      b, e := State(), e + EntryBlob(0, 2, r.id);
      PutEntryUint(1, r.revision);
      EmitsThen(a, b, State(), e, EntryUint(1, r.revision), buf.Length);
      b, e := State(), e + EntryUint(1, r.revision);
      PutEntryUint(2, r.created);
      EmitsThen(a, b, State(), e, EntryUint(2, r.created), buf.Length);
      b, e := State(), e + EntryUint(2, r.created);
      PutEntryUint(3, r.updated);
      EmitsThen(a, b, State(), e, EntryUint(3, r.updated), buf.Length);
      b, e := State(), e + EntryUint(3, r.updated);
      PutEntryUint(4, r.flags);
      EmitsThen(a, b, State(), e, EntryUint(4, r.flags), buf.Length);
    }

    method PutContent(r: Record)
      requires Valid() && TextValid(r)
      modifies this, buf
      ensures Valid() && Emits(old(State()), State(), EncContent(r), buf.Length)
    {
      hide Emits, EntryBlob, EntryTexts, EntryFields, TextsValid, FieldsValid, Utf8.Valid;
      ghost var a := State();
      PutEntryBlob(5, 3, r.title);
      ghost var b, e := State(), EntryBlob(5, 3, r.title);
      PutEntryBlob(6, 3, r.username);
      EmitsThen(a, b, State(), e, EntryBlob(6, 3, r.username), buf.Length);
      b, e := State(), e + EntryBlob(6, 3, r.username);
      PutEntryBlob(7, 2, r.password);
      EmitsThen(a, b, State(), e, EntryBlob(7, 2, r.password), buf.Length);
      b, e := State(), e + EntryBlob(7, 2, r.password);
      PutEntryTexts(8, r.urls, MaxUrl);
      EmitsThen(a, b, State(), e, EntryTexts(8, r.urls), buf.Length);
      b, e := State(), e + EntryTexts(8, r.urls);
      PutEntryBlob(9, 3, r.notes);
      EmitsThen(a, b, State(), e, EntryBlob(9, 3, r.notes), buf.Length);
      b, e := State(), e + EntryBlob(9, 3, r.notes);
      PutEntryTexts(10, r.tags, MaxTag);
      EmitsThen(a, b, State(), e, EntryTexts(10, r.tags), buf.Length);
      b, e := State(), e + EntryTexts(10, r.tags);
      PutEntryFields(11, r.fields);
      EmitsThen(a, b, State(), e, EntryFields(11, r.fields), buf.Length);
    }

    /** encode_record. */
    method PutRecord(r: Record)
      requires Valid() && RecordValid(r) && Timed(r)
      modifies this, buf
      ensures Valid() && Emits(old(State()), State(), EncRecord(r), buf.Length)
    {
      ValidInParts(r);
      hide Emits, EncFacts, EncContent, FactsValid, TextValid, RecordValid;
      ghost var a := State();
      PutFacts(r);
      ghost var b := State();
      PutContent(r);
      EmitsThen(a, b, State(), EncFacts(r), EncContent(r), buf.Length);
    }
  }

  lemma EncNoTexts()
    ensures EncTexts([]) == [] && EncFields([]) == []
  {
  }

  lemma SplicePrefix(s: Bytes, at: nat, e: Bytes)
    requires at + |e| <= |s|
    ensures Splice(s, at, e)[..at + |e|] == s[..at] + e
  {
  }

  // ---------- the whole vault ----------

  method WriteOuter(w: Writer, p: Plain)
    requires w.Valid() && OuterValid(p)
    modifies w, w.buf
    ensures w.Valid() && Emits(old(w.State()), w.State(), EncOuter(p), w.buf.Length)
  {
    hide Emits, Head, EntryBlob, EntryUint, IsZero;
    ghost var a := w.State();
    w.TypeValue(5, 6);
    ghost var b, e := w.State(), Head(5, 6);
    w.PutEntryUint(0, 1);
    EmitsThen(a, b, w.State(), e, EntryUint(0, 1), w.buf.Length);
    b, e := w.State(), e + EntryUint(0, 1);
    w.PutEntryUint(1, p.generation);
    EmitsThen(a, b, w.State(), e, EntryUint(1, p.generation), w.buf.Length);
    b, e := w.State(), e + EntryUint(1, p.generation);
    w.PutEntryBlob(2, 2, p.deviceId);
    EmitsThen(a, b, w.State(), e, EntryBlob(2, 2, p.deviceId), w.buf.Length);
    b, e := w.State(), e + EntryBlob(2, 2, p.deviceId);
    w.PutEntryUint(3, p.created);
    EmitsThen(a, b, w.State(), e, EntryUint(3, p.created), w.buf.Length);
    b, e := w.State(), e + EntryUint(3, p.created);
    w.PutEntryUint(4, p.updated);
    EmitsThen(a, b, w.State(), e, EntryUint(4, p.updated), w.buf.Length);
  }

  method WriteRecords(w: Writer, rs: seq<Record>)
    requires w.Valid() && RecordsValid(rs) && AllTimed(rs) && |rs| < Uint64
    modifies w, w.buf
    ensures w.Valid() && Emits(old(w.State()), w.State(), Head(0, 5) + Head(4, |rs|) + EncRecords(rs), w.buf.Length)
  {
    hide Emits, Head, EncRecord, EncRecords, RecordValid;
    ghost var a := w.State();
    w.TypeValue(0, 5);
    ghost var b := w.State();
    w.TypeValue(4, |rs|);
    ghost var c := w.State();
    EmitsThen(a, b, c, Head(0, 5), Head(4, |rs|), w.buf.Length);
    EmitsNone(c, w.buf.Length);
    EncNoRecords();
    for i := 0 to |rs|
      invariant w.Valid() && AllTimed(rs[..i]) && Emits(c, w.State(), EncRecords(rs[..i]), w.buf.Length)
    {
      ghost var d := w.State();
      w.PutRecord(rs[i]);
      EmitsThen(c, d, w.State(), EncRecords(rs[..i]), EncRecord(rs[i]), w.buf.Length);
      EncRecordsAppend(rs[..i], rs[i]);
      assert rs[..i + 1] == rs[..i] + [rs[i]];
    }
    assert rs[..|rs|] == rs;
    EmitsThen(a, c, w.State(), Head(0, 5) + Head(4, |rs|), EncRecords(rs), w.buf.Length);
  }

  lemma EncNoRecords()
    ensures AllTimed([]) && EncRecords([]) == []
  {
  }

  method CheckRecords(rs: seq<Record>) returns (st: Status)
    requires forall k :: 0 <= k < |rs| ==> Typed(rs[k])
    ensures st == OK <==> RecordsValid(rs)
    ensures st == OK || st == Limit || st == FormatError
  {
    hide RecordValid, Typed;
    for i := 0 to |rs|
      invariant RecordsValid(rs[..i])
    {
      st := ValidateRecord(rs[i]);
      if st != OK {
        return;
      }
      assert rs[..i + 1] == rs[..i] + [rs[i]];
    }
    assert rs[..|rs|] == rs;
    return OK;
  }

  /** The plaintext a vault object stands for. */
  function PlainOf(v: Vault): Plain
    reads v, v.arena.buf
  {
    Plain(v.generation, v.deviceId, v.created, v.updated, v.Contents())
  }

  /** Fixed-width fields of the C structure. */
  predicate OuterTyped(p: Plain) {
    p.generation < Uint64 && |p.deviceId| == DeviceIdLength && p.created < Int64 && p.updated < Int64
  }

  /** The writing half of pv_cbor_encode. */
  method WritePlain(p: Plain) returns (r: Result<Bytes>)
    requires PlainValid(p)
    ensures r == if |EncPlainOf(p)| <= MaxPlaintext then Ok(EncPlainOf(p)) else Err(Limit)
  {
    TimedIfValid(p.records);
    hide RecordsValid, DistinctIds, EncOuter, EncRecords, Emits, IsZero, Head;
    var w := new Writer(MaxPlaintext);
    ghost var a := w.State();
    WriteOuter(w, p);
    ghost var b := w.State();
    WriteRecords(w, p.records);
    EmitsThen(a, b, w.State(), EncOuter(p), Head(0, 5) + Head(4, |p.records|) + EncRecords(p.records), MaxPlaintext);
    EmitsAll(w.State(), EncPlain(p), MaxPlaintext);
    if w.status != OK {
      return Err(w.status);
    }
    return Ok(w.buf[..w.len]);
  }

  /** How pv_cbor_encode refuses. */
  predicate EncodeRefusal(p: Plain, st: Status) {
    if p.created < 0 || p.updated < 0 then st == Usage
    else if IsZero(p.deviceId) then st == FormatError
    else if !RecordsValid(p.records) then st in {Limit, FormatError}
    else st == SecureMemory
  }

  /**
   pv_cbor_encode.  A vault in a sound state whose records are valid always encodes: the two-mebibyte output never
   runs out.  `locked` is whether secure memory for the output is to be had.
   */
  method Encode(v: Vault, locked: bool) returns (r: Result<Bytes>)
    requires v.Valid() && OuterTyped(PlainOf(v))
    ensures r.Ok? <==> PlainValid(PlainOf(v)) && locked
    ensures r.Ok? ==> r.value == EncPlainOf(PlainOf(v)) && |r.value| + 4 <= v.arena.used
    ensures r.Err? ==> EncodeRefusal(PlainOf(v), r.status)
  {
    hide RecordsValid, DistinctIds, Budget, EncPlainOf, Model.Sound, Model.Views, Typed, IsZero;
    var p := PlainOf(v);
    SoundContents(v.arena.buf[..], v.arena.used, v.capacity, v.records);
    if p.created < 0 || p.updated < 0 {
      return Err(Usage);
    }
    if IsZero(p.deviceId) {
      return Err(FormatError);
    }
    var st := CheckRecords(p.records);
    if st != OK {
      return Err(st);
    }
    if !locked {
      return Err(SecureMemory);
    }
    EncodingFits(p, v.arena.used, v.capacity);
    r := WritePlain(p);
  }

  lemma EmitsAll(b: Output, e: Bytes, cap: nat)
    requires Emits(Output([], OK), b, e, cap)
    ensures if |e| <= cap then b == Output(e, OK) else b.status == Limit
  {
    assert [] + e == e;
  }

  lemma SoundContents(mem: Bytes, used: nat, cap: nat, rs: seq<Model.Stored>)
    requires Model.Sound(mem, used, cap, rs)
    ensures var v := Model.Views(mem, rs);
      Budget(used, cap, v) && DistinctIds(v) && |v| <= MaxRecords && forall k :: 0 <= k < |v| ==> Typed(v[k])
  {
  }
}

/** The strict CBOR reader and pv_cbor_decode. */
module Readers {
  import opened Prelude
  import opened Records
  import opened Layout
  import opened Cbor
  import opened Schema
  import opened Vaults
  import opened Plaintext
  import Model
  import Utf8
  import Writers

  /** The outcome of a read at `rest`: a value and the new rest, or a status. */
  function Outcome<T>(ok: bool, v: T, rest: Bytes, st: Status): Result<(T, Bytes)> {
    if ok then Ok((v, rest)) else Err(st)
  }

  lemma RestSlices(data: Bytes, pos: nat, n: nat)
    requires pos + n <= |data|
    ensures data[pos..][..n] == data[pos..pos + n] && data[pos..][n..] == data[pos + n..]
  {
  }

  /** Appending one byte to a number. */
  lemma NumberStep(data: Bytes, from: nat, i: nat)
    requires from + i < |data|
    ensures Number(data[from..from + i + 1]) == Number(data[from..from + i]) * 256 + data[from + i]
  {
    assert data[from..from + i + 1][..i] == data[from..from + i];
  }

  class Reader {
    const data: Bytes
    var pos: nat
    var status: Status

    ghost predicate Ready()
      reads this
    {
      pos <= |data| && status == OK
    }

    ghost function Rest(): Bytes
      reads this
      requires pos <= |data|
    {
      data[pos..]
    }

    constructor (input: Bytes)
      ensures Ready() && data == input && Rest() == input
    {
      data, pos, status := input, 0, OK;
    }

    /** reader_value: only the shortest form is accepted. */
    method Value(major: nat) returns (ok: bool, v: nat)
      requires Ready() && major < 8
      modifies this
      ensures pos <= |data| && (ok ==> status == OK)
      ensures ParseHead(old(Rest()), major) == Outcome(ok, v, Rest(), status)
      ensures ok ==> v < Uint64
    {
      hide Number;
      ok, v := false, 0;
      if pos >= |data| {
        status := FormatError;
        return;
      }
      var initial: int := data[pos];
      pos := pos + 1;
      if initial / 32 != major {
        status := FormatError;
        return;
      }
      var additional := initial % 32;
      if additional < 24 {
        return true, additional;
      }
      if additional > 27 {
        status := FormatError;
        return;
      }
      var width := if additional == 24 then 1 else if additional == 25 then 2 else if additional == 26 then 4 else 8;
      if width > |data| - pos {
        status := FormatError;
        return;
      }
      RestTail(data, pos - 1, width);
      v := Digits(width);
      if (width == 1 && v < 24) || (width == 2 && v <= 0xff) || (width == 4 && v <= 0xffff) || (width == 8 && v <= 0xffff_ffff) {
        status := FormatError;
        return;
      }
      ok := true;
    }

    /** The loop of reader_value: `width` bytes, most significant first. */
    method Digits(width: nat) returns (v: nat)
      requires Ready() && width in {1, 2, 4, 8} && pos + width <= |data|
      modifies `pos
      ensures pos == old(pos) + width && v == Number(data[old(pos)..pos])
      ensures width == 1 ==> v <= 0xff
      ensures width == 2 ==> v <= 0xffff
      ensures width == 4 ==> v <= 0xffff_ffff
      ensures v < Uint64
    {
      hide Number;
      v := 0;
      ghost var start := pos;
      NumberNone(data, start);
      for i := 0 to width
        invariant pos == start + i && v == Number(data[start..start + i])
      {
        NumberStep(data, start, i);
        v := v * 256 + data[pos];
        pos := pos + 1;
      }
      WidthOf(data[start..start + width]);
    }

    /** reader_expect_uint. */
    method Expect(expected: nat) returns (ok: bool)
      requires Ready()
      modifies this
      ensures pos <= |data| && (ok ==> status == OK)
      ensures ExpectUint(old(Rest()), expected) == if ok then Ok(Rest()) else Err(status)
    {
      hide ParseHead;
      var v;
      ok, v := Value(0);
      if ok && v != expected {
        status := FormatError;
        ok := false;
      }
    }

    /** reader_count. */
    method Count(major: nat, max: nat) returns (ok: bool, v: nat)
      requires Ready() && major < 8
      modifies this
      ensures pos <= |data| && (ok ==> status == OK && v <= max)
      ensures ParseCount(old(Rest()), major, max) == Outcome(ok, v, Rest(), status)
    {
      hide ParseHead;
      ok, v := Value(major);
      if ok && v > max {
        status := Limit;
        ok := false;
      }
    }

    /** reader_slice. */
    method Slice(major: nat, max: nat) returns (ok: bool, t: Bytes)
      requires Ready() && major < 8
      modifies this
      ensures pos <= |data| && (ok ==> status == OK)
      ensures ParseBlob(old(Rest()), major, max) == Outcome(ok, t, Rest(), status)
    {
      hide ParseHead, Utf8.Valid;
      t := [];
      var n;
      ok, n := Value(major);
      if !ok {
        return;
      }
      if n > max {
        status := Limit;
        ok := false;
        return;
      }
      if n > |data| - pos {
        status := FormatError;
        ok := false;
        return;
      }
      RestSlices(data, pos, n);
      t := data[pos..pos + n];
      pos := pos + n;
      if major == 3 {
        var good := Utf8.Utf8Valid(t);
        Utf8.ValidIsUtf8(t);
        if !good {
          status := FormatError;
          ok := false;
        }
      }
    }

    method EntryNumber(k: nat) returns (ok: bool, v: nat)
      requires Ready()
      modifies this
      ensures pos <= |data| && (ok ==> status == OK)
      ensures ParseEntryUint(old(Rest()), k) == Outcome(ok, v, Rest(), status)
      ensures ok ==> v < Uint64
    {
      hide ParseHead;
      v := 0;
      ok := Expect(k);
      if ok {
        ok, v := Value(0);
      }
    }

    method EntrySlice(k: nat, major: nat, max: nat) returns (ok: bool, t: Bytes)
      requires Ready() && major < 8
      modifies this
      ensures pos <= |data| && (ok ==> status == OK)
      ensures ParseEntryBlob(old(Rest()), k, major, max) == Outcome(ok, t, Rest(), status)
    {
      hide ParseHead, ParseBlob;
      t := [];
      ok := Expect(k);
      if ok {
        ok, t := Slice(major, max);
      }
    }

    /** The url and tag loops of decode_record. */
    method EntryList(k: nat, max: nat) returns (ok: bool, ts: seq<Bytes>)
      requires Ready()
      modifies this
      ensures pos <= |data| && (ok ==> status == OK)
      ensures ParseEntryTexts(old(Rest()), k, max) == Outcome(ok, ts, Rest(), status)
    {
      hide ParseHead, ParseBlob, ParseTexts;
      ts := [];
      ok := Expect(k);
      if !ok {
        return;
      }
      var n;
      ok, n := Count(4, MaxItems);
      if !ok {
        return;
      }
      ghost var start := Rest();
      TextsSoFarNone(start, n, max);
      for i := 0 to n
        invariant Ready() && TextsSoFar(start, n, max, ts, Rest(), i)
      {
        var t;
        ghost var here := Rest();
        ok, t := Slice(3, max);
        TextsSoFarStep(start, n, max, ts, here, i);
        if !ok {
          return;
        }
        ts := ts + [t];
      }
      TextsSoFarDone(start, n, max, ts, Rest());
      ok := true;
    }

    /** decode_field. */
    method DecodeField() returns (ok: bool, f: Field)
      requires Ready()
      modifies this
      ensures pos <= |data| && (ok ==> status == OK)
      ensures ParseField(old(Rest())) == Outcome(ok, f, Rest(), status)
    {
      hide ParseHead, ParseEntryBlob, ParseEntryUint;
      f := Field([], [], 0);
      var n, name, value, flags;
      ok, n := Count(5, 3);
      if !ok {
        return;
      }
      if n != 3 {
        ok, status := false, FormatError;
        return;
      }
      ok, name := EntrySlice(0, 3, MaxFieldName);
      if !ok {
        return;
      }
      if name == [] {
        ok, status := false, FormatError;
        return;
      }
      ok, value := EntrySlice(1, 2, MaxFieldValue);
      if !ok {
        return;
      }
      ok, flags := EntryNumber(2);
      if !ok {
        return;
      }
      if flags > 1 {
        ok, status := false, FormatError;
        return;
      }
      f := Field(name, value, flags);
    }

    /** The field loop of decode_record. */
    method EntryFieldList(k: nat) returns (ok: bool, fs: seq<Field>)
      requires Ready()
      modifies this
      ensures pos <= |data| && (ok ==> status == OK)
      ensures ParseEntryFields(old(Rest()), k) == Outcome(ok, fs, Rest(), status)
    {
      hide ParseHead, ParseField, ParseFields;
      fs := [];
      ok := Expect(k);
      if !ok {
        return;
      }
      var n;
      ok, n := Count(4, MaxItems);
      if !ok {
        return;
      }
      ghost var start := Rest();
      FieldsSoFarNone(start, n);
      for i := 0 to n
        invariant Ready() && FieldsSoFar(start, n, fs, Rest(), i)
      {
        var f;
        ghost var here := Rest();
        ok, f := DecodeField();
        FieldsSoFarStep(start, n, fs, here, i);
        if !ok {
          return;
        }
        fs := fs + [f];
      }
      FieldsSoFarDone(start, n, fs, Rest());
      ok := true;
    }

    /** Entries 0 to 4 of decode_record. */
    method DecodeFacts() returns (ok: bool, r: Record)
      requires Ready()
      modifies this
      ensures pos <= |data| && (ok ==> status == OK)
      ensures ParseFacts(old(Rest())) == Outcome(ok, r, Rest(), status)
    {
      hide ParseHead, ParseEntryBlob, ParseEntryUint, IsZero;
      r := Blank;
      var n, id, revision, created, updated, flags;
      ok, n := Count(5, 12);
      if !ok {
        return;
      }
      if n != 12 {
        ok, status := false, FormatError;
        return;
      }
      ok, id := EntrySlice(0, 2, IdLength);
      if !ok {
        return;
      }
      if |id| != IdLength || IsZero(id) {
        ok, status := false, FormatError;
        return;
      }
      ok, revision := EntryNumber(1);
      if !ok {
        return;
      }
      if revision == 0 {
        ok, status := false, FormatError;
        return;
      }
      ok, created := EntryNumber(2);
      if !ok {
        return;
      }
      if created >= Int64 {
        ok, status := false, FormatError;
        return;
      }
      ok, updated := EntryNumber(3);
      if !ok {
        return;
      }
      if updated >= Int64 {
        ok, status := false, FormatError;
        return;
      }
      ok, flags := EntryNumber(4);
      if !ok {
        return;
      }
      if flags > 3 {
        ok, status := false, FormatError;
        return;
      }
      r := Blank.(id := id, revision := revision, created := created, updated := updated, flags := flags);
    }

    /** Entries 5 to 11 of decode_record. */
    method DecodeContent(facts: Record) returns (ok: bool, r: Record)
      requires Ready()
      modifies this
      ensures pos <= |data| && (ok ==> status == OK)
      ensures ParseContent(old(Rest()), facts) == Outcome(ok, r, Rest(), status)
    {
      hide ParseEntryBlob, ParseEntryTexts, ParseEntryFields;
      r := facts;
      var title, username, password, urls, notes, tags, fields;
      ok, title := EntrySlice(5, 3, MaxTitle);
      if !ok {
        return;
      }
      if title == [] {
        ok, status := false, FormatError;
        return;
      }
      ok, username := EntrySlice(6, 3, MaxUsername);
      if !ok {
        return;
      }
      ok, password := EntrySlice(7, 2, MaxPassword);
      if !ok {
        return;
      }
      ok, urls := EntryList(8, MaxUrl);
      if !ok {
        return;
      }
      ok, notes := EntrySlice(9, 3, MaxNotes);
      if !ok {
        return;
      }
      ok, tags := EntryList(10, MaxTag);
      if !ok {
        return;
      }
      ok, fields := EntryFieldList(11);
      if !ok {
        return;
      }
      r := facts.(title := title, username := username, password := password, urls := urls, notes := notes, tags := tags,
        fields := fields);
    }

    /** decode_record, up to adding the record. */
    method DecodeRecord() returns (ok: bool, r: Record)
      requires Ready()
      modifies this
      ensures pos <= |data| && (ok ==> status == OK)
      ensures ParseRecord(old(Rest())) == Outcome(ok, r, Rest(), status)
    {
      hide ParseFacts, ParseContent;
      ok, r := DecodeFacts();
      if ok {
        ok, r := DecodeContent(r);
      }
    }

    /** The top-level map up to its records. */
    method DecodeOuter() returns (ok: bool, p: Plain)
      requires Ready()
      modifies this
      ensures pos <= |data| && (ok ==> status == OK)
      ensures ParseOuter(old(Rest())) == Outcome(ok, p, Rest(), status)
    {
      hide ParseHead, ParseEntryBlob, ParseEntryUint, IsZero;
      p := Plain(0, [], 0, 0, []);
      var n, schema, generation, deviceId, created, updated;
      ok, n := Count(5, 6);
      if !ok {
        return;
      }
      if n != 6 {
        ok, status := false, FormatError;
        return;
      }
      ok, schema := EntryNumber(0);
      if !ok {
        return;
      }
      if schema != 1 {
        ok, status := false, FormatError;
        return;
      }
      ok, generation := EntryNumber(1);
      if !ok {
        return;
      }
      ok, deviceId := EntrySlice(2, 2, DeviceIdLength);
      if !ok {
        return;
      }
      if |deviceId| != DeviceIdLength || IsZero(deviceId) {
        ok, status := false, FormatError;
        return;
      }
      ok, created := EntryNumber(3);
      if !ok {
        return;
      }
      if created >= Int64 {
        ok, status := false, FormatError;
        return;
      }
      ok, updated := EntryNumber(4);
      if !ok {
        return;
      }
      if updated >= Int64 {
        ok, status := false, FormatError;
        return;
      }
      p := Plain(generation, deviceId, created, updated, []);
    }
  }

  lemma NumberNone(data: Bytes, from: nat)
    requires from <= |data|
    ensures Number(data[from..from]) == 0
  {
  }

  /** The argument bytes behind an initial byte, and what follows them. */
  lemma RestTail(data: Bytes, pos: nat, width: nat)
    requires pos + 1 + width <= |data|
    ensures data[pos..][1..1 + width] == data[pos + 1..pos + 1 + width]
    ensures data[pos..][1 + width..] == data[pos + 1 + width..]
  {
  }

  lemma WidthOf(s: Bytes)
    ensures Number(s) < Pow(|s|) && Pow(1) == 0x100 && Pow(2) == 0x1_0000 && Pow(4) == 0x1_0000_0000 && Pow(8) == Uint64
  {
    BigOfNumber(s);
    PowValues();
  }

  // ---------- loops against the recursive parsers ----------

  /** After `i` items read as `done`, the whole depends on what follows at `here`. */
  predicate TextsSoFar(start: Bytes, n: nat, max: nat, done: seq<Bytes>, here: Bytes, i: nat) {
    && i <= n
    && ParseTexts(start, n, max)
      == match ParseTexts(here, n - i, max) { case Ok(x) => Ok((done + x.0, x.1)) case Err(e) => Err(e) }
  }

  lemma TextsSoFarNone(start: Bytes, n: nat, max: nat)
    ensures TextsSoFar(start, n, max, [], start, 0)
  {
    hide ParseTexts;
    if ParseTexts(start, n, max).Ok? {
      assert [] + ParseTexts(start, n, max).value.0 == ParseTexts(start, n, max).value.0;
    }
  }

  lemma TextsSoFarStep(start: Bytes, n: nat, max: nat, done: seq<Bytes>, here: Bytes, i: nat)
    requires TextsSoFar(start, n, max, done, here, i) && i < n
    ensures ParseBlob(here, 3, max).Err? ==> ParseTexts(start, n, max) == Err(ParseBlob(here, 3, max).status)
    ensures ParseBlob(here, 3, max).Ok? ==>
      TextsSoFar(start, n, max, done + [ParseBlob(here, 3, max).value.0], ParseBlob(here, 3, max).value.1, i + 1)
  {
    hide ParseBlob;
    if ParseBlob(here, 3, max).Ok? {
      var (t, after) := ParseBlob(here, 3, max).value;
      if ParseTexts(after, n - i - 1, max).Ok? {
        var ts := ParseTexts(after, n - i - 1, max).value.0;
        assert done + [t] + ts == done + ([t] + ts);
      }
    }
  }

  lemma TextsSoFarDone(start: Bytes, n: nat, max: nat, done: seq<Bytes>, here: Bytes)
    requires TextsSoFar(start, n, max, done, here, n)
    ensures ParseTexts(start, n, max) == Ok((done, here))
  {
    assert done + [] == done;
  }

  predicate FieldsSoFar(start: Bytes, n: nat, done: seq<Field>, here: Bytes, i: nat) {
    && i <= n
    && ParseFields(start, n)
      == match ParseFields(here, n - i) { case Ok(x) => Ok((done + x.0, x.1)) case Err(e) => Err(e) }
  }

  lemma FieldsSoFarNone(start: Bytes, n: nat)
    ensures FieldsSoFar(start, n, [], start, 0)
  {
    hide ParseFields;
    if ParseFields(start, n).Ok? {
      assert [] + ParseFields(start, n).value.0 == ParseFields(start, n).value.0;
    }
  }

  lemma FieldsSoFarStep(start: Bytes, n: nat, done: seq<Field>, here: Bytes, i: nat)
    requires FieldsSoFar(start, n, done, here, i) && i < n
    ensures ParseField(here).Err? ==> ParseFields(start, n) == Err(ParseField(here).status)
    ensures ParseField(here).Ok? ==>
      FieldsSoFar(start, n, done + [ParseField(here).value.0], ParseField(here).value.1, i + 1)
  {
    hide ParseField;
    if ParseField(here).Ok? {
      var (f, after) := ParseField(here).value;
      if ParseFields(after, n - i - 1).Ok? {
        var fs := ParseFields(after, n - i - 1).value.0;
        assert done + [f] + fs == done + ([f] + fs);
      }
    }
  }

  lemma FieldsSoFarDone(start: Bytes, n: nat, done: seq<Field>, here: Bytes)
    requires FieldsSoFar(start, n, done, here, n)
    ensures ParseFields(start, n) == Ok((done, here))
  {
    assert done + [] == done;
  }

  // ---------- into a vault ----------

  /** decode_record with the record added to the vault; a repeated id is a format error. */
  method DecodeOne(reader: Reader, vault: Vault, now: int) returns (ok: bool)
    requires reader.Ready() && vault.Valid() && !vault.arena.readonly && IsTime(now)
    modifies reader, vault, vault.arena, vault.arena.buf
    ensures vault.Valid() && reader.pos <= |reader.data| && (ok ==> reader.status == OK && !vault.arena.readonly)
    ensures OneRead(old(reader.Rest()), old(vault.arena.used), old(vault.capacity), old(vault.Contents()), ok, reader.status,
        reader.Rest(), vault.arena.used, vault.capacity, vault.Contents())
  {
    hide ParseRecord, AddStatus, Layout.Add, Model.Sound, Model.Views, RecordValid;
    ghost var start := reader.Rest();
    var r;
    ok, r := reader.DecodeRecord();
    if !ok {
      return;
    }
    RecordSound(start);
    DecodedRecord(r, now);
    var st := vault.Add(r, [], now, true);
    if st != OK {
      ok := false;
      reader.status := if st == Exists then FormatError else st;
    }
  }

  /** One turn of the record loop, as `ParseRecords` takes it. */
  ghost predicate OneRead(start: Bytes, used: nat, cap: nat, rs: seq<Record>, ok: bool, st: Status,
    rest: Bytes, used': nat, cap': nat, rs': seq<Record>)
  {
    if ParseRecord(start).Err? then !ok && st == ParseRecord(start).status
    else
      var (r, after) := ParseRecord(start).value;
      var add := AddStatus(r, false, used, cap, rs);
      if add != OK then !ok && st == (if add == Exists then FormatError else add)
      else ok && rest == after && rs' == rs + [r] && Some((used', cap')) == Layout.Add(used, cap, |rs|, r)
  }

  /** A decoded record is stored as it is. */
  lemma DecodedRecord(r: Record, now: int)
    requires RecordValid(r)
    ensures ContentValid(r) && Typed(r) && !IsZero(r.id) && Completed(r, [], now) == r
  {
  }

  /** The record loop of pv_cbor_decode. */
  method DecodeRecords(reader: Reader, vault: Vault, n: nat, now: int) returns (ok: bool)
    requires reader.Ready() && vault.Valid() && !vault.arena.readonly && IsTime(now)
    modifies reader, vault, vault.arena, vault.arena.buf
    ensures vault.Valid() && reader.pos <= |reader.data| && (ok ==> reader.status == OK && !vault.arena.readonly)
    ensures ParseRecords(old(reader.Rest()), n, old(vault.arena.used), old(vault.capacity), old(vault.Contents()))
      == if ok then Ok((vault.Contents(), vault.arena.used, vault.capacity, reader.Rest())) else Err(reader.status)
  {
    hide ParseRecord, AddStatus, Layout.Add, Model.Sound, Model.Views, OneRead, ParseRecords;
    ghost var total := ParseRecords(reader.Rest(), n, vault.arena.used, vault.capacity, vault.Contents());
    for i := 0 to n
      invariant reader.Ready() && vault.Valid() && !vault.arena.readonly
      invariant total == ParseRecords(reader.Rest(), n - i, vault.arena.used, vault.capacity, vault.Contents())
    {
      ghost var start, used, cap, rs := reader.Rest(), vault.arena.used, vault.capacity, vault.Contents();
      ok := DecodeOne(reader, vault, now);
      OneReadStep(start, n - i, used, cap, rs, ok, reader.status, reader.Rest(), vault.arena.used, vault.capacity, vault.Contents());
      if !ok {
        return;
      }
    }
    NoneLeft(reader.Rest(), vault.arena.used, vault.capacity, vault.Contents());
    ok := true;
  }

  lemma OneReadStep(start: Bytes, n: nat, used: nat, cap: nat, rs: seq<Record>, ok: bool, st: Status,
    rest: Bytes, used': nat, cap': nat, rs': seq<Record>)
    requires n > 0 && OneRead(start, used, cap, rs, ok, st, rest, used', cap', rs')
    ensures ParseRecords(start, n, used, cap, rs) == if ok then ParseRecords(rest, n - 1, used', cap', rs') else Err(st)
  {
    hide ParseRecord, AddStatus, Layout.Add;
    if ParseRecord(start).Ok? {
      AddStatusSome(ParseRecord(start).value.0, used, cap, rs);
    }
  }

  lemma NoneLeft(rest: Bytes, used: nat, cap: nat, rs: seq<Record>)
    ensures ParseRecords(rest, 0, used, cap, rs) == Ok((rs, used, cap, rest))
  {
  }

  /** Entry 5 of the top-level map. */
  method DecodeBody(reader: Reader, vault: Vault, now: int) returns (ok: bool)
    requires reader.Ready() && vault.Valid() && !vault.arena.readonly && IsTime(now)
    requires vault.Contents() == [] && Some((vault.arena.used, vault.capacity)) == AddAll([])
    modifies reader, vault, vault.arena, vault.arena.buf
    ensures vault.Valid() && reader.pos <= |reader.data| && (ok ==> reader.status == OK && !vault.arena.readonly)
    ensures ParseBody(old(reader.Rest()))
      == if ok then Ok((vault.Contents(), vault.arena.used, vault.capacity, reader.Rest())) else Err(reader.status)
  {
    hide ParseHead, ParseRecords, Model.Sound, Model.Views;
    ok := reader.Expect(5);
    if !ok {
      return;
    }
    var n;
    ok, n := reader.Count(4, MaxRecords);
    if !ok {
      return;
    }
    ok := DecodeRecords(reader, vault, n, now);
  }

  /**
   pv_cbor_decode into a vault from pv_model_init.  `works` is whether the arena's pages can be made read-only
   afterwards; the vault is then as if its records had been added one by one.
   */
  method Decode(input: Bytes, vault: Vault, now: int, works: bool) returns (st: Status)
    requires vault.Valid() && !vault.arena.readonly && IsTime(now)
    requires vault.Contents() == [] && Some((vault.arena.used, vault.capacity)) == AddAll([])
    modifies vault, vault.arena, vault.arena.buf
    ensures vault.Valid()
    ensures Plaintext.Decode(input).Err? ==> st == Plaintext.Decode(input).status
    ensures Plaintext.Decode(input).Ok? ==>
      && st == (if works then OK else SecureMemory)
      && Writers.PlainOf(vault) == Plaintext.Decode(input).value && !vault.dirty
      && Some((vault.arena.used, vault.capacity)) == AddAll(vault.Contents())
      && vault.arena.readonly == works
  {
    hide Model.Sound, Model.Views, AddAll, Plaintext.Decode;
    if input == [] || |input| > MaxPlaintext {
      DecodeInSteps(input);
      return Usage;
    }
    var p := ReadAll(input, vault, now);
    if p.Err? {
      return p.status;
    }
    st := Finish(vault, p.value, works);
  }

  /** The reading half of pv_cbor_decode; the vault gets the records. */
  method ReadAll(input: Bytes, vault: Vault, now: int) returns (r: Result<Plain>)
    requires vault.Valid() && !vault.arena.readonly && IsTime(now) && input != [] && |input| <= MaxPlaintext
    requires vault.Contents() == [] && Some((vault.arena.used, vault.capacity)) == AddAll([])
    modifies vault, vault.arena, vault.arena.buf
    ensures vault.Valid() && r == Plaintext.Decode(input)
    ensures r.Ok? ==> vault.Contents() == r.value.records && !vault.arena.readonly
    ensures r.Ok? ==> Some((vault.arena.used, vault.capacity)) == AddAll(vault.Contents())
  {
    hide ParseOuter, ParseBody, Model.Sound, Model.Views, AddAll, Plaintext.Decode;
    DecodeInSteps(input);
    var reader := new Reader(input);
    var ok, p := reader.DecodeOuter();
    if !ok {
      return Err(reader.status);
    }
    ghost var start := reader.Rest();
    ok := DecodeBody(reader, vault, now);
    if !ok {
      return Err(reader.status);
    }
    BodyLayout(start);
    RestEmpty(reader.data, reader.pos);
    if reader.pos != |reader.data| {
      return Err(FormatError);
    }
    return Ok(Plain(p.generation, p.deviceId, p.created, p.updated, vault.Contents()));
  }

  /** The end of pv_cbor_decode: the outer fields, and the arena's pages made read-only. */
  method Finish(vault: Vault, p: Plain, works: bool) returns (st: Status)
    requires vault.Valid()
    modifies vault, vault.arena`readonly
    ensures vault.Valid() && vault.Contents() == old(vault.Contents()) && vault.capacity == old(vault.capacity)
    ensures st == (if works then OK else SecureMemory) && vault.arena.readonly == (works || old(vault.arena.readonly))
    ensures Writers.PlainOf(vault) == Plain(p.generation, p.deviceId, p.created, p.updated, old(vault.Contents()))
    ensures !vault.dirty
  {
    hide Model.Sound, Model.Views;
    vault.generation, vault.deviceId := p.generation, p.deviceId;
    vault.created, vault.updated, vault.dirty := p.created, p.updated, false;
    st := vault.arena.SetReadOnly(works);
  }

  lemma RestEmpty(data: Bytes, pos: nat)
    requires pos <= |data|
    ensures pos == |data| <==> data[pos..] == []
  {
  }

  lemma BodyLayout(s: Bytes)
    ensures ParseBody(s).Ok? ==> AddAll(ParseBody(s).value.0) == Some((ParseBody(s).value.1, ParseBody(s).value.2))
  {
    hide ParseBody;
    if ParseBody(s).Ok? {
      BodySound(s);
    }
  }

  lemma DecodeInSteps(s: Bytes)
    ensures s == [] || |s| > MaxPlaintext ==> Plaintext.Decode(s) == Err(Usage)
    ensures s != [] && |s| <= MaxPlaintext && ParseOuter(s).Err? ==> Plaintext.Decode(s) == Err(ParseOuter(s).status)
    ensures s != [] && |s| <= MaxPlaintext && ParseOuter(s).Ok? ==>
      var (outer, rest) := ParseOuter(s).value;
      && (ParseBody(rest).Err? ==> Plaintext.Decode(s) == Err(ParseBody(rest).status))
      && (ParseBody(rest).Ok? ==> Plaintext.Decode(s) == if ParseBody(rest).value.3 != [] then Err(FormatError)
        else Ok(Plain(outer.generation, outer.deviceId, outer.created, outer.updated, ParseBody(rest).value.0)))
  {
    hide ParseOuter, ParseBody;
  }
}

/** Records and their limits: the plaintext of a vault as values, and `validate_record_fields`. */
module Records {
  import opened Prelude
  import opened Utf8

  const MaxTitle: nat := 1024
  const MaxUsername: nat := 4096
  const MaxPassword: nat := 65536
  const MaxUrl: nat := 8192
  const MaxNotes: nat := 262144
  const MaxTag: nat := 256
  const MaxFieldName: nat := 256
  const MaxFieldValue: nat := 65536
  const MaxItems: nat := 64
  const IdLength: nat := 16
  const Int64: nat := 0x8000_0000_0000_0000

  datatype Field = Field(name: Bytes, value: Bytes, flags: nat)

  /** A record.  Times are signed 64-bit; flag 1 is deleted, flag 2 is favourite. */
  datatype Record = Record(
    id: Bytes, revision: nat, created: int, updated: int, flags: nat,
    title: Bytes, username: Bytes, password: Bytes, notes: Bytes,
    urls: seq<Bytes>, tags: seq<Bytes>, fields: seq<Field>)

  predicate TextsValid(ts: seq<Bytes>, max: nat) {
    forall k :: 0 <= k < |ts| ==> |ts[k]| <= max && Valid(ts[k])
  }

  predicate FieldValid(f: Field) {
    0 < |f.name| <= MaxFieldName && Valid(f.name) && |f.value| <= MaxFieldValue && f.flags <= 1
  }

  predicate FieldsValid(fs: seq<Field>) {
    forall k :: 0 <= k < |fs| ==> FieldValid(fs[k])
  }

  /** The lengths and counts that are checked first. */
  predicate WithinLimits(r: Record) {
    && |r.title| <= MaxTitle && |r.username| <= MaxUsername && |r.password| <= MaxPassword && |r.notes| <= MaxNotes
    && |r.urls| <= MaxItems && |r.tags| <= MaxItems && |r.fields| <= MaxItems
  }

  /** Everything `validate_record_fields` asks of a record. */
  predicate ContentValid(r: Record) {
    && WithinLimits(r)
    && 0 <= r.created && 0 <= r.updated && r.flags <= 3
    && r.title != [] && Valid(r.title) && Valid(r.username) && Valid(r.notes)
    && TextsValid(r.urls, MaxUrl) && TextsValid(r.tags, MaxTag) && FieldsValid(r.fields)
  }

  /** The C representation: fixed-width integers. */
  predicate Typed(r: Record) {
    |r.id| == IdLength && r.revision < Uint64 && r.created < Int64 && r.updated < Int64
  }

  /** pv_model_validate_record. */
  predicate RecordValid(r: Record) {
    Typed(r) && ContentValid(r) && r.revision != 0 && !IsZero(r.id)
  }

  predicate DistinctIds(rs: seq<Record>) {
    forall i, j :: 0 <= i < j < |rs| ==> rs[i].id != rs[j].id
  }

  predicate RecordsValid(rs: seq<Record>) {
    forall k :: 0 <= k < |rs| ==> RecordValid(rs[k])
  }

  /** The status of a collection of texts is that of the first bad one: too long, else not UTF-8. */
  ghost predicate TextsAnswer(ts: seq<Bytes>, max: nat, st: Status) {
    if TextsValid(ts, max) then st == OK
    else exists i :: 0 <= i < |ts| && TextsValid(ts[..i], max) && !(|ts[i]| <= max && Valid(ts[i])) && st == if |ts[i]| > max then Limit else FormatError
  }

  predicate FieldFits(f: Field) {
    |f.name| <= MaxFieldName && |f.value| <= MaxFieldValue
  }

  ghost predicate FieldsAnswer(fs: seq<Field>, st: Status) {
    if FieldsValid(fs) then st == OK
    else exists i :: 0 <= i < |fs| && FieldsValid(fs[..i]) && !FieldValid(fs[i]) && st == if FieldFits(fs[i]) then FormatError else Limit
  }

  /** What is checked after the limits and before the collections. */
  predicate ScalarsValid(r: Record) {
    0 <= r.created && 0 <= r.updated && r.flags <= 3 && r.title != [] && Valid(r.title) && Valid(r.username) && Valid(r.notes)
  }

  /** The status of a record: limits, then scalars, then urls, tags and fields in turn. */
  ghost predicate ContentAnswer(r: Record, st: Status) {
    if !WithinLimits(r) then st == Limit
    else if !ScalarsValid(r) then st == FormatError
    else if !TextsValid(r.urls, MaxUrl) then TextsAnswer(r.urls, MaxUrl, st)
    else if !TextsValid(r.tags, MaxTag) then TextsAnswer(r.tags, MaxTag, st)
    else FieldsAnswer(r.fields, st)
  }

  /** The loop over a collection of texts. */
  method CheckTexts(ts: seq<Bytes>, max: nat) returns (st: Status)
    ensures st == OK <==> TextsValid(ts, max)
    ensures TextsAnswer(ts, max, st) && (st == OK || st == Limit || st == FormatError)
  {
    for i := 0 to |ts|
      invariant forall k :: 0 <= k < i ==> |ts[k]| <= max && Valid(ts[k])
    {
      assert TextsValid(ts[..i], max);
      if |ts[i]| > max {
        return Limit;
      }
      var ok := Utf8Valid(ts[i]);
      ValidIsUtf8(ts[i]);
      if !ok {
        return FormatError;
      }
    }
    return OK;
  }

  /** The loop over the custom fields. */
  method CheckFields(fs: seq<Field>) returns (st: Status)
    ensures st == OK <==> FieldsValid(fs)
    ensures FieldsAnswer(fs, st) && (st == OK || st == Limit || st == FormatError)
  {
    for i := 0 to |fs|
      invariant forall k :: 0 <= k < i ==> FieldValid(fs[k])
    {
      assert FieldsValid(fs[..i]);
      if |fs[i].name| > MaxFieldName || |fs[i].value| > MaxFieldValue {
        return Limit;
      }
      var name := Utf8Valid(fs[i].name);
      ValidIsUtf8(fs[i].name);
      if fs[i].name == [] || !name || fs[i].flags > 1 {
        return FormatError;
      }
    }
    return OK;
  }

  /** validate_record_fields: the limits first, then the contents, each collection in turn. */
  method ValidateFields(r: Record) returns (st: Status)
    ensures st == OK <==> ContentValid(r)
    ensures ContentAnswer(r, st) && (st == OK || st == Limit || st == FormatError)
  {
    hide TextsValid, FieldsValid, Valid, IsUtf8, TextsAnswer, FieldsAnswer;
    if !WithinLimits(r) {
      return Limit;
    }
    var title := Utf8Valid(r.title);
    var username := Utf8Valid(r.username);
    var notes := Utf8Valid(r.notes);
    ValidIsUtf8(r.title);
    ValidIsUtf8(r.username);
    ValidIsUtf8(r.notes);
    if r.created < 0 || r.updated < 0 || r.flags > 3 || r.title == [] || !title || !username || !notes {
      return FormatError;
    }
    st := CheckTexts(r.urls, MaxUrl);
    if st != OK {
      return;
    }
    st := CheckTexts(r.tags, MaxTag);
    if st != OK {
      return;
    }
    st := CheckFields(r.fields);
  }

  /** pv_model_validate_record. */
  method ValidateRecord(r: Record) returns (st: Status)
    requires Typed(r)
    ensures st == OK <==> RecordValid(r)
    ensures if ContentValid(r) && !RecordValid(r) then st == FormatError else ContentAnswer(r, st)
  {
    hide ContentValid, ContentAnswer;
    st := ValidateFields(r);
    if st == OK && (r.revision == 0 || IsZero(r.id)) {
      st := FormatError;
    }
  }
}

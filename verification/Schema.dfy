/** The vault schema over the CBOR items: fields, records and the whole plaintext. */
module Schema {
  import opened Prelude
  import opened Records
  import opened Cbor
  import opened Utf8

  lemma Assoc(a: Bytes, b: Bytes, c: Bytes)
    ensures (a + b) + c == a + (b + c)
  {
  }

  // ---------- arrays of texts ----------

  function EncTexts(ts: seq<Bytes>): Bytes {
    if ts == [] then [] else Blob(3, ts[0]) + EncTexts(ts[1..])
  }

  function ParseTexts(s: Bytes, n: nat, max: nat): (r: Result<(seq<Bytes>, Bytes)>)
    ensures r.Err? ==> r.status == FormatError || r.status == Limit
    decreases n
  {
    if n == 0 then Ok(([], s))
    else
      var (t, after) :- ParseBlob(s, 3, max);
      var (ts, rest) :- ParseTexts(after, n - 1, max);
      Ok(([t] + ts, rest))
  }

  lemma {:induction false} TextsSound(s: Bytes, n: nat, max: nat)
    requires ParseTexts(s, n, max).Ok?
    ensures var (ts, rest) := ParseTexts(s, n, max).value;
      |ts| == n && TextsValid(ts, max) && s == EncTexts(ts) + rest
    decreases n
  {
    hide ParseBlob, Blob, Valid;
    if n > 0 {
      BlobSound(s, 3, max);
      var (t, after) := ParseBlob(s, 3, max).value;
      TextsSound(after, n - 1, max);
      var (ts, rest) := ParseTexts(after, n - 1, max).value;
      assert ([t] + ts)[1..] == ts;
      Assoc(Blob(3, t), EncTexts(ts), rest);
    }
  }

  lemma {:induction false} TextsComplete(ts: seq<Bytes>, max: nat, rest: Bytes)
    requires TextsValid(ts, max) && max < Uint64
    ensures ParseTexts(EncTexts(ts) + rest, |ts|, max) == Ok((ts, rest))
  {
    hide ParseBlob, Blob, Valid;
    if ts == [] {
      assert EncTexts(ts) + rest == rest;
    } else {
      assert TextsValid(ts[1..], max);
      TextsComplete(ts[1..], max, rest);
      BlobComplete(3, max, ts[0], EncTexts(ts[1..]) + rest);
      Assoc(Blob(3, ts[0]), EncTexts(ts[1..]), rest);
      assert ts == [ts[0]] + ts[1..];
    }
  }

  function EntryTexts(k: nat, ts: seq<Bytes>): Bytes {
    Head(0, k) + Head(4, |ts|) + EncTexts(ts)
  }

  function ParseEntryTexts(s: Bytes, k: nat, max: nat): (r: Result<(seq<Bytes>, Bytes)>)
    ensures r.Err? ==> r.status == FormatError || r.status == Limit
  {
    var after :- ExpectUint(s, k);
    var (n, items) :- ParseCount(after, 4, MaxItems);
    ParseTexts(items, n, max)
  }

  lemma EntryTextsSound(s: Bytes, k: nat, max: nat)
    requires ParseEntryTexts(s, k, max).Ok?
    ensures var (ts, rest) := ParseEntryTexts(s, k, max).value;
      |ts| <= MaxItems && TextsValid(ts, max) && s == EntryTexts(k, ts) + rest
  {
    hide ParseHead, EncTexts, ParseTexts, TextsValid;
    HeadSound(s, 0);
    var after := ParseHead(s, 0).value.1;
    HeadSound(after, 4);
    var (n, items) := ParseHead(after, 4).value;
    TextsSound(items, n, max);
    var (ts, rest) := ParseTexts(items, n, max).value;
    Assoc(Head(0, k) + Head(4, n), EncTexts(ts), rest);
    Assoc(Head(0, k), Head(4, n), EncTexts(ts) + rest);
  }

  lemma EntryTextsComplete(k: nat, ts: seq<Bytes>, max: nat, rest: Bytes)
    requires k < Uint64 && max < Uint64 && |ts| <= MaxItems && TextsValid(ts, max)
    ensures ParseEntryTexts(EntryTexts(k, ts) + rest, k, max) == Ok((ts, rest))
  {
    hide ParseHead, EncTexts, ParseTexts, TextsValid;
    HeadComplete(0, k, Head(4, |ts|) + (EncTexts(ts) + rest));
    HeadComplete(4, |ts|, EncTexts(ts) + rest);
    TextsComplete(ts, max, rest);
    Assoc(Head(0, k) + Head(4, |ts|), EncTexts(ts), rest);
    Assoc(Head(0, k), Head(4, |ts|), EncTexts(ts) + rest);
  }

  // ---------- custom fields ----------

  /** encode_field. */
  function EncField(f: Field): Bytes {
    Head(5, 3) + EntryBlob(0, 3, f.name) + EntryBlob(1, 2, f.value) + EntryUint(2, f.flags)
  }

  /** decode_field. */
  function ParseField(s: Bytes): (r: Result<(Field, Bytes)>)
    ensures r.Err? ==> r.status == FormatError || r.status == Limit
  {
    var (n, s0) :- ParseCount(s, 5, 3);
    if n != 3 then Err(FormatError) else
    var (name, s1) :- ParseEntryBlob(s0, 0, 3, MaxFieldName);
    if name == [] then Err(FormatError) else
    var (value, s2) :- ParseEntryBlob(s1, 1, 2, MaxFieldValue);
    var (flags, s3) :- ParseEntryUint(s2, 2);
    if flags > 1 then Err(FormatError) else Ok((Field(name, value, flags), s3))
  }

  /** The same bytes, grouped from the right as a reader meets them. */
  lemma FieldGrouped(f: Field, rest: Bytes)
    ensures EncField(f) + rest
      == Head(5, 3) + (EntryBlob(0, 3, f.name) + (EntryBlob(1, 2, f.value) + (EntryUint(2, f.flags) + rest)))
  {
    hide Head, EntryBlob, EntryUint;
    var a, b, c, d := Head(5, 3), EntryBlob(0, 3, f.name), EntryBlob(1, 2, f.value), EntryUint(2, f.flags);
    Assoc(a + b + c, d, rest);
    Assoc(a + b, c, d + rest);
    Assoc(a, b, c + (d + rest));
  }

  lemma FieldSound(s: Bytes)
    requires ParseField(s).Ok?
    ensures var (f, rest) := ParseField(s).value;
      FieldValid(f) && s == EncField(f) + rest
  {
    hide ParseHead, Head, EntryBlob, EntryUint, ParseEntryBlob, ParseEntryUint, EncField, Valid;
    var (f, rest) := ParseField(s).value;
    HeadSound(s, 5);
    var s0 := ParseHead(s, 5).value.1;
    EntryBlobSound(s0, 0, 3, MaxFieldName);
    var s1 := ParseEntryBlob(s0, 0, 3, MaxFieldName).value.1;
    EntryBlobSound(s1, 1, 2, MaxFieldValue);
    EntryUintSound(ParseEntryBlob(s1, 1, 2, MaxFieldValue).value.1, 2);
    FieldGrouped(f, rest);
  }

  lemma FieldComplete(f: Field, rest: Bytes)
    requires FieldValid(f)
    ensures ParseField(EncField(f) + rest) == Ok((f, rest))
  {
    hide ParseHead, Head, EntryBlob, EntryUint, ParseEntryBlob, ParseEntryUint, EncField, Valid;
    FieldGrouped(f, rest);
    var s3 := EntryUint(2, f.flags) + rest;
    var s2 := EntryBlob(1, 2, f.value) + s3;
    HeadComplete(5, 3, EntryBlob(0, 3, f.name) + s2);
    EntryBlobComplete(0, 3, MaxFieldName, f.name, s2);
    EntryBlobComplete(1, 2, MaxFieldValue, f.value, s3);
    EntryUintComplete(2, f.flags, rest);
  }

  function EncFields(fs: seq<Field>): Bytes {
    if fs == [] then [] else EncField(fs[0]) + EncFields(fs[1..])
  }

  function ParseFields(s: Bytes, n: nat): (r: Result<(seq<Field>, Bytes)>)
    ensures r.Err? ==> r.status == FormatError || r.status == Limit
    decreases n
  {
    if n == 0 then Ok(([], s))
    else
      var (f, after) :- ParseField(s);
      var (fs, rest) :- ParseFields(after, n - 1);
      Ok(([f] + fs, rest))
  }

  lemma {:induction false} FieldsSound(s: Bytes, n: nat)
    requires ParseFields(s, n).Ok?
    ensures var (fs, rest) := ParseFields(s, n).value;
      |fs| == n && FieldsValid(fs) && s == EncFields(fs) + rest
    decreases n
  {
    hide ParseField, EncField, FieldValid;
    if n > 0 {
      FieldSound(s);
      var (f, after) := ParseField(s).value;
      FieldsSound(after, n - 1);
      var (fs, rest) := ParseFields(after, n - 1).value;
      assert ([f] + fs)[1..] == fs;
      Assoc(EncField(f), EncFields(fs), rest);
    }
  }

  lemma {:induction false} FieldsComplete(fs: seq<Field>, rest: Bytes)
    requires FieldsValid(fs)
    ensures ParseFields(EncFields(fs) + rest, |fs|) == Ok((fs, rest))
  {
    hide ParseField, EncField, FieldValid;
    if fs == [] {
      assert EncFields(fs) + rest == rest;
    } else {
      FieldsComplete(fs[1..], rest);
      FieldComplete(fs[0], EncFields(fs[1..]) + rest);
      Assoc(EncField(fs[0]), EncFields(fs[1..]), rest);
      assert fs == [fs[0]] + fs[1..];
    }
  }

  function EntryFields(k: nat, fs: seq<Field>): Bytes {
    Head(0, k) + Head(4, |fs|) + EncFields(fs)
  }

  function ParseEntryFields(s: Bytes, k: nat): (r: Result<(seq<Field>, Bytes)>)
    ensures r.Err? ==> r.status == FormatError || r.status == Limit
  {
    var after :- ExpectUint(s, k);
    var (n, items) :- ParseCount(after, 4, MaxItems);
    ParseFields(items, n)
  }

  lemma EntryFieldsSound(s: Bytes, k: nat)
    requires ParseEntryFields(s, k).Ok?
    ensures var (fs, rest) := ParseEntryFields(s, k).value;
      |fs| <= MaxItems && FieldsValid(fs) && s == EntryFields(k, fs) + rest
  {
    hide ParseHead, EncFields, ParseFields, FieldsValid;
    HeadSound(s, 0);
    var after := ParseHead(s, 0).value.1;
    HeadSound(after, 4);
    var (n, items) := ParseHead(after, 4).value;
    FieldsSound(items, n);
    var (fs, rest) := ParseFields(items, n).value;
    Assoc(Head(0, k) + Head(4, n), EncFields(fs), rest);
    Assoc(Head(0, k), Head(4, n), EncFields(fs) + rest);
  }

  lemma EntryFieldsComplete(k: nat, fs: seq<Field>, rest: Bytes)
    requires k < Uint64 && |fs| <= MaxItems && FieldsValid(fs)
    ensures ParseEntryFields(EntryFields(k, fs) + rest, k) == Ok((fs, rest))
  {
    hide ParseHead, EncFields, ParseFields, FieldsValid;
    HeadComplete(0, k, Head(4, |fs|) + (EncFields(fs) + rest));
    HeadComplete(4, |fs|, EncFields(fs) + rest);
    FieldsComplete(fs, rest);
    Assoc(Head(0, k) + Head(4, |fs|), EncFields(fs), rest);
    Assoc(Head(0, k), Head(4, |fs|), EncFields(fs) + rest);
  }

  // ---------- records ----------

  /** Non-negative times, as the encoder's casts need them. */
  predicate Timed(r: Record) {
    0 <= r.created && 0 <= r.updated
  }

  /** Entries 0 to 4: identity and bookkeeping. */
  function EncFacts(r: Record): Bytes
    requires Timed(r)
  {
    Head(5, 12) + EntryBlob(0, 2, r.id) + EntryUint(1, r.revision) + EntryUint(2, r.created)
    + EntryUint(3, r.updated) + EntryUint(4, r.flags)
  }

  /** Entries 5 to 11: what the user typed. */
  function EncContent(r: Record): Bytes {
    EntryBlob(5, 3, r.title) + EntryBlob(6, 3, r.username) + EntryBlob(7, 2, r.password) + EntryTexts(8, r.urls)
    + EntryBlob(9, 3, r.notes) + EntryTexts(10, r.tags) + EntryFields(11, r.fields)
  }

  /** encode_record. */
  function EncRecord(r: Record): Bytes
    requires Timed(r)
  {
    EncFacts(r) + EncContent(r)
  }

  const Blank: Record := Record([], 0, 0, 0, 0, [], [], [], [], [], [], [])

  function ParseFacts(s: Bytes): (r: Result<(Record, Bytes)>)
    ensures r.Err? ==> r.status == FormatError || r.status == Limit
  {
    var (n, s0) :- ParseCount(s, 5, 12);
    if n != 12 then Err(FormatError) else
    var (id, s1) :- ParseEntryBlob(s0, 0, 2, IdLength);
    if |id| != IdLength || IsZero(id) then Err(FormatError) else
    var (revision, s2) :- ParseEntryUint(s1, 1);
    if revision == 0 then Err(FormatError) else
    var (created, s3) :- ParseEntryUint(s2, 2);
    if created >= Int64 then Err(FormatError) else
    var (updated, s4) :- ParseEntryUint(s3, 3);
    if updated >= Int64 then Err(FormatError) else
    var (flags, s5) :- ParseEntryUint(s4, 4);
    if flags > 3 then Err(FormatError) else
    Ok((Blank.(id := id, revision := revision, created := created, updated := updated, flags := flags), s5))
  }

  function ParseContent(s: Bytes, facts: Record): (r: Result<(Record, Bytes)>)
    ensures r.Err? ==> r.status == FormatError || r.status == Limit
  {
    var (title, s1) :- ParseEntryBlob(s, 5, 3, MaxTitle);
    if title == [] then Err(FormatError) else
    var (username, s2) :- ParseEntryBlob(s1, 6, 3, MaxUsername);
    var (password, s3) :- ParseEntryBlob(s2, 7, 2, MaxPassword);
    var (urls, s4) :- ParseEntryTexts(s3, 8, MaxUrl);
    var (notes, s5) :- ParseEntryBlob(s4, 9, 3, MaxNotes);
    var (tags, s6) :- ParseEntryTexts(s5, 10, MaxTag);
    var (fields, s7) :- ParseEntryFields(s6, 11);
    Ok((facts.(title := title, username := username, password := password, urls := urls, notes := notes, tags := tags,
        fields := fields), s7))
  }

  /** decode_record, up to adding the record to the vault. */
  function ParseRecord(s: Bytes): (r: Result<(Record, Bytes)>)
    ensures r.Err? ==> r.status == FormatError || r.status == Limit
  {
    var (facts, rest) :- ParseFacts(s);
    ParseContent(rest, facts)
  }

  lemma FactsGrouped(r: Record, rest: Bytes)
    requires Timed(r)
    ensures EncFacts(r) + rest == Head(5, 12) + (EntryBlob(0, 2, r.id) + (EntryUint(1, r.revision)
        + (EntryUint(2, r.created) + (EntryUint(3, r.updated) + (EntryUint(4, r.flags) + rest)))))
  {
    hide Head, EntryBlob, EntryUint;
    var a, b, c := Head(5, 12), EntryBlob(0, 2, r.id), EntryUint(1, r.revision);
    var d, e, f := EntryUint(2, r.created), EntryUint(3, r.updated), EntryUint(4, r.flags);
    Assoc(a + b + c + d + e, f, rest);
    Assoc(a + b + c + d, e, f + rest);
    Assoc(a + b + c, d, e + (f + rest));
    Assoc(a + b, c, d + (e + (f + rest)));
    Assoc(a, b, c + (d + (e + (f + rest))));
  }

  lemma ContentGrouped(r: Record, rest: Bytes)
    ensures EncContent(r) + rest == EntryBlob(5, 3, r.title) + (EntryBlob(6, 3, r.username) + (EntryBlob(7, 2, r.password)
        + (EntryTexts(8, r.urls) + (EntryBlob(9, 3, r.notes) + (EntryTexts(10, r.tags) + (EntryFields(11, r.fields) + rest))))))
  {
    hide EntryBlob, EntryTexts, EntryFields;
    var a, b, c := EntryBlob(5, 3, r.title), EntryBlob(6, 3, r.username), EntryBlob(7, 2, r.password);
    var d, e, f, g := EntryTexts(8, r.urls), EntryBlob(9, 3, r.notes), EntryTexts(10, r.tags), EntryFields(11, r.fields);
    Assoc(a + b + c + d + e + f, g, rest);
    Assoc(a + b + c + d + e, f, g + rest);
    Assoc(a + b + c + d, e, f + (g + rest));
    Assoc(a + b + c, d, e + (f + (g + rest)));
    Assoc(a + b, c, d + (e + (f + (g + rest))));
    Assoc(a, b, c + (d + (e + (f + (g + rest)))));
  }

  /** What entries 0 to 4 of a valid record satisfy. */
  predicate FactsValid(r: Record) {
    && |r.id| == IdLength && !IsZero(r.id) && 0 < r.revision < Uint64
    && 0 <= r.created < Int64 && 0 <= r.updated < Int64 && r.flags <= 3
  }

  /** What entries 5 to 11 satisfy. */
  predicate TextValid(r: Record) {
    && WithinLimits(r) && r.title != [] && Valid(r.title) && Valid(r.username) && Valid(r.notes)
    && TextsValid(r.urls, MaxUrl) && TextsValid(r.tags, MaxTag) && FieldsValid(r.fields)
  }

  lemma ValidInParts(r: Record)
    ensures RecordValid(r) <==> FactsValid(r) && TextValid(r)
  {
  }

  lemma FactsSound(s: Bytes)
    requires ParseFacts(s).Ok?
    ensures var (r, rest) := ParseFacts(s).value;
      FactsValid(r) && s == EncFacts(r) + rest
  {
    hide ParseHead, Head, EntryBlob, EntryUint, ParseEntryBlob, ParseEntryUint, EncFacts;
    var (r, rest) := ParseFacts(s).value;
    HeadSound(s, 5);
    var s0 := ParseHead(s, 5).value.1;
    EntryBlobSound(s0, 0, 2, IdLength);
    var s1 := ParseEntryBlob(s0, 0, 2, IdLength).value.1;
    EntryUintSound(s1, 1);
    var s2 := ParseEntryUint(s1, 1).value.1;
    EntryUintSound(s2, 2);
    var s3 := ParseEntryUint(s2, 2).value.1;
    EntryUintSound(s3, 3);
    EntryUintSound(ParseEntryUint(s3, 3).value.1, 4);
    FactsGrouped(r, rest);
  }

  lemma FactsComplete(r: Record, rest: Bytes)
    requires FactsValid(r)
    ensures ParseFacts(EncFacts(r) + rest)
      == Ok((Blank.(id := r.id, revision := r.revision, created := r.created, updated := r.updated, flags := r.flags), rest))
  {
    hide ParseHead, Head, EntryBlob, EntryUint, ParseEntryBlob, ParseEntryUint, EncFacts;
    FactsGrouped(r, rest);
    var s5 := EntryUint(4, r.flags) + rest;
    var s4 := EntryUint(3, r.updated) + s5;
    var s3 := EntryUint(2, r.created) + s4;
    var s2 := EntryUint(1, r.revision) + s3;
    HeadComplete(5, 12, EntryBlob(0, 2, r.id) + s2);
    EntryBlobComplete(0, 2, IdLength, r.id, s2);
    EntryUintComplete(1, r.revision, s3);
    EntryUintComplete(2, r.created, s4);
    EntryUintComplete(3, r.updated, s5);
    EntryUintComplete(4, r.flags, rest);
  }

  lemma ContentSound(s: Bytes, facts: Record)
    requires ParseContent(s, facts).Ok?
    ensures var (r, rest) := ParseContent(s, facts).value;
      && TextValid(r) && s == EncContent(r) + rest
      && r == facts.(title := r.title, username := r.username, password := r.password, urls := r.urls, notes := r.notes,
        tags := r.tags, fields := r.fields)
  {
    hide EntryBlob, EntryTexts, EntryFields, ParseEntryBlob, ParseEntryTexts, ParseEntryFields, EncContent, Valid, TextsValid, FieldsValid;
    var (r, rest) := ParseContent(s, facts).value;
    EntryBlobSound(s, 5, 3, MaxTitle);
    var s1 := ParseEntryBlob(s, 5, 3, MaxTitle).value.1;
    EntryBlobSound(s1, 6, 3, MaxUsername);
    var s2 := ParseEntryBlob(s1, 6, 3, MaxUsername).value.1;
    EntryBlobSound(s2, 7, 2, MaxPassword);
    var s3 := ParseEntryBlob(s2, 7, 2, MaxPassword).value.1;
    EntryTextsSound(s3, 8, MaxUrl);
    var s4 := ParseEntryTexts(s3, 8, MaxUrl).value.1;
    EntryBlobSound(s4, 9, 3, MaxNotes);
    var s5 := ParseEntryBlob(s4, 9, 3, MaxNotes).value.1;
    EntryTextsSound(s5, 10, MaxTag);
    EntryFieldsSound(ParseEntryTexts(s5, 10, MaxTag).value.1, 11);
    ContentGrouped(r, rest);
  }

  lemma ContentComplete(r: Record, facts: Record, rest: Bytes)
    requires TextValid(r)
    ensures ParseContent(EncContent(r) + rest, facts) == Ok((facts.(title := r.title, username := r.username,
        password := r.password, urls := r.urls, notes := r.notes, tags := r.tags, fields := r.fields), rest))
  {
    hide EntryBlob, EntryTexts, EntryFields, ParseEntryBlob, ParseEntryTexts, ParseEntryFields, EncContent, Valid, TextsValid, FieldsValid;
    ContentGrouped(r, rest);
    var s7 := EntryFields(11, r.fields) + rest;
    var s6 := EntryTexts(10, r.tags) + s7;
    var s5 := EntryBlob(9, 3, r.notes) + s6;
    var s4 := EntryTexts(8, r.urls) + s5;
    var s3 := EntryBlob(7, 2, r.password) + s4;
    EntryBlobComplete(5, 3, MaxTitle, r.title, EntryBlob(6, 3, r.username) + s3);
    EntryBlobComplete(6, 3, MaxUsername, r.username, s3);
    EntryBlobComplete(7, 2, MaxPassword, r.password, s4);
    EntryTextsComplete(8, r.urls, MaxUrl, s5);
    EntryBlobComplete(9, 3, MaxNotes, r.notes, s6);
    EntryTextsComplete(10, r.tags, MaxTag, s7);
    EntryFieldsComplete(11, r.fields, rest);
  }

  /** A record read is valid, and what was read is its encoding. */
  lemma RecordSound(s: Bytes)
    requires ParseRecord(s).Ok?
    ensures var (r, rest) := ParseRecord(s).value;
      RecordValid(r) && s == EncRecord(r) + rest
  {
    hide ParseFacts, ParseContent, EncFacts, EncContent, RecordValid, TextValid;
    FactsSound(s);
    var (facts, after) := ParseFacts(s).value;
    ContentSound(after, facts);
    var (r, rest) := ParseRecord(s).value;
    FactsOnly(facts, r);
    ValidInParts(r);
    Assoc(EncFacts(r), EncContent(r), rest);
  }

  lemma FactsOnly(a: Record, b: Record)
    requires FactsValid(a)
    requires a.id == b.id && a.revision == b.revision && a.created == b.created && a.updated == b.updated && a.flags == b.flags
    ensures FactsValid(b) && EncFacts(a) == EncFacts(b)
  {
  }

  /** Every valid record is read back. */
  lemma RecordComplete(r: Record, rest: Bytes)
    requires RecordValid(r)
    ensures ParseRecord(EncRecord(r) + rest) == Ok((r, rest))
  {
    ValidInParts(r);
    hide ParseFacts, ParseContent, EncFacts, EncContent, RecordValid, TextValid;
    FactsComplete(r, EncContent(r) + rest);
    ContentComplete(r, ParseFacts(EncFacts(r) + (EncContent(r) + rest)).value.0, rest);
    Assoc(EncFacts(r), EncContent(r), rest);
  }

  // ---------- sequences of records ----------

  predicate AllTimed(rs: seq<Record>) {
    forall k :: 0 <= k < |rs| ==> Timed(rs[k])
  }

  function EncRecords(rs: seq<Record>): Bytes
    requires AllTimed(rs)
  {
    if rs == [] then [] else EncRecord(rs[0]) + EncRecords(rs[1..])
  }

  lemma TimedIfValid(rs: seq<Record>)
    requires RecordsValid(rs)
    ensures AllTimed(rs)
  {
    forall k | 0 <= k < |rs| ensures Timed(rs[k]) {
      ValidInParts(rs[k]);
    }
  }
}

/**
 The whole plaintext: pv_cbor_encode and pv_cbor_decode as functions, the theorem that decoding accepts
 exactly the encodings of acceptable vaults, and the bound that makes every encoding fit.
 */
module Plaintext {
  import opened Prelude
  import opened Records
  import opened Layout
  import opened Cbor
  import opened Schema
  import opened Vaults
  import opened Sizes

  const MaxRecords: nat := MaxPlaintext / 64
  const DeviceIdLength: nat := 16

  /** What a vault file protects. */
  datatype Plain = Plain(generation: nat, deviceId: Bytes, created: int, updated: int, records: seq<Record>)

  /** What the decoder asks of the vault around its records. */
  predicate OuterValid(p: Plain) {
    && p.generation < Uint64 && |p.deviceId| == DeviceIdLength && !IsZero(p.deviceId)
    && 0 <= p.created < Int64 && 0 <= p.updated < Int64 && |p.records| <= MaxRecords
  }

  predicate PlainValid(p: Plain) {
    OuterValid(p) && RecordsValid(p.records) && DistinctIds(p.records)
  }

  // ---------- records ----------

  /** The loop of pv_cbor_decode: each record is read, then added to the vault built so far. */
  function ParseRecords(s: Bytes, n: nat, used: nat, cap: nat, rs: seq<Record>): (r: Result<(seq<Record>, nat, nat, Bytes)>)
    ensures r.Err? ==> r.status == FormatError || r.status == Limit
    decreases n
  {
    if n == 0 then Ok((rs, used, cap, s))
    else
      var (r, rest) :- ParseRecord(s);
      var st := AddStatus(r, false, used, cap, rs);
      if st != OK then Err(if st == Exists then FormatError else st)
      else
        var (u, c) := Layout.Add(used, cap, |rs|, r).value;
        ParseRecords(rest, n - 1, u, c, rs + [r])
  }

  /** A vault's worth of records, added one after the other from the empty vault. */
  predicate Built(rs: seq<Record>, used: nat, cap: nat) {
    RecordsValid(rs) && DistinctIds(rs) && AddAll(rs) == Some((used, cap))
  }

  lemma BuiltMore(rs: seq<Record>, used: nat, cap: nat, r: Record)
    requires Built(rs, used, cap) && RecordValid(r)
    ensures AddStatus(r, false, used, cap, rs) == OK ==>
      var (u, c) := Layout.Add(used, cap, |rs|, r).value; Built(rs + [r], u, c)
    ensures AddStatus(r, false, used, cap, rs) == OK <==> AddAll(rs + [r]).Some? && DistinctIds(rs + [r])
  {
    hide RecordValid, PutRecord;
    var all := rs + [r];
    assert all[..|rs|] == rs;
    assert RecordValid(r) ==> !IsZero(r.id) by {
      ValidInParts(r);
    }
    if HasId(rs, r.id) {
      var k :| 0 <= k < |rs| && rs[k].id == r.id;
      assert all[k].id == all[|rs|].id;
    }
  }

  lemma {:induction false} RecordsSound(s: Bytes, n: nat, used: nat, cap: nat, rs: seq<Record>)
    requires Built(rs, used, cap) && ParseRecords(s, n, used, cap, rs).Ok?
    ensures var (all, u, c, rest) := ParseRecords(s, n, used, cap, rs).value;
      && Built(all, u, c) && |all| == |rs| + n && all[..|rs|] == rs
      && AllTimed(all[|rs|..]) && s == EncRecords(all[|rs|..]) + rest
    decreases n
  {
    hide ParseRecord, EncRecord, RecordValid, AddStatus, Built, Layout.Add;
    var (all, u, c, rest) := ParseRecords(s, n, used, cap, rs).value;
    if n == 0 {
      assert all[|rs|..] == [];
      assert s == [] + rest;
    } else {
      RecordSound(s);
      var (r, after) := ParseRecord(s).value;
      BuiltMore(rs, used, cap, r);
      AddStatusSome(r, used, cap, rs);
      var (u1, c1) := Layout.Add(used, cap, |rs|, r).value;
      RecordsSound(after, n - 1, u1, c1, rs + [r]);
      var more := all[|rs|..];
      assert all[|rs| + 1..] == more[1..];
      assert all[..|rs| + 1][|rs|] == r == more[0];
      assert all[..|rs|] == all[..|rs| + 1][..|rs|];
      BuiltTimed(all, u, c);
      Assoc(EncRecord(r), EncRecords(more[1..]), rest);
    }
  }

  lemma AddStatusSome(r: Record, used: nat, cap: nat, rs: seq<Record>)
    ensures AddStatus(r, false, used, cap, rs) == OK ==> Layout.Add(used, cap, |rs|, r).Some?
  {
  }

  lemma BuiltTimed(rs: seq<Record>, used: nat, cap: nat)
    requires Built(rs, used, cap)
    ensures AllTimed(rs)
  {
    TimedIfValid(rs);
  }

  lemma {:induction false} AddAllPrefix(rs: seq<Record>, k: nat)
    requires k <= |rs| && AddAll(rs).Some?
    ensures AddAll(rs[..k]).Some?
    decreases |rs| - k
  {
    hide Layout.Add;
    if k < |rs| {
      AddAllPrefix(rs, k + 1);
      assert rs[..k + 1][..k] == rs[..k];
    } else {
      assert rs[..k] == rs;
    }
  }

  /** The next record of a vault that was built can be added. */
  lemma NextAdds(rs: seq<Record>, more: seq<Record>, used: nat, cap: nat, u: nat, c: nat)
    requires Built(rs, used, cap) && Built(rs + more, u, c) && more != []
    ensures RecordValid(more[0]) && AddStatus(more[0], false, used, cap, rs) == OK
    ensures Layout.Add(used, cap, |rs|, more[0]).Some?
    ensures var (u1, c1) := Layout.Add(used, cap, |rs|, more[0]).value; Built(rs + [more[0]], u1, c1)
  {
    hide RecordValid, Layout.Add;
    var r := more[0];
    assert (rs + more)[..|rs| + 1] == rs + [r];
    assert r == (rs + more)[|rs|];
    AddAllPrefix(rs + more, |rs| + 1);
    DistinctPrefix(rs + more, |rs| + 1);
    BuiltMore(rs, used, cap, r);
    AddStatusSome(r, used, cap, rs);
  }

  lemma ParseRecordsStep(s: Bytes, n: nat, used: nat, cap: nat, rs: seq<Record>, r: Record, after: Bytes)
    requires n > 0 && ParseRecord(s) == Ok((r, after)) && AddStatus(r, false, used, cap, rs) == OK
    ensures Layout.Add(used, cap, |rs|, r).Some?
    ensures var (u1, c1) := Layout.Add(used, cap, |rs|, r).value;
      ParseRecords(s, n, used, cap, rs) == ParseRecords(after, n - 1, u1, c1, rs + [r])
  {
    AddStatusSome(r, used, cap, rs);
    hide AddStatus, ParseRecord, Layout.Add;
  }

  lemma EncRecordsStep(rs: seq<Record>, rest: Bytes)
    requires AllTimed(rs) && rs != []
    ensures AllTimed(rs[1..])
    ensures EncRecords(rs) + rest == EncRecord(rs[0]) + (EncRecords(rs[1..]) + rest)
  {
    hide EncRecord;
    Assoc(EncRecord(rs[0]), EncRecords(rs[1..]), rest);
  }

  lemma NoMoreRecords(rs: seq<Record>, used: nat, cap: nat, u: nat, c: nat, rest: Bytes)
    requires Built(rs, used, cap)
    ensures Built(rs, u, c) ==> used == u && cap == c
    ensures AllTimed([]) && ParseRecords(EncRecords([]) + rest, 0, used, cap, rs) == Ok((rs, used, cap, rest))
  {
    hide RecordsValid, DistinctIds, AddAll;
    assert EncRecords([]) + rest == rest;
  }

  lemma {:induction false} RecordsComplete(rs: seq<Record>, more: seq<Record>, used: nat, cap: nat, u: nat, c: nat, rest: Bytes)
    requires Built(rs, used, cap) && Built(rs + more, u, c) && AllTimed(more)
    ensures ParseRecords(EncRecords(more) + rest, |more|, used, cap, rs) == Ok((rs + more, u, c, rest))
    decreases |more|
  {
    hide RecordValid, Layout.Add, EncRecord, EncRecords, ParseRecord, ParseRecords, AddStatus, Built, AddAll, AllTimed;
    if more == [] {
      NoMoreRecords(rs, used, cap, u, c, rest);
      assert rs + more == rs;
    } else {
      var r, later := more[0], more[1..];
      assert (rs + [r]) + later == rs + more;
      NextAdds(rs, more, used, cap, u, c);
      EncRecordsStep(more, rest);
      RecordComplete(r, EncRecords(later) + rest);
      ParseRecordsStep(EncRecords(more) + rest, |more|, used, cap, rs, r, EncRecords(later) + rest);
      var (u1, c1) := Layout.Add(used, cap, |rs|, r).value;
      RecordsComplete(rs + [r], later, u1, c1, u, c, rest);
    }
  }

  lemma DistinctPrefix(rs: seq<Record>, k: nat)
    requires DistinctIds(rs) && k <= |rs|
    ensures DistinctIds(rs[..k])
  {
  }

  // ---------- the whole ----------

  /** pv_cbor_encode's output. */
  function EncPlain(p: Plain): Bytes
    requires 0 <= p.created && 0 <= p.updated && AllTimed(p.records)
  {
    EncOuter(p) + (Head(0, 5) + Head(4, |p.records|) + EncRecords(p.records))
  }

  function EncOuter(p: Plain): Bytes
    requires 0 <= p.created && 0 <= p.updated
  {
    Head(5, 6) + EntryUint(0, 1) + EntryUint(1, p.generation) + EntryBlob(2, 2, p.deviceId) + EntryUint(3, p.created)
    + EntryUint(4, p.updated)
  }

  function ParseOuter(s: Bytes): (r: Result<(Plain, Bytes)>)
    ensures r.Err? ==> r.status == FormatError || r.status == Limit
  {
    var (n, s0) :- ParseCount(s, 5, 6);
    if n != 6 then Err(FormatError) else
    var (schema, s1) :- ParseEntryUint(s0, 0);
    if schema != 1 then Err(FormatError) else
    var (generation, s2) :- ParseEntryUint(s1, 1);
    var (deviceId, s3) :- ParseEntryBlob(s2, 2, 2, DeviceIdLength);
    if |deviceId| != DeviceIdLength || IsZero(deviceId) then Err(FormatError) else
    var (created, s4) :- ParseEntryUint(s3, 3);
    if created >= Int64 then Err(FormatError) else
    var (updated, s5) :- ParseEntryUint(s4, 4);
    if updated >= Int64 then Err(FormatError) else Ok((Plain(generation, deviceId, created, updated, []), s5))
  }

  /** Entry 5: the records, into an empty vault. */
  function ParseBody(s: Bytes): (r: Result<(seq<Record>, nat, nat, Bytes)>)
    ensures r.Err? ==> r.status == FormatError || r.status == Limit
  {
    var s0 :- ExpectUint(s, 5);
    var (n, s1) :- ParseCount(s0, 4, MaxRecords);
    ParseRecords(s1, n, InitialRecords * RecordSize, InitialRecords, [])
  }

  /** pv_cbor_decode into an empty vault. */
  function Decode(s: Bytes): Result<Plain> {
    if s == [] || |s| > MaxPlaintext then Err(Usage) else
    var (outer, s0) :- ParseOuter(s);
    var (rs, used, cap, rest) :- ParseBody(s0);
    if rest != [] then Err(FormatError) else Ok(outer.(records := rs))
  }

  /** A plaintext that can be opened again: valid, and its records fit when added in order. */
  predicate Openable(p: Plain) {
    PlainValid(p) && AddAll(p.records).Some?
  }

  function EncPlainOf(p: Plain): Bytes
    requires PlainValid(p)
  {
    TimedIfValid(p.records);
    EncPlain(p)
  }

  lemma OuterGrouped(p: Plain, rest: Bytes)
    requires 0 <= p.created && 0 <= p.updated
    ensures EncOuter(p) + rest == Head(5, 6) + (EntryUint(0, 1) + (EntryUint(1, p.generation) + (EntryBlob(2, 2, p.deviceId)
        + (EntryUint(3, p.created) + (EntryUint(4, p.updated) + rest)))))
  {
    hide Head, EntryBlob, EntryUint;
    var a, b, c := Head(5, 6), EntryUint(0, 1), EntryUint(1, p.generation);
    var d, e, f := EntryBlob(2, 2, p.deviceId), EntryUint(3, p.created), EntryUint(4, p.updated);
    Assoc(a + b + c + d + e, f, rest);
    Assoc(a + b + c + d, e, f + rest);
    Assoc(a + b + c, d, e + (f + rest));
    Assoc(a + b, c, d + (e + (f + rest)));
    Assoc(a, b, c + (d + (e + (f + rest))));
  }

  lemma OuterSound(s: Bytes)
    requires ParseOuter(s).Ok?
    ensures var (p, rest) := ParseOuter(s).value;
      OuterValid(p) && p.records == [] && s == EncOuter(p) + rest
  {
    hide ParseHead, Head, EntryBlob, EntryUint, ParseEntryBlob, ParseEntryUint, EncOuter;
    var (p, rest) := ParseOuter(s).value;
    HeadSound(s, 5);
    var s0 := ParseHead(s, 5).value.1;
    EntryUintSound(s0, 0);
    var s1 := ParseEntryUint(s0, 0).value.1;
    EntryUintSound(s1, 1);
    var s2 := ParseEntryUint(s1, 1).value.1;
    EntryBlobSound(s2, 2, 2, DeviceIdLength);
    var s3 := ParseEntryBlob(s2, 2, 2, DeviceIdLength).value.1;
    EntryUintSound(s3, 3);
    EntryUintSound(ParseEntryUint(s3, 3).value.1, 4);
    assert p.created == ParseEntryUint(s3, 3).value.0 && p.updated == ParseEntryUint(ParseEntryUint(s3, 3).value.1, 4).value.0;
    OuterGrouped(p, rest);
  }

  lemma OuterComplete(p: Plain, rest: Bytes)
    requires OuterValid(p)
    ensures ParseOuter(EncOuter(p) + rest) == Ok((p.(records := []), rest))
  {
    hide ParseHead, Head, EntryBlob, EntryUint, ParseEntryBlob, ParseEntryUint, EncOuter;
    OuterGrouped(p, rest);
    var s5 := EntryUint(4, p.updated) + rest;
    var s4 := EntryUint(3, p.created) + s5;
    var s3 := EntryBlob(2, 2, p.deviceId) + s4;
    var s2 := EntryUint(1, p.generation) + s3;
    HeadComplete(5, 6, EntryUint(0, 1) + s2);
    EntryUintComplete(0, 1, s2);
    EntryUintComplete(1, p.generation, s3);
    EntryBlobComplete(2, 2, DeviceIdLength, p.deviceId, s4);
    EntryUintComplete(3, p.created, s5);
    EntryUintComplete(4, p.updated, rest);
  }

  lemma BuiltNone()
    ensures Built([], InitialRecords * RecordSize, InitialRecords)
  {
  }

  lemma BodySound(s: Bytes)
    requires ParseBody(s).Ok?
    ensures var (rs, used, cap, rest) := ParseBody(s).value;
      Built(rs, used, cap) && |rs| <= MaxRecords && AllTimed(rs) && s == Head(0, 5) + Head(4, |rs|) + EncRecords(rs) + rest
  {
    BuiltNone();
    hide ParseHead, Head, ParseRecords, EncRecords, Built;
    HeadSound(s, 0);
    var s0 := ParseHead(s, 0).value.1;
    HeadSound(s0, 4);
    var (n, s1) := ParseHead(s0, 4).value;
    RecordsSound(s1, n, InitialRecords * RecordSize, InitialRecords, []);
    var (rs, used, cap, rest) := ParseBody(s).value;
    assert rs[0..] == rs;
    Assoc(Head(0, 5) + Head(4, n), EncRecords(rs), rest);
    Assoc(Head(0, 5), Head(4, n), EncRecords(rs) + rest);
  }

  lemma BodyComplete(rs: seq<Record>, used: nat, cap: nat, rest: Bytes)
    requires Built(rs, used, cap) && |rs| <= MaxRecords
    ensures AllTimed(rs)
    ensures ParseBody(Head(0, 5) + Head(4, |rs|) + EncRecords(rs) + rest) == Ok((rs, used, cap, rest))
  {
    hide ParseHead, Head, ParseRecords, EncRecords, Built, AllTimed;
    BuiltNone();
    BuiltTimed(rs, used, cap);
    assert [] + rs == rs;
    var key, count, items := Head(0, 5), Head(4, |rs|), EncRecords(rs) + rest;
    Assoc(key + count, EncRecords(rs), rest);
    Assoc(key, count, items);
    HeadComplete(0, 5, count + items);
    HeadComplete(4, |rs|, items);
    assert ParseBody(key + (count + items)) == ParseRecords(items, |rs|, InitialRecords * RecordSize, InitialRecords, []);
    RecordsComplete([], rs, InitialRecords * RecordSize, InitialRecords, used, cap, rest);
  }

  /** What is decoded is openable, and the input was its one encoding. */
  lemma DecodeSound(s: Bytes)
    requires Decode(s).Ok?
    ensures Openable(Decode(s).value) && s == EncPlainOf(Decode(s).value)
  {
    hide ParseOuter, ParseBody, Head, EncRecords, EncOuter, RecordValid, DistinctIds, AddAll, IsZero;
    var p := Decode(s).value;
    OuterSound(s);
    var (outer, s0) := ParseOuter(s).value;
    BodySound(s0);
    var (rs, used, cap, rest) := ParseBody(s0).value;
    assert Head(0, 5) + Head(4, |rs|) + EncRecords(rs) + [] == Head(0, 5) + Head(4, |rs|) + EncRecords(rs);
    OuterSame(outer, p);
  }

  lemma OuterSame(a: Plain, b: Plain)
    requires OuterValid(a) && b == a.(records := b.records)
    ensures EncOuter(a) == EncOuter(b)
  {
  }

  lemma EncodingNotEmpty(p: Plain)
    requires PlainValid(p)
    ensures EncPlainOf(p) != []
  {
    TimedIfValid(p.records);
    hide EntryBlob, EntryUint, EncRecords;
    assert |Head(5, 6)| == 1;
    assert |EncOuter(p)| >= 1;
  }

  lemma OuterSize(p: Plain)
    requires OuterValid(p)
    ensures |EncOuter(p)| <= 51
  {
  }

  /** Whatever is live in an arena that pays for it encodes into less than the arena holds, with room for a length. */
  lemma EncodingFits(p: Plain, used: nat, cap: nat)
    requires PlainValid(p) && Budget(used, cap, p.records)
    ensures |EncPlainOf(p)| + 4 <= used <= MaxPlaintext
  {
    TimedIfValid(p.records);
    OuterSize(p);
    RecordsSize(p.records);
    hide EncOuter, EncRecords, Layout.RecordsCost, RecordsValid, DistinctIds;
    assert |Head(4, |p.records|)| <= 3;
  }

  lemma DecodeComplete(p: Plain)
    requires Openable(p)
    ensures Decode(EncPlainOf(p)) == Ok(p)
  {
    hide ParseOuter, ParseBody, EncOuter, EncPlainOf, AddAll, RecordsValid, DistinctIds, EncBody;
    var (used, cap) := AddAll(p.records).value;
    EncodingNotEmpty(p);
    AddAllBudget(p.records);
    EncodingFits(p, used, cap);
    EncodingParts(p);
    BodyParsed(p, used, cap);
    OuterComplete(p, EncBody(p));
  }

  /** The part of the encoding behind the outer map's first entries. */
  function EncBody(p: Plain): Bytes
    requires AllTimed(p.records)
  {
    Head(0, 5) + Head(4, |p.records|) + EncRecords(p.records)
  }

  lemma EncodingParts(p: Plain)
    requires PlainValid(p)
    ensures AllTimed(p.records) && EncPlainOf(p) == EncOuter(p) + EncBody(p)
  {
    hide EncOuter, Head, EncRecords;
    TimedIfValid(p.records);
  }

  lemma BodyParsed(p: Plain, used: nat, cap: nat)
    requires PlainValid(p) && AddAll(p.records) == Some((used, cap)) && AllTimed(p.records)
    ensures ParseBody(EncBody(p)) == Ok((p.records, used, cap, []))
  {
    hide ParseBody, Head, EncRecords, AddAll;
    BodyComplete(p.records, used, cap, []);
    assert EncBody(p) + [] == EncBody(p);
  }

  /** Decoding accepts exactly the encodings of openable vaults; the encoding is the only one. */
  lemma DecodeExactly(s: Bytes, p: Plain)
    ensures Decode(s) == Ok(p) <==> Openable(p) && s == EncPlainOf(p)
  {
    hide Decode, EncPlainOf;
    if Decode(s) == Ok(p) {
      DecodeSound(s);
    }
    if Openable(p) && s == EncPlainOf(p) {
      DecodeComplete(p);
    }
  }

  // ---------- one plaintext, one encoding ----------

  /** Encoded records determine the records, whatever follows them. */
  lemma {:induction false} EncRecordsInjective(a: seq<Record>, b: seq<Record>, s: Bytes, t: Bytes)
    requires RecordsValid(a) && RecordsValid(b) && AllTimed(a) && AllTimed(b) && |a| == |b|
    requires EncRecords(a) + s == EncRecords(b) + t
    ensures a == b
    decreases |a|
  {
    hide RecordValid, EncRecord, ParseRecord;
    if a != [] {
      EncRecordsStep(a, s);
      EncRecordsStep(b, t);
      RecordComplete(a[0], EncRecords(a[1..]) + s);
      RecordComplete(b[0], EncRecords(b[1..]) + t);
      EncRecordsInjective(a[1..], b[1..], s, t);
      assert a == [a[0]] + a[1..] && b == [b[0]] + b[1..];
    }
  }

  /** Valid plaintexts with the same encoding are the same. */
  lemma EncodingInjective(p: Plain, q: Plain)
    requires PlainValid(p) && PlainValid(q) && EncPlainOf(p) == EncPlainOf(q)
    ensures p == q
  {
    TimedIfValid(p.records);
    TimedIfValid(q.records);
    var key := Head(0, 5);
    var u, v := Head(4, |p.records|) + EncRecords(p.records), Head(4, |q.records|) + EncRecords(q.records);
    hide Head, EncOuter, EncRecords, ParseOuter, ParseHead, RecordsValid, DistinctIds;
    Assoc(key, Head(4, |p.records|), EncRecords(p.records));
    Assoc(key, Head(4, |q.records|), EncRecords(q.records));
    OuterComplete(p, key + u);
    OuterComplete(q, key + v);
    HeadComplete(0, 5, u);
    HeadComplete(0, 5, v);
    HeadComplete(4, |p.records|, EncRecords(p.records));
    HeadComplete(4, |q.records|, EncRecords(q.records));
    EncRecordsInjective(p.records, q.records, [], []);
  }

  /** A valid plaintext is given back by the decoder, or refused, and which of the two its records decide. */
  lemma DecodeOwn(p: Plain)
    requires PlainValid(p)
    ensures Decode(EncPlainOf(p)) == Ok(p) <==> AddAll(p.records).Some?
    ensures Decode(EncPlainOf(p)).Err? <==> AddAll(p.records).None?
  {
    hide Decode, EncPlainOf, AddAll, PlainValid;
    DecodeExactly(EncPlainOf(p), p);
    if Decode(EncPlainOf(p)).Ok? {
      var q := Decode(EncPlainOf(p)).value;
      DecodeExactly(EncPlainOf(p), q);
      EncodingInjective(p, q);
    }
  }
}

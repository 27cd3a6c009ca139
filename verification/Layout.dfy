/**
 The bump arena as arithmetic: where each block goes, how much of the arena a sequence of records
 takes, and what it costs to keep them.
 */
module Layout {
  import opened Prelude
  import opened Records

  /** PV_ARENA_CAPACITY, and sizeof of the C structures on a 64-bit target. */
  const ArenaCapacity: nat := MaxPlaintext
  const RecordSize: nat := 160
  const SliceSize: nat := 16
  const FieldSize: nat := 40
  const InitialRecords: nat := 16

  /** The least multiple of `align` that is not below `u`. */
  function AlignUp(u: nat, align: nat): (r: nat)
    requires align > 0
    ensures u <= r < u + align
  {
    if u % align == 0 then u else u - u % align + align
  }

  /** The arena after an array of `count` structures of `size` bytes, 8-aligned; none for an empty one. */
  function PutArray(u: nat, count: nat, size: nat): (r: Option<nat>)
    ensures r.Some? ==> u + count * size <= r.value
    ensures r.Some? && u <= ArenaCapacity ==> r.value <= ArenaCapacity
  {
    if count == 0 then Some(u)
    else if AlignUp(u, 8) + count * size <= ArenaCapacity then Some(AlignUp(u, 8) + count * size)
    else None
  }

  /** A text and its terminator; nothing for an empty one. */
  function PutText(u: nat, t: Bytes): (r: Option<nat>)
    ensures r.Some? ==> r.value == u + TextCost(t)
    ensures r.Some? && u <= ArenaCapacity ==> r.value <= ArenaCapacity
  {
    if t == [] then Some(u) else if u + |t| + 1 <= ArenaCapacity then Some(u + |t| + 1) else None
  }

  function PutTexts(u: nat, ts: seq<Bytes>): (r: Option<nat>)
    ensures r.Some? ==> r.value == u + TextsCost(ts)
    ensures r.Some? && u <= ArenaCapacity ==> r.value <= ArenaCapacity
  {
    if ts == [] then Some(u)
    else
      var v := PutTexts(u, ts[..|ts| - 1]);
      if v.None? then None else PutText(v.value, ts[|ts| - 1])
  }

  /** A custom field's name, then its value. */
  function PutField(u: nat, f: Field): (r: Option<nat>)
    ensures r.Some? ==> r.value == u + TextCost(f.name) + TextCost(f.value)
    ensures r.Some? && u <= ArenaCapacity ==> r.value <= ArenaCapacity
  {
    var w := PutText(u, f.name);
    if w.None? then None else PutText(w.value, f.value)
  }

  function PutFields(u: nat, fs: seq<Field>): (r: Option<nat>)
    ensures r.Some? ==> r.value == u + FieldTextsCost(fs)
    ensures r.Some? && u <= ArenaCapacity ==> r.value <= ArenaCapacity
  {
    if fs == [] then Some(u)
    else
      var v := PutFields(u, fs[..|fs| - 1]);
      if v.None? then None else PutField(v.value, fs[|fs| - 1])
  }

  /** copy_slices: the array of slices, then the texts. */
  function PutSlices(u: nat, ts: seq<Bytes>): (r: Option<nat>)
    ensures r.Some? ==> r.value >= u + SliceSize * |ts| + TextsCost(ts)
    ensures r.Some? && u <= ArenaCapacity ==> r.value <= ArenaCapacity
  {
    var a := PutArray(u, |ts|, SliceSize);
    if a.None? then None else PutTexts(a.value, ts)
  }

  /** copy_fields: the array of fields, then the texts. */
  function PutFieldArray(u: nat, fs: seq<Field>): (r: Option<nat>)
    ensures r.Some? ==> r.value >= u + FieldSize * |fs| + FieldTextsCost(fs)
    ensures r.Some? && u <= ArenaCapacity ==> r.value <= ArenaCapacity
  {
    var a := PutArray(u, |fs|, FieldSize);
    if a.None? then None else PutFields(a.value, fs)
  }

  /** The four texts that every record has. */
  function PutFour(u: nat, r: Record): (z: Option<nat>)
    ensures z.Some? ==> z.value == u + TextCost(r.title) + TextCost(r.username) + TextCost(r.password) + TextCost(r.notes)
    ensures z.Some? && u <= ArenaCapacity ==> z.value <= ArenaCapacity
  {
    var a := PutText(u, r.title);
    if a.None? then None else
    var b := PutText(a.value, r.username);
    if b.None? then None else
    var c := PutText(b.value, r.password);
    if c.None? then None else PutText(c.value, r.notes)
  }

  /** What adding a record copies into the arena, in order. */
  function PutRecord(u: nat, r: Record): (z: Option<nat>)
    ensures z.Some? ==> z.value >= u + RecordCost(r)
    ensures z.Some? && u <= ArenaCapacity ==> z.value <= ArenaCapacity
  {
    var d := PutFour(u, r);
    if d.None? then None else
    var e := PutSlices(d.value, r.urls);
    if e.None? then None else
    var f := PutSlices(e.value, r.tags);
    if f.None? then None else PutFieldArray(f.value, r.fields)
  }

  // ---------- what is kept ----------

  function TextCost(t: Bytes): nat {
    if t == [] then 0 else |t| + 1
  }

  function TextsCost(ts: seq<Bytes>): nat {
    if ts == [] then 0 else TextsCost(ts[..|ts| - 1]) + TextCost(ts[|ts| - 1])
  }

  function FieldTextsCost(fs: seq<Field>): nat {
    if fs == [] then 0 else FieldTextsCost(fs[..|fs| - 1]) + TextCost(fs[|fs| - 1].name) + TextCost(fs[|fs| - 1].value)
  }

  /** The arena bytes that a live record's texts and arrays occupy. */
  function RecordCost(r: Record): nat {
    TextCost(r.title) + TextCost(r.username) + TextCost(r.password) + TextCost(r.notes)
    + SliceSize * |r.urls| + TextsCost(r.urls) + SliceSize * |r.tags| + TextsCost(r.tags)
    + FieldSize * |r.fields| + FieldTextsCost(r.fields)
  }

  function RecordsCost(rs: seq<Record>): nat {
    if rs == [] then 0 else RecordsCost(rs[..|rs| - 1]) + RecordCost(rs[|rs| - 1])
  }

  // ---------- the record array ----------

  /** The record array doubles from 16 and its old copies are never freed. */
  predicate IsCapacity(cap: nat) {
    cap in {16, 32, 64, 128, 256, 512, 1024, 2048, 4096}
  }

  /** What record arrays of capacities 16, 32, ..., `cap` occupy together. */
  function ArraysCost(cap: nat): nat {
    if cap < 8 then 0 else RecordSize * (2 * cap - InitialRecords)
  }

  /** ensure_record_capacity: arena used and record capacity before one more record. */
  function Reserve(u: nat, cap: nat, count: nat): Option<(nat, nat)> {
    if count < cap then Some((u, cap))
    else if AlignUp(u, 8) + 2 * cap * RecordSize <= ArenaCapacity then Some((AlignUp(u, 8) + 2 * cap * RecordSize, 2 * cap))
    else None
  }

  /** The record-array invariant: everything ever allocated for arrays, and everything live, is below `used`. */
  predicate Budget(u: nat, cap: nat, rs: seq<Record>) {
    && |rs| <= cap && IsCapacity(cap) && u <= ArenaCapacity
    && ArraysCost(cap) + RecordsCost(rs) <= u
  }

  /** Doubling past 4096 records cannot happen: the arena would be full. */
  lemma ReserveKeepsBudget(u: nat, cap: nat, rs: seq<Record>)
    requires Budget(u, cap, rs) && Reserve(u, cap, |rs|).Some?
    ensures var (v, newCap) := Reserve(u, cap, |rs|).value;
      Budget(v, newCap, rs) && |rs| < newCap && u <= v
  {
  }

  lemma AddKeepsBudget(u: nat, cap: nat, rs: seq<Record>, r: Record)
    requires Budget(u, cap, rs) && |rs| < cap && PutRecord(u, r).Some?
    ensures Budget(PutRecord(u, r).value, cap, rs + [r])
  {
    assert (rs + [r])[..|rs|] == rs;
  }

  /** One record more: the arena and the record capacity after a successful add. */
  function Add(u: nat, cap: nat, count: nat, r: Record): Option<(nat, nat)> {
    var a := Reserve(u, cap, count);
    if a.None? then None
    else
      var z := PutRecord(a.value.0, r);
      if z.None? then None else Some((z.value, a.value.1))
  }

  /** The arena of a vault that was only ever added to. */
  function AddAll(rs: seq<Record>): Option<(nat, nat)> {
    if rs == [] then Some((InitialRecords * RecordSize, InitialRecords))
    else
      var a := AddAll(rs[..|rs| - 1]);
      if a.None? then None else Add(a.value.0, a.value.1, |rs| - 1, rs[|rs| - 1])
  }

  /** The arena in numbers: the first record array, its doubling, and a record with one of everything. */
  lemma ArenaExample(u: nat)
    ensures AddAll([]) == Some((2560, 16)) && ArenaCapacity == 2097152
    ensures u % 8 == 0 && u + 5120 <= 2097152 ==> Reserve(u, 16, 16) == Some((u + 5120, 32))
    ensures Reserve(u, 16, 15) == Some((u, 16))
    ensures PutRecord(0, Record([], 0, 0, 0, 0, [97, 98], [], [99], [], [[100]], [], [Field([101], [102], 0)])) == Some(76)
  {
    var r := Record([], 0, 0, 0, 0, [97, 98], [], [99], [], [[100]], [], [Field([101], [102], 0)]);
    assert PutFour(0, r) == Some(5);
    assert r.urls[..0] == [] && r.fields[..0] == [];
    assert PutTexts(24, []) == Some(24);
    assert PutSlices(5, r.urls) == Some(26);
    assert PutSlices(26, []) == Some(26);
    assert PutFields(72, []) == Some(72);
    assert PutFieldArray(26, r.fields) == Some(76);
  }
}

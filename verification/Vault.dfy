/** The vault object: pv_model_init, add, find, delete, and the edits of the command line. */
module Vaults {
  import opened Prelude
  import opened Records
  import opened Layout
  import opened Memory
  import opened Arenas
  import opened Model
  import opened Copying

  /** The fields that hold one text. */
  datatype TextField = Title | Username | Password | Notes

  function MaxOf(f: TextField): nat {
    match f case Title => MaxTitle case Username => MaxUsername case Password => MaxPassword case Notes => MaxNotes
  }

  function SlotOf(r: Stored, f: TextField): Slice {
    match f case Title => r.title case Username => r.username case Password => r.password case Notes => r.notes
  }

  function WithSlot(r: Stored, f: TextField, s: Slice): Stored {
    match f
    case Title => r.(title := s)
    case Username => r.(username := s)
    case Password => r.(password := s)
    case Notes => r.(notes := s)
  }

  function WithText(r: Record, f: TextField, t: Bytes): Record {
    match f
    case Title => r.(title := t)
    case Username => r.(username := t)
    case Password => r.(password := t)
    case Notes => r.(notes := t)
  }

  function WithList(r: Record, urls: bool, ts: seq<Bytes>): Record {
    if urls then r.(urls := ts) else r.(tags := ts)
  }

  /** A changed record: one revision later. */
  function Stamped(r: Record, now: int): Record {
    r.(revision := r.revision + 1, updated := now)
  }

  function StampedStored(r: Stored, now: int): Stored {
    r.(revision := r.revision + 1, updated := now)
  }

  /** A deleted record keeps its id, its title and its times. */
  function Erased(r: Record, now: int): Record
    requires r.flags % 2 == 0
  {
    Stamped(r.(username := [], password := [], notes := [], urls := [], tags := [], fields := [], flags := r.flags + 1), now)
  }

  /** What a successful add stores for `src`. */
  function Completed(src: Record, drawn: Bytes, now: int): Record {
    src.(id := if IsZero(src.id) then drawn else src.id,
      revision := if src.revision == 0 then 1 else src.revision,
      created := if src.revision == 0 && src.created == 0 then now else src.created,
      updated := if src.revision == 0 && src.updated == 0 then now else src.updated)
  }

  // ---------- what these make of a record, field by field ----------

  predicate SameTexts(a: Record, b: Record) {
    a.username == b.username && a.password == b.password && a.notes == b.notes && a.urls == b.urls && a.tags == b.tags && a.fields == b.fields
  }

  /**
   `r` is what adding `src` at time `now` stores: its contents as they are; an identifier drawn if it has none; and, if it
   is a new record, revision 1 and the present for the times it does not bring.
   */
  predicate StoredFrom(src: Record, drawn: Bytes, now: int, r: Record) {
    && r.title == src.title && SameTexts(r, src) && r.flags == src.flags
    && (if IsZero(src.id) then r.id == drawn else r.id == src.id)
    && (src.revision == 0 ==> r.revision == 1)
    && (src.revision == 0 ==> if src.created == 0 then r.created == now else r.created == src.created)
    && (src.revision == 0 ==> if src.updated == 0 then r.updated == now else r.updated == src.updated)
    && (src.revision > 0 ==> r.revision == src.revision && r.created == src.created && r.updated == src.updated)
  }

  /** `z` is the next revision of `r`, made at time `now`. */
  predicate Revises(r: Record, z: Record, now: int) {
    z.id == r.id && z.created == r.created && z.updated == now && z.revision == r.revision + 1
  }

  /** `z` is `r` deleted: identifier, title and favourite flag are left, and the deleted flag is set. */
  predicate DeletedFrom(r: Record, z: Record, now: int) {
    && Revises(r, z, now) && z.title == r.title
    && z.username == [] && z.password == [] && z.notes == [] && z.urls == [] && z.tags == [] && z.fields == []
    && z.flags % 2 == 1 && z.flags / 2 == r.flags / 2
  }

  /** `z` is `r` with one text replaced. */
  predicate EditedFrom(r: Record, f: TextField, value: Bytes, z: Record, now: int) {
    && Revises(r, z, now) && z.flags == r.flags && z.urls == r.urls && z.tags == r.tags && z.fields == r.fields
    && z.title == (if f == Title then value else r.title) && z.username == (if f == Username then value else r.username)
    && z.password == (if f == Password then value else r.password) && z.notes == (if f == Notes then value else r.notes)
  }

  /** `z` is `r` with its urls or its tags replaced. */
  predicate ListEditedFrom(r: Record, urls: bool, ts: seq<Bytes>, z: Record, now: int) {
    && Revises(r, z, now) && z.flags == r.flags && z.fields == r.fields
    && z.title == r.title && z.username == r.username && z.password == r.password && z.notes == r.notes
    && z.urls == (if urls then ts else r.urls) && z.tags == (if urls then r.tags else ts)
  }

  lemma CompletedFields(src: Record, drawn: Bytes, now: int)
    ensures StoredFrom(src, drawn, now, Completed(src, drawn, now))
  {
  }

  lemma ErasedFields(r: Record, now: int)
    requires r.flags % 2 == 0
    ensures DeletedFrom(r, Erased(r, now), now)
  {
  }

  lemma EditedFields(r: Record, f: TextField, value: Bytes, urls: bool, ts: seq<Bytes>, now: int)
    ensures EditedFrom(r, f, value, Stamped(WithText(r, f, value), now), now)
    ensures ListEditedFrom(r, urls, ts, Stamped(WithList(r, urls, ts), now), now)
  {
  }

  predicate HasId(rs: seq<Record>, id: Bytes) {
    exists k :: 0 <= k < |rs| && rs[k].id == id
  }

  /** Whether there is a place for a record with valid contents, given how the arena stands. */
  function AdmitStatus(src: Record, locked: bool, used: nat, cap: nat, rs: seq<Record>): Status {
    if src.revision != 0 && IsZero(src.id) then FormatError
    else if locked then SecureMemory
    else if Reserve(used, cap, |rs|).None? then Limit
    else if !IsZero(src.id) && HasId(rs, src.id) then Exists
    else OK
  }

  /** The outcome of adding a record with valid contents. */
  function AddStatus(src: Record, locked: bool, used: nat, cap: nat, rs: seq<Record>): Status {
    var admitted := AdmitStatus(src, locked, used, cap, rs);
    if admitted == OK && Layout.Add(used, cap, |rs|, src).None? then Limit else admitted
  }

  /** Times are 64-bit. */
  predicate IsTime(t: int) {
    -(Int64 as int) <= t < Int64
  }

  // ---------- where the swapped slices are ----------

  lemma SlotSwap(r: Stored, f: TextField, s: Slice)
    ensures Slices(r) == SlotBefore(r, f) + [SlotOf(r, f)] + SlotAfter(r, f)
    ensures Slices(WithSlot(r, f, s)) == SlotBefore(r, f) + [s] + SlotAfter(r, f)
  {
  }

  function SlotBefore(r: Stored, f: TextField): seq<Slice> {
    match f
    case Title => []
    case Username => [r.title]
    case Password => [r.title, r.username]
    case Notes => [r.title, r.username, r.password]
  }

  function SlotAfter(r: Stored, f: TextField): seq<Slice> {
    (match f
     case Title => [r.username, r.password, r.notes]
     case Username => [r.password, r.notes]
     case Password => [r.notes]
     case Notes => []) + r.urls + r.tags + FieldSlices(r.fields)
  }

  lemma ListSwap(r: Stored, urls: bool, ss: seq<Slice>)
    ensures var before := [r.title, r.username, r.password, r.notes] + if urls then [] else r.urls;
      var after := if urls then r.tags + FieldSlices(r.fields) else FieldSlices(r.fields);
      && Slices(r) == before + (if urls then r.urls else r.tags) + after
      && Slices(if urls then r.(urls := ss) else r.(tags := ss)) == before + ss + after
  {
    if urls {
      assert [r.title, r.username, r.password, r.notes] + [] == [r.title, r.username, r.password, r.notes];
    }
  }

  class Vault {
    const arena: Arena
    var records: seq<Stored>
    var capacity: nat
    var generation: nat
    var deviceId: Bytes
    var created: int
    var updated: int
    var dirty: bool

    ghost predicate Valid()
      reads this, arena, arena.buf
    {
      arena.Valid() && Sound(arena.buf[..], arena.used, capacity, records)
    }

    /** The records the vault holds. */
    function Contents(): seq<Record>
      reads this, arena.buf
    {
      Views(arena.buf[..], records)
    }

    /** pv_model_init: an empty vault whose arena holds only the first record array. */
    constructor ()
      ensures Valid() && fresh(arena) && fresh(arena.buf) && Contents() == []
      ensures Some((arena.used, capacity)) == AddAll([])
      ensures !arena.readonly && !dirty
    {
      arena := new Arena(ArenaCapacity);
      records := [];
      capacity := InitialRecords;
      generation, created, updated, dirty := 0, 0, 0, false;
      deviceId := seq(16, _ => 0);
      new;
      var at := arena.Alloc(InitialRecords * RecordSize, 8);
    }

    /** pv_model_find_id. */
    method FindId(id: Bytes) returns (at: Option<nat>)
      requires Valid()
      ensures at.Some? <==> HasId(Contents(), id)
      ensures at.Some? ==> at.value < |records| && Contents()[at.value].id == id
    {
      for k := 0 to |records|
        invariant forall i :: 0 <= i < k ==> records[i].id != id
      {
        if records[k].id == id {
          assert Contents()[k].id == id;
          return Some(k);
        }
      }
      assert forall i :: 0 <= i < |records| ==> Contents()[i].id == records[i].id;
      return None;
    }

    /** ensure_record_capacity. */
    method EnsureCapacity() returns (st: Status)
      requires Valid() && !arena.readonly
      modifies `capacity, arena`used, arena.buf
      ensures Valid() && Contents() == old(Contents())
      ensures st == OK <==> Reserve(old(arena.used), old(capacity), |records|).Some?
      ensures st == OK ==> Some((arena.used, capacity)) == Reserve(old(arena.used), old(capacity), |records|)
      ensures st == OK ==> |records| < capacity
      ensures st != OK ==> st == Limit && arena.used == old(arena.used) && capacity == old(capacity)
    {
      hide Sound, Views, Reserve, AlignUp, PowerOfTwo, Cleared, SameBelow;
      ghost var before, u := arena.buf[..], arena.used;
      RoomForRecords(before, u, capacity, records);
      ReserveWhen(u, capacity, |records|);
      if |records| < capacity {
        return OK;
      }
      var at := arena.Alloc(2 * capacity * RecordSize, 8);
      if at.None? {
        return Limit;
      }
      ClearedAbove(before, arena.buf[..], at.value, arena.used, u);
      ReserveKeepsSound(before, arena.buf[..], u, capacity, records);
      capacity := 2 * capacity;
      return OK;
    }

    /**
     pv_model_add_record.  `drawn` is the identifier the random generator settles on when the source
     has none, `works` whether the arena's pages can be made writable.
     */
    method Add(src: Record, drawn: Bytes, now: int, works: bool) returns (st: Status)
      requires Valid() && Typed(src) && IsTime(now)
      requires IsZero(src.id) ==> |drawn| == IdLength && !IsZero(drawn) && !HasId(Contents(), drawn)
      modifies this, arena, arena.buf
      ensures Valid()
      ensures if !ContentValid(src) then st != OK && ContentAnswer(src, st)
              else st == AddStatus(src, old(arena.readonly) && !works, old(arena.used), old(capacity), old(Contents()))
      ensures st == OK ==> Contents() == old(Contents()) + [Completed(src, drawn, now)]
      ensures st == OK ==> |Contents()| == |old(Contents())| + 1 && StoredFrom(src, drawn, now, Contents()[|old(Contents())|])
      ensures st == OK ==> Some((arena.used, capacity)) == Layout.Add(old(arena.used), old(capacity), |old(records)|, src)
      ensures st == OK ==> dirty && updated == now && !arena.readonly
      ensures st != OK ==> Contents() == old(Contents()) && records == old(records) && dirty == old(dirty) && updated == old(updated)
      ensures generation == old(generation) && deviceId == old(deviceId) && created == old(created)
    {
      hide Sound, Views, ContentValid, Copyable, PutRecord, IsZero, HasId, Typed, Slices, View, SameBelow, Reserve, ContentAnswer, Completed,
        StoredFrom;
      st := Admit(src, works);
      if st != OK {
        return;
      }
      var record := Completed(src, drawn, now);
      RoomForRecords(arena.buf[..], arena.used, capacity, records);
      CompletedSame(src, drawn, now, arena.used);
      ghost var before, u := arena.buf[..], arena.used;
      var r;
      st, r := CopyRecord(arena, record);
      if st != OK {
        GrowthKeepsSound(before, arena.buf[..], u, arena.used, capacity, records);
        return;
      }
      CompletedSound(src, drawn, now, old(Contents()));
      CompletedFields(src, drawn, now);
      StoredLast(before, arena.buf[..], u, capacity, records, r, arena.used, record);
      records := records + [r];
      dirty := true;
      updated := now;
    }

    /** The first half of pv_model_add_record: checks, and room for one more record. */
    method Admit(src: Record, works: bool) returns (st: Status)
      requires Valid() && Typed(src)
      modifies `capacity, arena, arena.buf
      ensures Valid() && Contents() == old(Contents())
      ensures !ContentValid(src) ==> st != OK && ContentAnswer(src, st)
      ensures ContentValid(src) ==>
        st == AdmitStatus(src, old(arena.readonly) && !works, old(arena.used), old(capacity), old(Contents()))
      ensures st == OK ==> ContentValid(src) && |records| < capacity && !arena.readonly
      ensures st == OK ==> Some((arena.used, capacity)) == Reserve(old(arena.used), old(capacity), |records|)
    {
      hide Sound, Views, ContentValid, IsZero, HasId, Typed, Reserve, ContentAnswer;
      st := ValidateFields(src);
      if st != OK {
        return;
      }
      if src.revision != 0 && IsZero(src.id) {
        return FormatError;
      }
      if arena.readonly {
        st := arena.SetReadWrite(works);
        if st != OK {
          return;
        }
      }
      st := EnsureCapacity();
      if st != OK {
        return;
      }
      if !IsZero(src.id) {
        var clash := FindId(src.id);
        if clash.Some? {
          return Exists;
        }
      }
    }

    /** pv_model_delete: everything but the title is wiped from memory and dropped. */
    method Delete(k: nat, now: int, works: bool) returns (st: Status)
      requires Valid() && k < |records| && IsTime(now)
      modifies this, arena, arena.buf
      ensures Valid() && arena.used == old(arena.used) && capacity == old(capacity)
      ensures st == DeleteStatus(old(Contents())[k], old(arena.readonly) && !works)
      ensures st == OK ==> Contents() == old(Contents())[k := Erased(old(Contents())[k], now)]
      ensures st == OK ==> DeletedFrom(old(Contents())[k], Contents()[k], now)
      ensures st == OK ==> arena.buf[..] == Wiped(old(arena.buf[..]), old(Slices(records[k]))[1..])
      ensures st == OK ==> Blanked(arena.buf[..], old(Slices(records[k]))[1..])
      ensures st == OK ==> dirty && updated == now
      ensures st != OK ==> Contents() == old(Contents()) && dirty == old(dirty)
      ensures generation == old(generation) && deviceId == old(deviceId) && created == old(created)
    {
      hide Sound, Views, View, Slices, FieldSlices, Wiped, AllBetween, Disjoint, Typed, Erased, ErasedStored, IsTime, Blanked, DeletedFrom;
      var r := records[k];
      ghost var before := arena.buf[..];
      ErasedSound(before, arena.used, capacity, records, k, now);
      OwnSlices(before, arena.used, capacity, records, k);
      if r.flags % 2 == 1 {
        return Usage;
      }
      if r.revision == Uint64 - 1 {
        return Limit;
      }
      if arena.readonly {
        st := arena.SetReadWrite(works);
        if st != OK {
          return;
        }
      }
      SlicesTail(r, arena.used);
      ErasedFields(Contents()[k], now);
      WipedBlanks(before, [r.username, r.password, r.notes] + r.urls + r.tags + FieldSlices(r.fields));
      Change(k, ErasedStored(r, now), [r.username, r.password, r.notes] + r.urls + r.tags + FieldSlices(r.fields), now);
      return OK;
    }

    /** The end of every change: the dropped texts wiped, the record and the vault marked. */
    method Change(k: nat, r: Stored, dropped: seq<Slice>, now: int)
      requires k < |records| && arena.Valid() && AllBetween(dropped, 0, arena.used) && !arena.readonly
      modifies `records, `dirty, `updated, arena.buf
      ensures arena.buf[..] == Wiped(old(arena.buf[..]), dropped)
      ensures records == old(records)[k := r] && dirty && updated == now
    {
      arena.Wipe(dropped);
      records := records[k := r];
      dirty := true;
      updated := now;
    }

    /** Editing one text: the copy is made first, then the old text is wiped. */
    method Edit(k: nat, f: TextField, value: Bytes, now: int, works: bool) returns (st: Status)
      requires Valid() && k < |records| && IsTime(now)
      modifies this, arena, arena.buf
      ensures Valid() && capacity == old(capacity)
      ensures st == EditStatus(old(Contents())[k], !works, |value| <= MaxOf(f) && PutText(old(arena.used), value).Some?)
      ensures st == OK ==> Contents() == old(Contents())[k := Stamped(WithText(old(Contents())[k], f, value), now)]
      ensures st == OK ==> EditedFrom(old(Contents())[k], f, value, Contents()[k], now)
      ensures st == OK ==> arena.used == old(arena.used) + TextCost(value) && dirty && updated == now
      ensures st == OK ==> Blanked(arena.buf[..], [SlotOf(old(records)[k], f)])
      ensures st != OK ==> Contents() == old(Contents()) && arena.used == old(arena.used) && dirty == old(dirty)
      ensures generation == old(generation) && deviceId == old(deviceId) && created == old(created)
    {
      hide Sound, Views, View, Slices, Wiped, AllBetween, Disjoint, Typed, PutText, Placed, SameBelow, Stamped, StampedStored, WithSlot,
        WithText, SlotOf, IsTime, MaxOf, Blanked, EditedFrom, ListEditedFrom;
      var r := records[k];
      ghost var before, u := arena.buf[..], arena.used;
      OwnSlices(before, u, capacity, records, k);
      RoomForRecords(before, u, capacity, records);
      PutTextWhen(u, value);
      if r.revision == Uint64 - 1 {
        return Limit;
      }
      st := arena.SetReadWrite(works);
      if st != OK {
        return;
      }
      var s;
      st, s := arena.Copy(value, MaxOf(f));
      if st != OK {
        return;
      }
      ghost var grown := arena.buf[..];
      EditSound(before, grown, u, arena.used, capacity, records, k, f, s, value, now);
      SlotBetween(r, f, u, arena.used);
      EditedFields(old(Contents())[k], f, value, true, [], now);
      Change(k, StampedStored(WithSlot(r, f, s), now), [SlotOf(r, f)], now);
      WipedBlanks(grown, [SlotOf(r, f)]);
    }

    /** Editing the urls or the tags. */
    method EditList(k: nat, urls: bool, ts: seq<Bytes>, now: int, works: bool) returns (st: Status)
      requires Valid() && k < |records| && IsTime(now)
      requires |ts| <= MaxItems && AllAtMost(ts, if urls then MaxUrl else MaxTag)
      modifies this, arena, arena.buf
      ensures Valid() && capacity == old(capacity) && old(arena.used) <= arena.used
      ensures st == EditStatus(old(Contents())[k], !works, PutSlices(old(arena.used), ts).Some?)
      ensures st == OK ==> Contents() == old(Contents())[k := Stamped(WithList(old(Contents())[k], urls, ts), now)]
      ensures st == OK ==> ListEditedFrom(old(Contents())[k], urls, ts, Contents()[k], now)
      ensures st == OK ==> Some(arena.used) == PutSlices(old(arena.used), ts) && dirty && updated == now
      ensures st == OK ==> Blanked(arena.buf[..], if urls then old(records)[k].urls else old(records)[k].tags)
      ensures st != OK ==> Contents() == old(Contents()) && dirty == old(dirty)
      ensures generation == old(generation) && deviceId == old(deviceId) && created == old(created)
    {
      hide Sound, Views, View, Slices, Wiped, AllBetween, Disjoint, Typed, PutSlices, Placed, SameBelow, AllAtMost, Stamped, StampedStored,
        WithList, WithText, IsTime, Blanked, EditedFrom, ListEditedFrom;
      var r := records[k];
      ghost var before, u := arena.buf[..], arena.used;
      OwnSlices(before, u, capacity, records, k);
      RoomForRecords(before, u, capacity, records);
      if r.revision == Uint64 - 1 {
        return Limit;
      }
      st := arena.SetReadWrite(works);
      if st != OK {
        return;
      }
      var ss;
      st, ss := CopySlices(arena, ts, if urls then MaxUrl else MaxTag);
      ghost var grown := arena.buf[..];
      if st != OK {
        GrowthKeepsSound(before, grown, u, arena.used, capacity, records);
        return;
      }
      EditListSound(before, grown, u, arena.used, capacity, records, k, urls, ss, ts, now);
      ListBetween(r, urls, u, arena.used);
      EditedFields(old(Contents())[k], Title, [], urls, ts, now);
      Change(k, StampedStored(if urls then r.(urls := ss) else r.(tags := ss), now), if urls then r.urls else r.tags, now);
      WipedBlanks(grown, if urls then r.urls else r.tags);
    }
  }

  function DeleteStatus(r: Record, locked: bool): Status {
    if r.flags % 2 == 1 then Usage else if r.revision == Uint64 - 1 then Limit else if locked then SecureMemory else OK
  }

  function EditStatus(r: Record, locked: bool, fits: bool): Status {
    if r.revision == Uint64 - 1 then Limit else if locked then SecureMemory else if !fits then Limit else OK
  }

  function ErasedStored(r: Stored, now: int): Stored
    requires r.flags % 2 == 0
  {
    StampedStored(r.(username := Nothing, password := Nothing, notes := Nothing, urls := [], tags := [], fields := [],
      flags := r.flags + 1), now)
  }

  lemma OwnSlices(mem: Bytes, u: nat, cap: nat, rs: seq<Stored>, k: nat)
    requires Sound(mem, u, cap, rs) && k < |rs|
    ensures AllBetween(Slices(rs[k]), 0, u) && Disjoint(Slices(rs[k])) && Typed(View(mem, rs[k])) && rs[k].revision != 0
    ensures Views(mem, rs)[k] == View(mem, rs[k])
    ensures View(mem, rs[k]).flags == rs[k].flags && View(mem, rs[k]).revision == rs[k].revision
    ensures rs[k].revision < Uint64
  {
    assert Typed(Views(mem, rs)[k]);
  }

  lemma SlicesTail(r: Stored, u: nat)
    requires AllBetween(Slices(r), 0, u)
    ensures Slices(r)[1..] == [r.username, r.password, r.notes] + r.urls + r.tags + FieldSlices(r.fields)
    ensures AllBetween([r.username, r.password, r.notes] + r.urls + r.tags + FieldSlices(r.fields), 0, u)
  {
    assert Slices(r) == [r.title] + ([r.username, r.password, r.notes] + r.urls + r.tags + FieldSlices(r.fields));
    var tail := Slices(r)[1..];
    forall i | 0 <= i < |tail| ensures Between(tail[i], 0, u) {
      assert Between(Slices(r)[i + 1], 0, u);
    }
  }

  lemma SlotBetween(r: Stored, f: TextField, u: nat, later: nat)
    requires AllBetween(Slices(r), 0, u) && u <= later
    ensures AllBetween([SlotOf(r, f)], 0, later)
  {
    SlotSwap(r, f, Nothing);
    var i := |SlotBefore(r, f)|;
    assert Slices(r)[i] == SlotOf(r, f) && Between(Slices(r)[i], 0, u);
  }

  lemma ListBetween(r: Stored, urls: bool, u: nat, later: nat)
    requires AllBetween(Slices(r), 0, u) && u <= later
    ensures AllBetween(if urls then r.urls else r.tags, 0, later)
  {
    var list := if urls then r.urls else r.tags;
    var i := if urls then 4 else 4 + |r.urls|;
    forall j | 0 <= j < |list| ensures Between(list[j], 0, later) {
      assert Slices(r)[i + j] == list[j] && Between(Slices(r)[i + j], 0, u);
    }
  }

  lemma EmptyPlaced(u: nat)
    ensures Disjoint([Nothing, Nothing, Nothing]) && AllBetween([Nothing, Nothing, Nothing], u, u)
  {
  }

  lemma ErasedSound(mem: Bytes, u: nat, cap: nat, rs: seq<Stored>, k: nat, now: int)
    requires Sound(mem, u, cap, rs) && k < |rs| && IsTime(now)
    ensures rs[k].flags % 2 == 0 && rs[k].revision < Uint64 - 1 ==>
      var w := Wiped(mem, Slices(rs[k])[1..]);
      var changed := rs[k := ErasedStored(rs[k], now)];
      && Sound(w, u, cap, changed)
      && View(mem, rs[k]).flags % 2 == 0
      && Views(w, changed) == Views(mem, rs)[k := Erased(View(mem, rs[k]), now)]
  {
    if rs[k].flags % 2 == 0 && rs[k].revision < Uint64 - 1 {
      OwnSlices(mem, u, cap, rs, k);
      var r := ErasedStored(rs[k], now);
      SlicesTail(rs[k], u);
      var none := [Nothing, Nothing, Nothing];
      var tail := Slices(rs[k])[1..];
      assert Slices(r) == [rs[k].title] + none + [];
      assert Slices(rs[k]) == [rs[k].title] + tail + [];
      assert View(mem, r) == Erased(View(mem, rs[k]), now);
      EmptyPlaced(u);
      ErasedCost(View(mem, rs[k]), now);
      hide Sound, Slices, Views, View, Wiped, RecordCost;
      SwapKeepsSound(mem, mem, u, u, cap, rs, k, r, [rs[k].title], tail, none, []);
    }
  }

  lemma ErasedCost(r: Record, now: int)
    requires r.flags % 2 == 0
    ensures RecordCost(Erased(r, now)) <= RecordCost(r)
  {
  }

  lemma EditSound(mem: Bytes, grown: Bytes, u: nat, later: nat, cap: nat, rs: seq<Stored>, k: nat, f: TextField, s: Slice,
    value: Bytes, now: int)
    requires Sound(mem, u, cap, rs) && k < |rs| && IsTime(now) && rs[k].revision < Uint64 - 1
    requires SameBelow(mem, grown, u) && Placed(grown, [s], [value], u, later) && later == u + TextCost(value)
    ensures var changed := rs[k := StampedStored(WithSlot(rs[k], f, s), now)];
      && Sound(Wiped(grown, [SlotOf(rs[k], f)]), later, cap, changed)
      && Views(Wiped(grown, [SlotOf(rs[k], f)]), changed)
        == Views(mem, rs)[k := Stamped(WithText(View(mem, rs[k]), f, value), now)]
  {
    OwnSlices(mem, u, cap, rs, k);
    OwnViewKept(mem, grown, u, rs, k);
    var r := StampedStored(WithSlot(rs[k], f, s), now);
    assert Texts(grown, [s])[0] == value;
    assert View(grown, r) == Stamped(WithText(View(grown, rs[k]), f, value), now);
    SlotSwap(rs[k], f, s);
    assert Slices(r) == Slices(WithSlot(rs[k], f, s));
    EditCost(View(mem, rs[k]), f, value, now);
    hide Sound, Slices, Views, View, Wiped, RecordCost;
    SwapKeepsSound(mem, grown, u, later, cap, rs, k, r, SlotBefore(rs[k], f), [SlotOf(rs[k], f)], [s], SlotAfter(rs[k], f));
  }

  lemma EditCost(r: Record, f: TextField, value: Bytes, now: int)
    ensures RecordCost(Stamped(WithText(r, f, value), now)) <= RecordCost(r) + TextCost(value)
  {
  }

  lemma EditListSound(mem: Bytes, grown: Bytes, u: nat, later: nat, cap: nat, rs: seq<Stored>, k: nat, urls: bool,
    ss: seq<Slice>, ts: seq<Bytes>, now: int)
    requires Sound(mem, u, cap, rs) && k < |rs| && IsTime(now) && rs[k].revision < Uint64 - 1
    requires SameBelow(mem, grown, u) && Placed(grown, ss, ts, u, later) && PutSlices(u, ts) == Some(later)
    ensures var list := if urls then rs[k].urls else rs[k].tags;
      var changed := rs[k := StampedStored(if urls then rs[k].(urls := ss) else rs[k].(tags := ss), now)];
      && Sound(Wiped(grown, list), later, cap, changed)
      && Views(Wiped(grown, list), changed) == Views(mem, rs)[k := Stamped(WithList(View(mem, rs[k]), urls, ts), now)]
  {
    OwnSlices(mem, u, cap, rs, k);
    OwnViewKept(mem, grown, u, rs, k);
    var old0 := rs[k];
    var list := if urls then old0.urls else old0.tags;
    var swapped := if urls then old0.(urls := ss) else old0.(tags := ss);
    var r := StampedStored(swapped, now);
    assert View(grown, r) == Stamped(WithList(View(grown, rs[k]), urls, ts), now);
    ListSwap(old0, urls, ss);
    assert Slices(r) == Slices(swapped);
    EditListCost(View(mem, rs[k]), urls, ts, now);
    var before := [old0.title, old0.username, old0.password, old0.notes] + if urls then [] else old0.urls;
    var after := if urls then old0.tags + FieldSlices(old0.fields) else FieldSlices(old0.fields);
    hide Sound, Slices, Views, View, Wiped, RecordCost, FieldSlices;
    SwapKeepsSound(mem, grown, u, later, cap, rs, k, r, before, list, ss, after);
  }

  lemma EditListCost(r: Record, urls: bool, ts: seq<Bytes>, now: int)
    ensures RecordCost(Stamped(WithList(r, urls, ts), now)) <= RecordCost(r) + SliceSize * |ts| + TextsCost(ts)
  {
  }

  /** Completing a record changes neither its validity nor the space it takes. */
  lemma CompletedSame(src: Record, drawn: Bytes, now: int, u: nat)
    ensures PutRecord(u, Completed(src, drawn, now)) == PutRecord(u, src)
    ensures ContentValid(src) ==> Copyable(Completed(src, drawn, now))
  {
  }

  lemma CompletedSound(src: Record, drawn: Bytes, now: int, rs: seq<Record>)
    requires Typed(src) && IsTime(now)
    requires IsZero(src.id) ==> |drawn| == IdLength && !IsZero(drawn) && !HasId(rs, drawn)
    requires !IsZero(src.id) ==> !HasId(rs, src.id)
    ensures var r := Completed(src, drawn, now);
      Typed(r) && !IsZero(r.id) && r.revision != 0 && !HasId(rs, r.id)
  {
  }

  lemma StoredLast(mem: Bytes, later: Bytes, u: nat, cap: nat, rs: seq<Stored>, r: Stored, hi: nat, record: Record)
    requires Sound(mem, u, cap, rs) && |rs| < cap && SameBelow(mem, later, u)
    requires AllBetween(Slices(r), u, hi) && Disjoint(Slices(r)) && View(later, r) == record
    requires PutRecord(u, record) == Some(hi)
    requires Typed(record) && !IsZero(record.id) && record.revision != 0 && !HasId(Views(mem, rs), record.id)
    ensures Sound(later, hi, cap, rs + [r]) && Views(later, rs + [r]) == Views(mem, rs) + [record]
  {
    ViewsIds(mem, rs);
    forall k | 0 <= k < |rs| ensures rs[k].id != r.id {
      assert Views(mem, rs)[k].id == rs[k].id;
    }
    AddKeepsSound(mem, later, u, cap, rs, r, hi);
  }

  lemma RoomForRecords(mem: Bytes, u: nat, cap: nat, rs: seq<Stored>)
    requires Sound(mem, u, cap, rs)
    ensures 0 < cap && |mem| == ArenaCapacity && |rs| <= cap
  {
  }

  lemma ReserveWhen(u: nat, cap: nat, count: nat)
    requires 0 < cap
    ensures var v := AlignUp(u, 8) + 2 * cap * RecordSize;
      Reserve(u, cap, count)
      == if count < cap then Some((u, cap)) else if v <= ArenaCapacity then Some((v, 2 * cap)) else None
    ensures PowerOfTwo(8) && u <= AlignUp(u, 8)
  {
  }

  lemma ClearedAbove(mem: Bytes, later: Bytes, lo: nat, hi: nat, u: nat)
    requires Cleared(mem, later, lo, hi) && u <= lo
    ensures SameBelow(mem, later, u)
  {
  }

  /** A bigger record array: the old one is left behind, everything else stays. */
  lemma ReserveKeepsSound(mem: Bytes, later: Bytes, u: nat, cap: nat, rs: seq<Stored>)
    requires Sound(mem, u, cap, rs) && Reserve(u, cap, |rs|).Some? && SameBelow(mem, later, u)
    ensures var (v, c) := Reserve(u, cap, |rs|).value;
      Sound(later, v, c, rs) && Views(later, rs) == Views(mem, rs) && |rs| < c
  {
    var (v, c) := Reserve(u, cap, |rs|).value;
    ReserveKeepsBudget(u, cap, Views(mem, rs));
    hide Reserve, Views, Layout.RecordsCost;
    GrowthKeepsSound(mem, later, u, v, cap, rs);
  }
}

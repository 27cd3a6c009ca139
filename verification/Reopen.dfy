/**
 Saving and reopening: the arena of a freshly decoded vault against the arena of the vault that was encoded.
 Adding, deleting and edits that do not lengthen a text keep a vault reopenable; an edit that lengthens one
 can leave a vault that encodes but does not decode, and `ReopensExactly` says when.
 */
module Reopen {
  import opened Prelude
  import opened Records
  import opened Layout
  import opened Vaults
  import opened Plaintext
  import opened Schema
  import opened Sizes
  import Utf8

  /** Decoding the records afresh takes no more of the arena than the vault uses now. */
  predicate Reopens(used: nat, cap: nat, rs: seq<Record>) {
    AddAll(rs).Some? && AddAll(rs).value.0 <= used && AddAll(rs).value.1 == cap
  }

  // ---------- a smaller start gives a smaller end ----------

  /** `a` is a place no later than `b`. */
  predicate NoLater(a: Option<nat>, b: Option<nat>) {
    b.Some? ==> a.Some? && a.value <= b.value
  }

  lemma {:induction false} TextsMonotone(u: nat, v: nat, ts: seq<Bytes>)
    requires u <= v
    ensures NoLater(PutTexts(u, ts), PutTexts(v, ts))
  {
    if ts != [] {
      TextsMonotone(u, v, ts[..|ts| - 1]);
    }
  }

  lemma {:induction false} FieldsMonotone(u: nat, v: nat, fs: seq<Field>)
    requires u <= v
    ensures NoLater(PutFields(u, fs), PutFields(v, fs))
  {
    if fs != [] {
      FieldsMonotone(u, v, fs[..|fs| - 1]);
    }
  }

  lemma ArrayMonotone(u: nat, v: nat, count: nat, size: nat)
    requires u <= v
    ensures NoLater(PutArray(u, count, size), PutArray(v, count, size))
  {
    AlignMonotone(u, v);
  }

  lemma AlignMonotone(u: nat, v: nat)
    requires u <= v
    ensures AlignUp(u, 8) <= AlignUp(v, 8)
  {
  }

  lemma SlicesMonotone(u: nat, v: nat, ts: seq<Bytes>)
    requires u <= v
    ensures NoLater(PutSlices(u, ts), PutSlices(v, ts)) && NoLater(PutSlices(u, []), PutSlices(v, ts))
  {
    hide AlignUp;
    ArrayMonotone(u, v, |ts|, SliceSize);
    if PutArray(v, |ts|, SliceSize).Some? {
      TextsMonotone(PutArray(u, |ts|, SliceSize).value, PutArray(v, |ts|, SliceSize).value, ts);
    }
  }

  lemma FieldArrayMonotone(u: nat, v: nat, fs: seq<Field>)
    requires u <= v
    ensures NoLater(PutFieldArray(u, fs), PutFieldArray(v, fs)) && NoLater(PutFieldArray(u, []), PutFieldArray(v, fs))
  {
    hide AlignUp;
    ArrayMonotone(u, v, |fs|, FieldSize);
    if PutArray(v, |fs|, FieldSize).Some? {
      FieldsMonotone(PutArray(u, |fs|, FieldSize).value, PutArray(v, |fs|, FieldSize).value, fs);
    }
  }

  /** Nothing of `a` takes more space than the same part of `b`. */
  predicate Lighter(a: Record, b: Record) {
    && TextCost(a.title) <= TextCost(b.title) && TextCost(a.username) <= TextCost(b.username)
    && TextCost(a.password) <= TextCost(b.password) && TextCost(a.notes) <= TextCost(b.notes)
    && (a.urls == b.urls || a.urls == []) && (a.tags == b.tags || a.tags == []) && (a.fields == b.fields || a.fields == [])
  }

  lemma FourMonotone(u: nat, v: nat, a: Record, b: Record)
    requires u <= v && Lighter(a, b)
    ensures NoLater(PutFour(u, a), PutFour(v, b))
  {
  }

  lemma RecordMonotone(u: nat, v: nat, a: Record, b: Record)
    requires u <= v && Lighter(a, b)
    ensures NoLater(PutRecord(u, a), PutRecord(v, b))
  {
    hide PutFour, PutSlices, PutFieldArray, TextCost;
    FourMonotone(u, v, a, b);
    if PutRecord(v, b).Some? {
      var d0, d1 := PutFour(u, a).value, PutFour(v, b).value;
      SlicesMonotone(d0, d1, b.urls);
      var e0, e1 := PutSlices(d0, a.urls).value, PutSlices(d1, b.urls).value;
      SlicesMonotone(e0, e1, b.tags);
      FieldArrayMonotone(PutSlices(e0, a.tags).value, PutSlices(e1, b.tags).value, b.fields);
    }
  }

  lemma AddMonotone(u: nat, v: nat, cap: nat, count: nat, a: Record, b: Record)
    requires u <= v && Lighter(a, b) && Layout.Add(v, cap, count, b).Some?
    ensures Layout.Add(u, cap, count, a).Some?
    ensures Layout.Add(u, cap, count, a).value.0 <= Layout.Add(v, cap, count, b).value.0
    ensures Layout.Add(u, cap, count, a).value.1 == Layout.Add(v, cap, count, b).value.1
  {
    hide PutRecord, AlignUp, Lighter;
    AlignMonotone(u, v);
    RecordMonotone(Reserve(u, cap, count).value.0, Reserve(v, cap, count).value.0, a, b);
  }

  lemma LighterSelf(r: Record)
    ensures Lighter(r, r)
  {
  }

  /** Making one record lighter moves no later record to a higher place. */
  lemma {:induction false} LighterReopens(rs: seq<Record>, k: nat, r: Record)
    requires k < |rs| && Lighter(r, rs[k]) && AddAll(rs).Some?
    ensures Reopens(AddAll(rs).value.0, AddAll(rs).value.1, rs[k := r])
  {
    hide Lighter, Layout.Add;
    var n := |rs| - 1;
    var changed := rs[k := r];
    var (v, c) := AddAll(rs[..n]).value;
    if k == n {
      assert changed[..n] == rs[..n];
      AddMonotone(v, v, c, n, r, rs[n]);
    } else {
      LighterReopens(rs[..n], k, r);
      assert changed[..n] == rs[..n][k := r];
      LighterSelf(rs[n]);
      AddMonotone(AddAll(changed[..n]).value.0, v, c, n, rs[n], rs[n]);
    }
  }

  // ---------- what the operations keep ----------

  /** `Vault.Add` keeps a vault reopenable. */
  lemma AddReopens(used: nat, cap: nat, rs: seq<Record>, src: Record, drawn: Bytes, now: int)
    requires Reopens(used, cap, rs) && Layout.Add(used, cap, |rs|, src).Some?
    ensures var (u, c) := Layout.Add(used, cap, |rs|, src).value; Reopens(u, c, rs + [Completed(src, drawn, now)])
  {
    hide Layout.Add, PutRecord;
    var r := Completed(src, drawn, now);
    assert Lighter(r, src);
    hide Lighter, Completed;
    AddMonotone(AddAll(rs).value.0, used, cap, |rs|, r, src);
    assert (rs + [r])[..|rs|] == rs;
  }

  /** `Vault.Delete` keeps a vault reopenable. */
  lemma DeleteReopens(used: nat, cap: nat, rs: seq<Record>, k: nat, now: int)
    requires Reopens(used, cap, rs) && k < |rs| && rs[k].flags % 2 == 0
    ensures Reopens(used, cap, rs[k := Erased(rs[k], now)])
  {
    assert Lighter(Erased(rs[k], now), rs[k]);
    hide Lighter, Erased;
    LighterReopens(rs, k, Erased(rs[k], now));
  }

  function TextOf(r: Record, f: TextField): Bytes {
    match f case Title => r.title case Username => r.username case Password => r.password case Notes => r.notes
  }

  /** `Vault.Edit` keeps a vault reopenable when the new text is no longer than the old one. */
  lemma ShorterEditReopens(used: nat, cap: nat, rs: seq<Record>, k: nat, f: TextField, value: Bytes, now: int)
    requires Reopens(used, cap, rs) && k < |rs| && |value| <= |TextOf(rs[k], f)|
    ensures Reopens(used + TextCost(value), cap, rs[k := Stamped(WithText(rs[k], f, value), now)])
  {
    var r := Stamped(WithText(rs[k], f, value), now);
    assert Lighter(r, rs[k]);
    hide Lighter, Stamped, WithText, AddAll;
    LighterReopens(rs, k, r);
  }

  /** `Vault.EditList` keeps a vault reopenable when it clears the list. */
  lemma ClearedListReopens(used: nat, cap: nat, rs: seq<Record>, k: nat, urls: bool, now: int)
    requires Reopens(used, cap, rs) && k < |rs| && PutSlices(used, []).Some?
    ensures Reopens(PutSlices(used, []).value, cap, rs[k := Stamped(WithList(rs[k], urls, []), now)])
  {
    var r := Stamped(WithList(rs[k], urls, []), now);
    assert Lighter(r, rs[k]);
    assert used <= PutSlices(used, []).value;
    hide Lighter, Stamped, WithList, AddAll;
    LighterReopens(rs, k, r);
  }

  // ---------- whole sessions ----------

  /** What a session holds: how much of the arena is used, the capacity for records, the records. */
  datatype Held = Held(used: nat, cap: nat, records: seq<Record>)

  datatype Work =
    | Adds(src: Record, drawn: Bytes, now: int)
    | Deletes(k: nat, now: int)
    | Shortens(k: nat, f: TextField, value: Bytes, now: int)
    | Clears(k: nat, urls: bool, now: int)

  /** `z` is what the operation, when it succeeds, makes of `a`. */
  predicate Works(a: Held, x: Work, z: Held) {
    match x
    case Adds(src, drawn, now) =>
      && Layout.Add(a.used, a.cap, |a.records|, src).Some?
      && var (u, c) := Layout.Add(a.used, a.cap, |a.records|, src).value;
         z == Held(u, c, a.records + [Completed(src, drawn, now)])
    case Deletes(k, now) =>
      k < |a.records| && a.records[k].flags % 2 == 0 && z == a.(records := a.records[k := Erased(a.records[k], now)])
    case Shortens(k, f, value, now) =>
      && k < |a.records| && |value| <= |TextOf(a.records[k], f)|
      && z == Held(a.used + TextCost(value), a.cap, a.records[k := Stamped(WithText(a.records[k], f, value), now)])
    case Clears(k, urls, now) =>
      && k < |a.records| && PutSlices(a.used, []).Some?
      && z == Held(PutSlices(a.used, []).value, a.cap, a.records[k := Stamped(WithList(a.records[k], urls, []), now)])
  }

  /** From a vault just created or opened, any sequence of such operations leaves one that opens again. */
  lemma {:induction false} SessionsReopen(hs: seq<Held>, xs: seq<Work>, n: nat)
    requires |hs| == |xs| + 1 && n < |hs| && AddAll(hs[0].records) == Some((hs[0].used, hs[0].cap))
    requires forall i :: 0 <= i < |xs| ==> Works(hs[i], xs[i], hs[i + 1])
    ensures Reopens(hs[n].used, hs[n].cap, hs[n].records)
    decreases n
  {
    hide Layout.Add, AddAll, PutSlices, Erased, Stamped, WithText, WithList, Completed, TextCost;
    if n > 0 {
      SessionsReopen(hs, xs, n - 1);
      var a := hs[n - 1];
      assert Works(a, xs[n - 1], hs[n]);
      match xs[n - 1]
      case Adds(src, drawn, now) => AddReopens(a.used, a.cap, a.records, src, drawn, now);
      case Deletes(k, now) => DeleteReopens(a.used, a.cap, a.records, k, now);
      case Shortens(k, f, value, now) => ShorterEditReopens(a.used, a.cap, a.records, k, f, value, now);
      case Clears(k, urls, now) => ClearedListReopens(a.used, a.cap, a.records, k, urls, now);
    }
  }

  /**
   Every vault in a sound state encodes within the limit, and decoding gives it back exactly when its records fit
   when laid out afresh.
   */
  lemma ReopensExactly(p: Plain, used: nat, cap: nat)
    requires PlainValid(p) && Budget(used, cap, p.records)
    ensures |EncPlainOf(p)| + 4 <= MaxPlaintext
    ensures Decode(EncPlainOf(p)) == Ok(p) <==> AddAll(p.records).Some?
    ensures Decode(EncPlainOf(p)).Err? <==> AddAll(p.records).None?
    ensures Reopens(used, cap, p.records) ==> Decode(EncPlainOf(p)) == Ok(p)
  {
    EncodingFits(p, used, cap);
    hide AddAll, EncPlainOf, Decode, PlainValid;
    DecodeOwn(p);
  }

  // ---------- the edit that breaks it ----------

  function Letters(n: nat): (s: Bytes)
    ensures |s| == n
  {
    seq(n, _ => 97)
  }

  function Identity(k: nat): Bytes
    requires k < 256
  {
    seq(16, _ => k)
  }

  function Big(k: nat): Record
    requires 0 < k < 256
  {
    Record(Identity(k), 1, 0, 0, 0, Letters(1), [], [], Letters(262144), [], [], [])
  }

  /** The last record: its notes end on a multiple of eight, an array and a text of five bytes behind them. */
  function Last(): Record {
    Record(Identity(8), 1, 0, 0, 0, Letters(1), [], [], Letters(259536), [Letters(5)], [], [])
  }

  function Bigs(n: nat): seq<Record>
    requires n < 256
  {
    if n == 0 then [] else Bigs(n - 1) + [Big(n)]
  }

  lemma BigPlace(u: nat, k: nat)
    requires 0 < k < 256 && u + 262147 <= ArenaCapacity
    ensures PutRecord(u, Big(k)) == Some(u + 262147)
  {
    var r := Big(k);
    assert PutFour(u, r) == Some(u + 262147);
    assert PutSlices(u + 262147, []) == Some(u + 262147);
    assert PutFieldArray(u + 262147, []) == Some(u + 262147);
  }

  lemma AddAllNone()
    ensures AddAll([]) == Some((2560, 16))
  {
  }

  lemma AddPlaced(u: nat, cap: nat, count: nat, r: Record, z: nat)
    requires count < cap && PutRecord(u, r) == Some(z)
    ensures Layout.Add(u, cap, count, r) == Some((z, cap))
  {
  }

  lemma AddAllAppend(rs: seq<Record>, r: Record)
    requires AddAll(rs).Some?
    ensures AddAll(rs + [r]) == Layout.Add(AddAll(rs).value.0, AddAll(rs).value.1, |rs|, r)
  {
    hide Layout.Add;
    assert (rs + [r])[..|rs|] == rs;
  }

  lemma {:induction false} BigsPlaced(n: nat)
    requires n <= 7
    ensures |Bigs(n)| == n && AddAll(Bigs(n)) == Some((2560 + 262147 * n, 16))
  {
    hide PutRecord, Big, AddAll, Layout.Add;
    if n == 0 {
      AddAllNone();
    } else {
      BigsPlaced(n - 1);
      var u := 2560 + 262147 * (n - 1);
      BigPlace(u, n);
      AddAllAppend(Bigs(n - 1), Big(n));
      AddPlaced(u, 16, n - 1, Big(n), u + 262147);
    }
  }

  /** Behind 1837589 bytes the last record ends two bytes short of the arena. */
  lemma LastPlace()
    ensures PutRecord(1837589, Last()) == Some(ArenaCapacity - 2)
  {
    var r := Last();
    assert PutFour(1837589, r) == Some(2097128);
    assert PutArray(2097128, 1, SliceSize) == Some(2097144);
    assert PutTexts(2097144, []) == Some(2097144);
    assert r.urls[..0] == [];
    assert PutTexts(2097144, r.urls) == Some(2097150);
    assert PutSlices(2097150, []) == Some(2097150);
    assert PutFieldArray(2097150, []) == Some(2097150);
  }

  /** With one letter of username, alignment costs eight bytes and the array no longer fits. */
  lemma EditedPlace(r: Record)
    requires r == Stamped(WithText(Last(), Username, Letters(1)), 0)
    ensures PutRecord(1837589, r).None?
  {
    assert PutFour(1837589, r) == Some(2097130);
    assert PutArray(2097130, 1, SliceSize) == Some(2097152);
    assert PutTexts(2097152, []) == Some(2097152);
    assert r.urls[..0] == [];
    assert PutTexts(2097152, r.urls).None?;
  }

  /** The full vault: seven large records and the last one. */
  function Full(): seq<Record> {
    Bigs(7) + [Last()]
  }

  /**
   A vault built by adding, and a one-letter edit of an empty username that fits the arena: the vault before the
   edit is reopenable, the one after it is not, whatever the rest of the plaintext is.
   */
  lemma LongerEditCanFail()
    ensures Reopens(ArenaCapacity - 2, 16, Full()) && |Full()| == 8 && Full()[7] == Last()
    ensures PutText(ArenaCapacity - 2, Letters(1)) == Some(ArenaCapacity)
    ensures AddAll(Full()[7 := Stamped(WithText(Last(), Username, Letters(1)), 0)]).None?
  {
    BigsPlaced(7);
    LastPlace();
    var r := Stamped(WithText(Last(), Username, Letters(1)), 0);
    EditedPlace(r);
    var full, edited := Full(), Full()[7 := r];
    assert full[..7] == Bigs(7) && edited[..7] == Bigs(7);
    hide PutRecord, Bigs, Last;
  }

  lemma {:induction false} LettersValid(n: nat)
    ensures Utf8.Valid(Letters(n))
  {
    if n > 0 {
      LettersValid(n - 1);
      assert Letters(n)[1..] == Letters(n - 1);
    }
  }

  lemma {:induction false} BigsAt(n: nat, k: nat)
    requires k < n < 256
    ensures |Bigs(n)| == n && Bigs(n)[k] == Big(k + 1)
  {
    if k < n - 1 {
      BigsAt(n - 1, k);
    } else if n > 1 {
      BigsAt(n - 1, 0);
    }
  }

  function Edited(): Record {
    Stamped(WithText(Last(), Username, Letters(1)), 0)
  }

  lemma RecordsAreValid(k: nat)
    requires 0 < k < 256
    ensures RecordValid(Big(k)) && RecordValid(Edited())
  {
    hide Utf8.Valid, Letters, Identity, IsZero;
    LettersValid(1);
    LettersValid(5);
    LettersValid(262144);
    LettersValid(259536);
    EmptyValid();
    IdentityNotZero(k);
    IdentityNotZero(8);
  }

  lemma EmptyValid()
    ensures Utf8.Valid([])
  {
  }

  lemma IdentityNotZero(k: nat)
    requires 0 < k < 256
    ensures |Identity(k)| == IdLength && !IsZero(Identity(k))
  {
    assert Identity(k)[0] == k;
  }

  /** That vault is valid, so it is encoded and saved; decoding does not give it back. */
  lemma SavedButNotReopened(p: Plain)
    requires OuterValid(p) && p.records == Bigs(7) + [Edited()]
    ensures PlainValid(p) && Decode(EncPlainOf(p)).Err?
  {
    var rs := p.records;
    BigsPlaced(7);
    LongerEditCanFail();
    assert Full()[7 := Edited()] == rs;
    forall k | 0 <= k < 8 ensures RecordValid(rs[k]) && rs[k].id == Identity(k + 1) {
      RecordsAreValid(k + 1);
      if k < 7 {
        BigsAt(7, k);
      }
    }
    hide RecordValid, AddAll, EncPlainOf, Decode, Bigs, Edited, Big, Full;
    forall i, j | 0 <= i < j < 8 ensures rs[i].id != rs[j].id {
      assert Identity(i + 1)[0] != Identity(j + 1)[0];
    }
    assert PlainValid(p);
    DecodeOwn(p);
  }
}

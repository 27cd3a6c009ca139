/**
 The plaintext as docs/FORMAT.md documents it: CBOR items as values, their deterministic encoding as in sections 3 and
 4.2.1 of RFC 8949, and the tables of sections 6.1 to 6.3 of the format.  The codec writes and accepts exactly this.
 */
module Reference {
  import opened Prelude
  import opened Records
  import opened Layout
  import opened Plaintext
  import Cbor
  import Schema
  import Utf8

  // ---------- items ----------

  datatype Item =
    | Uint(v: nat)
    | ByteString(b: Bytes)
    | TextString(t: Bytes)
    | Array(items: seq<Item>)
    | Map(entries: seq<Entry>)

  datatype Entry = Entry(key: nat, value: Item)

  /** Byte `k` of `v` in `n` bytes, network order. */
  function NetworkByte(v: nat, n: nat, k: nat): byte
    requires k < n
  {
    v / Pow(n - 1 - k) % 256
  }

  function Network(v: nat, n: nat): Bytes {
    seq(n, k requires 0 <= k < n => NetworkByte(v, n, k))
  }

  /** Section 3 of RFC 8949: the major type in the high three bits, the shortest argument. */
  function Initial(major: nat, v: nat): Bytes
    requires major < 8
  {
    if v <= 23 then [32 * major + v]
    else if v <= 0xff then [32 * major + 24] + Network(v, 1)
    else if v <= 0xffff then [32 * major + 25] + Network(v, 2)
    else if v <= 0xffff_ffff then [32 * major + 26] + Network(v, 4)
    else [32 * major + 27] + Network(v, 8)
  }

  function Encoded(x: Item): Bytes
    decreases x, 0
  {
    match x
    case Uint(v) => Initial(0, v)
    case ByteString(b) => Initial(2, |b|) + b
    case TextString(t) => Initial(3, |t|) + t
    case Array(items) => Initial(4, |items|) + EncodedItems(items)
    case Map(entries) => Initial(5, |entries|) + EncodedEntries(entries)
  }

  function EncodedItems(xs: seq<Item>): Bytes
    decreases xs, 1
  {
    if xs == [] then [] else Encoded(xs[0]) + EncodedItems(xs[1..])
  }

  function EncodedEntries(es: seq<Entry>): Bytes
    decreases es, 1
  {
    if es == [] then [] else EncodedEntries(es[..|es| - 1]) + EncodedEntry(es[|es| - 1])
  }

  function EncodedEntry(e: Entry): Bytes
    decreases e, 0
  {
    Initial(0, e.key) + Encoded(e.value)
  }

  // ---------- the documented tables ----------

  function TextItems(ts: seq<Bytes>): seq<Item> {
    seq(|ts|, k requires 0 <= k < |ts| => TextString(ts[k]))
  }

  /** Section 6.3: the map of a custom field. */
  function FieldItem(f: Field): Item {
    Map([Entry(0, TextString(f.name)), Entry(1, ByteString(f.value)), Entry(2, Uint(f.flags))])
  }

  function FieldItems(fs: seq<Field>): seq<Item> {
    seq(|fs|, k requires 0 <= k < |fs| => FieldItem(fs[k]))
  }

  function FactEntries(r: Record): seq<Entry>
    requires Schema.Timed(r)
  {
    [Entry(0, ByteString(r.id)), Entry(1, Uint(r.revision)), Entry(2, Uint(r.created)), Entry(3, Uint(r.updated)), Entry(4, Uint(r.flags))]
  }

  function ContentEntries(r: Record): seq<Entry> {
    [Entry(5, TextString(r.title)), Entry(6, TextString(r.username)), Entry(7, ByteString(r.password)), Entry(8, Array(TextItems(r.urls))),
     Entry(9, TextString(r.notes)), Entry(10, Array(TextItems(r.tags))), Entry(11, Array(FieldItems(r.fields)))]
  }

  /** Section 6.2: the map of a record. */
  function RecordItem(r: Record): Item
    requires Schema.Timed(r)
  {
    Map(FactEntries(r) + ContentEntries(r))
  }

  function RecordItems(rs: seq<Record>): seq<Item>
    requires Schema.AllTimed(rs)
  {
    seq(|rs|, k requires 0 <= k < |rs| => RecordItem(rs[k]))
  }

  /** Section 6.1: the top-level map. */
  function PlainItem(p: Plain): Item
    requires 0 <= p.created && 0 <= p.updated && Schema.AllTimed(p.records)
  {
    Map([Entry(0, Uint(1)), Entry(1, Uint(p.generation)), Entry(2, ByteString(p.deviceId)), Entry(3, Uint(p.created)), Entry(4, Uint(p.updated)),
         Entry(5, Array(RecordItems(p.records)))])
  }

  // ---------- heads ----------

  lemma {:induction false} BigAt(v: nat, n: nat, k: nat)
    requires k < n
    ensures Cbor.Big(v, n)[k] == NetworkByte(v, n, k)
  {
    if k < n - 1 {
      BigAt(v / 256, n - 1, k);
      DividedTwice(v, Pow(n - 2 - k));
    }
  }

  lemma BigIsNetwork(v: nat, n: nat)
    ensures Cbor.Big(v, n) == Network(v, n)
  {
    forall k | 0 <= k < n
      ensures Cbor.Big(v, n)[k] == Network(v, n)[k]
    {
      BigAt(v, n, k);
    }
  }

  /** The heads of the codec are those of the standard. */
  lemma HeadIsInitial(major: nat, v: nat)
    requires major < 8
    ensures Cbor.Head(major, v) == Initial(major, v)
  {
    hide Network, Cbor.Big;
    BigIsNetwork(v, 1);
    BigIsNetwork(v, 2);
    BigIsNetwork(v, 4);
    BigIsNetwork(v, 8);
  }

  /** Of the bytes alone: major type, how many bytes of argument follow, and the argument. */
  lemma HeadBytes(major: nat, v: nat)
    requires major < 8 && v < Uint64
    ensures var h := Cbor.Head(major, v);
      && h[0] / 32 == major
      && (v <= 23 ==> |h| == 1 && h[0] % 32 == v)
      && (v > 23 ==> 24 <= h[0] % 32 <= 27 && |h| - 1 == [1, 2, 4, 8][h[0] % 32 - 24])
      && (forall k :: 1 <= k < |h| ==> h[k] == v / Pow(|h| - 1 - k) % 256)
      && (v > 23 ==> v < Pow(|h| - 1) && (|h| > 2 ==> Pow((|h| - 1) / 2) <= v))
  {
    hide Pow;
    HeadIsInitial(major, v);
    PowTable();
  }

  lemma PowTable()
    ensures Pow(0) == 1 && Pow(1) == 0x100 && Pow(2) == 0x1_0000 && Pow(4) == 0x1_0000_0000 && Pow(8) == Uint64
  {
    assert Pow(3) == 0x100_0000;
    assert Pow(5) == 256 * Pow(4) && Pow(6) == 256 * Pow(5) && Pow(7) == 256 * Pow(6) && Pow(8) == 256 * Pow(7);
  }

  // ---------- order of keys ----------

  /** `a` comes before `b` bytewise: they differ first where `a` has the lower byte. */
  ghost predicate Precedes(a: Bytes, b: Bytes) {
    exists k :: 0 <= k < |a| && k < |b| && a[..k] == b[..k] && a[k] < b[k]
  }

  lemma {:induction false} BigOrdered(v: nat, w: nat, n: nat)
    requires v < w < Pow(n)
    ensures Precedes(Cbor.Big(v, n), Cbor.Big(w, n))
  {
    var a, b := Cbor.Big(v, n), Cbor.Big(w, n);
    if v / 256 < w / 256 {
      BigOrdered(v / 256, w / 256, n - 1);
      var x, y := Cbor.Big(v / 256, n - 1), Cbor.Big(w / 256, n - 1);
      var k :| 0 <= k < |x| && k < |y| && x[..k] == y[..k] && x[k] < y[k];
      assert a[..k] == x[..k] && b[..k] == y[..k];
    } else {
      assert v / 256 == w / 256 && v % 256 < w % 256;
      assert a[..n - 1] == Cbor.Big(v / 256, n - 1) && b[..n - 1] == Cbor.Big(w / 256, n - 1);
      assert a[n - 1] < b[n - 1];
    }
  }

  lemma PrecedesBehind(a: Bytes, b: Bytes, first: byte)
    requires Precedes(a, b)
    ensures Precedes([first] + a, [first] + b)
  {
    var k :| 0 <= k < |a| && k < |b| && a[..k] == b[..k] && a[k] < b[k];
    var x, y := [first] + a, [first] + b;
    assert x[..k + 1] == [first] + a[..k] && y[..k + 1] == [first] + b[..k];
    assert x[k + 1] < y[k + 1];
  }

  /** Larger numbers have later heads: the order that section 4.2.1 of RFC 8949 asks of map keys. */
  lemma HeadsOrdered(major: nat, v: nat, w: nat)
    requires major < 8 && v < w < Uint64
    ensures Precedes(Cbor.Head(major, v), Cbor.Head(major, w))
  {
    var a, b := Cbor.Head(major, v), Cbor.Head(major, w);
    if w <= 23 || Cbor.Width(v) < Cbor.Width(w) {
      assert a[..0] == b[..0] && a[0] < b[0];
    } else {
      hide Pow;
      PowTable();
      BigOrdered(v, w, Cbor.Width(w));
      PrecedesBehind(Cbor.Big(v, Cbor.Width(v)), Cbor.Big(w, Cbor.Width(w)), a[0]);
    }
  }

  /** Every map in the item, at any depth, has its keys in order. */
  ghost predicate Ordered(x: Item) {
    match x
    case Array(items) => forall k :: 0 <= k < |items| ==> Ordered(items[k])
    case Map(es) =>
      && (forall i, j :: 0 <= i < j < |es| ==> Precedes(Cbor.Head(0, es[i].key), Cbor.Head(0, es[j].key)))
      && forall k :: 0 <= k < |es| ==> Ordered(es[k].value)
    case _ => true
  }

  lemma KeysOrdered(es: seq<Entry>)
    requires |es| <= 12 && forall k :: 0 <= k < |es| ==> es[k].key == k
    ensures forall i, j :: 0 <= i < j < |es| ==> Precedes(Cbor.Head(0, es[i].key), Cbor.Head(0, es[j].key))
  {
    forall i, j | 0 <= i < j < |es|
      ensures Precedes(Cbor.Head(0, es[i].key), Cbor.Head(0, es[j].key))
    {
      HeadsOrdered(0, i, j);
    }
  }

  lemma TextsOrdered(ts: seq<Bytes>)
    ensures Ordered(Array(TextItems(ts)))
  {
    assert forall k :: 0 <= k < |ts| ==> TextItems(ts)[k].TextString?;
  }

  lemma FieldsOrdered(fs: seq<Field>)
    ensures Ordered(Array(FieldItems(fs)))
  {
    hide Precedes;
    forall k | 0 <= k < |fs|
      ensures Ordered(FieldItems(fs)[k])
    {
      KeysOrdered(FieldItem(fs[k]).entries);
    }
  }

  lemma RecordOrdered(r: Record)
    requires Schema.Timed(r)
    ensures Ordered(RecordItem(r))
  {
    hide Precedes, TextItems, FieldItems;
    TextsOrdered(r.urls);
    TextsOrdered(r.tags);
    FieldsOrdered(r.fields);
    var es := RecordItem(r).entries;
    forall k | 0 <= k < |es|
      ensures Ordered(es[k].value)
    {
      assert es[8].value == Array(TextItems(r.urls)) && es[10].value == Array(TextItems(r.tags)) && es[11].value == Array(FieldItems(r.fields));
    }
    KeysOrdered(es);
  }

  /** The documented item is deterministic: all its maps are in order. */
  lemma PlainOrdered(p: Plain)
    requires 0 <= p.created && 0 <= p.updated && Schema.AllTimed(p.records)
    ensures Ordered(PlainItem(p))
  {
    hide Precedes, RecordItem;
    forall k | 0 <= k < |p.records|
      ensures Ordered(RecordItem(p.records[k]))
    {
      RecordOrdered(p.records[k]);
    }
    assert Ordered(Array(RecordItems(p.records)));
    KeysOrdered(PlainItem(p).entries);
  }

  // ---------- the codec writes the documented items ----------

  lemma EntriesSnoc(es: seq<Entry>, e: Entry)
    ensures EncodedEntries(es + [e]) == EncodedEntries(es) + EncodedEntry(e)
  {
    assert (es + [e])[..|es|] == es;
  }

  lemma {:induction false} EntriesJoin(xs: seq<Entry>, ys: seq<Entry>)
    ensures EncodedEntries(xs + ys) == EncodedEntries(xs) + EncodedEntries(ys)
  {
    hide EncodedEntry;
    if ys == [] {
      assert xs + ys == xs;
    } else {
      var n := |ys| - 1;
      EntriesJoin(xs, ys[..n]);
      EntriesSnoc(xs + ys[..n], ys[n]);
      EntriesSnoc(ys[..n], ys[n]);
      assert ys == ys[..n] + [ys[n]] && xs + ys == xs + ys[..n] + [ys[n]];
      Schema.Assoc(EncodedEntries(xs), EncodedEntries(ys[..n]), EncodedEntry(ys[n]));
    }
  }

  lemma OneEntry(e: Entry)
    ensures EncodedEntries([e]) == EncodedEntry(e)
  {
    EntriesSnoc([], e);
    assert [] + [e] == [e];
  }

  lemma ThreeEntries(a: Entry, b: Entry, c: Entry)
    ensures EncodedEntries([a, b, c]) == EncodedEntry(a) + EncodedEntry(b) + EncodedEntry(c)
  {
    hide EncodedEntry, EncodedEntries;
    OneEntry(a);
    EntriesSnoc([a], b);
    EntriesSnoc([a, b], c);
    assert [a] + [b] == [a, b] && [a, b] + [c] == [a, b, c];
  }

  lemma FiveEntries(a: Entry, b: Entry, c: Entry, d: Entry, e: Entry)
    ensures EncodedEntries([a, b, c, d, e]) == EncodedEntry(a) + EncodedEntry(b) + EncodedEntry(c) + EncodedEntry(d) + EncodedEntry(e)
  {
    hide EncodedEntry, EncodedEntries;
    ThreeEntries(a, b, c);
    EntriesSnoc([a, b, c], d);
    EntriesSnoc([a, b, c, d], e);
    assert [a, b, c] + [d] == [a, b, c, d] && [a, b, c, d] + [e] == [a, b, c, d, e];
  }

  lemma BlobEncoded(k: nat, t: Bytes)
    ensures Cbor.EntryBlob(k, 2, t) == EncodedEntry(Entry(k, ByteString(t)))
    ensures Cbor.EntryBlob(k, 3, t) == EncodedEntry(Entry(k, TextString(t)))
  {
    hide Cbor.Head, Initial;
    HeadIsInitial(0, k);
    HeadIsInitial(2, |t|);
    HeadIsInitial(3, |t|);
  }

  lemma UintEncoded(k: nat, v: nat)
    ensures Cbor.EntryUint(k, v) == EncodedEntry(Entry(k, Uint(v)))
  {
    hide Cbor.Head, Initial;
    HeadIsInitial(0, k);
    HeadIsInitial(0, v);
  }

  lemma {:induction false} TextsEncoded(ts: seq<Bytes>)
    ensures Schema.EncTexts(ts) == EncodedItems(TextItems(ts))
  {
    hide Cbor.Head, Initial;
    if ts != [] {
      TextsEncoded(ts[1..]);
      HeadIsInitial(3, |ts[0]|);
      assert TextItems(ts)[1..] == TextItems(ts[1..]);
    }
  }

  lemma TextListEncoded(k: nat, ts: seq<Bytes>)
    ensures Schema.EntryTexts(k, ts) == EncodedEntry(Entry(k, Array(TextItems(ts))))
  {
    hide Cbor.Head, Initial, EncodedItems, Schema.EncTexts;
    HeadIsInitial(0, k);
    HeadIsInitial(4, |ts|);
    TextsEncoded(ts);
    Schema.Assoc(Cbor.Head(0, k), Cbor.Head(4, |ts|), Schema.EncTexts(ts));
  }

  /** Section 6.3. */
  lemma FieldEncoded(f: Field)
    ensures Schema.EncField(f) == Encoded(FieldItem(f))
  {
    var a, b, c := Entry(0, TextString(f.name)), Entry(1, ByteString(f.value)), Entry(2, Uint(f.flags));
    assert Encoded(FieldItem(f)) == Initial(5, 3) + EncodedEntries([a, b, c]);
    hide Cbor.Head, Initial, EncodedEntries, EncodedEntry, Cbor.EntryBlob, Cbor.EntryUint;
    HeadIsInitial(5, 3);
    BlobEncoded(0, f.name);
    BlobEncoded(1, f.value);
    UintEncoded(2, f.flags);
    ThreeEntries(a, b, c);
    var h, x, y, z := Initial(5, 3), EncodedEntry(a), EncodedEntry(b), EncodedEntry(c);
    Schema.Assoc(h, x, y);
    Schema.Assoc(h, x + y, z);
  }

  lemma {:induction false} FieldsEncoded(fs: seq<Field>)
    ensures Schema.EncFields(fs) == EncodedItems(FieldItems(fs))
  {
    hide Schema.EncField, Encoded;
    if fs != [] {
      FieldsEncoded(fs[1..]);
      FieldEncoded(fs[0]);
      assert FieldItems(fs)[1..] == FieldItems(fs[1..]);
    }
  }

  lemma FieldListEncoded(k: nat, fs: seq<Field>)
    ensures Schema.EntryFields(k, fs) == EncodedEntry(Entry(k, Array(FieldItems(fs))))
  {
    hide Cbor.Head, Initial, EncodedItems, Schema.EncFields;
    HeadIsInitial(0, k);
    HeadIsInitial(4, |fs|);
    FieldsEncoded(fs);
    Schema.Assoc(Cbor.Head(0, k), Cbor.Head(4, |fs|), Schema.EncFields(fs));
  }

  lemma FactsEncoded(r: Record)
    requires Schema.Timed(r)
    ensures Schema.EncFacts(r) == Initial(5, 12) + EncodedEntries(FactEntries(r))
  {
    hide Cbor.Head, Initial, EncodedEntries, EncodedEntry, Cbor.EntryBlob, Cbor.EntryUint;
    HeadIsInitial(5, 12);
    BlobEncoded(0, r.id);
    UintEncoded(1, r.revision);
    UintEncoded(2, r.created);
    UintEncoded(3, r.updated);
    UintEncoded(4, r.flags);
    var es := FactEntries(r);
    FiveEntries(es[0], es[1], es[2], es[3], es[4]);
    Six(Initial(5, 12), EncodedEntry(es[0]), EncodedEntry(es[1]), EncodedEntry(es[2]), EncodedEntry(es[3]), EncodedEntry(es[4]));
  }

  lemma Six(h: Bytes, a: Bytes, b: Bytes, c: Bytes, d: Bytes, e: Bytes)
    ensures h + a + b + c + d + e == h + (a + b + c + d + e)
  {
    Schema.Assoc(h, a, b);
    Schema.Assoc(h, a + b, c);
    Schema.Assoc(h, a + b + c, d);
    Schema.Assoc(h, a + b + c + d, e);
  }

  lemma ContentEncoded(r: Record)
    ensures Schema.EncContent(r) == EncodedEntries(ContentEntries(r))
  {
    hide EncodedEntries, EncodedEntry, Cbor.EntryBlob, Schema.EntryTexts, Schema.EntryFields;
    BlobEncoded(5, r.title);
    BlobEncoded(6, r.username);
    BlobEncoded(7, r.password);
    TextListEncoded(8, r.urls);
    BlobEncoded(9, r.notes);
    TextListEncoded(10, r.tags);
    FieldListEncoded(11, r.fields);
    var es := ContentEntries(r);
    FiveEntries(es[0], es[1], es[2], es[3], es[4]);
    EntriesSnoc([es[0], es[1], es[2], es[3], es[4]], es[5]);
    EntriesSnoc([es[0], es[1], es[2], es[3], es[4], es[5]], es[6]);
    assert [es[0], es[1], es[2], es[3], es[4]] + [es[5]] == [es[0], es[1], es[2], es[3], es[4], es[5]];
    assert [es[0], es[1], es[2], es[3], es[4], es[5]] + [es[6]] == es;
  }

  /** Section 6.2. */
  lemma RecordEncoded(r: Record)
    requires Schema.Timed(r)
    ensures Schema.EncRecord(r) == Encoded(RecordItem(r))
  {
    assert Encoded(RecordItem(r)) == Initial(5, 12) + EncodedEntries(FactEntries(r) + ContentEntries(r));
    hide Initial, EncodedEntries, Schema.EncFacts, Schema.EncContent;
    FactsEncoded(r);
    ContentEncoded(r);
    EntriesJoin(FactEntries(r), ContentEntries(r));
    Schema.Assoc(Initial(5, 12), EncodedEntries(FactEntries(r)), EncodedEntries(ContentEntries(r)));
  }

  lemma {:induction false} RecordsEncoded(rs: seq<Record>)
    requires Schema.AllTimed(rs)
    ensures Schema.EncRecords(rs) == EncodedItems(RecordItems(rs))
  {
    hide Schema.EncRecord, Encoded, RecordItem;
    if rs != [] {
      RecordsEncoded(rs[1..]);
      RecordEncoded(rs[0]);
      assert RecordItems(rs)[1..] == RecordItems(rs[1..]);
    }
  }

  function OuterEntries(p: Plain): seq<Entry>
    requires 0 <= p.created && 0 <= p.updated
  {
    [Entry(0, Uint(1)), Entry(1, Uint(p.generation)), Entry(2, ByteString(p.deviceId)), Entry(3, Uint(p.created)), Entry(4, Uint(p.updated))]
  }

  lemma OuterEncoded(p: Plain)
    requires 0 <= p.created && 0 <= p.updated
    ensures EncOuter(p) == Initial(5, 6) + EncodedEntries(OuterEntries(p))
  {
    hide Cbor.Head, Initial, EncodedEntries, EncodedEntry, Cbor.EntryBlob, Cbor.EntryUint;
    HeadIsInitial(5, 6);
    UintEncoded(0, 1);
    UintEncoded(1, p.generation);
    BlobEncoded(2, p.deviceId);
    UintEncoded(3, p.created);
    UintEncoded(4, p.updated);
    var es := OuterEntries(p);
    FiveEntries(es[0], es[1], es[2], es[3], es[4]);
    Six(Initial(5, 6), EncodedEntry(es[0]), EncodedEntry(es[1]), EncodedEntry(es[2]), EncodedEntry(es[3]), EncodedEntry(es[4]));
  }

  lemma RecordListEncoded(rs: seq<Record>)
    requires Schema.AllTimed(rs)
    ensures Cbor.Head(0, 5) + Cbor.Head(4, |rs|) + Schema.EncRecords(rs) == EncodedEntry(Entry(5, Array(RecordItems(rs))))
  {
    hide Cbor.Head, Initial, EncodedItems, Schema.EncRecords;
    HeadIsInitial(0, 5);
    HeadIsInitial(4, |rs|);
    RecordsEncoded(rs);
    Schema.Assoc(Cbor.Head(0, 5), Cbor.Head(4, |rs|), Schema.EncRecords(rs));
  }

  /** Section 6.1: the encoder writes the documented item in its deterministic encoding. */
  lemma PlainEncoded(p: Plain)
    requires 0 <= p.created && 0 <= p.updated && Schema.AllTimed(p.records)
    ensures EncPlain(p) == Encoded(PlainItem(p)) && Ordered(PlainItem(p))
  {
    var last := Entry(5, Array(RecordItems(p.records)));
    assert PlainItem(p) == Map(OuterEntries(p) + [last]);
    assert Encoded(PlainItem(p)) == Initial(5, 6) + EncodedEntries(OuterEntries(p) + [last]);
    hide Initial, EncodedEntries, EncodedEntry, EncOuter, Ordered, Cbor.Head, Schema.EncRecords;
    PlainOrdered(p);
    OuterEncoded(p);
    RecordListEncoded(p.records);
    EntriesSnoc(OuterEntries(p), last);
    Schema.Assoc(Initial(5, 6), EncodedEntries(OuterEntries(p)), EncodedEntry(last));
  }

  /** The decoder accepts exactly the deterministic encodings of documented items whose vault can be opened. */
  lemma DecodesDocumented(s: Bytes, p: Plain)
    ensures Decode(s) == Ok(p) <==> Openable(p) && Schema.AllTimed(p.records) && s == Encoded(PlainItem(p))
  {
    hide Decode, EncPlain, Encoded, PlainItem, AddAll;
    DecodeExactly(s, p);
    if PlainValid(p) {
      Schema.TimedIfValid(p.records);
      PlainEncoded(p);
    }
  }

  // ---------- how items are refused ----------

  /** A string: over its limit, else cut short or not UTF-8, else what it says. */
  lemma StringsRefused(major: nat, n: nat, max: nat, rest: Bytes)
    requires major < 8 && n < Uint64
    ensures Cbor.ParseBlob(Initial(major, n) + rest, major, max) ==
      if n > max then Err(Limit)
      else if n > |rest| || (major == 3 && !Utf8.Valid(rest[..n])) then Err(FormatError)
      else Ok((rest[..n], rest[n..]))
    ensures Cbor.ParseCount(Initial(major, n) + rest, major, max) == if n > max then Err(Limit) else Ok((n, rest))
  {
    hide Cbor.ParseHead, Utf8.Valid;
    HeadIsInitial(major, n);
    Cbor.HeadComplete(major, n, rest);
  }

  /** Another major type, or a head that is not the shortest, is malformed. */
  lemma HeadsRefused(s: Bytes, major: nat)
    requires major < 8
    ensures Cbor.ParseHead(s, major) == Err(FormatError) <==> forall v: nat, rest :: v < Uint64 ==> s != Initial(major, v) + rest
  {
    hide Cbor.ParseHead, Initial;
    if Cbor.ParseHead(s, major).Ok? {
      Cbor.HeadSound(s, major);
      var (v, rest) := Cbor.ParseHead(s, major).value;
      HeadIsInitial(major, v);
      assert s == Initial(major, v) + rest;
    }
    forall v: nat, rest | v < Uint64 && s == Initial(major, v) + rest
      ensures Cbor.ParseHead(s, major).Ok?
    {
      HeadIsInitial(major, v);
      Cbor.HeadComplete(major, v, rest);
    }
  }

  /** Only an empty or oversized input is refused as misuse. */
  lemma InputsRefused(s: Bytes)
    ensures Decode(s) == Err(Usage) <==> s == [] || |s| > 2097152
    ensures Decode(s).Err? ==> Decode(s).status in {Usage, FormatError, Limit}
  {
    hide ParseOuter, ParseBody;
  }
}

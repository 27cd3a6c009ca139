/**
 The CBOR profile of the vault plaintext (src/cbor_codec.c): what each item encodes to, and how each
 item is read off the front of the remaining input.  Reading is exact: an input is accepted only if it
 is the encoding of what is returned, followed by the rest.
 */
module Cbor {
  import opened Prelude
  import opened Records
  import opened Utf8

  // ---------- heads ----------

  /** `v` as `n` bytes, most significant first. */
  function Big(v: nat, n: nat): (s: Bytes)
    ensures |s| == n
  {
    if n == 0 then [] else Big(v / 256, n - 1) + [v % 256]
  }

  /** The number that bytes stand for, most significant first. */
  function Number(s: Bytes): nat {
    if s == [] then 0 else Number(s[..|s| - 1]) * 256 + s[|s| - 1]
  }

  lemma {:induction false} NumberOfBig(v: nat, n: nat)
    requires v < Pow(n)
    ensures Number(Big(v, n)) == v
  {
    if n > 0 {
      NumberOfBig(v / 256, n - 1);
      var s := Big(v, n);
      assert s[..n - 1] == Big(v / 256, n - 1) && s[n - 1] == v % 256;
    }
  }

  lemma {:induction false} BigOfNumber(s: Bytes)
    ensures Big(Number(s), |s|) == s && Number(s) < Pow(|s|)
  {
    if s != [] {
      var n := |s| - 1;
      BigOfNumber(s[..n]);
      var last: int := s[n];
      assert Number(s) / 256 == Number(s[..n]) && Number(s) % 256 == last;
      assert s == s[..n] + [s[n]];
    }
  }

  /** How many bytes a minimal head spends on the argument behind the initial byte. */
  function Width(v: nat): nat {
    if v < 24 then 0 else if v < 0x100 then 1 else if v < 0x1_0000 then 2 else if v < 0x1_0000_0000 then 4 else 8
  }

  function Additional(w: nat): nat {
    match w case 1 => 24 case 2 => 25 case 4 => 26 case _ => 27
  }

  /** writer_type_value: major type and argument in the shortest form. */
  function Head(major: nat, v: nat): (h: Bytes)
    requires major < 8
    ensures |h| == 1 + Width(v)
  {
    if v < 24 then [major * 32 + v] else [major * 32 + Additional(Width(v))] + Big(v, Width(v))
  }

  /** reader_value. */
  function ParseHead(s: Bytes, major: nat): (r: Result<(nat, Bytes)>)
    ensures r.Err? ==> r.status == FormatError
  {
    if s == [] || s[0] / 32 != major then Err(FormatError)
    else
      var a := s[0] % 32;
      if a < 24 then Ok((a, s[1..]))
      else if a > 27 then Err(FormatError)
      else
        var w := match a case 24 => 1 case 25 => 2 case 26 => 4 case _ => 8;
        if |s| - 1 < w then Err(FormatError)
        else if Width(Number(s[1..1 + w])) != w then Err(FormatError)
        else Ok((Number(s[1..1 + w]), s[1 + w..]))
  }

  lemma HeadSound(s: Bytes, major: nat)
    requires major < 8 && ParseHead(s, major).Ok?
    ensures var (v, rest) := ParseHead(s, major).value;
      v < Uint64 && s == Head(major, v) + rest
  {
    hide Big, Number, Pow;
    var (v, rest) := ParseHead(s, major).value;
    var first: int := s[0];
    InitialByte(s[0], major);
    if first % 32 < 24 {
      assert s == [s[0]] + s[1..];
    } else {
      var w := Width(v);
      WidthBound(s[1..1 + w]);
      BigOfNumber(s[1..1 + w]);
      HeadSlices(s, w);
    }
  }

  lemma InitialByte(b: byte, major: nat)
    requires b / 32 == major
    ensures b == major * 32 + b % 32
  {
  }

  lemma HeadSlices(s: Bytes, w: nat)
    requires 1 + w <= |s|
    ensures s == [s[0]] + s[1..1 + w] + s[1 + w..]
  {
  }

  lemma WidthBound(s: Bytes)
    requires |s| <= 8
    ensures Number(s) < Uint64
  {
    hide Number;
    BigOfNumber(s);
    PowValues();
    PowMonotone(|s|, 8);
  }

  lemma {:induction false} PowMonotone(m: nat, n: nat)
    requires m <= n
    ensures Pow(m) <= Pow(n)
  {
    if m < n {
      PowMonotone(m, n - 1);
    }
  }

  lemma HeadComplete(major: nat, v: nat, rest: Bytes)
    requires major < 8 && v < Uint64
    ensures ParseHead(Head(major, v) + rest, major) == Ok((v, rest))
  {
    var s := Head(major, v) + rest;
    var w := Width(v);
    if v < 24 {
      assert s[1..] == rest;
    } else {
      PowValues();
      NumberOfBig(v, w);
      assert s[1..1 + w] == Big(v, w);
      assert s[1 + w..] == rest;
    }
  }

  // ---------- expected numbers, counts, strings ----------

  function ExpectUint(s: Bytes, expected: nat): (r: Result<Bytes>)
    ensures r.Err? ==> r.status == FormatError || r.status == Limit
  {
    var (v, rest) :- ParseHead(s, 0);
    if v != expected then Err(FormatError) else Ok(rest)
  }

  /** reader_count. */
  function ParseCount(s: Bytes, major: nat, max: nat): (r: Result<(nat, Bytes)>)
    ensures r.Err? ==> r.status == FormatError || r.status == Limit
  {
    var (v, rest) :- ParseHead(s, major);
    if v > max then Err(Limit) else Ok((v, rest))
  }

  function Blob(major: nat, t: Bytes): Bytes
    requires major < 8
  {
    Head(major, |t|) + t
  }

  /** reader_slice. */
  function ParseBlob(s: Bytes, major: nat, max: nat): (r: Result<(Bytes, Bytes)>)
    ensures r.Err? ==> r.status == FormatError || r.status == Limit
  {
    var (n, rest) :- ParseHead(s, major);
    if n > max then Err(Limit)
    else if n > |rest| then Err(FormatError)
    else if major == 3 && !Valid(rest[..n]) then Err(FormatError)
    else Ok((rest[..n], rest[n..]))
  }

  predicate BlobOk(major: nat, max: nat, t: Bytes) {
    |t| <= max && (major == 3 ==> Valid(t))
  }

  lemma BlobSound(s: Bytes, major: nat, max: nat)
    requires major < 8 && ParseBlob(s, major, max).Ok?
    ensures var (t, rest) := ParseBlob(s, major, max).value;
      BlobOk(major, max, t) && s == Blob(major, t) + rest
  {
    hide ParseHead, Valid;
    HeadSound(s, major);
    var (n, after) := ParseHead(s, major).value;
    assert after == after[..n] + after[n..];
    assert Head(major, n) + (after[..n] + after[n..]) == Head(major, n) + after[..n] + after[n..];
  }

  lemma BlobComplete(major: nat, max: nat, t: Bytes, rest: Bytes)
    requires major < 8 && |t| < Uint64 && BlobOk(major, max, t)
    ensures ParseBlob(Blob(major, t) + rest, major, max) == Ok((t, rest))
  {
    hide ParseHead, Valid;
    HeadComplete(major, |t|, t + rest);
    assert Blob(major, t) + rest == Head(major, |t|) + (t + rest);
    assert (t + rest)[..|t|] == t && (t + rest)[|t|..] == rest;
  }

  // ---------- map entries: a small key, then the value ----------

  function EntryUint(k: nat, v: nat): Bytes {
    Head(0, k) + Head(0, v)
  }

  function EntryBlob(k: nat, major: nat, t: Bytes): Bytes
    requires major < 8
  {
    Head(0, k) + Blob(major, t)
  }

  function ParseEntryUint(s: Bytes, k: nat): (r: Result<(nat, Bytes)>)
    ensures r.Err? ==> r.status == FormatError || r.status == Limit
  {
    var rest :- ExpectUint(s, k);
    ParseHead(rest, 0)
  }

  function ParseEntryBlob(s: Bytes, k: nat, major: nat, max: nat): (r: Result<(Bytes, Bytes)>)
    ensures r.Err? ==> r.status == FormatError || r.status == Limit
  {
    var rest :- ExpectUint(s, k);
    ParseBlob(rest, major, max)
  }

  lemma EntryUintSound(s: Bytes, k: nat)
    requires ParseEntryUint(s, k).Ok?
    ensures var (v, rest) := ParseEntryUint(s, k).value;
      v < Uint64 && s == EntryUint(k, v) + rest
  {
    hide ParseHead;
    HeadSound(s, 0);
    var after := ParseHead(s, 0).value.1;
    HeadSound(after, 0);
    var (v, rest) := ParseHead(after, 0).value;
    assert Head(0, k) + (Head(0, v) + rest) == Head(0, k) + Head(0, v) + rest;
  }

  lemma EntryUintComplete(k: nat, v: nat, rest: Bytes)
    requires k < Uint64 && v < Uint64
    ensures ParseEntryUint(EntryUint(k, v) + rest, k) == Ok((v, rest))
  {
    hide ParseHead;
    HeadComplete(0, k, Head(0, v) + rest);
    HeadComplete(0, v, rest);
    assert Head(0, k) + (Head(0, v) + rest) == Head(0, k) + Head(0, v) + rest;
  }

  lemma EntryBlobSound(s: Bytes, k: nat, major: nat, max: nat)
    requires major < 8 && ParseEntryBlob(s, k, major, max).Ok?
    ensures var (t, rest) := ParseEntryBlob(s, k, major, max).value;
      BlobOk(major, max, t) && s == EntryBlob(k, major, t) + rest
  {
    hide ParseHead, ParseBlob, Blob, BlobOk;
    HeadSound(s, 0);
    var after := ParseHead(s, 0).value.1;
    BlobSound(after, major, max);
    var (t, rest) := ParseBlob(after, major, max).value;
    assert Head(0, k) + (Blob(major, t) + rest) == Head(0, k) + Blob(major, t) + rest;
  }

  lemma EntryBlobComplete(k: nat, major: nat, max: nat, t: Bytes, rest: Bytes)
    requires k < Uint64 && major < 8 && |t| < Uint64 && BlobOk(major, max, t)
    ensures ParseEntryBlob(EntryBlob(k, major, t) + rest, k, major, max) == Ok((t, rest))
  {
    hide ParseHead, ParseBlob, Blob, BlobOk;
    HeadComplete(0, k, Blob(major, t) + rest);
    BlobComplete(major, max, t, rest);
    assert Head(0, k) + (Blob(major, t) + rest) == Head(0, k) + Blob(major, t) + rest;
  }
}

/** UTF-8 as in sections 3 and 4 of RFC 3629, the validator, and the text sanitizer of src/util.c. */
module Utf8 {
  import opened Prelude

  // ---------- the standard ----------

  predicate IsScalar(c: int) {
    0 <= c < 0xd800 || 0xe000 <= c <= 0x10ffff
  }

  /** The encoding of one scalar value. */
  function Encode(c: int): Bytes
    requires IsScalar(c)
  {
    if c < 0x80 then [c]
    else if c < 0x800 then [0xc0 + c / 64, 0x80 + c % 64]
    else if c < 0x10000 then [0xe0 + c / 4096, 0x80 + c / 64 % 64, 0x80 + c % 64]
    else [0xf0 + c / 262144, 0x80 + c / 4096 % 64, 0x80 + c / 64 % 64, 0x80 + c % 64]
  }

  predicate AllScalars(cs: seq<int>) {
    forall k :: 0 <= k < |cs| ==> IsScalar(cs[k])
  }

  function EncodeAll(cs: seq<int>): Bytes
    requires AllScalars(cs)
  {
    if cs == [] then [] else Encode(cs[0]) + EncodeAll(cs[1..])
  }

  ghost predicate IsUtf8(s: Bytes) {
    exists cs :: AllScalars(cs) && EncodeAll(cs) == s
  }

  // ---------- the decoder's steps ----------

  predicate IsContinuation(b: byte) {
    0x80 <= b < 0xc0
  }

  /** The width a first byte announces; 0 if it can start no character. */
  function Width(b: byte): nat {
    if b <= 0x7f then 1
    else if 0xc2 <= b <= 0xdf then 2
    else if 0xe0 <= b <= 0xef then 3
    else if 0xf0 <= b <= 0xf4 then 4
    else 0
  }

  /** The payload bits of a first byte. */
  function LeadBits(b: byte): nat {
    if b <= 0x7f then b else if b <= 0xdf then b % 32 else if b <= 0xef then b % 16 else b % 8
  }

  /** `v` with the six payload bits of each byte of `s` shifted in. */
  function Shift6(v: nat, s: Bytes): nat {
    if s == [] then v else Shift6(v, s[..|s| - 1]) * 64 + s[|s| - 1] % 64
  }

  /** The checks made on a decoded value of a given width. */
  predicate Acceptable(width: nat, c: nat) {
    !((width == 3 && c < 0x800) || (width == 4 && c < 0x10000) || c > 0x10ffff || 0xd800 <= c <= 0xdfff)
  }

  /** The first character of `s` as width and value, if `s` starts with a well-formed one. */
  function First(s: Bytes): Option<(nat, int)> {
    if s == [] || Width(s[0]) == 0 || Width(s[0]) > |s| then None
    else
      var w := Width(s[0]);
      var c := Shift6(LeadBits(s[0]), s[1..w]);
      if (exists k :: 1 <= k < w && !IsContinuation(s[k])) || !Acceptable(w, c) then None else Some((w, c))
  }

  lemma Shift6Step(v: nat, s: Bytes, a: nat, b: nat)
    requires a <= b < |s|
    ensures Shift6(v, s[a..b + 1]) == Shift6(v, s[a..b]) * 64 + s[b] % 64
  {
    assert s[a..b + 1][..b - a] == s[a..b];
  }

  lemma Shift6None(v: nat, s: Bytes, a: nat)
    requires a <= |s|
    ensures Shift6(v, s[a..a]) == v
  {
  }

  lemma BitsOf(b: byte)
    ensures b <= 0x7f ==> LeadBits(b) == b
    ensures 0xc2 <= b <= 0xdf ==> LeadBits(b) == b - 0xc0
    ensures 0xe0 <= b <= 0xef ==> LeadBits(b) == b - 0xe0
    ensures 0xf0 <= b <= 0xf4 ==> LeadBits(b) == b - 0xf0
    ensures IsContinuation(b) ==> b % 64 == b - 0x80
  {
  }

  /** The value of a first byte and its continuation bytes, by width. */
  function Value(s: Bytes): int
    requires 1 <= |s| <= 4
  {
    var a: int := s[0];
    if |s| == 1 then a
    else
      var b: int := s[1];
      if |s| == 2 then (a - 0xc0) * 64 + (b - 0x80)
      else
        var c: int := s[2];
        if |s| == 3 then (a - 0xe0) * 4096 + (b - 0x80) * 64 + (c - 0x80)
        else
          var d: int := s[3];
          (a - 0xf0) * 262144 + (b - 0x80) * 4096 + (c - 0x80) * 64 + (d - 0x80)
  }

  predicate WellShaped(s: Bytes) {
    1 <= |s| <= 4 && Width(s[0]) == |s| && forall k :: 1 <= k < |s| ==> IsContinuation(s[k])
  }

  lemma ShiftedValue(s: Bytes)
    requires WellShaped(s)
    ensures Shift6(LeadBits(s[0]), s[1..]) == Value(s)
  {
    hide LeadBits, Width;
    var v, t := LeadBits(s[0]), s[1..];
    BitsOf(s[0]);
    assert Width(s[0]) == |s|;
    WidthRange(s[0]);
    if |s| >= 2 {
      BitsOf(s[1]);
      assert [s[1]][..0] == [];
      assert Shift6(v, [s[1]]) == v * 64 + s[1] % 64;
      assert |s| == 2 ==> t == [s[1]];
    }
    if |s| >= 3 {
      BitsOf(s[2]);
      assert [s[1], s[2]][..1] == [s[1]];
      assert Shift6(v, [s[1], s[2]]) == Shift6(v, [s[1]]) * 64 + s[2] % 64;
      assert |s| == 3 ==> t == [s[1], s[2]];
    }
    if |s| >= 4 {
      BitsOf(s[3]);
      assert [s[1], s[2], s[3]][..2] == [s[1], s[2]];
      assert t == [s[1], s[2], s[3]];
    }
  }

  lemma WidthRange(b: byte)
    ensures Width(b) == 1 ==> b <= 0x7f
    ensures Width(b) == 2 ==> 0xc2 <= b <= 0xdf
    ensures Width(b) == 3 ==> 0xe0 <= b <= 0xef
    ensures Width(b) == 4 ==> 0xf0 <= b <= 0xf4
  {
  }

  /** `First` in terms of shape and value. */
  lemma FirstByShape(s: Bytes)
    ensures First(s).Some? <==> s != [] && Width(s[0]) <= |s| && WellShaped(s[..Width(s[0])])
                                && Acceptable(Width(s[0]), Value(s[..Width(s[0])]))
    ensures First(s).Some? ==> First(s).value == (Width(s[0]), Value(s[..Width(s[0])]))
  {
    hide Shift6, Value, Acceptable;
    if s != [] && 0 < Width(s[0]) <= |s| {
      var e := s[..Width(s[0])];
      assert s[1..Width(s[0])] == e[1..];
      assert forall k :: 0 <= k < |e| ==> e[k] == s[k];
      if WellShaped(e) {
        ShiftedValue(e);
      }
    }
  }

  /** A well-shaped sequence with an acceptable value is the encoding of that value. */
  lemma ShapeIsEncoding(e: Bytes)
    requires WellShaped(e) && Acceptable(|e|, Value(e))
    ensures IsScalar(Value(e)) && Encode(Value(e)) == e
  {
    hide Width;
    WidthRange(e[0]);
    var v := Value(e);
    var a: int := e[0];
    if |e| >= 2 {
      var b: int := e[1];
      assert IsContinuation(e[1]);
      if |e| >= 3 {
        var c: int := e[2];
        assert IsContinuation(e[2]);
        if |e| == 3 {
          assert v / 64 == (a - 0xe0) * 64 + (b - 0x80);
        } else {
          assert IsContinuation(e[3]);
          assert v / 64 == (a - 0xf0) * 4096 + (b - 0x80) * 64 + (c - 0x80);
          assert v / 4096 == (a - 0xf0) * 64 + (b - 0x80);
        }
      }
    }
  }

  lemma EncodingShape(c: int)
    requires IsScalar(c)
    ensures WellShaped(Encode(c)) && Value(Encode(c)) == c && Acceptable(|Encode(c)|, c)
  {
    var e := Encode(c);
    if c >= 0x10000 {
      assert c / 262144 <= 4;
      assert c / 4096 == c / 262144 * 64 + c / 4096 % 64;
      assert c / 64 == c / 4096 * 64 + c / 64 % 64;
    } else if c >= 0x800 {
      assert c / 64 == c / 4096 * 64 + c / 64 % 64;
    }
    assert c == c / 64 * 64 + c % 64;
  }

  /** What the decoder accepts is the encoding of the scalar value it returns ... */
  lemma FirstIsEncoding(s: Bytes)
    requires First(s).Some?
    ensures var (w, c) := First(s).value; 0 < w <= |s| && IsScalar(c) && s[..w] == Encode(c)
  {
    hide First, Encode, Value, Width;
    FirstByShape(s);
    ShapeIsEncoding(s[..Width(s[0])]);
  }

  /** ... and every encoding is accepted, whatever follows it. */
  lemma EncodingIsFirst(c: int, rest: Bytes)
    requires IsScalar(c)
    ensures First(Encode(c) + rest) == Some((|Encode(c)|, c))
  {
    hide First, Encode, Value, Width;
    EncodingShape(c);
    FirstByShape(Encode(c) + rest);
    assert (Encode(c) + rest)[..|Encode(c)|] == Encode(c);
  }

  // ---------- validity ----------

  /** Well-formed to the end, character by character. */
  predicate Valid(s: Bytes) {
    s == [] || (First(s).Some? && 0 < First(s).value.0 <= |s| && Valid(s[First(s).value.0..]))
  }

  lemma FirstWidth(s: Bytes)
    requires First(s).Some?
    ensures 0 < First(s).value.0 <= |s|
  {
  }

  /** Being well-formed character by character is being the encoding of some sequence of scalar values. */
  lemma {:induction false} ValidIsUtf8(s: Bytes)
    ensures Valid(s) <==> IsUtf8(s)
  {
    if Valid(s) {
      var cs := Decoded(s);
    }
    if IsUtf8(s) {
      var cs :| AllScalars(cs) && EncodeAll(cs) == s;
      EncodedIsValid(cs);
    }
  }

  lemma {:induction false} Decoded(s: Bytes) returns (cs: seq<int>)
    requires Valid(s)
    ensures AllScalars(cs) && EncodeAll(cs) == s
    decreases |s|
  {
    hide First, Encode;
    if s == [] {
      cs := [];
    } else {
      FirstIsEncoding(s);
      var (w, c) := First(s).value;
      var rest := Decoded(s[w..]);
      cs := [c] + rest;
      assert cs[1..] == rest;
      assert s == s[..w] + s[w..];
    }
  }

  lemma {:induction false} EncodedIsValid(cs: seq<int>)
    requires AllScalars(cs)
    ensures Valid(EncodeAll(cs))
  {
    hide First, Encode;
    if cs != [] {
      EncodedIsValid(cs[1..]);
      var e, rest := Encode(cs[0]), EncodeAll(cs[1..]);
      EncodingIsFirst(cs[0], rest);
      EncodingShape(cs[0]);
      assert (e + rest)[|e|..] == rest;
    }
  }

  /** What decides the first character is the character itself. */
  lemma FirstLocal(s: Bytes, t: Bytes)
    requires First(s).Some?
    ensures First(s[..First(s).value.0] + t) == First(s)
  {
    hide First, Encode;
    FirstIsEncoding(s);
    EncodingIsFirst(First(s).value.1, t);
  }

  lemma FirstAccepted(s: Bytes, w: nat, c: nat)
    requires s != [] && Width(s[0]) == w && 0 < w <= |s| && c == Shift6(LeadBits(s[0]), s[1..w]) && Acceptable(w, c)
    requires forall k :: 1 <= k < w ==> IsContinuation(s[k])
    ensures First(s) == Some((w, c))
  {
  }

  lemma FirstRejected(s: Bytes)
    requires s != []
    requires || Width(s[0]) == 0 || Width(s[0]) > |s| || (exists k :: 1 <= k < Width(s[0]) && !IsContinuation(s[k]))
             || !Acceptable(Width(s[0]), Shift6(LeadBits(s[0]), s[1..Width(s[0])]))
    ensures First(s).None?
  {
  }

  /** pv_utf8_valid: accepts exactly the encodings of sequences of scalar values. */
  method Utf8Valid(data: Bytes) returns (ok: bool)
    ensures ok <==> IsUtf8(data)
  {
    ValidIsUtf8(data);
    hide IsUtf8, First, Shift6;
    var i := 0;
    while i < |data|
      invariant 0 <= i <= |data|
      invariant Valid(data) == Valid(data[i..])
    {
      ghost var s, at := data[i..], i;
      var first := data[i];
      i := i + 1;
      if first <= 0x7f {
        Shift6None(LeadBits(first), s, 1);
        FirstAccepted(s, 1, first);
        assert s[1..] == data[i..];
        continue;
      }
      var codepoint: nat, continuation: nat;
      if 0xc2 <= first <= 0xdf {
        codepoint, continuation := first % 32, 1;
      } else if 0xe0 <= first <= 0xef {
        codepoint, continuation := first % 16, 2;
      } else if 0xf0 <= first <= 0xf4 {
        codepoint, continuation := first % 8, 3;
      } else {
        FirstRejected(s);
        return false;
      }
      if continuation > |data| - i {
        FirstRejected(s);
        return false;
      }
      Shift6None(LeadBits(first), data, i);
      var j := 0;
      while j < continuation
        invariant 0 <= j <= continuation && i == at + 1 + j && at + 1 + continuation <= |data|
        invariant forall k :: at < k < i ==> IsContinuation(data[k])
        invariant codepoint == Shift6(LeadBits(first), data[at + 1..i])
      {
        var next := data[i];
        i := i + 1;
        if !IsContinuation(next) {
          assert !IsContinuation(s[i - 1 - at]);
          FirstRejected(s);
          return false;
        }
        Shift6Step(LeadBits(first), data, at + 1, i - 1);
        codepoint := codepoint * 64 + next % 64;
        j := j + 1;
      }
      assert s[1..1 + continuation] == data[at + 1..i];
      assert forall k :: 1 <= k < 1 + continuation ==> s[k] == data[at + k];
      if (continuation == 2 && codepoint < 0x800) || (continuation == 3 && codepoint < 0x10000)
         || codepoint > 0x10ffff || 0xd800 <= codepoint <= 0xdfff {
        FirstRejected(s);
        return false;
      }
      FirstAccepted(s, 1 + continuation, codepoint);
      assert s[1 + continuation..] == data[i..];
    }
    assert data[i..] == [];
    return true;
  }

  /** decode_codepoint: the first character's width and value, or width 0. */
  method DecodeCodepoint(data: Bytes) returns (width: nat, codepoint: int)
    ensures width == 0 <==> First(data).None?
    ensures width != 0 ==> First(data) == Some((width, codepoint))
  {
    if |data| == 0 {
      return 0, 0;
    }
    if data[0] <= 0x7f {
      assert data[1..1] == [];
      return 1, data[0];
    }
    var value: nat;
    if 0xc2 <= data[0] <= 0xdf {
      value, width := data[0] % 32, 2;
    } else if 0xe0 <= data[0] <= 0xef {
      value, width := data[0] % 16, 3;
    } else if 0xf0 <= data[0] <= 0xf4 {
      value, width := data[0] % 8, 4;
    } else {
      return 0, 0;
    }
    if width > |data| {
      return 0, 0;
    }
    Shift6None(LeadBits(data[0]), data, 1);
    hide Shift6;
    var i := 1;
    while i < width
      invariant 1 <= i <= width
      invariant forall k :: 1 <= k < i ==> IsContinuation(data[k])
      invariant value == Shift6(LeadBits(data[0]), data[1..i])
    {
      if !IsContinuation(data[i]) {
        return 0, 0;
      }
      Shift6Step(LeadBits(data[0]), data, 1, i);
      value := value * 64 + data[i] % 64;
      i := i + 1;
    }
    if (width == 3 && value < 0x800) || (width == 4 && value < 0x10000) || value > 0x10ffff || 0xd800 <= value <= 0xdfff {
      return 0, 0;
    }
    return width, value;
  }

  /** The characters of the examples in section 7 of RFC 3629. */
  lemma StandardExamples()
    ensures Encode(0x41) == [0x41] && Encode(0x391) == [0xce, 0x91] && Encode(0x2262) == [0xe2, 0x89, 0xa2]
    ensures Encode(0xd55c) == [0xed, 0x95, 0x9c] && Encode(0x65e5) == [0xe6, 0x97, 0xa5] && Encode(0x233b4) == [0xf0, 0xa3, 0x8e, 0xb4]
  {
  }
}

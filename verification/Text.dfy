/** Displaying untrusted text: the sanitizer and the printer that batches runs of safe characters. */
module Text {
  import opened Prelude
  import opened Utf8
  import opened Buffers

  const Question: byte := 63

  /** display_codepoint_unsafe: controls, bidirectional and invisible formatting characters. */
  predicate Unsafe(c: int) {
    || c <= 0x1f || 0x7f <= c <= 0x9f || c == 0x061c || 0x200b <= c <= 0x200f
    || 0x2028 <= c <= 0x202e || 0x2060 <= c <= 0x2069 || c == 0xfeff
  }

  /** The text starts with a well-formed character that may be shown. */
  predicate StartsSafe(s: Bytes) {
    First(s).Some? && !Unsafe(First(s).value.1)
  }

  /** How far one step over the first character, or over one bad byte, goes. */
  function StepWidth(s: Bytes): (w: nat)
    requires s != []
    ensures 0 < w <= |s|
  {
    if First(s).Some? then FirstWidth(s); First(s).value.0 else 1
  }

  /** What one step is shown as. */
  function Piece(s: Bytes): Bytes
    requires s != []
  {
    if StartsSafe(s) then s[..StepWidth(s)] else [Question]
  }

  /** Each unsafe character and each byte that is no character becomes a question mark. */
  function Sanitize(s: Bytes): Bytes {
    if s == [] then [] else Piece(s) + Sanitize(s[StepWidth(s)..])
  }

  /** Well-formed text in which every character may be shown. */
  predicate Safe(s: Bytes) {
    s == [] || (StartsSafe(s) && Safe(s[StepWidth(s)..]))
  }

  /** Safe text is the encoding of scalar values none of which is unsafe. */
  lemma {:induction false} SafeIsUtf8(s: Bytes) returns (cs: seq<int>)
    requires Safe(s)
    ensures AllScalars(cs) && EncodeAll(cs) == s && forall k :: 0 <= k < |cs| ==> !Unsafe(cs[k])
    ensures IsUtf8(s)
    decreases |s|
  {
    hide First, Encode, Unsafe;
    if s == [] {
      cs := [];
    } else {
      FirstIsEncoding(s);
      var (w, c) := First(s).value;
      var rest := SafeIsUtf8(s[w..]);
      cs := [c] + rest;
      assert cs[1..] == rest;
      assert s == s[..w] + s[w..];
    }
  }

  lemma SafePrepend(s: Bytes, t: Bytes)
    requires s != [] && StartsSafe(s) && Safe(t)
    ensures Safe(s[..StepWidth(s)] + t)
  {
    hide First, Unsafe;
    FirstLocal(s, t);
    FirstWidth(s);
    var u := s[..StepWidth(s)] + t;
    assert u[StepWidth(s)..] == t;
  }

  lemma QuestionSafe(t: Bytes)
    requires Safe(t)
    ensures Safe([Question] + t)
  {
    var u := [Question] + t;
    assert u[1..1] == [];
    FirstAccepted(u, 1, Question);
    assert u[1..] == t;
  }

  /** For any bytes at all, the sanitizer's output is safe and no longer than its input. */
  lemma {:induction false} SanitizeSafe(s: Bytes)
    ensures Safe(Sanitize(s)) && |Sanitize(s)| <= |s|
    decreases |s|
  {
    hide First, Unsafe;
    if s != [] {
      var rest := s[StepWidth(s)..];
      SanitizeSafe(rest);
      if StartsSafe(s) {
        SafePrepend(s, Sanitize(rest));
      } else {
        QuestionSafe(Sanitize(rest));
      }
    }
  }

  /** Safe text passes unchanged; so sanitizing twice is sanitizing once. */
  lemma {:induction false} SafeUnchanged(s: Bytes)
    requires Safe(s)
    ensures Sanitize(s) == s
    decreases |s|
  {
    hide First, Unsafe;
    if s != [] {
      SafeUnchanged(s[StepWidth(s)..]);
      assert s == s[..StepWidth(s)] + s[StepWidth(s)..];
    }
  }

  lemma SanitizeIdempotent(s: Bytes)
    ensures Sanitize(Sanitize(s)) == Sanitize(s)
  {
    SanitizeSafe(s);
    SafeUnchanged(Sanitize(s));
  }

  /** The step a loop takes at position `i`, having shown `done` so far. */
  lemma SanitizeStep(data: Bytes, done: Bytes, i: nat, width: nat)
    requires i < |data| && done + Sanitize(data[i..]) == Sanitize(data) && width == StepWidth(data[i..])
    ensures (done + Piece(data[i..])) + Sanitize(data[i + width..]) == Sanitize(data)
  {
    hide First, StepWidth, Piece;
    assert data[i..][width..] == data[i + width..];
  }

  /** The sanitizer's state: `done` is in the buffer, and the buffer from `i` on is as it was. */
  ghost predicate Sanitizing(data: Bytes, buffer: Bytes, length: nat, i: nat, before: Bytes) {
    && length <= i <= |data| <= |buffer| == |before|
    && buffer[..length] + Sanitize(data[i..]) == Sanitize(data)
    && buffer[i..] == before[i..]
  }

  lemma SanitizingRoom(data: Bytes, buffer: Bytes, length: nat, i: nat, before: Bytes)
    requires Sanitizing(data, buffer, length, i, before)
    ensures i <= |data|
    ensures i < |data| ==> length + |Piece(data[i..])| <= |buffer|
  {
  }

  lemma SanitizingStep(data: Bytes, buffer: Bytes, length: nat, i: nat, before: Bytes, after: Bytes)
    requires Sanitizing(data, buffer, length, i, before) && i < |data|
    requires length + |Piece(data[i..])| <= |buffer| && after == Splice(buffer, length, Piece(data[i..]))
    ensures Sanitizing(data, after, length + |Piece(data[i..])|, i + StepWidth(data[i..]), before)
  {
    hide Sanitize, First, Unsafe;
    var p, w := Piece(data[i..]), StepWidth(data[i..]);
    SanitizeStep(data, buffer[..length], i, w);
    SpliceParts(buffer, length, p);
    assert |p| <= w;
    assert after[..length + |p|] == buffer[..length] + p;
    forall k | i + w <= k < |after|
      ensures after[k] == before[k]
    {
      assert after[k] == after[length + |p|..][k - length - |p|];
      assert buffer[k] == buffer[i..][k - i] && before[k] == before[i..][k - i];
    }
    assert after[i + w..] == before[i + w..];
  }

  /** pv_text_sanitize, into the caller's buffer; refused when the buffer is shorter than the text. */
  method SanitizeInto(data: Bytes, output: array<byte>) returns (ok: bool, length: nat)
    modifies output
    ensures ok <==> |data| <= output.Length
    ensures ok ==> length <= |data| && output[..length] == Sanitize(data) && output[|data|..] == old(output[|data|..])
    ensures !ok ==> output[..] == old(output[..])
  {
    hide Sanitize, Sanitizing, Piece, StepWidth, Splice;
    if output.Length < |data| {
      return false, 0;
    }
    ghost var before := output[..];
    var i := 0;
    length := 0;
    SanitizingStart(data, before);
    while i < |data|
      invariant Sanitizing(data, output[..], length, i, before) && i <= |data|
      decreases |data| - i
    {
      ghost var was := output[..];
      SanitizingRoom(data, was, length, i, before);
      var width, added := SanitizeOne(data[i..], output, length);
      SanitizingStep(data, was, length, i, before, output[..]);
      SanitizingRoom(data, output[..], length + added, i + width, before);
      length := length + added;
      i := i + width;
    }
    SanitizingDone(data, output[..], length, before);
    return true, length;
  }

  /** One turn of the loop: a character that may be shown is copied, anything else becomes a question mark. */
  method SanitizeOne(data: Bytes, output: array<byte>, at: nat) returns (width: nat, added: nat)
    requires data != [] && at + |Piece(data)| <= output.Length
    modifies output
    ensures width == StepWidth(data) > 0 && added == |Piece(data)|
    ensures output[..] == Splice(old(output[..]), at, Piece(data))
  {
    hide First, Unsafe, Splice;
    var codepoint;
    width, codepoint := DecodeCodepoint(data);
    if width == 0 || Unsafe(codepoint) {
      CopyInto(output, at, [Question]);
      return if width == 0 then 1 else width, 1;
    }
    CopyInto(output, at, data[..width]);
    return width, width;
  }

  lemma SanitizingStart(data: Bytes, before: Bytes)
    requires |data| <= |before|
    ensures Sanitizing(data, before, 0, 0, before)
  {
    hide Sanitize;
    assert data[0..] == data;
  }

  lemma SanitizingDone(data: Bytes, buffer: Bytes, length: nat, before: Bytes)
    requires Sanitizing(data, buffer, length, |data|, before)
    ensures length <= |data| <= |buffer| == |before|
    ensures buffer[..length] == Sanitize(data) && buffer[|data|..] == before[|data|..]
  {
    assert data[|data|..] == [];
    assert Sanitize([]) == [];
    assert buffer[..length] + [] == buffer[..length];
  }

  /** The printer's state: what was emitted, and the run of safe text from `start` not yet emitted. */
  ghost predicate Printing(data: Bytes, emitted: Bytes, start: nat, position: nat)
    requires start <= position <= |data|
  {
    (emitted + data[start..position]) + Sanitize(data[position..]) == Sanitize(data)
  }

  lemma Flushed(data: Bytes, emitted: Bytes, start: nat, position: nat)
    requires start <= position < |data| && Printing(data, emitted, start, position) && !StartsSafe(data[position..])
    ensures var next := position + StepWidth(data[position..]);
      Printing(data, (if position > start then emitted + data[start..position] else emitted) + [Question], next, next)
  {
    hide Sanitize, First, StepWidth, Unsafe;
    var next := position + StepWidth(data[position..]);
    var done := emitted + data[start..position];
    SanitizeStep(data, done, position, StepWidth(data[position..]));
    assert position == start ==> done == emitted;
    assert (done + [Question]) + data[next..next] == done + [Question];
  }

  lemma Extended(data: Bytes, emitted: Bytes, start: nat, position: nat)
    requires start <= position < |data| && Printing(data, emitted, start, position) && StartsSafe(data[position..])
    ensures Printing(data, emitted, start, position + StepWidth(data[position..]))
  {
    hide Sanitize, First, Unsafe;
    var w := StepWidth(data[position..]);
    SanitizeStep(data, emitted + data[start..position], position, w);
    assert emitted + data[start..position + w] == (emitted + data[start..position]) + data[position..][..w];
  }

  lemma Printed(data: Bytes, emitted: Bytes, start: nat)
    requires start <= |data| && Printing(data, emitted, start, |data|)
    ensures (if |data| > start then emitted + data[start..|data|] else emitted) == Sanitize(data)
  {
    assert data[|data|..] == [];
    assert start == |data| ==> emitted + data[start..|data|] == emitted;
  }

  /** pv_text_fprint: emits runs of safe characters in one write, and is the same text. */
  method Print(data: Bytes) returns (emitted: Bytes)
    ensures emitted == Sanitize(data)
  {
    hide First, Unsafe, Sanitize, Printing, StepWidth;
    emitted := [];
    var position, start := 0, 0;
    PrintingStart(data);
    while position < |data|
      invariant 0 <= start <= position <= |data| && Printing(data, emitted, start, position)
    {
      var width, safe := Measure(data[position..]);
      if !safe {
        Flushed(data, emitted, start, position);
        if position > start {
          emitted := emitted + data[start..position];
        }
        emitted := emitted + [Question];
        position := position + width;
        start := position;
      } else {
        Extended(data, emitted, start, position);
        position := position + width;
      }
    }
    Printed(data, emitted, start);
    if position > start {
      emitted := emitted + data[start..position];
    }
  }

  /** How far the next step goes, and whether it may be shown as it is. */
  method Measure(data: Bytes) returns (width: nat, safe: bool)
    requires data != []
    ensures width == StepWidth(data) && safe == StartsSafe(data)
  {
    hide First, Unsafe;
    var codepoint;
    width, codepoint := DecodeCodepoint(data);
    if width == 0 {
      return 1, false;
    }
    safe := !Unsafe(codepoint);
  }

  lemma PrintingStart(data: Bytes)
    ensures Printing(data, [], 0, 0)
  {
    assert data[0..] == data;
    assert ([] + data[0..0]) + Sanitize(data) == Sanitize(data);
  }

  // ---------- what sanitizing does to characters ----------

  predicate IsControl(c: int) {
    0 <= c < 32 || 127 <= c < 160
  }

  /** Marks, embeddings, overrides and isolates that reorder what follows. */
  predicate IsBidirectional(c: int) {
    c == 0x061c || c == 0x200e || c == 0x200f || 0x202a <= c <= 0x202e || 0x2066 <= c <= 0x2069
  }

  predicate IsLineBreak(c: int) {
    c == 0x2028 || c == 0x2029
  }

  /** Zero-width and invisible characters. */
  predicate IsInvisible(c: int) {
    c == 0x200b || c == 0x200c || c == 0x200d || 0x2060 <= c <= 0x2065 || c == 0xfeff
  }

  /** Exactly control, bidirectional, line-breaking and invisible characters are not shown. */
  lemma UnsafeClasses(c: int)
    requires IsScalar(c)
    ensures Unsafe(c) <==> IsControl(c) || IsBidirectional(c) || IsLineBreak(c) || IsInvisible(c)
  {
  }

  /** The characters with a question mark for each that is not shown. */
  function Masked(cs: seq<int>): seq<int> {
    seq(|cs|, k requires 0 <= k < |cs| => if Unsafe(cs[k]) then 0x3f else cs[k])
  }

  /** Of well-formed text exactly the characters that are not shown change, each into one question mark. */
  lemma {:induction false} SanitizeMasks(cs: seq<int>)
    requires AllScalars(cs)
    ensures AllScalars(Masked(cs)) && Sanitize(EncodeAll(cs)) == EncodeAll(Masked(cs))
  {
    hide First, Encode, Unsafe;
    if cs != [] {
      var rest := EncodeAll(cs[1..]);
      SanitizeMasks(cs[1..]);
      EncodingIsFirst(cs[0], rest);
      var s := Encode(cs[0]) + rest;
      FirstWidth(s);
      assert s[..|Encode(cs[0])|] == Encode(cs[0]) && s[|Encode(cs[0])|..] == rest;
      assert Masked(cs)[1..] == Masked(cs[1..]);
      QuestionEncoded();
    }
  }

  lemma QuestionEncoded()
    ensures Encode(0x3f) == [Question]
  {
  }

  /** A byte that starts no character becomes a question mark by itself. */
  lemma SanitizeBad(s: Bytes)
    requires s != [] && First(s).None?
    ensures Sanitize(s) == [63] + Sanitize(s[1..])
  {
    hide First;
  }
}

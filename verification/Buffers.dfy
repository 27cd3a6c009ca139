/** Copying bytes to an offset of a buffer. */
module Buffers {
  import opened Prelude

  /** `s` with `part` written over it at offset `at`. */
  function Splice(s: Bytes, at: nat, part: Bytes): (r: Bytes)
    requires at + |part| <= |s|
    ensures |r| == |s|
  {
    s[..at] + part + s[at + |part|..]
  }

  lemma SpliceParts(s: Bytes, at: nat, part: Bytes)
    requires at + |part| <= |s|
    ensures var r := Splice(s, at, part);
      r[..at] == s[..at] && r[at..at + |part|] == part && r[at + |part|..] == s[at + |part|..]
  {
  }

  /** memcpy of `part` to offset `at`. */
  method CopyInto(dst: array<byte>, at: nat, part: Bytes)
    requires at + |part| <= dst.Length
    modifies dst
    ensures dst[..] == Splice(old(dst[..]), at, part)
  {
    for k := 0 to |part|
      invariant dst[..] == Splice(old(dst[..]), at, part[..k])
    {
      dst[at + k] := part[k];
      assert part[..k + 1] == part[..k] + [part[k]];
    }
    assert part[..|part|] == part;
  }
}

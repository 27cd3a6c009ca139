/** The 252-byte file header (src/crypto.c): its layout, the strict decoder, and that they are inverse. */
module Headers {
  import opened Prelude
  import opened Buffers

  const TagLength: nat := 16
  const KeyLength: nat := 32
  const NonceLength: nat := 24
  const SaltLength: nat := 16
  const WrappedLength: nat := 48
  const VaultIdLength: nat := 16
  const Block: nat := 4096
  const MaxBody: nat := MaxPlaintext + TagLength
  const MinOps: nat := 3
  const MaxOps: nat := 10
  const MinMemory: nat := 268435456
  const MaxMemory: nat := 1073741824

  /** `PVLT`, carriage return, line feed, 0x1a, line feed. */
  const Magic: Bytes := [80, 86, 76, 84, 13, 10, 26, 10]

  datatype PasswordSlot = PasswordSlot(opslimit: nat, memlimit: nat, salt: Bytes, nonce: Bytes, wrapped: Bytes)
  datatype RecoverySlot = RecoverySlot(nonce: Bytes, wrapped: Bytes)

  datatype Header = Header(
    magic: Bytes, major: nat, minor: nat, headerLength: nat, flags: nat, vaultId: Bytes,
    kdf: nat, wrapAead: nat, bodyAead: nat, slots: nat,
    password: PasswordSlot, recovery: RecoverySlot, bodyNonce: Bytes, bodyLength: nat)

  // ---------- little-endian numbers ----------

  /** put_u16_le, put_u32_le and put_u64_le: `v` in `n` bytes, least significant first. */
  function Little(v: nat, n: nat): (s: Bytes)
    ensures |s| == n
  {
    if n == 0 then [] else [v % 256] + Little(v / 256, n - 1)
  }

  /** get_u16_le, get_u32_le and get_u64_le. */
  function FromLittle(s: Bytes): nat {
    if s == [] then 0 else s[0] + 256 * FromLittle(s[1..])
  }

  lemma {:induction false} FromLittleOf(v: nat, n: nat)
    requires v < Pow(n)
    ensures FromLittle(Little(v, n)) == v
  {
    if n > 0 {
      FromLittleOf(v / 256, n - 1);
      assert Little(v, n)[1..] == Little(v / 256, n - 1);
    }
  }

  lemma {:induction false} LittleOf(s: Bytes)
    ensures Little(FromLittle(s), |s|) == s && FromLittle(s) < Pow(|s|)
  {
    if s != [] {
      LittleOf(s[1..]);
      var first: int := s[0];
      assert FromLittle(s) % 256 == first && FromLittle(s) / 256 == FromLittle(s[1..]);
      assert s == [s[0]] + s[1..];
    }
  }

  // ---------- the layout ----------

  /** The widths of the C structure. */
  predicate Sized(h: Header) {
    && |h.magic| == 8 && h.major < 0x1_0000 && h.minor < 0x1_0000
    && h.headerLength < 0x1_0000_0000 && h.flags < 0x1_0000_0000 && |h.vaultId| == VaultIdLength
    && h.kdf < 0x1_0000 && h.wrapAead < 0x1_0000 && h.bodyAead < 0x1_0000 && h.slots < 0x1_0000
    && h.password.opslimit < 0x1_0000_0000_0000_0000 && h.password.memlimit < 0x1_0000_0000_0000_0000
    && |h.password.salt| == SaltLength && |h.password.nonce| == NonceLength && |h.password.wrapped| == WrappedLength
    && |h.recovery.nonce| == NonceLength && |h.recovery.wrapped| == WrappedLength
    && |h.bodyNonce| == NonceLength && h.bodyLength < 0x1_0000_0000_0000_0000
  }

  /** Bytes 0 to 43: what both key slots authenticate. */
  function CommonBytes(h: Header): (s: Bytes)
    requires Sized(h)
    ensures |s| == 44
  {
    h.magic + Little(h.major, 2) + Little(h.minor, 2) + Little(h.headerLength, 4) + Little(h.flags, 4) + h.vaultId
    + Little(h.kdf, 2) + Little(h.wrapAead, 2) + Little(h.bodyAead, 2) + Little(h.slots, 2)
  }

  /** Bytes 44 to 75: the password slot's derivation parameters. */
  function CostBytes(p: PasswordSlot): (s: Bytes)
    requires |p.salt| == SaltLength
    ensures |s| == 32
  {
    Little(p.opslimit, 8) + Little(p.memlimit, 8) + p.salt
  }

  /** Bytes 76 to 251: the wrapped keys and the body's nonce and length. */
  function SecretBytes(h: Header): (s: Bytes)
    requires Sized(h)
    ensures |s| == 176
  {
    h.password.nonce + h.password.wrapped + h.recovery.nonce + h.recovery.wrapped + h.bodyNonce + Little(h.bodyLength, 8)
  }

  function HeaderBytes(h: Header): (s: Bytes)
    requires Sized(h)
    ensures |s| == HeaderLength
  {
    CommonBytes(h) + CostBytes(h.password) + SecretBytes(h)
  }

  /** The fields at their offsets. */
  function FieldsOf(s: Bytes): (h: Header)
    requires |s| == HeaderLength
  {
    Header(s[0..8], FromLittle(s[8..10]), FromLittle(s[10..12]), FromLittle(s[12..16]), FromLittle(s[16..20]), s[20..36],
      FromLittle(s[36..38]), FromLittle(s[38..40]), FromLittle(s[40..42]), FromLittle(s[42..44]),
      PasswordSlot(FromLittle(s[44..52]), FromLittle(s[52..60]), s[60..76], s[76..100], s[100..148]),
      RecoverySlot(s[148..172], s[172..220]), s[220..244], FromLittle(s[244..252]))
  }

  /** What the strict decoder insists on besides magic and version. */
  predicate Acceptable(h: Header) {
    && !IsZero(h.vaultId) && h.headerLength == HeaderLength && h.flags == 0
    && h.kdf == 1 && h.wrapAead == 1 && h.bodyAead == 1 && h.slots == 2
    && MinOps <= h.password.opslimit <= MaxOps && MinMemory <= h.password.memlimit <= MaxMemory
    && Block + TagLength <= h.bodyLength <= MaxBody && (h.bodyLength - TagLength) % Block == 0
  }

  /** pv_header_decode. */
  function DecodeHeader(s: Bytes): Result<Header>
    requires |s| == HeaderLength
  {
    var h := FieldsOf(s);
    if h.magic != Magic then Err(FormatError)
    else if h.major != 1 || h.minor != 0 then Err(Unsupported)
    else if !Acceptable(h) then Err(FormatError)
    else Ok(h)
  }

  /** A header of version 1.0 that can be decoded. */
  predicate Strict(h: Header) {
    Sized(h) && h.magic == Magic && h.major == 1 && h.minor == 0 && Acceptable(h)
  }

  // ---------- inverse ----------

  lemma CommonFields(h: Header)
    requires Sized(h)
    ensures var s := CommonBytes(h);
      && s[0..8] == h.magic && s[8..10] == Little(h.major, 2) && s[10..12] == Little(h.minor, 2)
      && s[12..16] == Little(h.headerLength, 4) && s[16..20] == Little(h.flags, 4) && s[20..36] == h.vaultId
      && s[36..38] == Little(h.kdf, 2) && s[38..40] == Little(h.wrapAead, 2) && s[40..42] == Little(h.bodyAead, 2)
      && s[42..44] == Little(h.slots, 2)
  {
    hide Little;
  }

  lemma CostFields(p: PasswordSlot)
    requires |p.salt| == SaltLength
    ensures var s := CostBytes(p);
      s[0..8] == Little(p.opslimit, 8) && s[8..16] == Little(p.memlimit, 8) && s[16..32] == p.salt
  {
    hide Little;
  }

  lemma SecretFields(h: Header)
    requires Sized(h)
    ensures var s := SecretBytes(h);
      && s[0..24] == h.password.nonce && s[24..72] == h.password.wrapped && s[72..96] == h.recovery.nonce
      && s[96..144] == h.recovery.wrapped && s[144..168] == h.bodyNonce && s[168..176] == Little(h.bodyLength, 8)
  {
    hide Little;
  }

  lemma SliceOfSlice(s: Bytes, a: nat, b: nat, i: nat, j: nat)
    requires a <= b <= |s| && i <= j <= b - a
    ensures s[a..b][i..j] == s[a + i..a + j]
  {
    var x, y := s[a..b][i..j], s[a + i..a + j];
    assert |x| == |y|;
    assert forall k :: 0 <= k < |x| ==> x[k] == y[k];
  }

  lemma HeaderParts(h: Header)
    requires Sized(h)
    ensures var s := HeaderBytes(h);
      s[0..44] == CommonBytes(h) && s[44..76] == CostBytes(h.password) && s[76..252] == SecretBytes(h)
    ensures HeaderBytes(h)[..44] == CommonBytes(h) && HeaderBytes(h)[..76] == CommonBytes(h) + CostBytes(h.password)
  {
    hide CommonBytes, CostBytes, SecretBytes;
  }

  lemma NumberBack(v: nat, n: nat)
    requires (n == 2 && v < 0x1_0000) || (n == 4 && v < 0x1_0000_0000) || (n == 8 && v < 0x1_0000_0000_0000_0000)
    ensures FromLittle(Little(v, n)) == v
  {
    PowValues();
    FromLittleOf(v, n);
  }

  /** Reading back what was written, whatever the fields are. */
  lemma FieldsOfBytes(h: Header)
    requires Sized(h)
    ensures FieldsOf(HeaderBytes(h)) == h
  {
    var s := HeaderBytes(h);
    HeaderParts(h);
    CommonFields(h);
    CostFields(h.password);
    SecretFields(h);
    hide HeaderBytes, CommonBytes, CostBytes, SecretBytes, Little, FromLittle;
    CommonSlices(s);
    NumberBack(h.major, 2);
    NumberBack(h.minor, 2);
    NumberBack(h.headerLength, 4);
    NumberBack(h.flags, 4);
    NumberBack(h.kdf, 2);
    NumberBack(h.wrapAead, 2);
    NumberBack(h.bodyAead, 2);
    NumberBack(h.slots, 2);
    NumberBack(h.password.opslimit, 8);
    NumberBack(h.password.memlimit, 8);
    NumberBack(h.bodyLength, 8);
  }

  /** Offsets within the three parts are offsets within the header. */
  lemma CommonSlices(s: Bytes)
    requires |s| == HeaderLength
    ensures var c := s[0..44];
      && c[0..8] == s[0..8] && c[8..10] == s[8..10] && c[10..12] == s[10..12] && c[12..16] == s[12..16] && c[16..20] == s[16..20]
      && c[20..36] == s[20..36] && c[36..38] == s[36..38] && c[38..40] == s[38..40] && c[40..42] == s[40..42] && c[42..44] == s[42..44]
    ensures var k := s[44..76];
      k[0..8] == s[44..52] && k[8..16] == s[52..60] && k[16..32] == s[60..76]
    ensures var x := s[76..252];
      && x[0..24] == s[76..100] && x[24..72] == s[100..148] && x[72..96] == s[148..172]
      && x[96..144] == s[172..220] && x[144..168] == s[220..244] && x[168..176] == s[244..252]
  {
    SliceOfSlice(s, 44, 76, 0, 8);
    SliceOfSlice(s, 44, 76, 8, 16);
    SliceOfSlice(s, 44, 76, 16, 32);
    SliceOfSlice(s, 76, 252, 0, 24);
    SliceOfSlice(s, 76, 252, 24, 72);
    SliceOfSlice(s, 76, 252, 72, 96);
    SliceOfSlice(s, 76, 252, 96, 144);
    SliceOfSlice(s, 76, 252, 144, 168);
    SliceOfSlice(s, 76, 252, 168, 176);
  }

  lemma NumberForth(s: Bytes)
    ensures |s| == 2 ==> FromLittle(s) < 0x1_0000
    ensures |s| == 4 ==> FromLittle(s) < 0x1_0000_0000
    ensures |s| == 8 ==> FromLittle(s) < 0x1_0000_0000_0000_0000
    ensures Little(FromLittle(s), |s|) == s
  {
    PowValues();
    LittleOf(s);
  }

  /** Writing what was read gives the bytes back, whatever they are. */
  lemma BytesOfFields(s: Bytes)
    requires |s| == HeaderLength
    ensures Sized(FieldsOf(s)) && HeaderBytes(FieldsOf(s)) == s
  {
    hide Little, FromLittle;
    NumberForth(s[8..10]);
    NumberForth(s[10..12]);
    NumberForth(s[12..16]);
    NumberForth(s[16..20]);
    NumberForth(s[36..38]);
    NumberForth(s[38..40]);
    NumberForth(s[40..42]);
    NumberForth(s[42..44]);
    NumberForth(s[44..52]);
    NumberForth(s[52..60]);
    NumberForth(s[244..252]);
    var h := FieldsOf(s);
    assert CommonBytes(h) == s[0..44] by {
      CommonJoin(s);
    }
    assert CostBytes(h.password) == s[44..76] by {
      CostJoin(s);
    }
    assert SecretBytes(h) == s[76..252] by {
      SecretJoin(s);
    }
    hide CommonBytes, CostBytes, SecretBytes;
    assert s == s[0..44] + s[44..76] + s[76..252];
  }

  lemma CommonJoin(s: Bytes)
    requires |s| == HeaderLength
    ensures s[0..8] + s[8..10] + s[10..12] + s[12..16] + s[16..20] + s[20..36] + s[36..38] + s[38..40] + s[40..42] + s[42..44] == s[0..44]
  {
  }

  lemma CostJoin(s: Bytes)
    requires |s| == HeaderLength
    ensures s[44..52] + s[52..60] + s[60..76] == s[44..76]
  {
  }

  lemma SecretJoin(s: Bytes)
    requires |s| == HeaderLength
    ensures s[76..100] + s[100..148] + s[148..172] + s[172..220] + s[220..244] + s[244..252] == s[76..252]
  {
  }

  /** The strict decoder accepts exactly the encodings of strict headers. */
  lemma DecodeHeaderExactly(s: Bytes, h: Header)
    requires |s| == HeaderLength
    ensures DecodeHeader(s) == Ok(h) <==> Strict(h) && s == HeaderBytes(h)
  {
    hide FieldsOf, HeaderBytes, IsZero;
    BytesOfFields(s);
    if Strict(h) {
      FieldsOfBytes(h);
    }
  }

  // ---------- the code ----------

  /** put_u16_le, put_u32_le and put_u64_le write at an offset. */
  method PutLittle(out: array<byte>, at: nat, v: nat, n: nat)
    requires at + n <= out.Length
    modifies out
    ensures out[..] == Splice(old(out[..]), at, Little(v, n))
  {
    hide Splice;
    var rest := v;
    ghost var before, all := out[..], Little(v, n);
    SpliceNone(before, at, all);
    for i := 0 to n
      invariant rest >= 0 && all == all[..i] + Little(rest, n - i)
      invariant out[..] == Splice(before, at, all[..i])
    {
      SpliceOne(before, at, all, i);
      out[at + i] := rest % 256;
      rest := rest / 256;
      LittleTail(all, i, Little(rest, n - i - 1));
    }
    assert all[..n] == all;
  }

  lemma SpliceNone(s: Bytes, at: nat, all: Bytes)
    requires at <= |s|
    ensures Splice(s, at, all[..0]) == s
  {
  }

  lemma SpliceOne(s: Bytes, at: nat, all: Bytes, i: nat)
    requires i < |all| && at + |all| <= |s|
    ensures Splice(s, at, all[..i])[at + i := all[i]] == Splice(s, at, all[..i + 1])
  {
  }

  lemma LittleTail(all: Bytes, i: nat, rest: Bytes)
    requires i < |all| && all == all[..i] + ([all[i]] + rest)
    ensures all == all[..i + 1] + rest
  {
    assert all[..i + 1] == all[..i] + [all[i]];
  }

  lemma Filled(s: Bytes, from: nat, at: nat, done: Bytes, part: Bytes)
    requires from <= at && at + |part| <= |s| && s[from..at] == done
    ensures Splice(s, at, part)[from..at + |part|] == done + part
    ensures Splice(s, at, part)[..from] == s[..from]
  {
  }

  /** memcpy of a field to offset `at`; what was written from `from` on was `done`. */
  method PutBytes(out: array<byte>, at: nat, part: Bytes, ghost from: nat, ghost done: Bytes)
    requires from <= at && at + |part| <= out.Length && out[from..at] == done
    modifies out
    ensures out[from..at + |part|] == done + part && out[..from] == old(out[..from])
  {
    Filled(out[..], from, at, done, part);
    CopyInto(out, at, part);
  }

  method PutNumber(out: array<byte>, at: nat, v: nat, n: nat, ghost from: nat, ghost done: Bytes)
    requires from <= at && at + n <= out.Length && out[from..at] == done
    modifies out
    ensures out[from..at + n] == done + Little(v, n) && out[..from] == old(out[..from])
  {
    Filled(out[..], from, at, done, Little(v, n));
    PutLittle(out, at, v, n);
  }

  method EncodeCommon(h: Header, out: array<byte>)
    requires Sized(h) && out.Length == HeaderLength
    modifies out
    ensures out[0..44] == CommonBytes(h)
  {
    hide Little;
    assert out[0..0] + h.magic == h.magic;
    PutBytes(out, 0, h.magic, 0, out[0..0]);
    PutNumber(out, 8, h.major, 2, 0, out[0..8]);
    PutNumber(out, 10, h.minor, 2, 0, out[0..10]);
    PutNumber(out, 12, h.headerLength, 4, 0, out[0..12]);
    PutNumber(out, 16, h.flags, 4, 0, out[0..16]);
    PutBytes(out, 20, h.vaultId, 0, out[0..20]);
    PutNumber(out, 36, h.kdf, 2, 0, out[0..36]);
    PutNumber(out, 38, h.wrapAead, 2, 0, out[0..38]);
    PutNumber(out, 40, h.bodyAead, 2, 0, out[0..40]);
    PutNumber(out, 42, h.slots, 2, 0, out[0..42]);
  }

  method EncodeCost(p: PasswordSlot, out: array<byte>)
    requires |p.salt| == SaltLength && out.Length == HeaderLength
    modifies out
    ensures out[44..76] == CostBytes(p) && out[..44] == old(out[..44])
  {
    hide Little;
    assert out[44..44] + Little(p.opslimit, 8) == Little(p.opslimit, 8);
    PutNumber(out, 44, p.opslimit, 8, 44, out[44..44]);
    PutNumber(out, 52, p.memlimit, 8, 44, out[44..52]);
    PutBytes(out, 60, p.salt, 44, out[44..60]);
  }

  method EncodeSecrets(h: Header, out: array<byte>)
    requires Sized(h) && out.Length == HeaderLength
    modifies out
    ensures out[76..252] == SecretBytes(h) && out[..76] == old(out[..76])
  {
    hide Little;
    assert out[76..76] + h.password.nonce == h.password.nonce;
    PutBytes(out, 76, h.password.nonce, 76, out[76..76]);
    PutBytes(out, 100, h.password.wrapped, 76, out[76..100]);
    PutBytes(out, 148, h.recovery.nonce, 76, out[76..148]);
    PutBytes(out, 172, h.recovery.wrapped, 76, out[76..172]);
    PutBytes(out, 220, h.bodyNonce, 76, out[76..220]);
    PutNumber(out, 244, h.bodyLength, 8, 76, out[76..244]);
  }

  /** pv_header_encode: every field at its offset. */
  method Encode(h: Header, out: array<byte>)
    requires Sized(h) && out.Length == HeaderLength
    modifies out
    ensures out[..] == HeaderBytes(h)
  {
    hide CommonBytes, CostBytes, SecretBytes;
    EncodeCommon(h, out);
    assert out[..44] == CommonBytes(h);
    EncodeCost(h.password, out);
    assert out[..76] == out[..44] + out[44..76];
    EncodeSecrets(h, out);
    assert out[..] == out[..76] + out[76..252];
  }
}

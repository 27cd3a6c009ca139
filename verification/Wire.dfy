/**
 The file as docs/FORMAT.md documents it, sections 3 to 5, 7 and 10: offsets and widths, byte order, accepted values,
 associated data, keys, framing, limits and names, with their numbers written out.
 */
module Wire {
  import opened Prelude
  import opened Records
  import opened Headers
  import opened Keyslots
  import opened Plaintext
  import opened Vaults
  import opened FileSystem
  import BackupNames
  import Protocol
  import Publish
  import Recovery

  // ---------- section 3.1: the fixed header ----------

  /** Byte order: byte `k` of a number has weight 256 to the power `k`. */
  lemma {:induction false} LittleEndian(v: nat, n: nat, k: nat)
    requires k < n
    ensures Little(v, n)[k] == v / Pow(k) % 256
  {
    if k > 0 {
      LittleEndian(v / 256, n - 1, k - 1);
      DividedTwice(v, Pow(k - 1));
    }
  }

  /** The table of offsets and sizes: together the rows are the whole header. */
  lemma HeaderTable(h: Header)
    requires Sized(h)
    ensures var s := HeaderBytes(h);
      && |s| == 252
      && s[0..8] == h.magic && s[8..10] == Little(h.major, 2) && s[10..12] == Little(h.minor, 2)
      && s[12..16] == Little(h.headerLength, 4) && s[16..20] == Little(h.flags, 4) && s[20..36] == h.vaultId
      && s[36..38] == Little(h.kdf, 2) && s[38..40] == Little(h.wrapAead, 2) && s[40..42] == Little(h.bodyAead, 2) && s[42..44] == Little(h.slots, 2)
      && s[44..52] == Little(h.password.opslimit, 8) && s[52..60] == Little(h.password.memlimit, 8) && s[60..76] == h.password.salt
      && s[76..100] == h.password.nonce && s[100..148] == h.password.wrapped && s[148..172] == h.recovery.nonce
      && s[172..220] == h.recovery.wrapped && s[220..244] == h.bodyNonce && s[244..252] == Little(h.bodyLength, 8)
  {
    hide Little;
    var s := HeaderBytes(h);
    HeaderParts(h);
    CommonFields(h);
    CostFields(h.password);
    SecretFields(h);
    hide HeaderBytes, CommonBytes, CostBytes, SecretBytes;
    assert s[8..10] == s[0..44][8..10] && s[10..12] == s[0..44][10..12] && s[12..16] == s[0..44][12..16] && s[16..20] == s[0..44][16..20];
    assert s[0..8] == s[0..44][0..8] && s[20..36] == s[0..44][20..36] && s[36..38] == s[0..44][36..38] && s[38..40] == s[0..44][38..40];
    assert s[40..42] == s[0..44][40..42] && s[42..44] == s[0..44][42..44];
    assert s[44..52] == s[44..76][0..8] && s[52..60] == s[44..76][8..16] && s[60..76] == s[44..76][16..32];
    assert s[76..100] == s[76..252][0..24] && s[100..148] == s[76..252][24..72] && s[148..172] == s[76..252][72..96];
    assert s[172..220] == s[76..252][96..144] && s[220..244] == s[76..252][144..168] && s[244..252] == s[76..252][168..176];
  }

  /** The values a reader accepts. */
  lemma AcceptedHeaders(h: Header)
    requires Sized(h)
    ensures Strict(h) <==>
      && h.magic == [0x50, 0x56, 0x4c, 0x54, 0x0d, 0x0a, 0x1a, 0x0a] && h.major == 1 && h.minor == 0 && h.headerLength == 252 && h.flags == 0
      && (exists k :: 0 <= k < 16 && h.vaultId[k] != 0) && h.kdf == 1 && h.wrapAead == 1 && h.bodyAead == 1 && h.slots == 2
      && 3 <= h.password.opslimit <= 10 && 268435456 <= h.password.memlimit <= 1073741824
      && 4096 + 16 <= h.bodyLength <= 2 * 1024 * 1024 + 16 && (h.bodyLength - 16) % 4096 == 0
  {
  }

  /** What is refused before anything is decrypted, and as what: another version is told apart from other damage. */
  lemma RefusedHeaders(s: Bytes)
    requires |s| == 252
    ensures DecodeHeader(s) == Err(Unsupported) <==>
      s[0..8] == [0x50, 0x56, 0x4c, 0x54, 0x0d, 0x0a, 0x1a, 0x0a] && (s[8..10] != [1, 0] || s[10..12] != [0, 0])
    ensures DecodeHeader(s).Err? ==> DecodeHeader(s).status == FormatError || DecodeHeader(s).status == Unsupported
  {
    var h := FieldsOf(s);
    TwoBytes(s[8..10]);
    TwoBytes(s[10..12]);
    hide FromLittle, Acceptable;
  }

  lemma TwoBytes(b: Bytes)
    requires |b| == 2
    ensures (FromLittle(b) == 1 <==> b == [1, 0]) && (FromLittle(b) == 0 <==> b == [0, 0])
  {
    assert b[1..][1..] == [] && b[1..][0] == b[1];
    assert FromLittle(b[1..]) == b[1] + 256 * FromLittle(b[1..][1..]);
    assert b == [b[0], b[1]];
  }

  // ---------- section 4: key slots ----------

  /** A writer's password slot: the recorded costs, the key they give, and bytes 0 to 75 of the header as associated data. */
  lemma PasswordSlotSealed(c: Crypto, h: Header, pw: Bytes, vmk: Bytes, salt: Bytes, nonce: Bytes)
    requires c.Lawful() && Sized(h) && |vmk| == 32 && |salt| == 16 && |nonce| == 24
    ensures var n := WithPassword(c, h, pw, vmk, salt, nonce);
      && Sized(n) && n == h.(password := n.password)
      && n.password.opslimit == 3 && n.password.memlimit == 268435456 && n.password.salt == salt && n.password.nonce == nonce
      && n.password.wrapped == c.seal(c.pwhash(pw, salt, 3, 268435456), nonce, HeaderBytes(n)[0..76], vmk)
  {
    hide HeaderBytes;
    var n := WithPassword(c, h, pw, vmk, salt, nonce);
    var mid := h.(password := PasswordSlot(3, 268435456, salt, nonce, h.password.wrapped));
    AadUnchanged(mid, n);
  }

  /** A writer's recovery slot: the derived key, and bytes 0 to 43 of the header as associated data. */
  lemma RecoverySlotSealed(c: Crypto, h: Header, rk: Bytes, vmk: Bytes, nonce: Bytes)
    requires c.Lawful() && Sized(h) && |vmk| == 32 && |nonce| == 24
    ensures var n := WithRecovery(c, h, rk, vmk, nonce);
      && Sized(n) && n == h.(recovery := n.recovery) && n.recovery.nonce == nonce
      && n.recovery.wrapped == c.seal(c.kdf(rk, 0, "PVRECV01"), nonce, HeaderBytes(n)[0..44], vmk)
  {
    hide HeaderBytes;
    var n := WithRecovery(c, h, rk, vmk, nonce);
    AadUnchanged(h, n);
  }

  /** A reader unlocks with exactly the credentials whose key opens the slot, under the recorded costs and that associated data. */
  lemma UnlocksExactly(c: Crypto, h: Header, pw: Bytes, rk: Bytes, vmk: Bytes)
    requires c.Lawful() && Sized(h)
    ensures UnlockPassword(c, h, pw) == Ok(vmk) <==>
      && 0 < |pw| <= 0xffff_ffff && 3 <= h.password.opslimit <= 10 && 268435456 <= h.password.memlimit <= 1073741824 && |vmk| == 32
      && h.password.wrapped ==
           c.seal(c.pwhash(pw, h.password.salt, h.password.opslimit, h.password.memlimit), h.password.nonce, HeaderBytes(h)[0..76], vmk)
    ensures UnlockRecovery(c, h, rk) == Ok(vmk) <==>
      |vmk| == 32 && h.recovery.wrapped == c.seal(c.kdf(rk, 0, "PVRECV01"), h.recovery.nonce, HeaderBytes(h)[0..44], vmk)
    ensures UnlockPassword(c, h, pw).Err? ==> UnlockPassword(c, h, pw).status == Auth
    ensures UnlockRecovery(c, h, rk).Err? ==> UnlockRecovery(c, h, rk).status == Auth
  {
    hide HeaderBytes;
    var s := HeaderBytes(h);
    assert s[..76] == s[0..76] && s[..44] == s[0..44];
  }

  // ---------- section 5: the body ----------

  /** The body: length, content and least padding, under the body key, with the whole header as associated data. */
  lemma BodySealed(c: Crypto, h: Header, vmk: Bytes, plain: Bytes, pad: Bytes)
    requires Sized(h) && |plain| + 4 <= 2 * 1024 * 1024 && |pad| == PaddedLength(|plain|) - 4 - |plain|
    ensures SealBody(c, h, vmk, plain, pad) == c.seal(c.kdf(vmk, 1, "PVBODY01"), h.bodyNonce, HeaderBytes(h), Little(|plain|, 4) + plain + pad)
    ensures (4 + |plain| + |pad|) % 4096 == 0 && |pad| < 4096
  {
    hide HeaderBytes, Little;
  }

  /** A body of another length is malformed, one that does not authenticate is refused as such, and so is one framed wrongly as malformed. */
  lemma BodyRefused(c: Crypto, h: Header, vmk: Bytes, s: Bytes)
    requires Sized(h)
    ensures |s| != h.bodyLength || |s| < 4096 + 16 || (|s| - 16) % 4096 != 0 ==> DecryptBody(c, h, vmk, s) == Err(FormatError)
    ensures |s| == h.bodyLength && |s| >= 4096 + 16 && (|s| - 16) % 4096 == 0 ==>
      (DecryptBody(c, h, vmk, s) == Err(Auth) <==> c.unseal(c.kdf(vmk, 1, "PVBODY01"), h.bodyNonce, HeaderBytes(h), s).None?)
    ensures DecryptBody(c, h, vmk, s).Err? ==> DecryptBody(c, h, vmk, s).status in {FormatError, Auth}
  {
    hide HeaderBytes, FromLittle;
  }

  // ---------- section 7: limits ----------

  /** A record's texts and collections are within the documented limits, and its flags are known. */
  lemma RecordLimits(r: Record)
    requires ContentValid(r)
    ensures 0 < |r.title| <= 1024 && |r.username| <= 4096 && |r.password| <= 65536 && |r.notes| <= 262144
    ensures |r.urls| <= 64 && |r.tags| <= 64 && |r.fields| <= 64 && r.flags < 4
    ensures forall k :: 0 <= k < |r.urls| ==> |r.urls[k]| <= 8192
    ensures forall k :: 0 <= k < |r.tags| ==> |r.tags[k]| <= 256
    ensures forall k :: 0 <= k < |r.fields| ==> 0 < |r.fields[k].name| <= 256 && |r.fields[k].value| <= 65536 && r.fields[k].flags < 2
  {
    assert forall k :: 0 <= k < |r.fields| ==> FieldValid(r.fields[k]);
  }

  /** ... and every record within them, with UTF-8 where text is asked for and no negative time, is accepted. */
  lemma LimitsSuffice(r: Record)
    requires 0 < |r.title| <= 1024 && |r.username| <= 4096 && |r.password| <= 65536 && |r.notes| <= 262144
    requires |r.urls| <= 64 && |r.tags| <= 64 && |r.fields| <= 64 && r.flags < 4 && 0 <= r.created && 0 <= r.updated
    requires Utf8.Valid(r.title) && Utf8.Valid(r.username) && Utf8.Valid(r.notes)
    requires forall k :: 0 <= k < |r.urls| ==> |r.urls[k]| <= 8192 && Utf8.Valid(r.urls[k])
    requires forall k :: 0 <= k < |r.tags| ==> |r.tags[k]| <= 256 && Utf8.Valid(r.tags[k])
    requires forall k :: 0 <= k < |r.fields| ==> 0 < |r.fields[k].name| <= 256 && Utf8.Valid(r.fields[k].name)
    requires forall k :: 0 <= k < |r.fields| ==> |r.fields[k].value| <= 65536 && r.fields[k].flags < 2
    ensures ContentValid(r)
  {
    hide Utf8.Valid;
  }

  /** What a valid vault is besides its records: the top-level numbers and the device identifier. */
  lemma VaultLimits(p: Plain)
    ensures PlainValid(p) <==>
      && p.generation < 0x1_0000_0000_0000_0000 && |p.deviceId| == 16 && (exists k :: 0 <= k < 16 && p.deviceId[k] != 0)
      && 0 <= p.created < 0x8000_0000_0000_0000 && 0 <= p.updated < 0x8000_0000_0000_0000
      && |p.records| <= 32768 && RecordsValid(p.records) && DistinctIds(p.records)
  {
    hide RecordsValid, DistinctIds;
  }

  /** What a valid record is besides its contents. */
  lemma RecordIdentity(r: Record)
    ensures RecordValid(r) <==>
      && ContentValid(r) && 0 < r.revision < 0x1_0000_0000_0000_0000 && |r.id| == 16 && (exists k :: 0 <= k < 16 && r.id[k] != 0)
      && r.created < 0x8000_0000_0000_0000 && r.updated < 0x8000_0000_0000_0000
  {
    hide ContentValid;
  }

  /** What deleting and editing a record refuse: a deleted one, the last 64-bit revision, locked memory, no room. */
  lemma ChangesRefused(r: Record, locked: bool, fits: bool)
    ensures DeleteStatus(r, locked) ==
      if r.flags == 1 || r.flags % 2 == 1 then Usage else if r.revision == 0xffff_ffff_ffff_ffff then Limit else if locked then SecureMemory else OK
    ensures EditStatus(r, locked, fits) ==
      if r.revision == 0xffff_ffff_ffff_ffff then Limit else if locked then SecureMemory else if fits then OK else Limit
    ensures MaxOf(Title) == 1024 && MaxOf(Username) == 4096 && MaxOf(Password) == 65536 && MaxOf(Notes) == 262144
  {
  }

  /** What adding a record with valid contents refuses, in this order. */
  lemma AddRefused(src: Record, locked: bool, used: nat, cap: nat, rs: seq<Record>)
    ensures var st := AddStatus(src, locked, used, cap, rs);
      && (src.revision > 0 && (forall k :: 0 <= k < |src.id| ==> src.id[k] == 0) ==> st == FormatError)
      && (st == SecureMemory ==> locked)
      && (st == Exists ==> exists k :: 0 <= k < |rs| && rs[k].id == src.id)
      && (st == OK ==> !locked && (IsZero(src.id) || forall k :: 0 <= k < |rs| ==> rs[k].id != src.id) && (src.revision == 0 || !IsZero(src.id)))
  {
  }

  /** Section 8: a recovery key of 32 bytes and a checksum of five. */
  lemma RecoveryMaterial(c: Recovery.Checksum, id: Bytes, key: Bytes)
    requires c.Valid() && |key| == Recovery.KeyLength
    ensures |key| == 32 && |Recovery.Material(c, id, key)| == 37
    ensures Recovery.Material(c, id, key)[..32] == key && Recovery.Material(c, id, key)[32..] == c.sum(id, key)
  {
  }

  // ---------- section 10: names ----------

  /** Generations are 64-bit, and thirty-two temporary names are tried. */
  lemma StoreNumbers(f: Protocol.Format, fs: Fs, d: DirId, n: Name, random: seq<nat>)
    ensures Protocol.MaxGeneration == 0x1_0000_0000_0000_0000
    ensures Publish.HasFreeTemp(f, fs, d, n, random) <==>
      |random| >= 32 && exists k :: 0 <= k < 32 && f.tempName(n, random[k]) !in fs.In(d).now
  {
  }

  /** Byte `k` of a 32-bit number, most significant first. */
  function Octet(v: nat, k: nat): nat
    requires k < 4
  {
    v / Pow(3 - k) % 256
  }

  /** The random part of a name: eight lower-case hexadecimal digits. */
  lemma RandomPart(v: nat, k: nat)
    requires k < 4
    ensures |BackupNames.Hex32(v)| == 8
    ensures BackupNames.Hex32(v)[2 * k] == "0123456789abcdef"[Octet(v, k) / 16] && BackupNames.Hex32(v)[2 * k + 1] == "0123456789abcdef"[Octet(v, k) % 16]
  {
    hide BackupNames.Hex;
    var b: Bytes := [v / 0x100_0000 % 256, v / 0x1_0000 % 256, v / 0x100 % 256, v % 256];
    PowSmall();
    assert Octet(v, k) == b[k];
    BackupNames.HexAt(b, k);
  }

  lemma PowSmall()
    ensures Pow(0) == 1 && Pow(1) == 0x100 && Pow(2) == 0x1_0000 && Pow(3) == 0x100_0000
  {
  }

  /** Temporary and pre-restore names, part by part. */
  lemma OtherNames(n: string, random: nat, ms: nat)
    ensures BackupNames.TempName(n, random) == n + ".tmp." + BackupNames.Hex32(random)
    ensures BackupNames.PreRestoreName(ms, random) == "pre-restore-" + BackupNames.Decimal(ms, 20) + "-" + BackupNames.Hex32(random) + ".pvlt"
  {
  }

  /** Automatic backups are named as documented, with lower-case hexadecimal and twenty decimal digits. */
  lemma BackupNamed(id: Bytes, g: nat, k: nat)
    requires |id| == 16
    ensures var n := BackupNames.AutoName(id, g);
      && |n| == 67 && n[0..8] == "auto-v1-" && n[40..42] == "-g" && n[62..67] == ".pvlt"
      && (k < 16 ==> n[8 + 2 * k] == "0123456789abcdef"[id[k] / 16] && n[9 + 2 * k] == "0123456789abcdef"[id[k] % 16])
      && (k < 20 ==> n[42 + k] == "0123456789"[g / Tens(19 - k) % 10])
  {
    hide BackupNames.Hex, BackupNames.Decimal, BackupNames.AutoName;
    var n := BackupNames.AutoName(id, g);
    BackupNames.AutoNameParts(id, g);
    if k < 16 {
      BackupNames.HexAt(id, k);
      assert n[8 + 2 * k] == n[8..40][2 * k] && n[9 + 2 * k] == n[8..40][2 * k + 1];
    }
    if k < 20 {
      DecimalDigit(g, 20, k);
      assert n[42 + k] == n[42..62][k];
    }
  }

  function Tens(n: nat): (p: nat)
    ensures p > 0
  {
    if n == 0 then 1 else 10 * Tens(n - 1)
  }

  lemma DigitIs(d: nat)
    requires d < 10
    ensures BackupNames.Digit(d) == "0123456789"[d]
  {
  }

  lemma {:induction false} DecimalDigit(v: nat, n: nat, k: nat)
    requires k < n
    ensures BackupNames.Decimal(v, n)[k] == "0123456789"[v / Tens(n - 1 - k) % 10]
  {
    if k < n - 1 {
      DecimalDigit(v / 10, n - 1, k);
      TenthDivided(v, Tens(n - 2 - k));
    } else {
      DigitIs(v % 10);
    }
  }
}

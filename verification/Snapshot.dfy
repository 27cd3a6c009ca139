/**
 A vault file from end to end: header, sealed body, plaintext.  Whatever was saved opens again with either
 credential, and the store's abstract format is instantiated with the real one.
 */
module Snapshots {
  import opened Prelude
  import opened Headers
  import opened Keyslots
  import opened Plaintext
  import opened Layout
  import opened Sizes
  import Protocol
  import BackupNames

  // ---------- the file ----------

  /** The strict check of a file: a strict header, and exactly the length it announces. */
  predicate IsSnapshot(b: Bytes) {
    && |b| >= HeaderLength
    && DecodeHeader(b[..HeaderLength]).Ok?
    && |b| == HeaderLength + DecodeHeader(b[..HeaderLength]).value.bodyLength
  }

  function HeaderOf(b: Bytes): (h: Header)
    requires IsSnapshot(b)
    ensures Strict(h) && b[..HeaderLength] == HeaderBytes(h)
  {
    DecodeHeaderExactly(b[..HeaderLength], DecodeHeader(b[..HeaderLength]).value);
    DecodeHeader(b[..HeaderLength]).value
  }

  /** The vault identifier in the clear header; any value for a shorter file. */
  function VaultOf(b: Bytes): Bytes {
    if |b| >= HeaderLength then b[20..36] else []
  }

  /** The body authenticated under the vault key and unframed. */
  function BodyOf(c: Crypto, b: Bytes, vmk: Bytes): Result<Bytes> {
    if IsSnapshot(b) then DecryptBody(c, HeaderOf(b), vmk, b[HeaderLength..]) else Err(FormatError)
  }

  /** Opening with the vault key: the body authenticated, unframed and decoded. */
  function OpenWith(c: Crypto, b: Bytes, vmk: Bytes): Result<Plain> {
    var plain :- BodyOf(c, b, vmk);
    Plaintext.Decode(plain)
  }

  function OpenPassword(c: Crypto, b: Bytes, pw: Bytes): Result<Plain> {
    if !IsSnapshot(b) then Err(FormatError)
    else
      var vmk :- UnlockPassword(c, HeaderOf(b), pw);
      OpenWith(c, b, vmk)
  }

  function OpenRecovery(c: Crypto, b: Bytes, rk: Bytes): Result<Plain> {
    if !IsSnapshot(b) then Err(FormatError)
    else
      var vmk :- UnlockRecovery(c, HeaderOf(b), rk);
      OpenWith(c, b, vmk)
  }

  /** The generation that the authenticated body carries, for a holder of the vault key; the records are not looked at. */
  function GenerationOf(c: Crypto, vmk: Bytes, b: Bytes): Option<nat> {
    match BodyOf(c, b, vmk)
    case Err(_) => None
    case Ok(plain) =>
      match ParseOuter(plain)
      case Err(_) => None
      case Ok(x) => Some(x.0.generation)
  }

  /** What opens carries the generation it opens to. */
  lemma OpenedGeneration(c: Crypto, vmk: Bytes, b: Bytes)
    ensures OpenWith(c, b, vmk).Ok? ==> GenerationOf(c, vmk, b) == Some(OpenWith(c, b, vmk).value.generation)
  {
    hide BodyOf, ParseOuter, ParseBody;
  }

  /** A valid vault whose encoding fits a body: what a save seals. */
  predicate Sealable(p: Plain) {
    PlainValid(p) && |EncPlainOf(p)| + 4 <= MaxPlaintext
  }

  /** The file that saving `p` under header `h` writes. */
  function Image(c: Crypto, h: Header, vmk: Bytes, p: Plain, nonce: Bytes, pad: Bytes): Bytes
    requires Sized(h) && |nonce| == NonceLength && Sealable(p)
  {
    PaddedFits(|EncPlainOf(p)|);
    var sealing := WithBody(h, nonce, PaddedLength(|EncPlainOf(p)|));
    HeaderBytes(sealing) + SealBody(c, sealing, vmk, EncPlainOf(p), pad)
  }

  // ---------- what was saved opens ----------

  /** Whatever is in an arena that pays for it can be sealed. */
  lemma SoundIsSealable(p: Plain, used: nat, cap: nat)
    requires PlainValid(p) && Budget(used, cap, p.records)
    ensures Sealable(p)
  {
    EncodingFits(p, used, cap);
  }

  lemma EncodingPads(p: Plain)
    requires Sealable(p)
    ensures 0 < |EncPlainOf(p)| && PaddedLength(|EncPlainOf(p)|) <= MaxPlaintext
  {
    EncodingNotEmpty(p);
    hide EncPlainOf;
    PaddedFits(|EncPlainOf(p)|);
  }

  /** A strict header in front of a body of the announced length is a snapshot with that header. */
  lemma JoinedIsSnapshot(h: Header, body: Bytes)
    requires Strict(h) && |body| == h.bodyLength
    ensures var b := HeaderBytes(h) + body;
      IsSnapshot(b) && HeaderOf(b) == h && b[HeaderLength..] == body && VaultOf(b) == h.vaultId
  {
    var b := HeaderBytes(h) + body;
    assert b[..HeaderLength] == HeaderBytes(h) && b[HeaderLength..] == body;
    DecodeHeaderExactly(HeaderBytes(h), h);
    HeaderParts(h);
    CommonFields(h);
    hide CommonBytes, CostBytes, SecretBytes, Strict, HeaderBytes;
    assert b[20..36] == HeaderBytes(h)[..44][20..36];
  }

  lemma ArmedBody(h: Header, nonce: Bytes, padded: nat)
    requires Armed(h) && |nonce| == NonceLength && Block <= padded <= MaxPlaintext && padded % Block == 0
    ensures Strict(WithBody(h, nonce, padded))
  {
    hide IsZero;
  }

  /** The padding for `p` fills its last block. */
  predicate Pads(p: Plain, pad: Bytes)
    requires PlainValid(p)
  {
    |pad| == PaddedLength(|EncPlainOf(p)|) - 4 - |EncPlainOf(p)|
  }

  /** The image of any vault that can be sealed is a snapshot that authenticates to exactly its encoding. */
  lemma ImageDecrypts(c: Crypto, h: Header, vmk: Bytes, p: Plain, nonce: Bytes, pad: Bytes)
    requires c.Lawful() && Armed(h) && Sealable(p) && |nonce| == NonceLength && Pads(p, pad)
    ensures var b := Image(c, h, vmk, p, nonce, pad);
      && IsSnapshot(b) && VaultOf(b) == h.vaultId && HeaderOf(b) == WithBody(h, nonce, PaddedLength(|EncPlainOf(p)|))
      && BodyOf(c, b, vmk) == Ok(EncPlainOf(p))
  {
    hide Armed, Strict, HeaderBytes, EncPlainOf, PlainValid, IsSnapshot, HeaderOf, VaultOf, DecryptBody, Frame;
    EncodingPads(p);
    var plain := EncPlainOf(p);
    var padded := PaddedLength(|plain|);
    var sealing := WithBody(h, nonce, padded);
    ArmedBody(h, nonce, padded);
    StrictSized(sealing);
    var body := SealBody(c, sealing, vmk, plain, pad);
    FrameParts(plain, pad);
    assert |body| == padded + TagLength;
    BodyExactly(c, sealing, vmk, body, plain);
    JoinedIsSnapshot(sealing, body);
  }

  /**
   Saving under an armed header gives a snapshot of the vault that carries its generation; it opens with the vault
   key, to exactly what was saved, if and only if the records fit when laid out afresh.
   */
  lemma ImageOpens(c: Crypto, h: Header, vmk: Bytes, p: Plain, nonce: Bytes, pad: Bytes)
    requires c.Lawful() && Armed(h) && Sealable(p) && |nonce| == NonceLength && Pads(p, pad)
    ensures var b := Image(c, h, vmk, p, nonce, pad);
      && IsSnapshot(b) && VaultOf(b) == h.vaultId && HeaderOf(b) == WithBody(h, nonce, PaddedLength(|EncPlainOf(p)|))
      && GenerationOf(c, vmk, b) == Some(p.generation)
      && (OpenWith(c, b, vmk) == Ok(p) <==> AddAll(p.records).Some?)
      && (OpenWith(c, b, vmk).Err? <==> AddAll(p.records).None?)
  {
    hide Armed, HeaderBytes, EncPlainOf, PlainValid, IsSnapshot, HeaderOf, VaultOf, BodyOf, Plaintext.Decode, ParseOuter, Image,
      AddAll, Crypto.Lawful;
    ImageDecrypts(c, h, vmk, p, nonce, pad);
    DecodeOwn(p);
    EncodingOuter(p);
  }

  /** The outer map is read off every encoding. */
  lemma EncodingOuter(p: Plain)
    requires PlainValid(p)
    ensures ParseOuter(EncPlainOf(p)).Ok? && ParseOuter(EncPlainOf(p)).value.0.generation == p.generation
  {
    hide ParseOuter, EncOuter;
    OuterComplete(p, EncPlainOf(p)[|EncOuter(p)|..]);
    assert EncPlainOf(p) == EncOuter(p) + EncPlainOf(p)[|EncOuter(p)|..];
  }

  lemma StrictSized(h: Header)
    ensures Strict(h) ==> Sized(h)
    ensures Armed(h) ==> Sized(h)
  {
  }

  /**
   The whole chain: after any sequence of password changes, recovery-key changes and saves, a vault saved under the
   header opens with the latest password and with the latest recovery key to exactly what was saved, if and only if its
   records fit when laid out afresh; otherwise both are refused.
   */
  lemma EitherCredentialOpens(c: Crypto, vmk: Bytes, hs: seq<Header>, xs: seq<Change>, pw: Bytes, rk: Bytes,
    p: Plain, nonce: Bytes, pad: Bytes)
    requires c.Lawful() && |vmk| == KeyLength && Run(c, vmk, hs, xs) && Armed(hs[0])
    requires UnlockPassword(c, hs[0], pw) == Ok(vmk) && UnlockRecovery(c, hs[0], rk) == Ok(vmk)
    requires Sealable(p) && |nonce| == NonceLength && Pads(p, pad)
    ensures Sized(hs[|xs|])
    ensures var (password, recovery) := Credentials(pw, rk, xs);
      var b := Image(c, hs[|xs|], vmk, p, nonce, pad);
      if AddAll(p.records).Some? then OpenPassword(c, b, password) == Ok(p) && OpenRecovery(c, b, recovery) == Ok(p)
      else OpenPassword(c, b, password).Err? && OpenRecovery(c, b, recovery).Err?
  {
    hide Armed, HeaderBytes, EncPlainOf, PlainValid, IsSnapshot, HeaderOf, OpenWith, UnlockPassword, UnlockRecovery, Image, Apply,
      AddAll, GenerationOf, Crypto.Lawful;
    EitherCredentialUnlocks(c, vmk, hs, xs, pw, rk);
    var h := hs[|xs|];
    var (password, recovery) := Credentials(pw, rk, xs);
    ImageOpens(c, h, vmk, p, nonce, pad);
    EncodingPads(p);
    BodyKeepsSlots(c, h, nonce, PaddedLength(|EncPlainOf(p)|), password, recovery);
  }

  /** `b` is a strict header followed by the sealed encoding of `p` under that header. */
  ghost predicate IsImage(c: Crypto, b: Bytes, vmk: Bytes, p: Plain) {
    && IsSnapshot(b) && Openable(p)
    && exists pad :: b[HeaderLength..] == SealBody(c, HeaderOf(b), vmk, EncPlainOf(p), pad)
  }

  lemma OpenInSteps(c: Crypto, b: Bytes, vmk: Bytes, p: Plain)
    requires OpenWith(c, b, vmk) == Ok(p)
    ensures IsSnapshot(b) && DecryptBody(c, HeaderOf(b), vmk, b[HeaderLength..]).Ok?
    ensures Plaintext.Decode(DecryptBody(c, HeaderOf(b), vmk, b[HeaderLength..]).value) == Ok(p)
  {
    hide DecryptBody, Plaintext.Decode, HeaderOf;
  }

  /** Opening accepts nothing but such images. */
  lemma OpenedIsImage(c: Crypto, b: Bytes, vmk: Bytes, p: Plain)
    requires c.Lawful() && OpenWith(c, b, vmk) == Ok(p)
    ensures IsImage(c, b, vmk, p)
  {
    hide HeaderBytes, EncPlainOf, PlainValid, IsSnapshot, DecryptBody, Plaintext.Decode, SealBody, OpenWith, Crypto.Lawful, HeaderOf,
      Strict, Sized, AddAll;
    OpenInSteps(c, b, vmk, p);
    SnapshotIsLonger(b);
    var h := HeaderOf(b);
    StrictSized(h);
    StrictBody(h);
    var body := b[HeaderLength..];
    var plain := DecryptBody(c, h, vmk, body).value;
    DecodeExactly(plain, p);
    BodyExactly(c, h, vmk, body, plain);
    var pad :| body == SealBody(c, h, vmk, plain, pad);
  }

  /** `b` authenticates to the encoding of the valid vault `p`. */
  predicate Carries(c: Crypto, b: Bytes, vmk: Bytes, p: Plain) {
    PlainValid(p) && BodyOf(c, b, vmk) == Ok(EncPlainOf(p))
  }

  /** A file carries at most one vault, and opens, to that one, if and only if its records fit when laid out afresh. */
  lemma CarriesOpens(c: Crypto, b: Bytes, vmk: Bytes, p: Plain)
    requires Carries(c, b, vmk, p)
    ensures OpenWith(c, b, vmk) == Ok(p) <==> AddAll(p.records).Some?
    ensures OpenWith(c, b, vmk).Err? <==> AddAll(p.records).None?
    ensures forall q :: Carries(c, b, vmk, q) ==> q == p
  {
    hide BodyOf, EncPlainOf, PlainValid, Plaintext.Decode, AddAll;
    DecodeOwn(p);
    forall q | Carries(c, b, vmk, q)
      ensures q == p
    {
      EncodingInjective(p, q);
    }
  }

  /** Whatever opens carries what it opens to. */
  lemma OpenedCarries(c: Crypto, b: Bytes, vmk: Bytes, p: Plain)
    requires OpenWith(c, b, vmk) == Ok(p)
    ensures Carries(c, b, vmk, p)
  {
    hide BodyOf, EncPlainOf, PlainValid, Plaintext.Decode, AddAll;
    DecodeExactly(BodyOf(c, b, vmk).value, p);
  }

  lemma StrictBody(h: Header)
    requires Strict(h)
    ensures h.bodyLength <= MaxPlaintext + TagLength
  {
  }

  // ---------- the store's format ----------

  /** The format the store protocol is proved over, with the real names, the real file check and the real body. */
  function FormatOf(c: Crypto, vmk: Bytes, vaultId: Bytes, active: string, hash: Bytes -> Bytes, zero: Bytes): Protocol.Format {
    Protocol.Format(active, vaultId, b => IsSnapshot(b), b => VaultOf(b), b => GenerationOf(c, vmk, b),
      b => OpenWith(c, b, vmk).Ok?, hash, zero,
      (g: nat) => BackupNames.AutoName(vaultId, g), n => AutoGeneration(vaultId, n), n => BackupNames.IsTemp(n),
      (n: string, s: nat) => BackupNames.TempName(n, s))
  }

  /** The generation in an automatic backup's name, for this vault's names only. */
  function AutoGeneration(vaultId: Bytes, n: string): Option<nat> {
    match BackupNames.Parse(n)
    case Some((id, g)) => if id == vaultId then Some(g) else None
    case None => None
  }

  lemma NamesLawful(vaultId: Bytes, n: string, g: nat, s: nat)
    requires |vaultId| == VaultIdLength
    ensures BackupNames.TempName(n, s) != n && BackupNames.IsTemp(BackupNames.TempName(n, s))
    ensures 0 < g < Protocol.MaxGeneration ==> AutoGeneration(vaultId, BackupNames.AutoName(vaultId, g)) == Some(g)
    ensures !BackupNames.IsTemp(BackupNames.AutoName(vaultId, g))
    ensures AutoGeneration(vaultId, n).Some? ==>
      var v := AutoGeneration(vaultId, n).value; 0 < v < Protocol.MaxGeneration && n == BackupNames.AutoName(vaultId, v)
  {
    hide BackupNames.AutoName, BackupNames.TempName, BackupNames.IsTemp, BackupNames.Parse;
    BackupNames.TempNameIsTemp(n, s);
    BackupNames.PublishedNamesAreNotTemp(vaultId, g, 0, 0);
    BackupNames.ParseExactly(BackupNames.AutoName(vaultId, g), vaultId, g);
    match BackupNames.Parse(n)
    case Some((id, v)) => BackupNames.ParseExactly(n, id, v);
    case None =>
  }

  /** The real format satisfies everything the store protocol assumes of a format. */
  lemma FormatIsLawful(c: Crypto, vmk: Bytes, vaultId: Bytes, active: string, hash: Bytes -> Bytes, zero: Bytes)
    requires |vaultId| == VaultIdLength
    requires (forall x, y :: hash(x) == hash(y) ==> x == y) && forall x :: hash(x) != zero
    ensures FormatOf(c, vmk, vaultId, active, hash, zero).Lawful()
  {
    hide BackupNames.AutoName, BackupNames.TempName, BackupNames.IsTemp, AutoGeneration, GenerationOf, OpenWith, VaultOf;
    var f := FormatOf(c, vmk, vaultId, active, hash, zero);
    forall n, s: nat ensures f.tempName(n, s) != n && f.isTemp(f.tempName(n, s)) {
      NamesLawful(vaultId, n, 0, s);
    }
    forall g: nat ensures 0 < g < Protocol.MaxGeneration ==> f.parseAuto(f.autoName(g)) == Some(g) && !f.isTemp(f.autoName(g)) {
      NamesLawful(vaultId, "", g, 0);
    }
    forall n | f.parseAuto(n).Some?
      ensures 0 < f.parseAuto(n).value < Protocol.MaxGeneration && n == f.autoName(f.parseAuto(n).value) {
      NamesLawful(vaultId, n, 0, 0);
    }
    forall x | f.valid(x) ensures |x| > HeaderLength {
      SnapshotIsLonger(x);
    }
    forall x | f.opens(x) ensures f.gen(x).Some? {
      OpenedGeneration(c, vmk, x);
    }
  }

  lemma SnapshotIsLonger(b: Bytes)
    requires IsSnapshot(b)
    ensures |b| > HeaderLength
  {
  }

  /**
   What any save seals is admissible to the store: valid, of this vault, and of the generation it was sealed at.  That it
   also opens is a matter of its records alone.
   */
  lemma ImageIsAdmissible(c: Crypto, h: Header, vmk: Bytes, p: Plain, nonce: Bytes, pad: Bytes, active: string, hash: Bytes -> Bytes, zero: Bytes)
    requires c.Lawful() && Armed(h) && Sealable(p) && |nonce| == NonceLength && Pads(p, pad)
    ensures var f := FormatOf(c, vmk, h.vaultId, active, hash, zero);
      var b := Image(c, h, vmk, p, nonce, pad);
      f.valid(b) && f.vaultOf(b) == f.vault && f.gen(b) == Some(p.generation) && (f.opens(b) <==> AddAll(p.records).Some?)
  {
    hide Armed, EncPlainOf, PlainValid, IsSnapshot, HeaderOf, VaultOf, OpenWith, GenerationOf, Image, AddAll, Crypto.Lawful;
    ImageOpens(c, h, vmk, p, nonce, pad);
  }
}

/**
 The two key slots and the body (src/crypto.c).  Argon2id, the key derivations and XChaCha20-Poly1305 are
 functions with the laws libsodium documents; what is proved is how the header ties them together.
 */
module Keyslots {
  import opened Prelude
  import opened Headers

  /** The primitives. */
  datatype Crypto = Crypto(
    pwhash: (Bytes, Bytes, nat, nat) -> Bytes,
    kdf: (Bytes, nat, string) -> Bytes,
    seal: (Bytes, Bytes, Bytes, Bytes) -> Bytes,
    unseal: (Bytes, Bytes, Bytes, Bytes) -> Option<Bytes>)
  {
    /** The key that wraps under a recovery key. */
    function recoveryKdf(rk: Bytes): Bytes {
      kdf(rk, 0, "PVRECV01")
    }

    /** The key that seals the body under a vault key. */
    function bodyKdf(vmk: Bytes): Bytes {
      kdf(vmk, 1, "PVBODY01")
    }

    /** Authenticated encryption: opening undoes sealing, accepts nothing else, and a tag adds sixteen bytes. */
    ghost predicate Lawful() {
      && (forall key, nonce, aad, m: Bytes {:trigger seal(key, nonce, aad, m)} :: |seal(key, nonce, aad, m)| == |m| + TagLength)
      && (forall key, nonce, aad, m: Bytes, s: Bytes {:trigger unseal(key, nonce, aad, s), seal(key, nonce, aad, m)} ::
            unseal(key, nonce, aad, s) == Some(m) <==> s == seal(key, nonce, aad, m))
      && (forall key, nonce, aad, s {:trigger unseal(key, nonce, aad, s)} ::
            unseal(key, nonce, aad, s).Some? ==> s == seal(key, nonce, aad, unseal(key, nonce, aad, s).value))
    }
  }

  /** The laws can be met. */
  lemma LawsAreConsistent()
    ensures exists c: Crypto :: c.Lawful()
  {
    var zeros: Bytes := seq(TagLength, _ => 0);
    var c := Crypto((_, _, _, _) => [], (_, _, _) => [], (_, _, _, m: Bytes) => m + zeros,
      (_, _, _, s: Bytes) => if |s| >= TagLength && s[|s| - TagLength..] == zeros then Some(s[..|s| - TagLength]) else None);
    forall m: Bytes, s: Bytes ensures c.unseal([], [], [], s) == Some(m) <==> s == m + zeros {
      if |s| >= TagLength {
        assert s == s[..|s| - TagLength] + s[|s| - TagLength..];
      }
    }
    assert c.Lawful();
  }

  const PasswordAad: nat := 76
  const RecoveryAad: nat := 44
  const MaxPasswordLength: nat := 0xffff_ffff

  // ---------- unlocking ----------

  predicate CostOk(p: PasswordSlot) {
    MinOps <= p.opslimit <= MaxOps && MinMemory <= p.memlimit <= MaxMemory
  }

  /** password_key: the slot's own parameters, checked again before Argon2id runs. */
  function PasswordKey(c: Crypto, p: PasswordSlot, pw: Bytes): Result<Bytes> {
    if pw == [] || |pw| > MaxPasswordLength || !CostOk(p) then Err(Auth)
    else Ok(c.pwhash(pw, p.salt, p.opslimit, p.memlimit))
  }

  function Unwrap(c: Crypto, key: Bytes, nonce: Bytes, aad: Bytes, wrapped: Bytes): Result<Bytes> {
    match c.unseal(key, nonce, aad, wrapped)
    case Some(vmk) => if |vmk| == KeyLength then Ok(vmk) else Err(Auth)
    case None => Err(Auth)
  }

  /** pv_crypto_unlock_password, where memory is to be had. */
  function UnlockPassword(c: Crypto, h: Header, pw: Bytes): Result<Bytes>
    requires Sized(h)
  {
    var key :- PasswordKey(c, h.password, pw);
    Unwrap(c, key, h.password.nonce, HeaderBytes(h)[..PasswordAad], h.password.wrapped)
  }

  /** pv_crypto_unlock_recovery, where memory is to be had. */
  function UnlockRecovery(c: Crypto, h: Header, rk: Bytes): Result<Bytes>
    requires Sized(h)
  {
    Unwrap(c, c.recoveryKdf(rk), h.recovery.nonce, HeaderBytes(h)[..RecoveryAad], h.recovery.wrapped)
  }

  // ---------- the header object ----------

  /** The header with a password slot for `pw`. */
  function WithPassword(c: Crypto, h: Header, pw: Bytes, vmk: Bytes, salt: Bytes, nonce: Bytes): Header
    requires Sized(h) && |salt| == SaltLength && |nonce| == NonceLength
  {
    var blank := h.(password := PasswordSlot(MinOps, MinMemory, salt, nonce, h.password.wrapped));
    var key := c.pwhash(pw, salt, MinOps, MinMemory);
    blank.(password := blank.password.(wrapped := c.seal(key, nonce, HeaderBytes(blank)[..PasswordAad], vmk)))
  }

  /** The header with a recovery slot for `rk`. */
  function WithRecovery(c: Crypto, h: Header, rk: Bytes, vmk: Bytes, nonce: Bytes): Header
    requires Sized(h) && |nonce| == NonceLength
  {
    h.(recovery := RecoverySlot(nonce, c.seal(c.recoveryKdf(rk), nonce, HeaderBytes(h)[..RecoveryAad], vmk)))
  }

  /** The header under which a body of `padded` bytes is sealed. */
  function WithBody(h: Header, nonce: Bytes, padded: nat): Header {
    h.(bodyNonce := nonce, bodyLength := padded + TagLength)
  }

  predicate PasswordUsable(pw: Bytes) {
    0 < |pw| <= MaxPasswordLength
  }

  /** Taking secure memory: it may be missing, or may not be lockable. */
  predicate MemoryOutcome(st: Status) {
    st == OK || st == NoMem || st == SecureMemory
  }

  class FileHeader {
    var h: Header

    ghost predicate Valid()
      reads this
    {
      Sized(h)
    }

    /** pv_crypto_rewrap_password; `salt` and `nonce` are the random bytes drawn. */
    method RewrapPassword(c: Crypto, pw: Bytes, vmk: Bytes, salt: Bytes, nonce: Bytes, memory: Status, hashes: bool)
      returns (st: Status)
      requires Valid() && c.Lawful() && |vmk| == KeyLength && |salt| == SaltLength && |nonce| == NonceLength
      requires MemoryOutcome(memory)
      modifies this
      ensures Valid()
      ensures st == if memory != OK then memory else if !PasswordUsable(pw) then Auth else if !hashes then SecureMemory else OK
      ensures st == OK ==> h == WithPassword(c, old(h), pw, vmk, salt, nonce)
      ensures h == old(h).(password := h.password)
    {
      h := h.(password := PasswordSlot(MinOps, MinMemory, salt, nonce, h.password.wrapped));
      if memory != OK {
        return memory;
      }
      var key := PasswordKey(c, h.password, pw);
      if key.Err? {
        return key.status;
      }
      if !hashes {
        return SecureMemory;
      }
      var out := new byte[HeaderLength];
      Headers.Encode(h, out);
      h := h.(password := h.password.(wrapped := c.seal(key.value, nonce, out[..PasswordAad], vmk)));
      return OK;
    }

    /** pv_crypto_rewrap_recovery. */
    method RewrapRecovery(c: Crypto, rk: Bytes, vmk: Bytes, nonce: Bytes, memory: Status) returns (st: Status)
      requires Valid() && c.Lawful() && |vmk| == KeyLength && |nonce| == NonceLength && MemoryOutcome(memory)
      modifies this
      ensures Valid()
      ensures st == memory
      ensures st == OK ==> h == WithRecovery(c, old(h), rk, vmk, nonce)
      ensures h == old(h).(recovery := h.recovery)
    {
      ghost var before := h;
      h := h.(recovery := h.recovery.(nonce := nonce));
      if memory != OK {
        return memory;
      }
      var out := new byte[HeaderLength];
      Headers.Encode(h, out);
      AadUnchanged(before, h);
      h := h.(recovery := h.recovery.(wrapped := c.seal(c.recoveryKdf(rk), nonce, out[..RecoveryAad], vmk)));
      return OK;
    }

    /** pv_crypto_create_header: a fresh version 1.0 header with both slots. */
    method Create(c: Crypto, pw: Bytes, rk: Bytes, vmk: Bytes, drawnId: Bytes, salt: Bytes, nonce: Bytes, nonce2: Bytes,
      memory: Status, memory2: Status, hashes: bool) returns (st: Status)
      requires Valid() && c.Lawful() && |vmk| == KeyLength && |drawnId| == VaultIdLength
      requires |salt| == SaltLength && |nonce| == NonceLength && |nonce2| == NonceLength
      requires MemoryOutcome(memory) && MemoryOutcome(memory2)
      modifies this
      ensures Valid()
      ensures st == OK <==> memory == OK && PasswordUsable(pw) && hashes && memory2 == OK
      ensures st == OK ==>
        h == Created(c, if IsZero(old(h).vaultId) then drawnId else old(h).vaultId, pw, rk, vmk, salt, nonce, nonce2)
    {
      hide WithPassword, WithRecovery, Fresh, Crypto.Lawful, IsZero, HeaderBytes;
      var id := if IsZero(h.vaultId) then drawnId else h.vaultId;
      h := Fresh(id);
      st := RewrapPassword(c, pw, vmk, salt, nonce, memory, hashes);
      if st == OK {
        st := RewrapRecovery(c, rk, vmk, nonce2, memory2);
      }
    }
  }

  /** A new header: the constants, the identifier, a password slot and a recovery slot. */
  function Created(c: Crypto, id: Bytes, pw: Bytes, rk: Bytes, vmk: Bytes, salt: Bytes, nonce: Bytes, nonce2: Bytes): (h: Header)
    requires c.Lawful() && |id| == VaultIdLength && |vmk| == KeyLength
    requires |salt| == SaltLength && |nonce| == NonceLength && |nonce2| == NonceLength
    ensures Sized(h)
  {
    WithRecovery(c, WithPassword(c, Fresh(id), pw, vmk, salt, nonce), rk, vmk, nonce2)
  }

  /** The zeroed structure with the version 1.0 constants and an identifier. */
  function Fresh(id: Bytes): (h: Header)
    requires |id| == VaultIdLength
    ensures Sized(h)
  {
    var zeros := (n: nat) => seq(n, _ => 0);
    Header(Magic, 1, 0, HeaderLength, 0, id, 1, 1, 1, 2,
      PasswordSlot(0, 0, zeros(SaltLength), zeros(NonceLength), zeros(WrappedLength)),
      RecoverySlot(zeros(NonceLength), zeros(WrappedLength)), zeros(NonceLength), 0)
  }

  // ---------- independence of the slots ----------

  /** Same common part: what the recovery slot authenticates is the same. */
  predicate SameCommon(a: Header, b: Header) {
    && a.magic == b.magic && a.major == b.major && a.minor == b.minor && a.headerLength == b.headerLength && a.flags == b.flags
    && a.vaultId == b.vaultId && a.kdf == b.kdf && a.wrapAead == b.wrapAead && a.bodyAead == b.bodyAead && a.slots == b.slots
  }

  predicate SameCost(p: PasswordSlot, q: PasswordSlot) {
    p.opslimit == q.opslimit && p.memlimit == q.memlimit && p.salt == q.salt
  }

  /** The authenticated prefixes depend only on the fields they cover. */
  lemma AadUnchanged(a: Header, b: Header)
    requires Sized(a) && Sized(b) && SameCommon(a, b)
    ensures HeaderBytes(a)[..RecoveryAad] == HeaderBytes(b)[..RecoveryAad]
    ensures SameCost(a.password, b.password) ==> HeaderBytes(a)[..PasswordAad] == HeaderBytes(b)[..PasswordAad]
  {
    HeaderParts(a);
    HeaderParts(b);
    hide Little, SecretBytes, HeaderBytes;
  }

  /** And they cover those fields: equal prefixes mean equal fields, and equal headers in whole. */
  lemma AadCovers(a: Header, b: Header)
    requires Sized(a) && Sized(b)
    ensures HeaderBytes(a)[..RecoveryAad] == HeaderBytes(b)[..RecoveryAad] ==> SameCommon(a, b)
    ensures HeaderBytes(a)[..PasswordAad] == HeaderBytes(b)[..PasswordAad] ==> SameCommon(a, b) && SameCost(a.password, b.password)
    ensures HeaderBytes(a) == HeaderBytes(b) ==> a == b
  {
    hide HeaderBytes, FieldsOf, CommonBytes, CostBytes, SecretBytes;
    if HeaderBytes(a)[..RecoveryAad] == HeaderBytes(b)[..RecoveryAad] {
      CommonCovered(a, b);
    }
    if HeaderBytes(a)[..PasswordAad] == HeaderBytes(b)[..PasswordAad] {
      var s, t := HeaderBytes(a), HeaderBytes(b);
      assert s[..44] == s[..76][..44] && t[..44] == t[..76][..44];
      assert s[44..76] == s[..76][44..76] && t[44..76] == t[..76][44..76];
      CommonCovered(a, b);
      CostCovered(a, b);
    }
    FieldsOfBytes(a);
    FieldsOfBytes(b);
  }

  lemma CommonCovered(a: Header, b: Header)
    requires Sized(a) && Sized(b) && HeaderBytes(a)[..44] == HeaderBytes(b)[..44]
    ensures SameCommon(a, b)
  {
    HeaderParts(a);
    HeaderParts(b);
    CommonFields(a);
    CommonFields(b);
    hide Little, FromLittle, HeaderBytes, CommonBytes, CostBytes, SecretBytes;
    NumberBack(a.major, 2);
    NumberBack(b.major, 2);
    NumberBack(a.minor, 2);
    NumberBack(b.minor, 2);
    NumberBack(a.headerLength, 4);
    NumberBack(b.headerLength, 4);
    NumberBack(a.flags, 4);
    NumberBack(b.flags, 4);
    NumberBack(a.kdf, 2);
    NumberBack(b.kdf, 2);
    NumberBack(a.wrapAead, 2);
    NumberBack(b.wrapAead, 2);
    NumberBack(a.bodyAead, 2);
    NumberBack(b.bodyAead, 2);
    NumberBack(a.slots, 2);
    NumberBack(b.slots, 2);
  }

  lemma CostCovered(a: Header, b: Header)
    requires Sized(a) && Sized(b) && HeaderBytes(a)[44..76] == HeaderBytes(b)[44..76]
    ensures SameCost(a.password, b.password)
  {
    HeaderParts(a);
    HeaderParts(b);
    CostFields(a.password);
    CostFields(b.password);
    hide Little, FromLittle, HeaderBytes, CommonBytes, CostBytes, SecretBytes;
    NumberBack(a.password.opslimit, 8);
    NumberBack(b.password.opslimit, 8);
    NumberBack(a.password.memlimit, 8);
    NumberBack(b.password.memlimit, 8);
  }

  /** Anything that keeps the common part and the recovery slot keeps recovery. */
  lemma RecoveryUnchanged(c: Crypto, a: Header, b: Header, rk: Bytes)
    requires Sized(a) && Sized(b) && SameCommon(a, b) && a.recovery == b.recovery
    ensures UnlockRecovery(c, b, rk) == UnlockRecovery(c, a, rk)
  {
    hide HeaderBytes, SameCommon;
    AadUnchanged(a, b);
  }

  /** Anything that keeps the common part and the password slot keeps the password. */
  lemma PasswordUnchanged(c: Crypto, a: Header, b: Header, pw: Bytes)
    requires Sized(a) && Sized(b) && SameCommon(a, b) && a.password == b.password
    ensures UnlockPassword(c, b, pw) == UnlockPassword(c, a, pw)
  {
    hide HeaderBytes, SameCommon;
    AadUnchanged(a, b);
  }

  /** A new password unlocks, and recovery works for exactly the keys it worked for before. */
  lemma PasswordRewrapped(c: Crypto, h: Header, pw: Bytes, vmk: Bytes, salt: Bytes, nonce: Bytes, rk: Bytes)
    requires c.Lawful() && Sized(h) && |vmk| == KeyLength && |salt| == SaltLength && |nonce| == NonceLength && PasswordUsable(pw)
    ensures var n := WithPassword(c, h, pw, vmk, salt, nonce);
      Sized(n) && UnlockPassword(c, n, pw) == Ok(vmk) && UnlockRecovery(c, n, rk) == UnlockRecovery(c, h, rk)
  {
    hide HeaderBytes;
    var n := WithPassword(c, h, pw, vmk, salt, nonce);
    var mid := h.(password := PasswordSlot(MinOps, MinMemory, salt, nonce, h.password.wrapped));
    AadUnchanged(mid, n);
    RecoveryUnchanged(c, h, n, rk);
  }

  /** A new recovery key unlocks, and every password does what it did before. */
  lemma RecoveryRewrapped(c: Crypto, h: Header, rk: Bytes, vmk: Bytes, nonce: Bytes, pw: Bytes)
    requires c.Lawful() && Sized(h) && |vmk| == KeyLength && |nonce| == NonceLength
    ensures var n := WithRecovery(c, h, rk, vmk, nonce);
      Sized(n) && UnlockRecovery(c, n, rk) == Ok(vmk) && UnlockPassword(c, n, pw) == UnlockPassword(c, h, pw)
  {
    hide HeaderBytes;
    var n := WithRecovery(c, h, rk, vmk, nonce);
    AadUnchanged(h, n);
    PasswordUnchanged(c, h, n, pw);
  }

  /** Sealing a body touches neither slot. */
  lemma BodyKeepsSlots(c: Crypto, h: Header, nonce: Bytes, padded: nat, pw: Bytes, rk: Bytes)
    requires Sized(h) && |nonce| == NonceLength && padded <= MaxPlaintext
    ensures var n := WithBody(h, nonce, padded);
      Sized(n) && UnlockPassword(c, n, pw) == UnlockPassword(c, h, pw) && UnlockRecovery(c, n, rk) == UnlockRecovery(c, h, rk)
  {
    hide HeaderBytes, UnlockPassword, UnlockRecovery;
    var n := WithBody(h, nonce, padded);
    PasswordUnchanged(c, h, n, pw);
    RecoveryUnchanged(c, h, n, rk);
  }

  /** A created header opens with both credentials and is strict but for the body it does not have yet. */
  lemma CreatedUnlocks(c: Crypto, id: Bytes, pw: Bytes, rk: Bytes, vmk: Bytes, salt: Bytes, nonce: Bytes, nonce2: Bytes)
    requires c.Lawful() && |id| == VaultIdLength && !IsZero(id) && |vmk| == KeyLength && PasswordUsable(pw)
    requires |salt| == SaltLength && |nonce| == NonceLength && |nonce2| == NonceLength
    ensures var h := Created(c, id, pw, rk, vmk, salt, nonce, nonce2);
      Armed(h) && UnlockPassword(c, h, pw) == Ok(vmk) && UnlockRecovery(c, h, rk) == Ok(vmk)
  {
    hide HeaderBytes, UnlockPassword, UnlockRecovery, IsZero;
    PasswordRewrapped(c, Fresh(id), pw, vmk, salt, nonce, rk);
    RecoveryRewrapped(c, WithPassword(c, Fresh(id), pw, vmk, salt, nonce), rk, vmk, nonce2, pw);
  }

  /** Everything strict decoding asks for, except about the body. */
  predicate Armed(h: Header) {
    && Sized(h) && h.magic == Magic && h.major == 1 && h.minor == 0
    && !IsZero(h.vaultId) && h.headerLength == HeaderLength && h.flags == 0
    && h.kdf == 1 && h.wrapAead == 1 && h.bodyAead == 1 && h.slots == 2 && CostOk(h.password)
  }

  // ---------- any sequence of changes ----------

  /** The successful changes of a header's life. */
  datatype Change =
    | NewPassword(pw: Bytes, salt: Bytes, nonce: Bytes)
    | NewRecovery(rk: Bytes, nonce: Bytes)
    | NewBody(nonce: Bytes, padded: nat)

  predicate Drawn(x: Change) {
    match x
    case NewPassword(pw, salt, nonce) => PasswordUsable(pw) && |salt| == SaltLength && |nonce| == NonceLength
    case NewRecovery(rk, nonce) => |nonce| == NonceLength
    case NewBody(nonce, padded) => |nonce| == NonceLength && padded <= MaxPlaintext
  }

  function Apply(c: Crypto, h: Header, vmk: Bytes, x: Change): Header
    requires Sized(h) && Drawn(x)
  {
    match x
    case NewPassword(pw, salt, nonce) => WithPassword(c, h, pw, vmk, salt, nonce)
    case NewRecovery(rk, nonce) => WithRecovery(c, h, rk, vmk, nonce)
    case NewBody(nonce, padded) => WithBody(h, nonce, padded)
  }

  /** The credentials in force after the changes. */
  function Credentials(pw: Bytes, rk: Bytes, xs: seq<Change>): (Bytes, Bytes) {
    if xs == [] then (pw, rk)
    else
      var (p, r) := Credentials(pw, rk, xs[..|xs| - 1]);
      match xs[|xs| - 1]
      case NewPassword(q, _, _) => (q, r)
      case NewRecovery(q, _) => (p, q)
      case NewBody(_, _) => (p, r)
  }

  /** `hs` are the headers of a run of `xs`. */
  ghost predicate Run(c: Crypto, vmk: Bytes, hs: seq<Header>, xs: seq<Change>) {
    && |hs| == |xs| + 1 && Sized(hs[0])
    && forall k :: 0 <= k < |xs| ==> Sized(hs[k]) && Drawn(xs[k]) && hs[k + 1] == Apply(c, hs[k], vmk, xs[k])
  }

  lemma ApplyKeeps(c: Crypto, h: Header, vmk: Bytes, x: Change, pw: Bytes, rk: Bytes)
    requires c.Lawful() && Sized(h) && |vmk| == KeyLength && Drawn(x)
    requires UnlockPassword(c, h, pw) == Ok(vmk) && UnlockRecovery(c, h, rk) == Ok(vmk)
    ensures var n := Apply(c, h, vmk, x);
      var p := if x.NewPassword? then x.pw else pw;
      var r := if x.NewRecovery? then x.rk else rk;
      && Sized(n) && UnlockPassword(c, n, p) == Ok(vmk) && UnlockRecovery(c, n, r) == Ok(vmk)
      && (Armed(h) ==> Armed(n))
  {
    hide UnlockPassword, UnlockRecovery, HeaderBytes, Crypto.Lawful, IsZero;
    match x
    case NewPassword(p, salt, nonce) => PasswordRewrapped(c, h, p, vmk, salt, nonce, rk);
    case NewRecovery(r, nonce) => RecoveryRewrapped(c, h, r, vmk, nonce, pw);
    case NewBody(nonce, padded) => BodyKeepsSlots(c, h, nonce, padded, pw, rk);
  }

  /** After any sequence of changes, the latest password and the latest recovery key each unlock the same key. */
  lemma {:induction false} EitherCredentialUnlocks(c: Crypto, vmk: Bytes, hs: seq<Header>, xs: seq<Change>, pw: Bytes, rk: Bytes)
    requires c.Lawful() && |vmk| == KeyLength && Run(c, vmk, hs, xs)
    requires UnlockPassword(c, hs[0], pw) == Ok(vmk) && UnlockRecovery(c, hs[0], rk) == Ok(vmk)
    ensures var (p, r) := Credentials(pw, rk, xs);
      && Sized(hs[|xs|]) && UnlockPassword(c, hs[|xs|], p) == Ok(vmk) && UnlockRecovery(c, hs[|xs|], r) == Ok(vmk)
      && (Armed(hs[0]) ==> Armed(hs[|xs|]))
    decreases |xs|
  {
    hide UnlockPassword, UnlockRecovery, Apply, Drawn, Sized, Armed, Crypto.Lawful;
    if xs != [] {
      var n := |xs| - 1;
      assert Run(c, vmk, hs[..|xs|], xs[..n]);
      EitherCredentialUnlocks(c, vmk, hs[..|xs|], xs[..n], pw, rk);
      var (p, r) := Credentials(pw, rk, xs[..n]);
      assert hs[..|xs|][n] == hs[n] && hs[n + 1] == Apply(c, hs[n], vmk, xs[n]);
      ApplyKeeps(c, hs[n], vmk, xs[n], p, r);
    }
  }

  // ---------- the body ----------

  function PaddedLength(n: nat): (p: nat)
    ensures n + 4 <= p < n + 4 + Block && p % Block == 0
  {
    (n + 4 + Block - 1) / Block * Block
  }

  /** The length, the plaintext and the padding. */
  function Frame(plain: Bytes, pad: Bytes): Bytes {
    Little(|plain|, 4) + plain + pad
  }

  /** The checks behind decryption. */
  function ParseFrame(f: Bytes): Result<Bytes> {
    if |f| < 4 || |f| > MaxPlaintext || |f| % Block != 0 then Err(FormatError)
    else
      var n := FromLittle(f[..4]);
      if n > |f| - 4 || n == 0 then Err(FormatError) else Ok(f[4..4 + n])
  }

  /** Exactly the frames of non-empty plaintexts are accepted, with their plaintext. */
  lemma FrameExactly(f: Bytes, plain: Bytes)
    requires |f| % Block == 0 && |f| <= MaxPlaintext
    ensures ParseFrame(f) == Ok(plain) <==>
      plain != [] && |plain| + 4 <= |f| && f == Frame(plain, f[4 + |plain|..])
  {
    if 4 <= |f| {
      NumberForth(f[..4]);
      var n := FromLittle(f[..4]);
      if n <= |f| - 4 {
        assert f == f[..4] + f[4..4 + n] + f[4 + n..];
      }
      if plain != [] && |plain| + 4 <= |f| && f == Frame(plain, f[4 + |plain|..]) {
        NumberBack(|plain|, 4);
        assert f[..4] == Little(|plain|, 4) && f[4..4 + |plain|] == plain;
      }
    }
  }

  /** pv_crypto_decrypt_body, where memory is to be had. */
  function DecryptBody(c: Crypto, h: Header, vmk: Bytes, s: Bytes): Result<Bytes>
    requires Sized(h)
  {
    if |s| != h.bodyLength || |s| < Block + TagLength || (|s| - TagLength) % Block != 0 then Err(FormatError)
    else
      match c.unseal(c.bodyKdf(vmk), h.bodyNonce, HeaderBytes(h), s)
      case None => Err(Auth)
      case Some(f) => ParseFrame(f)
  }

  /** The sealed body under a header. */
  function SealBody(c: Crypto, h: Header, vmk: Bytes, plain: Bytes, pad: Bytes): Bytes
    requires Sized(h)
  {
    c.seal(c.bodyKdf(vmk), h.bodyNonce, HeaderBytes(h), Frame(plain, pad))
  }

  /** Decryption gives back what was sealed under the same header, and accepts nothing else. */
  lemma BodyExactly(c: Crypto, h: Header, vmk: Bytes, s: Bytes, plain: Bytes)
    requires c.Lawful() && Sized(h) && h.bodyLength <= MaxPlaintext + TagLength
    ensures DecryptBody(c, h, vmk, s) == Ok(plain) <==>
      && |s| == h.bodyLength && Block + TagLength <= |s| && (|s| - TagLength) % Block == 0
      && plain != [] && |plain| + 4 <= |s| - TagLength
      && exists pad :: s == SealBody(c, h, vmk, plain, pad) && |pad| == |s| - TagLength - 4 - |plain|
  {
    hide HeaderBytes, ParseFrame, Frame, Sized, Crypto.bodyKdf;
    var key := c.bodyKdf(vmk);
    if |s| == h.bodyLength && Block + TagLength <= |s| && (|s| - TagLength) % Block == 0 {
      if DecryptBody(c, h, vmk, s) == Ok(plain) {
        var f := c.unseal(key, h.bodyNonce, HeaderBytes(h), s).value;
        assert s == c.seal(key, h.bodyNonce, HeaderBytes(h), f);
        FrameExactly(f, plain);
        assert s == SealBody(c, h, vmk, plain, f[4 + |plain|..]);
      }
      if plain != [] && |plain| + 4 <= |s| - TagLength {
        forall pad | s == SealBody(c, h, vmk, plain, pad) && |pad| == |s| - TagLength - 4 - |plain|
          ensures DecryptBody(c, h, vmk, s) == Ok(plain) {
          var f := Frame(plain, pad);
          assert c.unseal(key, h.bodyNonce, HeaderBytes(h), s) == Some(f);
          FrameParts(plain, pad);
          FrameExactly(f, plain);
        }
      }
    }
  }

  lemma FrameParts(plain: Bytes, pad: Bytes)
    ensures |Frame(plain, pad)| == 4 + |plain| + |pad| && Frame(plain, pad)[4 + |plain|..] == pad
  {
  }

  /** pv_crypto_encrypt_body: pads to whole blocks and seals under the header it updates. */
  method EncryptBody(f: FileHeader, c: Crypto, vmk: Bytes, plain: Bytes, nonce: Bytes, pad: Bytes, memory: Status)
    returns (r: Result<Bytes>)
    requires f.Valid() && c.Lawful() && |nonce| == NonceLength && MemoryOutcome(memory)
    requires |pad| == PaddedLength(|plain|) - 4 - |plain|
    modifies f
    ensures f.Valid()
    ensures r.Err? ==> r.status == if plain == [] then Usage else if |plain| + 4 > MaxPlaintext then Limit else memory
    ensures r.Ok? <==> plain != [] && |plain| + 4 <= MaxPlaintext && memory == OK
    ensures r.Ok? ==> f.h == WithBody(old(f.h), nonce, PaddedLength(|plain|)) && r.value == SealBody(c, f.h, vmk, plain, pad)
    ensures r.Ok? ==> |r.value| == f.h.bodyLength && DecryptBody(c, f.h, vmk, r.value) == Ok(plain)
    ensures r.Err? ==> f.h == old(f.h)
  {
    hide HeaderBytes, Frame;
    if plain == [] {
      return Err(Usage);
    }
    if |plain| + 4 > MaxPlaintext {
      return Err(Limit);
    }
    var padded := PaddedLength(|plain|);
    PaddedFits(|plain|);
    if memory != OK {
      return Err(memory);
    }
    f.h := WithBody(f.h, nonce, padded);
    var out := new byte[HeaderLength];
    Headers.Encode(f.h, out);
    var s := c.seal(c.bodyKdf(vmk), nonce, out[..], Frame(plain, pad));
    assert out[..] == HeaderBytes(f.h);
    FrameParts(plain, pad);
    BodyExactly(c, f.h, vmk, s, plain);
    assert s == SealBody(c, f.h, vmk, plain, pad);
    return Ok(s);
  }

  lemma PaddedFits(n: nat)
    requires n + 4 <= MaxPlaintext
    ensures PaddedLength(n) <= MaxPlaintext
  {
  }
}

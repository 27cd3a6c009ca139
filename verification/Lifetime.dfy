/** Runs of the store over real vault files: what the active file holds, and exactly when it opens. */
module Lifetime {
  import opened Prelude
  import opened Headers
  import opened Keyslots
  import opened Plaintext
  import opened Layout
  import opened Snapshots
  import FileSystem
  import Protocol
  import Runs
  import Orphans
  import Witnesses
  import BackupNames

  /** `b` authenticates to the encoding of some valid vault. */
  ghost predicate IsVault(c: Crypto, vmk: Bytes, b: Bytes) {
    exists p :: Carries(c, b, vmk, p)
  }

  ghost function Vaults(c: Crypto, vmk: Bytes): iset<Bytes> {
    iset b | IsVault(c, vmk, b)
  }

  /** Saving `p` under the armed header `h` can give `b`. */
  ghost predicate Seals(c: Crypto, h: Header, vmk: Bytes, p: Plain, b: Bytes) {
    && Armed(h) && Sized(h) && Sealable(p)
    && exists nonce, pad :: |nonce| == NonceLength && Pads(p, pad) && b == Image(c, h, vmk, p, nonce, pad)
  }

  /** What the action seals, finished or not, is a vault under an armed header. */
  ghost predicate SealsVaults(c: Crypto, vmk: Bytes, a: Runs.Action) {
    (a.Create? || a.Save? || a.CrashInCreate? || a.CrashInSave?) ==> exists h, p :: Seals(c, h, vmk, p, a.sealed)
  }

  lemma SealedCarries(c: Crypto, h: Header, vmk: Bytes, p: Plain, b: Bytes)
    requires c.Lawful() && Seals(c, h, vmk, p, b)
    ensures Carries(c, b, vmk, p)
  {
    hide Image, Armed, EncPlainOf, PlainValid, BodyOf, Pads;
    var nonce, pad :| |nonce| == NonceLength && Pads(p, pad) && b == Image(c, h, vmk, p, nonce, pad);
    ImageDecrypts(c, h, vmk, p, nonce, pad);
  }

  /** Everything a step of a run publishes carries a vault: a save seals one, and a restore opened one. */
  lemma StepPublishesVaults(c: Crypto, vmk: Bytes, f: Protocol.Format, w: Runs.World, a: Runs.Action, w2: Runs.World)
    requires c.Lawful() && SealsVaults(c, vmk, a) && Runs.Does(f, w, a, w2)
    requires forall b :: f.opens(b) ==> OpenWith(c, b, vmk).Ok?
    ensures Runs.Publishes(a, Vaults(c, vmk))
  {
    hide OpenWith, Carries, Seals;
    if a.Create? || a.Save? || a.CrashInCreate? || a.CrashInSave? {
      var h, p :| Seals(c, h, vmk, p, a.sealed);
      SealedCarries(c, h, vmk, p, a.sealed);
    } else if a.Restore? || a.CrashInRestore? {
      OpenedCarries(c, a.image, vmk, OpenWith(c, a.image, vmk).value);
    }
  }

  /**
   In every run, with crashes anywhere, the active file carries exactly one valid vault, the one that was sealed; and it
   opens, to that vault, if and only if the vault's records fit when laid out afresh.
   */
  lemma ActiveOpensExactly(c: Crypto, vmk: Bytes, vaultId: Bytes, active: string, hash: Bytes -> Bytes, zero: Bytes,
    ws: seq<Runs.World>, as_: seq<Runs.Action>, n: nat) returns (p: Option<Plain>)
    requires c.Lawful() && |vaultId| == VaultIdLength
    requires (forall x, y :: hash(x) == hash(y) ==> x == y) && forall x :: hash(x) != zero
    requires var f := FormatOf(c, vmk, vaultId, active, hash, zero);
      Runs.IsRun(f, ws, as_) && Runs.Inv(f, ws[0]) && Runs.ActiveWithin(f, ws[0].fs, Vaults(c, vmk))
    requires n < |ws| && forall i :: 0 <= i < n ==> SealsVaults(c, vmk, as_[i])
    ensures var b := ws[n].fs.Content(FileSystem.Main, active);
      if b.None? then p == None
      else
        && p.Some? && Carries(c, b.value, vmk, p.value)
        && (OpenWith(c, b.value, vmk) == Ok(p.value) <==> AddAll(p.value.records).Some?)
        && (OpenWith(c, b.value, vmk).Err? <==> AddAll(p.value.records).None?)
  {
    hide Runs.Inv, Runs.Does, Runs.Publishes, SealsVaults, Carries, OpenWith, Protocol.Format.Lawful, Crypto.Lawful, IsSnapshot, VaultOf,
      GenerationOf, AutoGeneration;
    var f := FormatOf(c, vmk, vaultId, active, hash, zero);
    FormatIsLawful(c, vmk, vaultId, active, hash, zero);
    forall i | 0 <= i < n
      ensures Runs.Publishes(as_[i], Vaults(c, vmk))
    {
      StepPublishesVaults(c, vmk, f, ws[i], as_[i], ws[i + 1]);
    }
    Runs.RunsStayWithin(f, ws, as_, n, Vaults(c, vmk));
    Runs.RunsKeepInv(f, ws, as_, n);
    Runs.ActiveIsWithin(f, ws[n], Vaults(c, vmk));
    var b := ws[n].fs.Content(FileSystem.Main, active);
    p := None;
    if b.Some? {
      assert IsVault(c, vmk, b.value);
      var q :| Carries(c, b.value, vmk, q);
      p := Some(q);
      CarriesOpens(c, b.value, vmk, q);
    }
  }

  lemma SealedAdmissible(c: Crypto, h: Header, vmk: Bytes, p: Plain, b: Bytes, active: string, hash: Bytes -> Bytes, zero: Bytes)
    requires c.Lawful() && Seals(c, h, vmk, p, b)
    ensures var f := FormatOf(c, vmk, h.vaultId, active, hash, zero);
      Runs.SealedAt(f, b, p.generation) && (f.opens(b) <==> AddAll(p.records).Some?)
  {
    hide Image, Armed, EncPlainOf, PlainValid, Pads, AddAll, IsSnapshot, VaultOf, GenerationOf, OpenWith;
    var nonce, pad :| |nonce| == NonceLength && Pads(p, pad) && b == Image(c, h, vmk, p, nonce, pad);
    ImageIsAdmissible(c, h, vmk, p, nonce, pad, active, hash, zero);
  }

  /** Generations 1, 2 and 3 of a vault, and another 2 and 3, with the files they were sealed into. */
  ghost predicate FiveSaves(c: Crypto, h: Header, vmk: Bytes, ps: seq<Plain>, bs: seq<Bytes>) {
    && |ps| == |bs| == 5 && (forall i :: 0 <= i < 5 ==> Seals(c, h, vmk, ps[i], bs[i]))
    && ps[0].generation == 1 && ps[1].generation == ps[3].generation == 2 && ps[2].generation == ps[4].generation == 3
    && AddAll(ps[0].records).Some? && ps[1] != ps[3]
  }

  lemma FiveSealed(c: Crypto, h: Header, vmk: Bytes, ps: seq<Plain>, bs: seq<Bytes>, active: string, hash: Bytes -> Bytes, zero: Bytes)
    requires c.Lawful() && FiveSaves(c, h, vmk, ps, bs)
    ensures var f := FormatOf(c, vmk, h.vaultId, active, hash, zero);
      && Runs.SealedAt(f, bs[0], 1) && f.opens(bs[0]) && Runs.SealedAt(f, bs[1], 2) && Runs.SealedAt(f, bs[2], 3)
      && Runs.SealedAt(f, bs[3], 2) && Runs.SealedAt(f, bs[4], 3) && bs[1] != bs[3]
  {
    hide FormatOf, Seals, AddAll, Runs.SealedAt, Carries, Crypto.Lawful, OpenWith;
    SealedAdmissible(c, h, vmk, ps[0], bs[0], active, hash, zero);
    SealedAdmissible(c, h, vmk, ps[1], bs[1], active, hash, zero);
    SealedAdmissible(c, h, vmk, ps[2], bs[2], active, hash, zero);
    SealedAdmissible(c, h, vmk, ps[3], bs[3], active, hash, zero);
    SealedAdmissible(c, h, vmk, ps[4], bs[4], active, hash, zero);
    SealedCarries(c, h, vmk, ps[1], bs[1]);
    SealedCarries(c, h, vmk, ps[3], bs[3]);
    CarriesOpens(c, bs[1], vmk, ps[1]);
  }

  /**
   Any vault can lose its history that way: whatever was saved as generations 1, 2 and 3, and then, after the crash, as
   another 2 and 3, there is such a run over the real files.
   */
  lemma AnyVaultCanLoseHistory(c: Crypto, h: Header, vmk: Bytes, active: string, hash: Bytes -> Bytes, zero: Bytes,
    ps: seq<Plain>, bs: seq<Bytes>) returns (ws: seq<Runs.World>, as_: seq<Runs.Action>)
    requires c.Lawful() && |h.vaultId| == VaultIdLength && FiveSaves(c, h, vmk, ps, bs)
    requires (forall x, y :: hash(x) == hash(y) ==> x == y) && forall x :: hash(x) != zero
    ensures Orphans.LosesHistory(FormatOf(c, vmk, h.vaultId, active, hash, zero), ws, as_)
  {
    hide FormatOf, Seals, AddAll, Protocol.Format.Lawful, Runs.SealedAt, Orphans.LosesHistory, Crypto.Lawful;
    FormatIsLawful(c, vmk, h.vaultId, active, hash, zero);
    FiveSealed(c, h, vmk, ps, bs, active, hash, zero);
    ws, as_ := Orphans.LostHistoryRun(FormatOf(c, vmk, h.vaultId, active, hash, zero), bs[0], bs[1], bs[2], bs[3], bs[4]);
  }

  lemma PreNameManaged(c: Crypto, vmk: Bytes, vaultId: Bytes, active: string, hash: Bytes -> Bytes, zero: Bytes, n: string)
    requires !BackupNames.IsTemp(n) && AutoGeneration(vaultId, n).None?
    ensures var f := FormatOf(c, vmk, vaultId, active, hash, zero); f.Managed(FileSystem.Backups, n) && f.parseAuto(n).None?
  {
  }

  /** Over the real files too, a save can be refused over its own backup, and a restore can revive a handle. */
  lemma AnyVaultCanMisreadAndRevive(c: Crypto, h: Header, vmk: Bytes, active: string, hash: Bytes -> Bytes, zero: Bytes,
    ps: seq<Plain>, bs: seq<Bytes>, preName: string)
    requires c.Lawful() && |h.vaultId| == VaultIdLength && FiveSaves(c, h, vmk, ps, bs)
    requires (forall x, y :: hash(x) == hash(y) ==> x == y) && forall x :: hash(x) != zero
    requires !BackupNames.IsTemp(preName) && AutoGeneration(h.vaultId, preName).None?
    ensures exists ws, as_ :: Witnesses.Misreads(FormatOf(c, vmk, h.vaultId, active, hash, zero), ws, as_, bs[0])
    ensures exists ws, as_ :: Witnesses.Revives(FormatOf(c, vmk, h.vaultId, active, hash, zero), ws, as_, bs[0], bs[2])
  {
    hide FormatOf, Seals, AddAll, Protocol.Format.Lawful, Runs.SealedAt, Witnesses.Misreads, Witnesses.Revives, Crypto.Lawful,
      Protocol.Format.Managed;
    var f := FormatOf(c, vmk, h.vaultId, active, hash, zero);
    FormatIsLawful(c, vmk, h.vaultId, active, hash, zero);
    FiveSealed(c, h, vmk, ps, bs, active, hash, zero);
    PreNameManaged(c, vmk, h.vaultId, active, hash, zero, preName);
    var ws, as_ := Witnesses.MisreadRun(f, bs[0], bs[1], bs[3]);
    var us, bs_ := Witnesses.RevivedRun(f, bs[0], bs[1], bs[2], preName);
  }
}

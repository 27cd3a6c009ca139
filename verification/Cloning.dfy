/** pv_model_clone: a vault built afresh from the records of another. */
module Cloning {
  import opened Prelude
  import opened Records
  import opened Layout
  import opened Vaults
  import opened Plaintext
  import Model

  predicate AllContentValid(rs: seq<Record>) {
    forall k :: 0 <= k < |rs| ==> ContentValid(rs[k])
  }

  /** The `k`-th record of a sound vault, added to a copy of those before it, meets no refusal but for content or space. */
  lemma NextCloned(rs: seq<Record>, k: nat, used: nat, cap: nat)
    requires Model.IdsSound(rs) && k < |rs| && AddAll(rs[..k]) == Some((used, cap))
    ensures AddStatus(rs[k], false, used, cap, rs[..k]) == OK <==> AddAll(rs[..k + 1]).Some?
    ensures AddStatus(rs[k], false, used, cap, rs[..k]) == OK ==> AddAll(rs[..k + 1]) == Layout.Add(used, cap, k, rs[k])
    ensures ContentValid(rs[k]) && AddStatus(rs[k], false, used, cap, rs[..k]) != OK ==> AddStatus(rs[k], false, used, cap, rs[..k]) == Limit
    ensures Typed(rs[k]) && !IsZero(rs[k].id) && rs[k].revision != 0 && rs[..k + 1] == rs[..k] + [rs[k]]
  {
    hide PutRecord, IsZero, Typed;
    assert rs[..k + 1][..k] == rs[..k];
    forall i | 0 <= i < k ensures rs[..k][i].id != rs[k].id {
      assert rs[i].id != rs[k].id;
    }
  }

  lemma AnswersAre(r: Record, st: Status)
    ensures ContentAnswer(r, st) ==> st == OK || st == Limit || st == FormatError
  {
  }

  lemma Unchanged(r: Record, now: int)
    requires !IsZero(r.id) && r.revision != 0
    ensures Completed(r, [], now) == r
  {
  }

  /** The copy has the same records, in the arena a decoder would use; it exists if and only if they fit that way. */
  method Clone(source: Vault, now: int) returns (st: Status, copy: Vault)
    requires source.Valid() && IsTime(now)
    ensures fresh(copy) && fresh(copy.arena) && fresh(copy.arena.buf) && copy.Valid()
    ensures st == OK <==> AllContentValid(source.Contents()) && AddAll(source.Contents()).Some?
    ensures st != OK ==> st == Limit || (st == FormatError && !AllContentValid(source.Contents()))
    ensures st == OK ==> copy.Contents() == source.Contents()
    ensures st == OK ==> Some((copy.arena.used, copy.capacity)) == AddAll(copy.Contents())
    ensures st == OK ==> copy.generation == source.generation && copy.deviceId == source.deviceId && copy.dirty == source.dirty
    ensures st == OK ==> copy.created == source.created && copy.updated == source.updated
  {
    hide Model.Sound, Model.Views, AddAll, AddStatus, Layout.Add, ContentValid, IsZero, Typed, Completed, Model.IdsSound, ContentAnswer, StoredFrom;
    copy := new Vault();
    copy.deviceId, copy.generation := source.deviceId, source.generation;
    var rs := source.Contents();
    SoundIds(source.arena.buf[..], source.arena.used, source.capacity, source.records);
    assert rs[..0] == [];
    for i := 0 to |rs|
      invariant fresh(copy) && fresh(copy.arena) && fresh(copy.arena.buf) && copy.Valid() && !copy.arena.readonly
      invariant copy.Contents() == rs[..i] && Some((copy.arena.used, copy.capacity)) == AddAll(rs[..i])
      invariant forall k :: 0 <= k < i ==> ContentValid(rs[k])
      invariant copy.deviceId == source.deviceId && copy.generation == source.generation
      invariant source.Valid() && source.Contents() == rs
    {
      NextCloned(rs, i, copy.arena.used, copy.capacity);
      Unchanged(rs[i], now);
      st := copy.Add(rs[i], [], now, true);
      if st != OK {
        AnswersAre(rs[i], st);
        if AddAll(rs).Some? {
          AddAllPrefix(rs, i + 1);
        }
        return;
      }
    }
    assert rs[..|rs|] == rs;
    copy.created, copy.updated, copy.dirty := source.created, source.updated, source.dirty;
    st := OK;
  }

  lemma SoundIds(mem: Bytes, used: nat, cap: nat, rs: seq<Model.Stored>)
    requires Model.Sound(mem, used, cap, rs)
    ensures Model.IdsSound(Model.Views(mem, rs))
  {
  }
}

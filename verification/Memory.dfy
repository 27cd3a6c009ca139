/**
 Text in the arena: slices as (offset, length) pairs over a byte sequence, when two of them are apart, and
 what copying above the used part and wiping a slice do to everybody else's text.
 */
module Memory {
  import opened Prelude

  /** pv_slice, with the pointer as an offset into the arena. */
  datatype Slice = Slice(off: nat, len: nat)

  const Nothing: Slice := Slice(0, 0)

  /** The bytes a slice denotes; an empty slice denotes nothing wherever it points. */
  function Text(mem: Bytes, s: Slice): (t: Bytes)
    ensures s.off + s.len <= |mem| ==> |t| == s.len
  {
    if s.len == 0 || s.off + s.len > |mem| then [] else mem[s.off..s.off + s.len]
  }

  function Texts(mem: Bytes, ss: seq<Slice>): (ts: seq<Bytes>)
    ensures |ts| == |ss|
  {
    seq(|ss|, k requires 0 <= k < |ss| => Text(mem, ss[k]))
  }

  /** Inside `[lo, hi)`, together with its terminating zero byte. */
  predicate Between(s: Slice, lo: nat, hi: nat) {
    s.len == 0 || lo <= s.off <= s.off + s.len + 1 <= hi
  }

  predicate Apart(a: Slice, b: Slice) {
    a.len == 0 || b.len == 0 || a.off + a.len <= b.off || b.off + b.len <= a.off
  }

  predicate AllBetween(ss: seq<Slice>, lo: nat, hi: nat) {
    forall k :: 0 <= k < |ss| ==> Between(ss[k], lo, hi)
  }

  predicate Disjoint(ss: seq<Slice>) {
    forall i, j :: 0 <= i < j < |ss| ==> Apart(ss[i], ss[j])
  }

  predicate Separate(a: seq<Slice>, b: seq<Slice>) {
    forall i, j :: 0 <= i < |a| && 0 <= j < |b| ==> Apart(a[i], b[j])
  }

  /** The texts `ts` have been copied into `[lo, hi)`, one behind the other. */
  predicate Placed(mem: Bytes, ss: seq<Slice>, ts: seq<Bytes>, lo: nat, hi: nat) {
    && lo <= hi <= |mem| && AllBetween(ss, lo, hi) && Disjoint(ss)
    && Texts(mem, ss) == ts
  }

  /** Bytes below `hi` are as they were. */
  predicate SameBelow(mem: Bytes, later: Bytes, hi: nat) {
    && |mem| == |later|
    && forall p :: 0 <= p < hi && p < |mem| ==> mem[p] == later[p]
  }

  lemma TextKept(mem: Bytes, later: Bytes, s: Slice, lo: nat, hi: nat)
    requires SameBelow(mem, later, hi) && Between(s, lo, hi) && hi <= |mem|
    ensures Text(later, s) == Text(mem, s)
  {
  }

  lemma TextsKept(mem: Bytes, later: Bytes, ss: seq<Slice>, lo: nat, hi: nat)
    requires SameBelow(mem, later, hi) && AllBetween(ss, lo, hi) && hi <= |mem|
    ensures Texts(later, ss) == Texts(mem, ss)
  {
    hide SameBelow;
    forall k | 0 <= k < |ss| ensures Text(later, ss[k]) == Text(mem, ss[k]) {
      TextKept(mem, later, ss[k], lo, hi);
    }
  }

  /** Nothing is placed anywhere. */
  lemma PlacedNone(mem: Bytes, at: nat)
    requires at <= |mem|
    ensures Placed(mem, [], [], at, at)
  {
  }

  /** Two neighbouring stretches, the second written after the first, make one. */
  lemma PlacedConcat(mem: Bytes, later: Bytes, a: seq<Slice>, s: seq<Bytes>, b: seq<Slice>, t: seq<Bytes>, lo: nat, mid: nat, hi: nat)
    requires Placed(mem, a, s, lo, mid) && SameBelow(mem, later, mid) && Placed(later, b, t, mid, hi)
    ensures Placed(later, a + b, s + t, lo, hi)
  {
    TextsKept(mem, later, a, lo, mid);
    hide SameBelow;
    assert Texts(later, a + b) == Texts(later, a) + Texts(later, b);
    forall k | 0 <= k < |a + b| ensures Between((a + b)[k], lo, hi) {
      if k < |a| {
        assert Between(a[k], lo, mid);
      } else {
        assert Between(b[k - |a|], mid, hi);
      }
    }
    forall i, j | 0 <= i < j < |a + b| ensures Apart((a + b)[i], (a + b)[j]) {
      if j < |a| {
        assert Apart(a[i], a[j]);
      } else if i >= |a| {
        assert Apart(b[i - |a|], b[j - |a|]);
      } else {
        assert Between(a[i], lo, mid) && Between(b[j - |a|], mid, hi);
      }
    }
  }

  /** Stretches on the two sides of `mid` are separate. */
  lemma SidesSeparate(a: seq<Slice>, b: seq<Slice>, lo: nat, mid: nat, hi: nat)
    requires AllBetween(a, lo, mid) && AllBetween(b, mid, hi)
    ensures Separate(a, b) && Separate(b, a)
  {
    forall i, j | 0 <= i < |a| && 0 <= j < |b| ensures Apart(a[i], b[j]) && Apart(b[j], a[i]) {
      assert Between(a[i], lo, mid) && Between(b[j], mid, hi);
    }
  }

  // ---------- wiping ----------

  predicate Covers(s: Slice, p: int) {
    s.off <= p < s.off + s.len
  }

  predicate Covered(ss: seq<Slice>, p: int) {
    exists k :: 0 <= k < |ss| && Covers(ss[k], p)
  }

  /** Every byte of the given slices zeroed, and no other. */
  function Wiped(mem: Bytes, ss: seq<Slice>): (w: Bytes)
    ensures |w| == |mem|
  {
    seq(|mem|, p requires 0 <= p < |mem| => if Covered(ss, p) then 0 else mem[p])
  }

  lemma WipedNone(mem: Bytes)
    ensures Wiped(mem, []) == mem
  {
  }

  lemma WipedOne(mem: Bytes, s: Slice, later: Bytes)
    requires |later| == |mem|
    requires forall p :: 0 <= p < |mem| ==> later[p] == if Covers(s, p) then 0 else mem[p]
    ensures later == Wiped(mem, [s])
  {
    forall p | 0 <= p < |mem| ensures later[p] == Wiped(mem, [s])[p] {
      assert Covered([s], p) <==> Covers(s, p) by {
        assert [s][0] == s;
      }
    }
  }

  lemma WipedMore(mem: Bytes, ss: seq<Slice>, s: Slice)
    ensures Wiped(Wiped(mem, ss), [s]) == Wiped(mem, ss + [s])
  {
    forall p | 0 <= p < |mem| ensures Wiped(Wiped(mem, ss), [s])[p] == Wiped(mem, ss + [s])[p] {
      assert Covered([s], p) <==> Covers(s, p) by {
        assert [s][0] == s;
      }
      assert Covered(ss + [s], p) <==> Covered(ss, p) || Covers(s, p) by {
        if Covered(ss, p) {
          var k :| 0 <= k < |ss| && Covers(ss[k], p);
          assert (ss + [s])[k] == ss[k];
        }
        assert (ss + [s])[|ss|] == s;
      }
    }
  }

  /** Nothing is left of the given slices. */
  predicate Blanked(mem: Bytes, ss: seq<Slice>) {
    forall p :: 0 <= p < |mem| && Covered(ss, p) ==> mem[p] == 0
  }

  lemma WipedBlanks(mem: Bytes, ss: seq<Slice>)
    ensures Blanked(Wiped(mem, ss), ss)
  {
  }

  lemma WipedKeeps(mem: Bytes, ss: seq<Slice>, s: Slice)
    requires forall k :: 0 <= k < |ss| ==> Apart(s, ss[k])
    ensures Text(Wiped(mem, ss), s) == Text(mem, s)
  {
    if s.len != 0 && s.off + s.len <= |mem| {
      forall p | s.off <= p < s.off + s.len ensures Wiped(mem, ss)[p] == mem[p] {
        forall k | 0 <= k < |ss| ensures !Covers(ss[k], p) {
          assert Apart(s, ss[k]);
        }
      }
    }
  }

  lemma WipedKeepsAll(mem: Bytes, ss: seq<Slice>, others: seq<Slice>)
    requires Separate(others, ss)
    ensures Texts(Wiped(mem, ss), others) == Texts(mem, others)
  {
    forall k | 0 <= k < |others| ensures Text(Wiped(mem, ss), others[k]) == Text(mem, others[k]) {
      WipedKeeps(mem, ss, others[k]);
    }
  }
}

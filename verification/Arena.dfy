/** The secure bump arena (src/arena.c): aligned blocks handed out in order, never freed one by one. */
module Arenas {
  import opened Prelude
  import opened Buffers
  import opened Layout
  import opened Memory

  predicate PowerOfTwo(n: nat) {
    n == 1 || (n > 1 && n % 2 == 0 && PowerOfTwo(n / 2))
  }

  /** Only `[lo, hi)` differs, and it is all zero. */
  predicate Cleared(mem: Bytes, later: Bytes, lo: nat, hi: nat) {
    && |later| == |mem|
    && forall p :: 0 <= p < |mem| ==> later[p] == if lo <= p < hi then 0 else mem[p]
  }

  class Arena {
    const buf: array<byte>
    var used: nat
    var readonly: bool

    ghost predicate Valid()
      reads this
    {
      used <= buf.Length
    }

    constructor (capacity: nat)
      requires 0 < capacity <= ArenaCapacity
      ensures Valid() && fresh(buf) && used == 0 && !readonly && buf.Length == capacity
      ensures forall p :: 0 <= p < capacity ==> buf[p] == 0
    {
      buf := new byte[capacity](_ => 0);
      used := 0;
      readonly := false;
    }

    /** pv_arena_alloc: the next aligned block, zeroed, when it fits. */
    method Alloc(size: nat, align: nat) returns (at: Option<nat>)
      requires Valid()
      modifies `used, buf
      ensures Valid()
      ensures at.Some? <==>
        !readonly && size > 0 && PowerOfTwo(align) && AlignUp(old(used), align) + size <= buf.Length
      ensures at.None? ==> used == old(used) && buf[..] == old(buf[..])
      ensures at.Some? ==>
        && at.value == AlignUp(old(used), align) && used == at.value + size
        && Cleared(old(buf[..]), buf[..], at.value, used)
    {
      if readonly || size == 0 || !PowerOfTwo(align) {
        return None;
      }
      var start := AlignUp(used, align);
      if start + size > buf.Length {
        return None;
      }
      forall p | start <= p < start + size {
        buf[p] := 0;
      }
      used := start + size;
      return Some(start);
    }

    /** pv_arena_copy: a private copy with a terminating zero; an empty text takes no space. */
    method Copy(t: Bytes, max: nat) returns (st: Status, s: Slice)
      requires Valid()
      modifies `used, buf
      ensures Valid()
      ensures st == OK <==> |t| <= max && (t == [] || (!readonly && old(used) + |t| + 1 <= buf.Length))
      ensures st != OK ==> st == Limit && used == old(used) && buf[..] == old(buf[..])
      ensures st == OK ==> used == old(used) + TextCost(t) && Placed(buf[..], [s], [t], old(used), used)
      ensures st == OK && t != [] ==> buf[used - 1] == 0
      ensures SameBelow(old(buf[..]), buf[..], old(used))
    {
      if |t| > max {
        return Limit, Nothing;
      }
      if t == [] {
        assert Texts(buf[..], [Nothing]) == [t];
        return OK, Nothing;
      }
      ghost var before := buf[..];
      var at := Alloc(|t| + 1, 1);
      if at.None? {
        return Limit, Nothing;
      }
      CopyInto(buf, at.value, t);
      s := Slice(at.value, |t|);
      st := OK;
      CopyPlaces(before, t, at.value, buf[..]);
    }

    /** sodium_memzero over each of the given slices. */
    method Wipe(ss: seq<Slice>)
      requires Valid() && AllBetween(ss, 0, used) && !readonly
      modifies buf
      ensures buf[..] == Wiped(old(buf[..]), ss)
    {
      ghost var before := buf[..];
      WipedNone(before);
      for k := 0 to |ss|
        invariant buf[..] == Wiped(before, ss[..k])
      {
        assert Between(ss[k], 0, used);
        ghost var mid := buf[..];
        forall p | ss[k].off <= p < ss[k].off + ss[k].len {
          buf[p] := 0;
        }
        WipedOne(mid, ss[k], buf[..]);
        WipedMore(before, ss[..k], ss[k]);
        assert ss[..k + 1] == ss[..k] + [ss[k]];
      }
      assert ss[..|ss|] == ss;
    }

    /** pv_arena_set_readonly. */
    method SetReadOnly(works: bool) returns (st: Status)
      modifies `readonly
      ensures st == OK <==> works
      ensures readonly == (old(readonly) || works)
      ensures st == OK || st == SecureMemory
    {
      if !works {
        return SecureMemory;
      }
      readonly := true;
      return OK;
    }

    /** pv_arena_set_readwrite, where the page protection call may fail. */
    method SetReadWrite(works: bool) returns (st: Status)
      modifies `readonly
      ensures st == OK <==> works
      ensures readonly == (old(readonly) && !works)
      ensures st == OK || st == SecureMemory
    {
      if !works {
        return SecureMemory;
      }
      readonly := false;
      return OK;
    }
  }

  /** Clearing a block for `t` and its terminator and copying `t` there places it. */
  lemma CopyPlaces(before: Bytes, t: Bytes, at: nat, after: Bytes)
    requires t != [] && at + |t| + 1 <= |before|
    requires exists mid :: Cleared(before, mid, at, at + |t| + 1) && after == Splice(mid, at, t)
    ensures Placed(after, [Slice(at, |t|)], [t], at, at + |t| + 1)
    ensures after[at + |t|] == 0 && SameBelow(before, after, at)
  {
    var mid :| Cleared(before, mid, at, at + |t| + 1) && after == Splice(mid, at, t);
    assert after[at..at + |t|] == t;
    assert Texts(after, [Slice(at, |t|)]) == [t];
  }

  // ---------- all blocks of an arena ----------

  datatype Request = Request(size: nat, align: nat)

  /** What `Alloc` promises of one call: `u` and `v` are the used bytes before and after it. */
  predicate Allocates(u: nat, q: Request, at: Option<nat>, v: nat) {
    match at
    case None => v == u
    case Some(start) => q.size > 0 && q.align > 0 && start == AlignUp(u, q.align) && v == start + q.size
  }

  /** A sequence of calls on one arena. */
  predicate Calls(us: seq<nat>, qs: seq<Request>, ats: seq<Option<nat>>) {
    && |us| == |qs| + 1 && |ats| == |qs|
    && forall k :: 0 <= k < |qs| ==> Allocates(us[k], qs[k], ats[k], us[k + 1])
  }

  lemma {:induction false} UsedGrows(us: seq<nat>, qs: seq<Request>, ats: seq<Option<nat>>, i: nat, j: nat)
    requires Calls(us, qs, ats) && i <= j < |us|
    ensures us[i] <= us[j]
    decreases j
  {
    if i < j {
      UsedGrows(us, qs, ats, i, j - 1);
      assert Allocates(us[j - 1], qs[j - 1], ats[j - 1], us[j]);
    }
  }

  /** A multiple of `align`. */
  lemma AlignedUp(u: nat, align: nat) returns (q: nat)
    requires align > 0
    ensures AlignUp(u, align) == q * align
  {
    q := if u % align == 0 then u / align else u / align + 1;
    assert u == u / align * align + u % align;
    if u % align != 0 {
      assert (u / align + 1) * align == u / align * align + align;
    }
  }

  /** Blocks handed out by one arena, in any sequence of calls, never overlap, and lie below what is used at the end. */
  lemma BlocksApart(us: seq<nat>, qs: seq<Request>, ats: seq<Option<nat>>, i: nat, j: nat)
    requires Calls(us, qs, ats) && i < j < |qs| && ats[i].Some? && ats[j].Some?
    ensures us[i] <= ats[i].value && ats[i].value + qs[i].size <= ats[j].value
    ensures ats[j].value + qs[j].size <= us[|qs|]
  {
    assert Allocates(us[i], qs[i], ats[i], us[i + 1]);
    assert Allocates(us[j], qs[j], ats[j], us[j + 1]);
    UsedGrows(us, qs, ats, i + 1, j);
    UsedGrows(us, qs, ats, j + 1, |qs|);
  }
}

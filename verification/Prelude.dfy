/** Types shared by every module: bytes, optional values and the status codes. */
module Prelude {
  type byte = b: int | 0 <= b < 256

  type Bytes = seq<byte>

  datatype Option<+T> = None | Some(value: T)

  /** The status codes of include/pvault/pvault.h. */
  datatype Status =
    | OK
    | Usage
    | Auth
    | IO
    | SecureMemory
    | Locked
    | External
    | FormatError
    | Limit
    | NotFound
    | Exists
    | StateError
    | Durability
    | NoMem
    | Unsupported

  datatype Result<+T> = Ok(value: T) | Err(status: Status) {
    predicate IsFailure() {
      Err?
    }

    function PropagateFailure<U>(): Result<U>
      requires Err?
    {
      Err(status)
    }

    function Extract(): T
      requires Ok?
    {
      value
    }
  }

  /** One more than UINT64_MAX. */
  const Uint64: nat := 0x1_0000_0000_0000_0000

  /** PV_MAX_PLAINTEXT and PV_FILE_HEADER_LEN. */
  const MaxPlaintext: nat := 2 * 1024 * 1024
  const HeaderLength: nat := 252

  /** The byte-wise OR over an identifier is zero. */
  predicate IsZero(id: Bytes) {
    forall k :: 0 <= k < |id| ==> id[k] == 0
  }

  /** 256 to the power `n`. */
  function Pow(n: nat): (p: nat)
    ensures p > 0
  {
    if n == 0 then 1 else 256 * Pow(n - 1)
  }

  lemma PowValues()
    ensures Pow(1) == 0x100 && Pow(2) == 0x1_0000 && Pow(4) == 0x1_0000_0000 && Pow(8) == Uint64
  {
    assert Pow(2) == 256 * Pow(1);
    assert Pow(3) == 256 * Pow(2);
    assert Pow(4) == 256 * Pow(3);
    assert Pow(5) == 256 * Pow(4);
    assert Pow(6) == 256 * Pow(5);
    assert Pow(7) == 256 * Pow(6);
    assert Pow(8) == 256 * Pow(7);
  }

  /** Division takes the whole part. */
  lemma Whole(q: nat, p: nat, s: nat)
    requires s < p
    ensures (q * p + s) / p == q
  {
    var t := (q * p + s) / p;
    assert q * p + s == t * p + (q * p + s) % p;
    assert t < q ==> (t + 1) * p <= q * p;
    assert t > q ==> (q + 1) * p <= t * p;
  }

  /** Dividing by 256, or by ten, and then by `p`. */
  lemma DividedTwice(v: nat, p: nat)
    requires p > 0
    ensures v / 256 / p == v / (256 * p)
  {
    var q, s, t := v / 256 / p, v / 256 % p, v % 256;
    assert v / 256 == q * p + s;
    assert q * (256 * p) == 256 * (q * p);
    assert v == q * (256 * p) + (256 * s + t);
    Whole(q, 256 * p, 256 * s + t);
  }

  lemma TenthDivided(v: nat, p: nat)
    requires p > 0
    ensures v / 10 / p == v / (10 * p)
  {
    var q, s, t := v / 10 / p, v / 10 % p, v % 10;
    assert v / 10 == q * p + s;
    assert q * (10 * p) == 10 * (q * p);
    assert v == q * (10 * p) + (10 * s + t);
    Whole(q, 10 * p, 10 * s + t);
  }
}

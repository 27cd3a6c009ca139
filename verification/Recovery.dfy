/** The recovery key as text: Crockford base 32 over the key and its checksum, in groups of five. */
module Recovery {
  import opened Prelude

  // ---------- bits ----------

  function Pow2(n: nat): (p: nat)
    ensures p > 0
  {
    if n == 0 then 1 else 2 * Pow2(n - 1)
  }

  /** The low `n` bits of `v`, most significant first. */
  function Bits(v: nat, n: nat): (s: seq<bool>)
    ensures |s| == n
  {
    if n == 0 then [] else Bits(v / 2, n - 1) + [v % 2 == 1]
  }

  function Zeros(n: nat): (s: seq<bool>)
    ensures |s| == n
  {
    seq(n, _ => false)
  }

  /** All bits of a sequence of `w`-bit values. */
  function Spread(s: seq<nat>, w: nat): (r: seq<bool>)
    ensures |r| == w * |s|
  {
    if s == [] then [] else Spread(s[..|s| - 1], w) + Bits(s[|s| - 1], w)
  }

  /** `v >> k`. */
  function ShiftRight(v: nat, k: nat): nat {
    if k == 0 then v else ShiftRight(v / 2, k - 1)
  }

  /** `v & ((1 << k) - 1)`. */
  function Mask(v: nat, k: nat): (r: nat)
    ensures r < Pow2(k)
  {
    if k == 0 then 0 else 2 * Mask(v / 2, k - 1) + v % 2
  }

  lemma {:induction false} ShiftRightBound(v: nat, n: nat, k: nat)
    requires v < Pow2(n + k)
    ensures ShiftRight(v, k) < Pow2(n)
  {
    if k > 0 {
      ShiftRightBound(v / 2, n, k - 1);
    }
  }

  lemma {:induction false} BitsSplit(v: nat, n: nat, k: nat)
    ensures Bits(v, n + k) == Bits(ShiftRight(v, k), n) + Bits(Mask(v, k), k)
  {
    if k > 0 {
      BitsSplit(v / 2, n, k - 1);
      assert Mask(v, k) / 2 == Mask(v / 2, k - 1);
    }
  }

  lemma {:induction false} BitsJoin(x: nat, n: nat, y: nat, k: nat)
    requires y < Pow2(k)
    ensures Bits(x * Pow2(k) + y, n + k) == Bits(x, n) + Bits(y, k)
  {
    if k > 0 {
      Halved(x, y, k);
      BitsJoin(x, n, y / 2, k - 1);
      hide Pow2;
      BitsStep(x * Pow2(k) + y, n + k);
      BitsStep(y, k);
    }
  }

  lemma BitsStep(v: nat, n: nat)
    requires n > 0
    ensures Bits(v, n) == Bits(v / 2, n - 1) + [v % 2 == 1]
  {
  }

  lemma Halved(x: nat, y: nat, k: nat)
    requires k > 0
    ensures (x * Pow2(k) + y) / 2 == x * Pow2(k - 1) + y / 2 && (x * Pow2(k) + y) % 2 == y % 2
  {
    var t := x * Pow2(k - 1);
    assert x * Pow2(k) == 2 * t;
  }

  lemma {:induction false} BitsInjective(a: nat, b: nat, n: nat)
    requires a < Pow2(n) && b < Pow2(n) && Bits(a, n) == Bits(b, n)
    ensures a == b
  {
    if n > 0 {
      var s, t := Bits(a, n), Bits(b, n);
      assert s[n - 1] == (a % 2 == 1) && t[n - 1] == (b % 2 == 1);
      assert s[..n - 1] == Bits(a / 2, n - 1) && t[..n - 1] == Bits(b / 2, n - 1);
      BitsInjective(a / 2, b / 2, n - 1);
    }
  }

  lemma {:induction false} ZeroBits(n: nat)
    ensures Bits(0, n) == Zeros(n)
  {
    if n > 0 {
      ZeroBits(n - 1);
    }
  }

  predicate Below(s: seq<nat>, bound: nat) {
    forall k :: 0 <= k < |s| ==> s[k] < bound
  }

  lemma {:induction false} SpreadInjective(s: seq<nat>, t: seq<nat>, w: nat)
    requires |s| == |t| && Below(s, Pow2(w)) && Below(t, Pow2(w)) && Spread(s, w) == Spread(t, w)
    ensures s == t
  {
    if s != [] {
      var n := |s| - 1;
      var a, b := Spread(s, w), Spread(t, w);
      assert a[..w * n] == Spread(s[..n], w) && b[..w * n] == Spread(t[..n], w);
      assert a[w * n..] == Bits(s[n], w) && b[w * n..] == Bits(t[n], w);
      SpreadInjective(s[..n], t[..n], w);
      BitsInjective(s[n], t[n], w);
      assert s == s[..n] + [s[n]] && t == t[..n] + [t[n]];
    }
  }

  lemma SpreadAppend(s: seq<nat>, x: nat, w: nat)
    ensures Spread(s + [x], w) == Spread(s, w) + Bits(x, w)
  {
    assert (s + [x])[..|s|] == s;
  }

  // ---------- symbols ----------

  const Alphabet: string := "0123456789ABCDEFGHJKMNPQRSTVWXYZ"

  /** toupper in the C locale. */
  function Upper(c: char): char {
    if 'a' <= c <= 'z' then c - 'a' + 'A' else c
  }

  /** Where `c` occurs in the alphabet from position `k` on. */
  function Find(c: char, k: nat): (r: Option<nat>)
    requires k <= 32
    ensures r.Some? ==> r.value < 32 && Alphabet[r.value] == c
    decreases 32 - k
  {
    if k == 32 then None else if Alphabet[k] == c then Some(k) else Find(c, k + 1)
  }

  /** crockford_value: letters of either case, with O read as 0 and I and L as 1. */
  function SymbolValue(c: char): (r: Option<nat>)
    ensures r.Some? ==> r.value < 32
  {
    var u := Upper(c);
    if u == 'O' then Some(0) else if u == 'I' || u == 'L' then Some(1) else Find(u, 0)
  }

  /** The alphabet by ranges: the digits, then the letters without I, L, O and U. */
  function Letter(v: nat): char
    requires v < 32
  {
    if v < 10 then '0' + v as char
    else if v < 18 then 'A' + (v - 10) as char
    else if v < 20 then 'J' + (v - 18) as char
    else if v < 22 then 'M' + (v - 20) as char
    else if v < 27 then 'P' + (v - 22) as char
    else 'V' + (v - 27) as char
  }

  lemma AlphabetIs(v: nat)
    requires v < 32
    ensures Alphabet[v] == Letter(v)
  {
    hide Alphabet, Letter;
    if v < 10 {
      AlphabetDigits(v);
    } else if v < 22 {
      AlphabetEarly(v);
    } else {
      AlphabetLate(v);
    }
  }

  lemma AlphabetDigits(v: nat)
    requires v < 10
    ensures Alphabet[v] == Letter(v)
  {
    assert Alphabet[0] == '0';
    assert Alphabet[1] == '1';
    assert Alphabet[2] == '2';
    assert Alphabet[3] == '3';
    assert Alphabet[4] == '4';
    assert Alphabet[5] == '5';
    assert Alphabet[6] == '6';
    assert Alphabet[7] == '7';
    assert Alphabet[8] == '8';
    assert Alphabet[9] == '9';
  }

  lemma AlphabetEarly(v: nat)
    requires 10 <= v < 22
    ensures Alphabet[v] == Letter(v)
  {
    assert Alphabet[10] == 'A';
    assert Alphabet[11] == 'B';
    assert Alphabet[12] == 'C';
    assert Alphabet[13] == 'D';
    assert Alphabet[14] == 'E';
    assert Alphabet[15] == 'F';
    assert Alphabet[16] == 'G';
    assert Alphabet[17] == 'H';
    assert Alphabet[18] == 'J';
    assert Alphabet[19] == 'K';
    assert Alphabet[20] == 'M';
    assert Alphabet[21] == 'N';
  }

  lemma AlphabetLate(v: nat)
    requires 22 <= v < 32
    ensures Alphabet[v] == Letter(v)
  {
    assert Alphabet[22] == 'P';
    assert Alphabet[23] == 'Q';
    assert Alphabet[24] == 'R';
    assert Alphabet[25] == 'S';
    assert Alphabet[26] == 'T';
    assert Alphabet[27] == 'V';
    assert Alphabet[28] == 'W';
    assert Alphabet[29] == 'X';
    assert Alphabet[30] == 'Y';
    assert Alphabet[31] == 'Z';
  }

  lemma AlphabetDistinct(k: nat, v: nat)
    requires k < v < 32
    ensures Alphabet[k] != Alphabet[v]
  {
    hide Alphabet;
    AlphabetIs(k);
    AlphabetIs(v);
  }

  lemma FindSymbol(v: nat, k: nat)
    requires k <= v < 32
    ensures Find(Alphabet[v], k) == Some(v)
    decreases 32 - k
  {
    hide Alphabet;
    if k < v {
      AlphabetDistinct(k, v);
      FindSymbol(v, k + 1);
    }
  }

  lemma SymbolValueInverse(v: nat)
    requires v < 32
    ensures SymbolValue(Alphabet[v]) == Some(v)
  {
    hide Alphabet, Find;
    AlphabetIs(v);
    FindSymbol(v, 0);
  }

  /** The values of a string of symbols. */
  function Values(s: string): (r: Option<seq<nat>>)
    ensures r.Some? ==> |r.value| == |s| && Below(r.value, 32)
  {
    if s == "" then Some([])
    else
      var rest, last := Values(s[..|s| - 1]), SymbolValue(s[|s| - 1]);
      if rest.None? || last.None? then None else Some(rest.value + [last.value])
  }

  function Symbols(vs: seq<nat>): string
    requires Below(vs, 32)
  {
    seq(|vs|, k requires 0 <= k < |vs| => Alphabet[vs[k]])
  }

  lemma {:induction false} ValuesSymbols(vs: seq<nat>)
    requires Below(vs, 32)
    ensures Values(Symbols(vs)) == Some(vs)
  {
    assert |Alphabet| == 32;
    hide Alphabet, SymbolValue, Values, Symbols;
    if vs == [] {
      NoValues();
    } else {
      var n := |vs| - 1;
      ValuesSymbols(vs[..n]);
      assert vs == vs[..n] + [vs[n]];
      SymbolsAppend(vs[..n], vs[n]);
      ValuesAppend(Symbols(vs[..n]), Alphabet[vs[n]]);
      SymbolValueInverse(vs[n]);
    }
  }

  lemma NoValues()
    ensures Symbols([]) == "" && Values("") == Some([])
  {
  }

  lemma ValuesAppend(s: string, c: char)
    ensures Values(s).Some? && SymbolValue(c).Some? ==> Values(s + [c]) == Some(Values(s).value + [SymbolValue(c).value])
  {
    hide SymbolValue;
    assert (s + [c])[..|s|] == s;
  }

  /** The symbols carry exactly the bits of the bytes, followed by fewer than eight zero bits. */
  ghost predicate Carries(vs: seq<nat>, b: Bytes) {
    && 8 * |b| <= 5 * |vs| < 8 * |b| + 8
    && Spread(vs, 5) == Spread(b, 8) + Zeros(5 * |vs| - 8 * |b|)
  }

  // ---------- the encoder ----------

  /** Every accumulator value fits the 32-bit register with room to spare. */
  const Register := 0x1_0000_0000

  lemma PowersUsed()
    ensures Pow2(0) == 1 && Pow2(4) == 16 && Pow2(5) == 32 && Pow2(7) == 128 && Pow2(8) == 256 && Pow2(12) == 4096
  {
    assert Pow2(2) == 4;
    assert Pow2(6) == 64;
    assert Pow2(10) == 1024;
  }

  lemma {:induction false} Pow2Monotone(a: nat, b: nat)
    requires a <= b
    ensures Pow2(a) <= Pow2(b)
  {
    if a < b {
      Pow2Monotone(a, b - 1);
    }
  }

  lemma {:induction false} Pow2Sum(a: nat, b: nat)
    ensures Pow2(a + b) == Pow2(a) * Pow2(b)
  {
    if a > 0 {
      Pow2Sum(a - 1, b);
    }
  }

  /** Taking a symbol off the top of the accumulator. */
  lemma TakeSymbol(out: seq<nat>, buffer: nat, bits: nat)
    requires 5 <= bits && buffer < Pow2(bits)
    ensures ShiftRight(buffer, bits - 5) < 32
    ensures Spread(out, 5) + Bits(buffer, bits) ==
            Spread(out + [ShiftRight(buffer, bits - 5)], 5) + Bits(Mask(buffer, bits - 5), bits - 5)
  {
    hide Bits, Spread, Pow2, ShiftRight, Mask;
    PowersUsed();
    ShiftRightBound(buffer, 5, bits - 5);
    BitsSplit(buffer, 5, bits - 5);
    SpreadAppend(out, ShiftRight(buffer, bits - 5), 5);
    Regroup(Spread(out, 5), Bits(ShiftRight(buffer, bits - 5), 5), Bits(Mask(buffer, bits - 5), bits - 5));
  }

  lemma Regroup(a: seq<bool>, b: seq<bool>, c: seq<bool>)
    ensures a + (b + c) == a + b + c
  {
  }

  /** Shifting the next byte into the accumulator. */
  lemma PutByte(input: Bytes, p: nat, out: seq<nat>, buffer: nat, bits: nat)
    requires p < |input| && buffer < Pow2(bits) && Spread(input[..p], 8) == Spread(out, 5) + Bits(buffer, bits)
    ensures Spread(input[..p + 1], 8) == Spread(out, 5) + Bits(buffer * 256 + input[p], bits + 8)
    ensures buffer * 256 + input[p] < Pow2(bits + 8)
  {
    hide Bits, Spread, Pow2;
    PowersUsed();
    BitsJoin(buffer, bits, input[p], 8);
    Pow2Sum(bits, 8);
    assert input[..p + 1] == input[..p] + [input[p]];
    SpreadAppend(input[..p], input[p], 8);
  }

  /** Filling the accumulator up with zero bits. */
  lemma PadZeros(all: seq<bool>, out: seq<nat>, buffer: nat, bits: nat, k: nat)
    requires buffer < Pow2(bits) && all == Spread(out, 5) + Bits(buffer, bits)
    ensures all + Zeros(k) == Spread(out, 5) + Bits(buffer * Pow2(k), bits + k)
    ensures buffer * Pow2(k) < Pow2(bits + k)
  {
    BitsJoin(buffer, bits, 0, k);
    ZeroBits(k);
    Pow2Sum(bits, k);
    assert buffer * Pow2(k) + 0 == buffer * Pow2(k);
    assert buffer * Pow2(k) < Pow2(bits) * Pow2(k);
  }

  /** The state of the encoder's loop: symbols out and accumulator hold the bytes read and `pad` zero bits. */
  ghost predicate Encoding(input: Bytes, p: nat, out: seq<nat>, buffer: nat, bits: nat, pad: nat) {
    && p <= |input| && Below(out, 32) && buffer < Pow2(bits)
    && Spread(input[..p], 8) + Zeros(pad) == Spread(out, 5) + Bits(buffer, bits)
  }

  /** base32_encode: fails exactly when the symbols and a terminator do not fit in `cap`. */
  method Base32Encode(input: Bytes, cap: nat) returns (r: Option<string>, ghost vs: seq<nat>)
    ensures r.Some? ==> Below(vs, 32) && r.value == Symbols(vs) && Carries(vs, input) && |vs| == (8 * |input| + 4) / 5
    ensures r.Some? <==> input == [] || (8 * |input| + 4) / 5 < cap
  {
    hide Spread, Bits, Pow2, Zeros, ShiftRight, Mask;
    PowersUsed();
    var buffer: nat, bits: nat, inPos: nat := 0, 0, 0;
    var output := "";
    vs := [];
    ghost var pad := 0;
    assert Encoding(input, 0, [], 0, 0, 0) by { EncodingStart(input); }
    while inPos < |input| || bits > 0
      invariant Encoding(input, inPos, vs, buffer, bits, pad) && bits < 8 && pad < 5
      invariant pad > 0 ==> bits == 0 && inPos == |input|
      invariant 5 * |vs| + bits == 8 * inPos + pad
      invariant output == Symbols(vs)
      invariant input != [] ==> |vs| <= (8 * |input| + 4) / 5
      invariant vs != [] ==> |vs| < cap
      decreases 8 * (|input| - inPos) + bits
    {
      hide Symbols;
      if bits < 5 && inPos < |input| {
        NextByte(input, inPos, vs, buffer, bits, pad);
        buffer := buffer * 256 + input[inPos];
        bits := bits + 8;
        inPos := inPos + 1;
      }
      if bits < 5 {
        EncodingPad(input, inPos, vs, buffer, bits);
        pad := 5 - bits;
        buffer := buffer * Pow2(5 - bits);
        bits := 5;
      }
      Pow2Monotone(bits, 12);
      assert buffer < Register;
      if |output| + 1 >= cap {
        return None, vs;
      }
      bits := bits - 5;
      TakeSymbol(vs, buffer, bits + 5);
      var v := ShiftRight(buffer, bits);
      output := output + [Alphabet[v]];
      SymbolsAppend(vs, v);
      vs := vs + [v];
      buffer := if bits == 0 then 0 else Mask(buffer, bits);
      MaskNone(bits);
    }
    assert input[..inPos] == input;
    EncodingDone(input, vs, pad);
    return Some(output), vs;
  }

  lemma MaskNone(bits: nat)
    ensures bits == 0 ==> forall v: nat :: Mask(v, bits) == 0
  {
  }

  lemma SymbolsAppend(vs: seq<nat>, v: nat)
    requires Below(vs, 32) && v < 32
    ensures Symbols(vs + [v]) == Symbols(vs) + [Alphabet[v]] && |Symbols(vs)| == |vs|
  {
  }

  lemma EncodingStart(input: Bytes)
    ensures Encoding(input, 0, [], 0, 0, 0)
  {
  }

  lemma NextByte(input: Bytes, p: nat, out: seq<nat>, buffer: nat, bits: nat, pad: nat)
    requires Encoding(input, p, out, buffer, bits, pad) && pad == 0 && p < |input|
    ensures Encoding(input, p + 1, out, buffer * 256 + input[p], bits + 8, 0)
  {
    assert Spread(input[..p], 8) + Zeros(0) == Spread(input[..p], 8);
    PutByte(input, p, out, buffer, bits);
    assert Spread(input[..p + 1], 8) + Zeros(0) == Spread(input[..p + 1], 8);
  }

  lemma EncodingPad(input: Bytes, p: nat, out: seq<nat>, buffer: nat, bits: nat)
    requires Encoding(input, p, out, buffer, bits, 0) && bits < 5
    ensures Encoding(input, p, out, buffer * Pow2(5 - bits), 5, 5 - bits)
  {
    assert Spread(input[..p], 8) + Zeros(0) == Spread(input[..p], 8);
    PadZeros(Spread(input[..p], 8), out, buffer, bits, 5 - bits);
  }

  lemma EncodingDone(input: Bytes, vs: seq<nat>, pad: nat)
    requires Encoding(input, |input|, vs, 0, 0, pad) && pad < 5 && 5 * |vs| == 8 * |input| + pad
    ensures Carries(vs, input)
  {
    assert input[..|input|] == input;
    assert Spread(vs, 5) + Bits(0, 0) == Spread(vs, 5);
  }

  // ---------- the decoder ----------

  /** The state of the decoder's loop: bytes out and accumulator hold the symbols read. */
  ghost predicate Decoding(vs: seq<nat>, out: Bytes, buffer: nat, bits: nat) {
    buffer < Pow2(bits) && 5 * |vs| == 8 * |out| + bits && Spread(vs, 5) == Spread(out, 8) + Bits(buffer, bits)
  }

  lemma PutSymbol(vs: seq<nat>, v: nat, out: Bytes, buffer: nat, bits: nat)
    requires Decoding(vs, out, buffer, bits) && v < 32
    ensures Decoding(vs + [v], out, buffer * 32 + v, bits + 5)
  {
    hide Bits, Spread, Pow2;
    PowersUsed();
    BitsJoin(buffer, bits, v, 5);
    Pow2Sum(bits, 5);
    SpreadAppend(vs, v, 5);
    assert (Spread(out, 8) + Bits(buffer, bits)) + Bits(v, 5) == Spread(out, 8) + (Bits(buffer, bits) + Bits(v, 5));
  }

  lemma TakeByte(vs: seq<nat>, out: Bytes, buffer: nat, bits: nat)
    requires Decoding(vs, out, buffer, bits) && 8 <= bits
    ensures ShiftRight(buffer, bits - 8) < 256
    ensures Decoding(vs, out + [ShiftRight(buffer, bits - 8)], Mask(buffer, bits - 8), bits - 8)
  {
    hide Bits, Spread, Pow2, ShiftRight;
    PowersUsed();
    ShiftRightBound(buffer, 8, bits - 8);
    BitsSplit(buffer, 8, bits - 8);
    SpreadAppend(out, ShiftRight(buffer, bits - 8), 8);
  }

  /** What is left in the accumulator is zero exactly if the symbols carry the bytes. */
  lemma DecodingDone(vs: seq<nat>, out: Bytes, buffer: nat, bits: nat)
    requires Decoding(vs, out, buffer, bits) && bits < 8
    ensures Carries(vs, out) <==> buffer == 0
    ensures forall b: Bytes :: Carries(vs, b) ==> |b| == |out|
    ensures forall b: Bytes :: Carries(vs, b) ==> buffer == 0
  {
    hide Decoding, Carries;
    DecodingEnds(vs, out, buffer, bits);
    forall b: Bytes | Carries(vs, b)
      ensures |b| == |out| && buffer == 0
    {
      DecodingFor(vs, out, buffer, bits, b);
    }
  }

  lemma DecodingEnds(vs: seq<nat>, out: Bytes, buffer: nat, bits: nat)
    requires Decoding(vs, out, buffer, bits) && bits < 8
    ensures buffer == 0 ==> Carries(vs, out)
  {
    hide Bits, Spread, Pow2;
    ZeroBits(bits);
  }

  lemma DecodingFor(vs: seq<nat>, out: Bytes, buffer: nat, bits: nat, b: Bytes)
    requires Decoding(vs, out, buffer, bits) && bits < 8 && Carries(vs, b)
    ensures |b| == |out| && buffer == 0
  {
    hide Bits, Spread, Pow2;
    ZeroBits(bits);
    assert |b| == |out|;
    TailsEqual(Spread(out, 8), Bits(buffer, bits), Spread(b, 8), Zeros(bits));
    BitsInjective(buffer, 0, bits);
  }

  lemma TailsEqual(x: seq<bool>, a: seq<bool>, y: seq<bool>, b: seq<bool>)
    requires x + a == y + b && |a| == |b|
    ensures x == y && a == b
  {
    assert a == (x + a)[|x|..] && b == (y + b)[|y|..];
    assert x == (x + a)[..|x|] && y == (y + b)[..|y|];
  }

  lemma {:induction false} ValuesPrefix(s: string, k: nat)
    requires k <= |s|
    ensures Values(s[..k]).None? ==> Values(s).None?
    ensures Values(s).Some? ==> Values(s[..k]) == Some(Values(s).value[..k])
    decreases |s| - k
  {
    hide SymbolValue;
    if k == |s| {
      assert s[..k] == s;
      assert Values(s).Some? ==> Values(s).value[..k] == Values(s).value;
    } else {
      ValuesPrefix(s, k + 1);
      ValuesStep(s, k);
      if Values(s).Some? {
        assert Values(s[..k]).value == Values(s[..k + 1]).value[..k];
        assert Values(s).value[..k + 1][..k] == Values(s).value[..k];
      }
    }
  }

  lemma ValuesStep(s: string, k: nat)
    requires k < |s|
    ensures Values(s[..k + 1]) == if Values(s[..k]).None? || SymbolValue(s[k]).None? then None
                                  else Some(Values(s[..k]).value + [SymbolValue(s[k]).value])
  {
    assert s[..k + 1][..k] == s[..k];
  }

  /** The outcome decoding `s` to `n` bytes must have: the bytes its symbols carry, or none if they carry no `n` bytes. */
  ghost predicate DecodesTo(s: string, n: nat, r: Option<Bytes>) {
    match r
    case Some(b) => |b| == n && Values(s).Some? && Carries(Values(s).value, b)
    case None => Values(s).Some? ==> forall b: Bytes :: |b| == n ==> !Carries(Values(s).value, b)
  }

  /** base32_decode. */
  method Base32Decode(s: string, n: nat) returns (r: Option<Bytes>)
    ensures DecodesTo(s, n, r)
  {
    DecodingStart();
    ValuesEmpty(s);
    hide *;
    var buffer: nat, bits: nat, cursor: nat := 0, 0, 0;
    var out: Bytes := [];
    ghost var vs: seq<nat> := [];
    while cursor < |s|
      invariant cursor <= |s| && Values(s[..cursor]) == Some(vs)
      invariant Decoding(vs, out, buffer, bits) && bits < 8 && |out| <= n
    {
      var value := SymbolValue(s[cursor]);
      ValuesStep(s, cursor);
      if value.None? {
        BadSymbol(s, cursor, n);
        return None;
      }
      PutSymbol(vs, value.value, out, buffer, bits);
      vs := vs + [value.value];
      cursor := cursor + 1;
      buffer := buffer * 32 + value.value;
      bits := bits + 5;
      DecodingFits(vs, out, buffer, bits);
      if bits >= 8 {
        bits := bits - 8;
        if |out| >= n {
          TooLong(s, cursor, vs, out, buffer, bits + 8, n);
          return None;
        }
        TakeByte(vs, out, buffer, bits + 8);
        out := out + [ShiftRight(buffer, bits)];
        buffer := if bits == 0 then 0 else Mask(buffer, bits);
        MaskNone(bits);
      }
    }
    AllRead(s, vs, cursor);
    r := if |out| == n && (bits == 0 || buffer == 0) then Some(out) else None;
    DecodingResult(s, vs, out, buffer, bits, n);
  }

  lemma AllRead(s: string, vs: seq<nat>, cursor: nat)
    requires cursor == |s| && Values(s[..cursor]) == Some(vs)
    ensures Values(s) == Some(vs)
  {
    assert s[..cursor] == s;
  }

  lemma BadSymbol(s: string, k: nat, n: nat)
    requires k < |s| && SymbolValue(s[k]).None?
    ensures DecodesTo(s, n, None)
  {
    ValuesStep(s, k);
    ValuesPrefix(s, k + 1);
  }

  lemma DecodingResult(s: string, vs: seq<nat>, out: Bytes, buffer: nat, bits: nat, n: nat)
    requires Values(s) == Some(vs) && Decoding(vs, out, buffer, bits) && bits < 8
    ensures DecodesTo(s, n, if |out| == n && (bits == 0 || buffer == 0) then Some(out) else None)
  {
    hide Carries, Spread, Bits;
    DecodingDone(vs, out, buffer, bits);
  }

  lemma ValuesEmpty(s: string)
    ensures Values(s[..0]) == Some([])
  {
  }

  lemma DecodingStart()
    ensures Decoding([], [], 0, 0)
  {
  }

  lemma DecodingFits(vs: seq<nat>, out: Bytes, buffer: nat, bits: nat)
    requires Decoding(vs, out, buffer, bits) && bits <= 12
    ensures buffer < 4096 < Register
  {
    PowersUsed();
    Pow2Monotone(bits, 12);
  }

  lemma TooLong(s: string, k: nat, vs: seq<nat>, out: Bytes, buffer: nat, bits: nat, n: nat)
    requires k <= |s| && Values(s[..k]) == Some(vs) && Decoding(vs, out, buffer, bits) && bits >= 8 && |out| >= n
    ensures DecodesTo(s, n, None)
  {
    ValuesPrefix(s, k);
  }

  // ---------- the two are inverse ----------

  /** The bytes that symbols carry are unique. */
  lemma CarriesUnique(vs: seq<nat>, b: Bytes, c: Bytes)
    requires Carries(vs, b) && Carries(vs, c)
    ensures b == c
  {
    assert |b| == |c|;
    var x, y := Spread(b, 8), Spread(c, 8);
    assert Spread(vs, 5)[..8 * |b|] == x && Spread(vs, 5)[..8 * |b|] == y;
    PowersUsed();
    SpreadInjective(b, c, 8);
  }

  /**
   For 37 bytes exactly one string of symbol values carries each value: 60 symbols, four zero bits.
   (For other lengths there may be two, differing by a final zero symbol.)
   */
  lemma SymbolsUnique(vs: seq<nat>, ws: seq<nat>, b: Bytes)
    requires |b| == 37 && Below(vs, 32) && Below(ws, 32) && Carries(vs, b) && Carries(ws, b)
    ensures vs == ws && |vs| == 60
  {
    assert |vs| == 60 && |ws| == 60;
    PowersUsed();
    SpreadInjective(vs, ws, 5);
  }

  // ---------- the text ----------

  const KeyLength: nat := 32
  const ChecksumLength: nat := 5
  const RawCapacity: nat := 80

  /** isspace in the C locale. */
  predicate IsSpace(c: char) {
    c == ' ' || '\t' <= c <= '\r'
  }

  /** What the decoder keeps of the text after the prefix. */
  function Normalize(t: string): string {
    if t == "" then ""
    else
      var rest, c := Normalize(t[..|t| - 1]), t[|t| - 1];
      if c == '-' || IsSpace(c) then rest else rest + [Upper(c)]
  }

  function SkipSpaces(t: string): string {
    if t != "" && IsSpace(t[0]) then SkipSpaces(t[1..]) else t
  }

  predicate HasPrefix(t: string) {
    |t| >= 4 && Upper(t[0]) == 'P' && Upper(t[1]) == 'V' && t[2] == '1' && Upper(t[3]) == 'R'
  }

  /** The symbol values of a recovery text, if it has the prefix and only symbols after it. */
  function TextValues(t: string): Option<seq<nat>> {
    var u := SkipSpaces(t);
    if HasPrefix(u) then Values(Normalize(u[4..])) else None
  }

  /** The prefix, then the symbols in groups of five. */
  function Grouped(raw: string): string {
    if raw == "" then "PV1R-"
    else
      var k := |raw| - 1;
      Grouped(raw[..k]) + (if k > 0 && k % 5 == 0 then "-" else "") + [raw[k]]
  }

  /**
   The canonical presentation of sixty symbols: the prefix, and twelve groups of five digits or letters, none of them
   I, L, O or U, with hyphens between.
   */
  ghost predicate Presents(t: string, vs: seq<nat>) {
    && |vs| == 60 && Below(vs, 32) && |t| == 76 && t[..5] == "PV1R-"
    && (forall i :: 0 <= i < 60 ==> t[5 + i + i / 5] == Letter(vs[i]))
    && (forall j {:trigger HyphenAt(j)} :: 0 < j < 12 ==> t[HyphenAt(j)] == '-')
  }

  /** Where the hyphen before group `j` is. */
  function HyphenAt(j: nat): nat {
    4 + 6 * j
  }

  lemma {:induction false} GroupedLength(raw: string)
    ensures |Grouped(raw)| == 5 + |raw| + if raw == "" then 0 else (|raw| - 1) / 5
  {
    if raw != "" {
      GroupedLength(raw[..|raw| - 1]);
    }
  }

  lemma {:induction false} GroupedAt(raw: string, i: nat)
    requires i < |raw|
    ensures 5 + i + i / 5 < |Grouped(raw)| && Grouped(raw)[5 + i + i / 5] == raw[i]
    ensures i > 0 && i % 5 == 0 ==> Grouped(raw)[4 + i + i / 5] == '-'
    decreases |raw|
  {
    var k := |raw| - 1;
    GroupedLength(raw);
    GroupedLength(raw[..k]);
    if i < k {
      GroupedAt(raw[..k], i);
    }
  }

  lemma GroupedPresents(vs: seq<nat>)
    requires Below(vs, 32) && |vs| == 60
    ensures Presents(Grouped(Symbols(vs)), vs)
  {
    hide Grouped, Letter;
    var raw := Symbols(vs);
    var t := Grouped(raw);
    SymbolsLength(vs);
    GroupedLength(raw);
    GroupedNormalizes(vs);
    forall i | 0 <= i < 60
      ensures t[5 + i + i / 5] == Letter(vs[i])
    {
      GroupedAt(raw, i);
      SymbolAt(vs, i);
      AlphabetIs(vs[i]);
    }
    forall j | 0 < j < 12
      ensures t[HyphenAt(j)] == '-'
    {
      GroupedAt(raw, 5 * j);
    }
  }

  lemma {:induction false} SymbolAt(vs: seq<nat>, i: nat)
    requires Below(vs, 32) && i < |vs|
    ensures |Symbols(vs)| == |vs| && Symbols(vs)[i] == Alphabet[vs[i]]
  {
    SymbolsLength(vs);
  }

  lemma CarriesLength(vs: seq<nat>, b: Bytes)
    requires Carries(vs, b) && |b| == 37
    ensures |vs| == 60
  {
  }

  // ---------- the number that symbols stand for ----------

  /** Digits of base `m`, most significant first. */
  function Base(s: seq<nat>, m: nat): nat {
    if s == [] then 0 else Base(s[..|s| - 1], m) * m + s[|s| - 1]
  }

  function BitsNumber(bits: seq<bool>): nat {
    if bits == [] then 0 else BitsNumber(bits[..|bits| - 1]) * 2 + if bits[|bits| - 1] then 1 else 0
  }

  lemma {:induction false} BitsNumberOf(v: nat, n: nat)
    requires v < Pow2(n)
    ensures BitsNumber(Bits(v, n)) == v
  {
    if n > 0 {
      BitsNumberOf(v / 2, n - 1);
      assert Bits(v, n)[..n - 1] == Bits(v / 2, n - 1);
    }
  }

  lemma {:induction false} BitsNumberJoin(a: seq<bool>, b: seq<bool>)
    ensures BitsNumber(a + b) == BitsNumber(a) * Pow2(|b|) + BitsNumber(b)
  {
    if b == [] {
      assert a + b == a;
    } else {
      var n := |b| - 1;
      BitsNumberJoin(a, b[..n]);
      assert (a + b)[..|a| + n] == a + b[..n];
      var x, y := BitsNumber(a), Pow2(n);
      assert x * Pow2(n + 1) == 2 * (x * y);
    }
  }

  lemma {:induction false} SpreadNumber(s: seq<nat>, w: nat)
    requires Below(s, Pow2(w))
    ensures BitsNumber(Spread(s, w)) == Base(s, Pow2(w))
  {
    if s != [] {
      var n := |s| - 1;
      SpreadNumber(s[..n], w);
      BitsNumberOf(s[n], w);
      BitsNumberJoin(Spread(s[..n], w), Bits(s[n], w));
    }
  }

  /**
   Bit packing, as numbers: the symbols read in base 32 are the bytes read in base 256, followed by the unused low bits,
   which are zero.
   */
  lemma CarriesNumber(vs: seq<nat>, b: Bytes)
    requires Carries(vs, b) && Below(vs, 32)
    ensures Base(vs, 32) == Base(b, 256) * Pow2(5 * |vs| - 8 * |b|) && 5 * |vs| - 8 * |b| < 8
  {
    PowersUsed();
    var z := 5 * |vs| - 8 * |b|;
    hide Spread;
    SpreadNumber(vs, 5);
    SpreadNumber(b, 8);
    BitsNumberJoin(Spread(b, 8), Zeros(z));
    ZeroBits(z);
    BitsNumberOf(0, z);
  }

  /** A character is read as `v` exactly if it is that letter of the alphabet in either case, or O for 0, or I or L for 1. */
  lemma SymbolsRead(c: char, v: nat)
    requires v < 32
    ensures SymbolValue(c) == Some(v) <==> Upper(c) == Letter(v) || (v == 0 && Upper(c) == 'O') || (v == 1 && (Upper(c) == 'I' || Upper(c) == 'L'))
  {
    hide Alphabet;
    AlphabetIs(v);
    if Upper(c) == Letter(v) {
      FindSymbol(v, 0);
    }
  }

  /** The checksum of a key for a vault: the first five bytes of a hash of both. */
  datatype Checksum = Checksum(sum: (Bytes, Bytes) -> Bytes) {
    ghost predicate Valid() {
      forall id, key :: |sum(id, key)| == ChecksumLength
    }
  }

  function Material(c: Checksum, id: Bytes, key: Bytes): Bytes {
    key + c.sum(id, key)
  }

  lemma MaterialParts(c: Checksum, id: Bytes, key: Bytes)
    requires |key| == KeyLength
    ensures Material(c, id, key)[..KeyLength] == key && Material(c, id, key)[KeyLength..] == c.sum(id, key)
  {
  }

  /** pv_recovery_encode, into a buffer of `capacity` characters; `memory` if locked memory can be had. */
  method EncodeKey(c: Checksum, id: Bytes, key: Bytes, capacity: nat, memory: bool) returns (r: Result<string>)
    requires c.Valid() && |key| == KeyLength
    ensures r.Ok? <==> capacity > 77 && memory
    ensures r.Err? ==> r.status == if capacity < 16 then Usage else if memory then Limit else SecureMemory
    ensures r.Ok? ==> TextValues(r.value).Some? && Carries(TextValues(r.value).value, Material(c, id, key))
    ensures r.Ok? ==> |TextValues(r.value).value| == 60 && Presents(r.value, TextValues(r.value).value)
  {
    hide Carries, Symbols, SymbolValue, Presents;
    if capacity < 16 {
      return Err(Usage);
    }
    if !memory {
      return Err(SecureMemory);
    }
    ghost var vs;
    var raw;
    raw, vs := Base32Encode(Material(c, id, key), RawCapacity);
    if raw.None? {
      return Err(Limit);
    }
    assert |raw.value| == |vs| by { SymbolsLength(vs); }
    if capacity <= 5 + |raw.value| + |raw.value| / 5 {
      return Err(Limit);
    }
    var encoded := "PV1R-";
    var i := 0;
    assert raw.value[..0] == "";
    while i < |raw.value|
      invariant i <= |raw.value| && encoded == Grouped(raw.value[..i])
    {
      if i > 0 && i % 5 == 0 {
        encoded := encoded + "-";
      }
      encoded := encoded + [raw.value[i]];
      assert raw.value[..i + 1][..i] == raw.value[..i];
      i := i + 1;
    }
    assert raw.value[..i] == raw.value;
    GroupedValues(vs);
    CarriesLength(vs, Material(c, id, key));
    GroupedPresents(vs);
    return Ok(encoded);
  }

  lemma SymbolsLength(vs: seq<nat>)
    requires Below(vs, 32)
    ensures |Symbols(vs)| == |vs|
  {
  }

  /** No symbol of the alphabet is a separator, and each is its own upper case. */
  lemma AlphabetPlain(v: nat)
    requires v < 32
    ensures Alphabet[v] != '-' && !IsSpace(Alphabet[v]) && Upper(Alphabet[v]) == Alphabet[v]
  {
    hide Alphabet;
    AlphabetIs(v);
  }

  lemma NormalizeAppend(t: string, c: char)
    ensures Normalize(t + [c]) == if c == '-' || IsSpace(c) then Normalize(t) else Normalize(t) + [Upper(c)]
  {
    assert (t + [c])[..|t|] == t;
  }

  lemma {:induction false} GroupedNormalizes(vs: seq<nat>)
    requires Below(vs, 32)
    ensures |Grouped(Symbols(vs))| >= 5 && Grouped(Symbols(vs))[..5] == "PV1R-"
    ensures Normalize(Grouped(Symbols(vs))[4..]) == Symbols(vs)
  {
    assert |Alphabet| == 32;
    hide Alphabet, Normalize, IsSpace, Upper, Grouped, Symbols;
    if vs == [] {
      GroupedNone();
    } else {
      var k := |vs| - 1;
      var us, v := vs[..k], vs[k];
      GroupedNormalizes(us);
      SymbolsAppend(us, v);
      assert vs == us + [v];
      AlphabetPlain(v);
      GroupedAppend(Symbols(us), Alphabet[v]);
      GroupStep(Grouped(Symbols(us)), Alphabet[v], k > 0 && k % 5 == 0);
    }
  }

  lemma GroupedNone()
    ensures Grouped(Symbols([])) == "PV1R-" && Symbols([]) == "" && Normalize("PV1R-"[4..]) == ""
  {
    NormalizeNone();
    NormalizeAppend("", '-');
    assert "PV1R-"[4..] == "" + ['-'];
  }

  lemma GroupedAppend(raw: string, c: char)
    ensures Grouped(raw + [c]) == Grouped(raw) + (if |raw| > 0 && |raw| % 5 == 0 then "-" else "") + [c]
  {
    assert (raw + [c])[..|raw|] == raw;
  }

  lemma NormalizeNone()
    ensures Normalize("") == ""
  {
  }

  /** One more symbol, behind a hyphen or not, is one more normalized character. */
  lemma GroupStep(g: string, c: char, hyphen: bool)
    requires |g| >= 5 && c != '-' && !IsSpace(c)
    ensures var h := g + (if hyphen then "-" else "") + [c];
      h[..5] == g[..5] && Normalize(h[4..]) == Normalize(g[4..]) + [Upper(c)]
  {
    hide IsSpace, Upper;
    if hyphen {
      var h := g + "-";
      assert h[4..] == g[4..] + ['-'];
      NormalizeAppend(g[4..], '-');
      assert (h + [c])[4..] == h[4..] + [c];
      NormalizeAppend(h[4..], c);
    } else {
      assert g + "" == g;
      assert (g + [c])[4..] == g[4..] + [c];
      NormalizeAppend(g[4..], c);
    }
  }

  lemma GroupedValues(vs: seq<nat>)
    requires Below(vs, 32)
    ensures TextValues(Grouped(Symbols(vs))) == Some(vs)
  {
    hide Grouped, Symbols, Normalize, Alphabet, Values;
    GroupedNormalizes(vs);
    var g := Grouped(Symbols(vs));
    assert g[0] == g[..5][0] && g[1] == g[..5][1] && g[2] == g[..5][2] && g[3] == g[..5][3];
    ValuesSymbols(vs);
  }

  /**
   pv_recovery_decode.  It returns `key` exactly when the symbol values of the text, after the prefix
   and whatever the case, aliases, hyphens and spaces, are those of the key and its checksum for this
   vault, in at most 79 symbols; `memory` if locked memory can be had.
   */
  method DecodeKey(c: Checksum, id: Bytes, text: string, memory: bool) returns (r: Result<Bytes>)
    requires c.Valid()
    ensures r.Ok? ==> |r.value| == KeyLength && TextValues(text).Some? && Carries(TextValues(text).value, Material(c, id, r.value))
    ensures r.Err? ==> r.status == Auth || (r.status == SecureMemory && !memory)
    ensures r == Err(Auth) ==> TextValues(text).None? || forall key: Bytes :: |key| == KeyLength ==> !Carries(TextValues(text).value, Material(c, id, key))
  {
    hide Carries, Values, SymbolValue, Upper;
    var cursor := 0;
    assert text[0..] == text;
    while cursor < |text| && IsSpace(text[cursor])
      invariant cursor <= |text| && SkipSpaces(text[cursor..]) == SkipSpaces(text)
    {
      assert text[cursor..][1..] == text[cursor + 1..];
      cursor := cursor + 1;
    }
    var u := text[cursor..];
    assert SkipSpaces(text) == u;
    if !HasPrefix(u) {
      return Err(Auth);
    }
    if !memory {
      return Err(SecureMemory);
    }
    var rest := u[4..];
    var normalized := "";
    var i := 0;
    assert rest[..0] == "";
    while i < |rest|
      invariant i <= |rest| && normalized == Normalize(rest[..i]) && |normalized| < RawCapacity
    {
      assert rest[..i + 1] == rest[..i] + [rest[i]];
      NormalizeAppend(rest[..i], rest[i]);
      if rest[i] != '-' && !IsSpace(rest[i]) {
        if |normalized| + 1 >= RawCapacity {
          TooManySymbols(c, id, rest, i);
          return Err(Auth);
        }
        normalized := normalized + [Upper(rest[i])];
      }
      i := i + 1;
    }
    assert rest[..i] == rest;
    var material := Base32Decode(normalized, KeyLength + ChecksumLength);
    if material.None? {
      return Err(Auth);
    }
    var key := material.value[..KeyLength];
    if c.sum(id, key) != material.value[KeyLength..] {
      forall other: Bytes | |other| == KeyLength
        ensures !Carries(Values(normalized).value, Material(c, id, other))
      {
        MaterialParts(c, id, other);
        if Carries(Values(normalized).value, Material(c, id, other)) {
          CarriesUnique(Values(normalized).value, material.value, Material(c, id, other));
        }
      }
      return Err(Auth);
    }
    assert key + material.value[KeyLength..] == material.value;
    return Ok(key);
  }

  lemma {:induction false} NormalizeLonger(t: string, k: nat)
    requires k <= |t|
    ensures |Normalize(t[..k])| <= |Normalize(t)|
    decreases |t| - k
  {
    if k == |t| {
      assert t[..k] == t;
    } else {
      NormalizeLonger(t, k + 1);
      assert t[..k + 1] == t[..k] + [t[k]];
      NormalizeAppend(t[..k], t[k]);
    }
  }

  lemma TooManySymbols(c: Checksum, id: Bytes, rest: string, i: nat)
    requires c.Valid() && i < |rest| && |Normalize(rest[..i + 1])| >= RawCapacity
    ensures Values(Normalize(rest)).Some? ==>
              forall key: Bytes :: |key| == KeyLength ==> !Carries(Values(Normalize(rest)).value, Material(c, id, key))
  {
    NormalizeLonger(rest, i + 1);
  }

  /**
   The recovery law: the text made for a key decodes to that key, and so does every text with the
   same symbol values; no text decodes to two keys, and no other symbol values decode to this one.
   */
  lemma RecoveryLaw(c: Checksum, id: Bytes, key: Bytes, text: string, other: string)
    requires c.Valid() && |key| == KeyLength
    requires TextValues(text).Some? && Carries(TextValues(text).value, Material(c, id, key))
    ensures TextValues(other).Some? && Carries(TextValues(other).value, Material(c, id, key)) <==> TextValues(other) == TextValues(text)
    ensures forall k: Bytes :: |k| == KeyLength && Carries(TextValues(text).value, Material(c, id, k)) ==> k == key
  {
    hide TextValues, Carries, Below;
    TextBelow(text);
    if TextValues(other).Some? && Carries(TextValues(other).value, Material(c, id, key)) {
      TextBelow(other);
      SymbolsUnique(TextValues(text).value, TextValues(other).value, Material(c, id, key));
    }
    forall k: Bytes | |k| == KeyLength && Carries(TextValues(text).value, Material(c, id, k))
      ensures k == key
    {
      CarriesUnique(TextValues(text).value, Material(c, id, k), Material(c, id, key));
      assert Material(c, id, k)[..KeyLength] == k && Material(c, id, key)[..KeyLength] == key;
    }
  }

  lemma TextBelow(t: string)
    requires TextValues(t).Some?
    ensures Below(TextValues(t).value, 32)
  {
  }

  /** What a reader may change without changing the symbol values: case, the aliases O, I and L, hyphens, spaces. */
  lemma HarmlessEdits(t: string, u: string, c: char, d: char)
    requires (c == '-' || IsSpace(c)) || SymbolValue(c) == SymbolValue(d)
    ensures c == '-' || IsSpace(c) ==> Normalize(t + [c] + u) == Normalize(t + u)
    ensures !(c == '-' || IsSpace(c)) && !(d == '-' || IsSpace(d)) && SymbolValue(c) == SymbolValue(d) ==>
              Values(Normalize(t + [c] + u)) == Values(Normalize(t + [d] + u))
    decreases |u|
  {
    if u == "" {
      assert t + [c] + u == t + [c] && t + [d] + u == t + [d] && t + u == t;
      NormalizeAppend(t, c);
      NormalizeAppend(t, d);
      UpperValue(c);
      UpperValue(d);
      assert (Normalize(t) + [Upper(c)])[..|Normalize(t)|] == Normalize(t);
      assert (Normalize(t) + [Upper(d)])[..|Normalize(t)|] == Normalize(t);
    } else {
      var v, e := u[..|u| - 1], u[|u| - 1];
      HarmlessEdits(t, v, c, d);
      assert t + [c] + u == (t + [c] + v) + [e] && t + [d] + u == (t + [d] + v) + [e] && t + u == (t + v) + [e];
      NormalizeAppend(t + [c] + v, e);
      NormalizeAppend(t + [d] + v, e);
      NormalizeAppend(t + v, e);
      var x, y := Normalize(t + [c] + v), Normalize(t + [d] + v);
      assert (x + [Upper(e)])[..|x|] == x && (y + [Upper(e)])[..|y|] == y;
    }
  }

  lemma UpperValue(c: char)
    ensures SymbolValue(Upper(c)) == SymbolValue(c)
  {
  }

  // ---------- edits of the text ----------

  predicate IsSeparator(c: char) {
    c == '-' || IsSpace(c)
  }

  datatype Edit = Insert(at: nat, c: char) | Delete(at: nat) | Change(at: nat, c: char)

  /** How many spaces the text begins with. */
  function Lead(t: string): nat {
    if t != "" && IsSpace(t[0]) then 1 + Lead(t[1..]) else 0
  }

  /**
   Spaces before the prefix come and go; the letters of the prefix change case; after it, separators come and go, and a
   symbol gives way to one of the same value: its other case, or O for 0, I or L for 1.
   */
  predicate Harmless(t: string, e: Edit) {
    && HasPrefix(SkipSpaces(t))
    && match e
       case Insert(at, c) => (at <= Lead(t) && IsSpace(c)) || (Lead(t) + 4 <= at <= |t| && IsSeparator(c))
       case Delete(at) => at < |t| && (at < Lead(t) || (Lead(t) + 4 <= at && IsSeparator(t[at])))
       case Change(at, c) =>
         && Lead(t) <= at < |t|
         && if at < Lead(t) + 4 then Upper(c) == Upper(t[at])
            else !IsSeparator(c) && !IsSeparator(t[at]) && SymbolValue(c) == SymbolValue(t[at])
  }

  function Apply(t: string, e: Edit): string {
    match e
    case Insert(at, c) => if at <= |t| then t[..at] + [c] + t[at..] else t
    case Delete(at) => if at < |t| then t[..at] + t[at + 1..] else t
    case Change(at, c) => if at < |t| then t[at := c] else t
  }

  /** A text is its leading spaces and what follows them. */
  lemma {:induction false} LeadSplits(t: string)
    ensures Lead(t) <= |t| && SkipSpaces(t) == t[Lead(t)..] && forall i :: 0 <= i < Lead(t) ==> IsSpace(t[i])
  {
    if t != "" && IsSpace(t[0]) {
      LeadSplits(t[1..]);
      assert t[1..][Lead(t[1..])..] == t[Lead(t)..];
      assert forall i :: 0 < i < Lead(t) ==> t[i] == t[1..][i - 1];
    }
  }

  /** Any number of spaces before a prefix are skipped. */
  lemma {:induction false} SpacesSkipped(lead: string, u: string)
    requires (forall i :: 0 <= i < |lead| ==> IsSpace(lead[i])) && HasPrefix(u)
    ensures SkipSpaces(lead + u) == u
  {
    if lead == "" {
      assert lead + u == u;
    } else {
      assert (lead + u)[1..] == lead[1..] + u && (lead + u)[0] == lead[0];
      SpacesSkipped(lead[1..], u);
    }
  }

  /** A text of spaces, a prefix and `rest` is read as `rest`. */
  lemma ReadAs(lead: string, prefix: string, rest: string)
    requires (forall i :: 0 <= i < |lead| ==> IsSpace(lead[i])) && |prefix| == 4 && HasPrefix(prefix)
    ensures TextValues(lead + (prefix + rest)) == Values(Normalize(rest)) && HasPrefix(SkipSpaces(lead + (prefix + rest)))
  {
    hide Normalize, Values;
    assert (prefix + rest)[4..] == rest;
    SpacesSkipped(lead, prefix + rest);
  }

  /** The parts of a text that has the prefix. */
  lemma TextParts(t: string) returns (lead: string, prefix: string, rest: string)
    requires HasPrefix(SkipSpaces(t))
    ensures |lead| == Lead(t) && (forall i :: 0 <= i < |lead| ==> IsSpace(lead[i])) && |prefix| == 4 && HasPrefix(prefix)
    ensures t == lead + (prefix + rest)
  {
    LeadSplits(t);
    var k := Lead(t);
    lead, prefix, rest := t[..k], t[k..][..4], t[k..][4..];
    assert t == t[..k] + t[k..] && t[k..] == prefix + rest;
  }

  lemma Grouping(lead: string, prefix: string, a: string, b: string)
    ensures lead + (prefix + a) + b == lead + (prefix + (a + b))
  {
  }

  lemma Cut(rest: string, i: nat)
    requires i <= |rest|
    ensures rest == rest[..i] + rest[i..] && (i < |rest| ==> rest == rest[..i] + [rest[i]] + rest[i + 1..])
  {
  }

  // Edits where two parts of a text meet.

  lemma InsertAt(x: string, c: char, b: string)
    ensures Apply(x + b, Insert(|x|, c)) == x + [c] + b
  {
  }

  lemma DeleteAt(x: string, d: char, b: string)
    ensures (x + [d] + b)[|x|] == d && Apply(x + [d] + b, Delete(|x|)) == x + b
  {
  }

  lemma ChangeAt(x: string, d: char, b: string, c: char)
    ensures (x + [d] + b)[|x|] == d && Apply(x + [d] + b, Change(|x|, c)) == x + [c] + b
  {
  }

  /** Edits of the part after the prefix. */
  lemma RestEdit(lead: string, prefix: string, a: string, b: string, d: char, c: char)
    requires |prefix| == 4
    ensures Apply(lead + (prefix + (a + b)), Insert(|lead| + 4 + |a|, c)) == lead + (prefix + (a + [c] + b))
    ensures var t := lead + (prefix + (a + [d] + b));
      && |lead| + 4 + |a| < |t| && t[|lead| + 4 + |a|] == d
      && Apply(t, Delete(|lead| + 4 + |a|)) == lead + (prefix + (a + b))
      && Apply(t, Change(|lead| + 4 + |a|, c)) == lead + (prefix + (a + [c] + b))
  {
    hide Apply;
    var x := lead + (prefix + a);
    assert |x| == |lead| + 4 + |a|;
    Grouping(lead, prefix, a, b);
    Grouping(lead, prefix, a, [c]);
    Grouping(lead, prefix, a + [c], b);
    Grouping(lead, prefix, a, [d]);
    Grouping(lead, prefix, a + [d], b);
    InsertAt(x, c, b);
    DeleteAt(x, d, b);
    ChangeAt(x, d, b, c);
  }

  lemma InsertEdit(t: string, e: Edit)
    requires Harmless(t, e) && e.Insert?
    ensures TextValues(Apply(t, e)) == TextValues(t) && HasPrefix(SkipSpaces(Apply(t, e)))
  {
    hide Normalize, Values, SymbolValue, TextValues, HasPrefix, SkipSpaces;
    var lead, prefix, rest := TextParts(t);
    ReadAs(lead, prefix, rest);
    if e.at <= |lead| && IsSpace(e.c) {
      var more := lead[..e.at] + [e.c] + lead[e.at..];
      assert Apply(t, e) == more + (prefix + rest);
      ReadAs(more, prefix, rest);
    } else {
      var i := e.at - |lead| - 4;
      Cut(rest, i);
      RestEdit(lead, prefix, rest[..i], rest[i..], e.c, e.c);
      HarmlessEdits(rest[..i], rest[i..], e.c, e.c);
      ReadAs(lead, prefix, rest[..i] + [e.c] + rest[i..]);
    }
  }

  lemma SpaceDeleted(lead: string, u: string, k: nat)
    requires (forall i :: 0 <= i < |lead| ==> IsSpace(lead[i])) && k < |lead|
    ensures var less := lead[..k] + lead[k + 1..];
      Apply(lead + u, Delete(k)) == less + u && forall i :: 0 <= i < |less| ==> IsSpace(less[i])
  {
  }

  lemma DeleteEdit(t: string, e: Edit)
    requires Harmless(t, e) && e.Delete?
    ensures TextValues(Apply(t, e)) == TextValues(t) && HasPrefix(SkipSpaces(Apply(t, e)))
  {
    hide Normalize, Values, SymbolValue, TextValues, HasPrefix, SkipSpaces;
    var lead, prefix, rest := TextParts(t);
    ReadAs(lead, prefix, rest);
    if e.at < |lead| {
      SpaceDeleted(lead, prefix + rest, e.at);
      ReadAs(lead[..e.at] + lead[e.at + 1..], prefix, rest);
    } else {
      var i := e.at - |lead| - 4;
      Cut(rest, i);
      RestEdit(lead, prefix, rest[..i], rest[i + 1..], rest[i], rest[i]);
      HarmlessEdits(rest[..i], rest[i + 1..], rest[i], rest[i]);
      ReadAs(lead, prefix, rest[..i] + rest[i + 1..]);
    }
  }

  lemma PrefixChanged(prefix: string, i: nat, c: char)
    requires |prefix| == 4 && HasPrefix(prefix) && i < 4 && Upper(c) == Upper(prefix[i])
    ensures HasPrefix(prefix[i := c])
  {
  }

  lemma ChangeEdit(t: string, e: Edit)
    requires Harmless(t, e) && e.Change?
    ensures TextValues(Apply(t, e)) == TextValues(t) && HasPrefix(SkipSpaces(Apply(t, e)))
  {
    hide Normalize, Values, SymbolValue, TextValues, HasPrefix, SkipSpaces, Upper;
    var lead, prefix, rest := TextParts(t);
    ReadAs(lead, prefix, rest);
    if e.at < |lead| + 4 {
      assert t[e.at] == prefix[e.at - |lead|];
      PrefixChanged(prefix, e.at - |lead|, e.c);
      var changed := prefix[e.at - |lead| := e.c];
      assert Apply(t, e) == lead + (changed + rest);
      ReadAs(lead, changed, rest);
    } else {
      var i := e.at - |lead| - 4;
      Cut(rest, i);
      RestEdit(lead, prefix, rest[..i], rest[i + 1..], rest[i], e.c);
      HarmlessEdits(rest[..i], rest[i + 1..], e.c, rest[i]);
      ReadAs(lead, prefix, rest[..i] + [e.c] + rest[i + 1..]);
    }
  }

  /** A harmless edit changes no symbol value. */
  lemma HarmlessEdit(t: string, e: Edit)
    requires Harmless(t, e)
    ensures TextValues(Apply(t, e)) == TextValues(t)
  {
    hide Harmless, TextValues, Apply, HasPrefix;
    if e.Insert? {
      InsertEdit(t, e);
    } else if e.Delete? {
      DeleteEdit(t, e);
    } else {
      ChangeEdit(t, e);
    }
  }

  function ApplyAll(t: string, es: seq<Edit>): string
    decreases |es|
  {
    if es == [] then t else ApplyAll(Apply(t, es[0]), es[1..])
  }

  predicate AllHarmless(t: string, es: seq<Edit>)
    decreases |es|
  {
    es == [] || (Harmless(t, es[0]) && AllHarmless(Apply(t, es[0]), es[1..]))
  }

  /** Any number of harmless edits change no symbol value. */
  lemma {:induction false} HarmlessAll(t: string, es: seq<Edit>)
    requires AllHarmless(t, es)
    ensures TextValues(ApplyAll(t, es)) == TextValues(t)
    decreases |es|
  {
    hide TextValues, Harmless;
    if es != [] {
      HarmlessEdit(t, es[0]);
      HarmlessAll(Apply(t, es[0]), es[1..]);
    }
  }

  /** The round trip: the text made for a key, however it was harmlessly edited since, decodes to that key. */
  method ReadBack(c: Checksum, id: Bytes, key: Bytes, text: string, ghost es: seq<Edit>) returns (written: Result<string>, r: Result<Bytes>)
    requires c.Valid() && |key| == KeyLength
    ensures written.Ok?
    ensures AllHarmless(written.value, es) && text == ApplyAll(written.value, es) ==> r == Ok(key)
  {
    hide TextValues, Carries, AllHarmless, ApplyAll;
    written := EncodeKey(c, id, key, 78, true);
    r := DecodeKey(c, id, text, true);
    if AllHarmless(written.value, es) && text == ApplyAll(written.value, es) {
      HarmlessAll(written.value, es);
      ghost var vs := TextValues(text).value;
      assert Carries(vs, Material(c, id, key));
      assert r.Ok?;
      RecoveryLaw(c, id, r.value, text, text);
    }
  }
}

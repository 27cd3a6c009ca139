/**
 File names: temporary names, pre-restore names, and the automatic backup names
 `auto-v1-<32 lowercase hex>-g<20 digits>.pvlt` with their parser.
 */
module BackupNames {
  import opened Prelude

  const NameLength: nat := 67
  const Prefix: string := "auto-v1-"
  const Marker: string := "-g"
  const Extension: string := ".pvlt"

  function HexDigit(v: nat): (c: char)
    requires v < 16
  {
    "0123456789abcdef"[v]
  }

  /** lowercase_hex_value. */
  function HexValue(c: char): (r: Option<nat>)
  {
    if '0' <= c <= '9' then Some((c - '0') as int)
    else if 'a' <= c <= 'f' then Some((c - 'a') as int + 10)
    else None
  }

  lemma HexDigitInverse(v: nat)
    requires v < 16
    ensures HexValue(HexDigit(v)) == Some(v)
  {
  }

  lemma HexValueInverse(c: char)
    requires HexValue(c).Some?
    ensures HexValue(c).value < 16 && HexDigit(HexValue(c).value) == c
  {
    if '0' <= c <= '9' {
      assert c == '0' || c == '1' || c == '2' || c == '3' || c == '4' || c == '5' || c == '6' || c == '7' || c == '8' || c == '9';
    } else {
      assert c == 'a' || c == 'b' || c == 'c' || c == 'd' || c == 'e' || c == 'f';
    }
  }

  /** pv_hex_encode: two lowercase digits a byte. */
  function Hex(b: Bytes): (s: string)
    ensures |s| == 2 * |b|
  {
    if b == [] then "" else Hex(b[..|b| - 1]) + [HexDigit(b[|b| - 1] / 16), HexDigit(b[|b| - 1] % 16)]
  }

  /** The first `k` bytes that the hex digits of `s` spell, if they are all hex digits. */
  function Unhex(s: string, k: nat): (r: Option<Bytes>)
    requires 2 * k <= |s|
  {
    if k == 0 then Some([])
    else
      var rest := Unhex(s, k - 1);
      var high, low := HexValue(s[2 * k - 2]), HexValue(s[2 * k - 1]);
      if rest.None? || high.None? || low.None? then None
      else
        HexValueInverse(s[2 * k - 2]);
        HexValueInverse(s[2 * k - 1]);
        Some(rest.value + [high.value * 16 + low.value])
  }

  lemma {:induction false} HexAt(b: Bytes, k: nat)
    requires k < |b|
    ensures Hex(b)[2 * k] == HexDigit(b[k] / 16) && Hex(b)[2 * k + 1] == HexDigit(b[k] % 16)
  {
    hide HexDigit;
    if k < |b| - 1 {
      HexAt(b[..|b| - 1], k);
    }
  }

  lemma {:induction false} UnhexHex(b: Bytes, k: nat)
    requires k <= |b|
    ensures Unhex(Hex(b), k) == Some(b[..k])
  {
    hide HexValue, HexDigit, Hex;
    if k > 0 {
      UnhexHex(b, k - 1);
      HexAt(b, k - 1);
      HexDigitInverse(b[k - 1] / 16);
      HexDigitInverse(b[k - 1] % 16);
      assert b[..k] == b[..k - 1] + [b[k - 1]];
    }
  }

  lemma {:induction false} HexUnhex(s: string, k: nat)
    requires 2 * k <= |s| && Unhex(s, k).Some?
    ensures |Unhex(s, k).value| == k && Hex(Unhex(s, k).value) == s[..2 * k]
  {
    hide HexValue, HexDigit;
    if k > 0 {
      HexUnhex(s, k - 1);
      HexValueInverse(s[2 * k - 2]);
      HexValueInverse(s[2 * k - 1]);
      var b := Unhex(s, k).value;
      assert b[..k - 1] == Unhex(s, k - 1).value;
      assert s[..2 * k] == s[..2 * k - 2] + [s[2 * k - 2], s[2 * k - 1]];
    }
  }

  function Digit(v: nat): char
    requires v < 10
  {
    '0' + v as char
  }

  /** `%0<n>llu`, for a value that fits. */
  function Decimal(v: nat, n: nat): (s: string)
    ensures |s| == n
  {
    if n == 0 then "" else Decimal(v / 10, n - 1) + [Digit(v % 10)]
  }

  function Pow10(n: nat): nat {
    if n == 0 then 1 else 10 * Pow10(n - 1)
  }

  /** The value of a string of digits. */
  function Value(s: string): (r: Option<nat>) {
    if s == "" then Some(0)
    else
      var rest := Value(s[..|s| - 1]);
      var c := s[|s| - 1];
      if rest.None? || !('0' <= c <= '9') then None else Some(rest.value * 10 + (c - '0') as int)
  }

  lemma {:induction false} ValueDecimal(v: nat, n: nat)
    requires v < Pow10(n)
    ensures Value(Decimal(v, n)) == Some(v)
  {
    if n > 0 {
      ValueDecimal(v / 10, n - 1);
      var s := Decimal(v, n);
      assert s[..|s| - 1] == Decimal(v / 10, n - 1);
    }
  }

  lemma {:induction false} DecimalValue(s: string)
    requires Value(s).Some?
    ensures Decimal(Value(s).value, |s|) == s && Value(s).value < Pow10(|s|)
  {
    if s != "" {
      DecimalValue(s[..|s| - 1]);
      assert s == s[..|s| - 1] + [s[|s| - 1]];
    }
  }

  /** format_automatic_backup_name. */
  function AutoName(id: Bytes, g: nat): string {
    Prefix + Hex(id) + Marker + Decimal(g, 20) + Extension
  }

  predicate IsAutoName(n: string, id: Bytes, g: nat) {
    |id| == 16 && 0 < g < Uint64 && n == AutoName(id, g)
  }

  /** The value of the digits read so far never overflows 64 bits. */
  lemma {:induction false} ValuePrefixSmaller(s: string, k: nat)
    requires k <= |s| && Value(s).Some?
    ensures Value(s[..k]).Some? && Value(s[..k]).value <= Value(s).value
    decreases |s|
  {
    if k == |s| {
      assert s[..k] == s;
    } else {
      ValuePrefixSmaller(s[..|s| - 1], k);
      assert s[..|s| - 1][..k] == s[..k];
    }
  }

  /** Two automatic names are equal only if their parts are. */
  lemma AutoNameParts(id: Bytes, g: nat)
    requires |id| == 16
    ensures var n := AutoName(id, g);
      |n| == NameLength && n[..8] == Prefix && n[8..40] == Hex(id) && n[40..42] == Marker && n[42..62] == Decimal(g, 20) && n[62..] == Extension
  {
  }

  /**
   parse_automatic_backup_name: two loops, the second with its overflow check.  It accepts exactly
   the names that formatting can produce, and returns what they were formatted from.
   */
  method ParseName(n: string) returns (r: Option<(Bytes, nat)>)
    ensures r.Some? ==> IsAutoName(n, r.value.0, r.value.1)
    ensures r.None? ==> forall id, g :: !IsAutoName(n, id, g)
  {
    hide Hex, Decimal, Pow10;
    if |n| != NameLength || n[..8] != Prefix || n[40..42] != Marker || n[62..] != Extension {
      forall id, g | IsAutoName(n, id, g)
        ensures false
      {
        AutoNameParts(id, g);
      }
      return None;
    }
    var digits := n[8..40];
    var id: Bytes := [];
    var index := 0;
    while index < 16
      invariant 0 <= index <= 16 && Unhex(digits, index) == Some(id)
    {
      hide HexValue;
      var high, low := HexValue(digits[index * 2]), HexValue(digits[index * 2 + 1]);
      if high.None? || low.None? {
        NoHexPrefix(n, index);
        return None;
      }
      HexValueInverse(digits[index * 2]);
      HexValueInverse(digits[index * 2 + 1]);
      id := id + [high.value * 16 + low.value];
      index := index + 1;
    }
    HexUnhex(digits, 16);
    var g;
    g := ParseGeneration(n);
    if g.None? {
      return None;
    }
    assert n == n[..8] + n[8..40] + n[40..42] + n[42..62] + n[62..];
    return Some((id, g.value));
  }

  /** The generation loop: digit by digit, refusing what would not fit in 64 bits, and zero. */
  method ParseGeneration(n: string) returns (r: Option<nat>)
    requires |n| == NameLength
    ensures r.Some? ==> 0 < r.value < Uint64 && Decimal(r.value, 20) == n[42..62]
    ensures r.None? ==> forall id, g :: !IsAutoName(n, id, g)
  {
    hide Hex, Decimal, Pow10, AutoName;
    var g := 0;
    var index := 0;
    while index < 20
      invariant 0 <= index <= 20 && g < Uint64
      invariant Value(n[42..42 + index]) == Some(g)
    {
      var c := n[42 + index];
      assert n[42..42 + index + 1][..index] == n[42..42 + index];
      if c < '0' || c > '9' {
        NoValuePrefix(n, index + 1);
        return None;
      }
      var digit := (c - '0') as int;
      if g > (Uint64 - 1 - digit) / 10 {
        NoValuePrefix(n, index + 1);
        return None;
      }
      g := g * 10 + digit;
      index := index + 1;
    }
    DecimalValue(n[42..62]);
    if g == 0 {
      forall id, h | IsAutoName(n, id, h)
        ensures false
      {
        AutoNameParts(id, h);
        Uint64Fits(h);
        ValueDecimal(h, 20);
      }
      return None;
    }
    return Some(g);
  }

  lemma Uint64Fits(g: nat)
    requires g < Uint64
    ensures g < Pow10(20)
  {
    assert Pow10(20) == 10_000_000_000 * 10_000_000_000 by {
      assert Pow10(5) == 100_000;
      assert Pow10(10) == 10_000_000_000;
      assert Pow10(15) == 100_000 * 10_000_000_000;
    }
  }

  /** A bad hex digit at position `index` is in no automatic name. */
  lemma NoHexPrefix(n: string, index: nat)
    requires |n| == NameLength && index < 16
    requires HexValue(n[8 + index * 2]).None? || HexValue(n[9 + index * 2]).None?
    ensures forall id, g :: !IsAutoName(n, id, g)
  {
    forall id, g | IsAutoName(n, id, g)
      ensures false
    {
      AutoNameParts(id, g);
      HexAt(id, index);
      HexDigitInverse(id[index] / 16);
      HexDigitInverse(id[index] % 16);
    }
  }

  /** Digits whose value is none, or too large, start no automatic name. */
  lemma NoValuePrefix(n: string, k: nat)
    requires |n| == NameLength && k <= 20
    requires Value(n[42..42 + k]).None? || Value(n[42..42 + k]).value >= Uint64
    ensures forall id, g :: !IsAutoName(n, id, g)
  {
    hide Hex, Decimal, Pow10, AutoName, Value;
    forall id, g | IsAutoName(n, id, g)
      ensures false
    {
      AutoNameParts(id, g);
      Uint64Fits(g);
      ValueDecimal(g, 20);
      assert n[42..62][..k] == n[42..42 + k];
      ValuePrefixSmaller(n[42..62], k);
    }
  }

  /** Formatting is injective. */
  lemma AutoNameInjective(id: Bytes, g: nat, id': Bytes, g': nat)
    requires IsAutoName(AutoName(id, g), id, g) && IsAutoName(AutoName(id, g), id', g')
    ensures id == id' && g == g'
  {
    hide Hex, Decimal, Pow10, AutoName, Unhex, Value;
    AutoNameParts(id, g);
    AutoNameParts(id', g');
    UnhexHex(id, 16);
    UnhexHex(id', 16);
    Uint64Fits(g);
    Uint64Fits(g');
    ValueDecimal(g, 20);
    ValueDecimal(g', 20);
  }

  /** The parser as a function of the name. */
  function Parse(n: string): Option<(Bytes, nat)> {
    if |n| != NameLength || n[..8] != Prefix || n[40..42] != Marker || n[62..] != Extension then None
    else
      var id, g := Unhex(n[8..40], 16), Value(n[42..62]);
      if id.None? || g.None? || g.value == 0 || g.value >= Uint64 then None else Some((id.value, g.value))
  }

  lemma ParseExactly(n: string, id: Bytes, g: nat)
    ensures Parse(n) == Some((id, g)) <==> IsAutoName(n, id, g)
  {
    hide Unhex, Value, Hex, Decimal, Pow10;
    if IsAutoName(n, id, g) {
      AutoNameParts(id, g);
      UnhexHex(id, 16);
      assert id[..16] == id;
      Uint64Fits(g);
      ValueDecimal(g, 20);
    }
    if Parse(n) == Some((id, g)) {
      HexUnhex(n[8..40], 16);
      assert n[8..40][..32] == n[8..40];
      DecimalValue(n[42..62]);
      assert n == n[..8] + n[8..40] + n[40..42] + n[42..62] + n[62..];
    }
  }

  /** `%08x` of a 32-bit value. */
  function Hex32(v: nat): string {
    Hex([v / 0x100_0000 % 256, v / 0x1_0000 % 256, v / 0x100 % 256, v % 256])
  }

  /** A temporary name for `n`. */
  function TempName(n: string, random: nat): string {
    n + ".tmp." + Hex32(random)
  }

  /** The form every temporary name has. */
  predicate IsTemp(n: string) {
    |n| >= 13 && n[|n| - 13..|n| - 8] == ".tmp."
  }

  function PreRestoreName(ms: nat, random: nat): string {
    "pre-restore-" + Decimal(ms, 20) + "-" + Hex32(random) + Extension
  }

  lemma TempNameIsTemp(n: string, random: nat)
    ensures TempName(n, random) != n && IsTemp(TempName(n, random))
  {
    var t := TempName(n, random);
    assert |Hex32(random)| == 8;
    assert t[|t| - 13..|t| - 8] == ".tmp.";
  }

  /** No published name has the form of a temporary one, so a leftover draft is never taken for a backup. */
  lemma PublishedNamesAreNotTemp(id: Bytes, g: nat, ms: nat, random: nat)
    requires |id| == 16
    ensures !IsTemp(AutoName(id, g)) && !IsTemp(PreRestoreName(ms, random))
  {
    hide Hex, Decimal, AutoName, PreRestoreName, Hex32;
    AutoNameParts(id, g);
    var n := AutoName(id, g);
    DecimalAt(g, 20, 12);
    assert n[54] == n[42..62][12];
    assert n[54] == n[54..59][0];
    PreRestoreDigit(ms, random);
    var p := PreRestoreName(ms, random);
    assert p[33] == p[33..38][0];
  }

  lemma PreRestoreDigit(ms: nat, random: nat)
    ensures |PreRestoreName(ms, random)| == 46 && PreRestoreName(ms, random)[33] != '.'
  {
    var p := PreRestoreName(ms, random);
    var b: Bytes := [random / 0x100_0000 % 256, random / 0x1_0000 % 256, random / 0x100 % 256, random % 256];
    assert p[33] == Hex(b)[0];
    HexAt(b, 0);
    HexDigitInverse(b[0] / 16);
  }

  lemma {:induction false} DecimalAt(v: nat, n: nat, k: nat)
    requires k < n
    ensures '0' <= Decimal(v, n)[k] <= '9'
  {
    if k < n - 1 {
      DecimalAt(v / 10, n - 1, k);
    }
  }
}

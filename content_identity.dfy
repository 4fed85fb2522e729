/**
 * The content hash that turns a canonical DOM-tree string into an element
 * identifier (`hashDomTreeString` in frontend/src/hooks/useEditor.ts).
 *
 * The source folds the string's UTF-16 code units with
 * `hash = ((hash << 5) + hash) ^ code`, starting from 5381, and renders
 * `hash >>> 0` in base 36, left-padded with zeros to six digits, after the
 * prefix "id-". JavaScript's `<<` and `^` convert their operands to 32-bit
 * two's complement, and the sum `(hash << 5) + hash` is exact in a double,
 * so every step is `((hash << 5) + hash) XOR code` modulo 2^32: the fold below
 * agrees with the source on `bv32` for every string of Unicode scalar values.
 * A JavaScript string may also hold a lone surrogate, which a Dafny string
 * cannot.
 */
module ContentIdentity {
  import opened Options

  /** A UTF-16 code unit, what `charCodeAt` returns. */
  newtype CodeUnit = x: int | 0 <= x < 0x1_0000

  /** The UTF-16 encoding of a string: astral characters become surrogate pairs. */
  function CodeUnits(s: string): (units: seq<CodeUnit>)
    ensures |s| <= |units| <= 2 * |s|
  {
    if s == [] then []
    else
      var c := s[0] as int;
      var head: seq<CodeUnit> :=
        if c < 0x1_0000 then [c as CodeUnit]
        else [(0xD800 + (c - 0x1_0000) / 0x400) as CodeUnit, (0xDC00 + (c - 0x1_0000) % 0x400) as CodeUnit];
      head + CodeUnits(s[1..])
  }

  predicate IsHighSurrogate(u: CodeUnit) {
    0xD800 <= u < 0xDC00
  }

  predicate IsLowSurrogate(u: CodeUnit) {
    0xDC00 <= u < 0xE000
  }

  /**
   * UTF-16 decoding, the reference the encoding is checked against: a high
   * surrogate followed by a low one is one astral character, any other unit
   * is itself, and an unpaired surrogate is not a character.
   */
  function DecodeUnits(units: seq<CodeUnit>): (r: Option<string>)
    ensures r.Some? ==> |units| <= 2 * |r.value| && |r.value| <= |units|
    decreases |units|
  {
    if units == [] then Some([])
    else if IsHighSurrogate(units[0]) then
      if |units| >= 2 && IsLowSurrogate(units[1]) then
        var c := 0x1_0000 + (units[0] as int - 0xD800) * 0x400 + (units[1] as int - 0xDC00);
        match DecodeUnits(units[2..])
        case None => None
        case Some(t) => Some([c as char] + t)
      else None
    else if IsLowSurrogate(units[0]) then None
    else
      match DecodeUnits(units[1..])
      case None => None
      case Some(t) => Some([units[0] as int as char] + t)
  }

  /** Decoding the encoding of a string gives the string back. */
  lemma {:induction false} CodeUnitsRoundTrip(s: string)
    ensures DecodeUnits(CodeUnits(s)) == Some(s)
  {
    if s != [] {
      CodeUnitsRoundTrip(s[1..]);
      var c := s[0] as int;
      var units := CodeUnits(s);
      var rest := CodeUnits(s[1..]);
      if c < 0x1_0000 {
        var u := c as CodeUnit;
        assert units == [u] + rest;
        BmpUnit(c);
        assert units[1..] == rest;
        assert DecodeUnits(units) == Some([u as int as char] + s[1..]);
        assert u as int as char == s[0];
        assert [s[0]] + s[1..] == s;
      } else {
        var hi := (0xD800 + (c - 0x1_0000) / 0x400) as CodeUnit;
        var lo := (0xDC00 + (c - 0x1_0000) % 0x400) as CodeUnit;
        assert units == [hi, lo] + rest;
        AstralUnits(c);
        assert units[0] == hi && units[1] == lo && units[2..] == rest;
        var t := 0x1_0000 + (hi as int - 0xD800) * 0x400 + (lo as int - 0xDC00);
        assert DecodeUnits(units) == Some([t as char] + s[1..]);
        assert t as char == s[0];
        assert [s[0]] + s[1..] == s;
      }
    }
  }

  /** A character below 0x10000 is one code unit of the same value, and not a surrogate. */
  lemma BmpUnit(c: int)
    requires 0 <= c < 0xD800 || 0xE000 <= c < 0x1_0000
    ensures (c as CodeUnit) as int == c
    ensures !IsHighSurrogate(c as CodeUnit) && !IsLowSurrogate(c as CodeUnit)
  {
  }

  /** An astral character is a high surrogate and a low surrogate that decode back to it. */
  lemma AstralUnits(c: int)
    requires 0x1_0000 <= c < 0x11_0000
    ensures var hi := (0xD800 + (c - 0x1_0000) / 0x400) as CodeUnit;
      var lo := (0xDC00 + (c - 0x1_0000) % 0x400) as CodeUnit;
      && IsHighSurrogate(hi) && IsLowSurrogate(lo)
      && 0x1_0000 + (hi as int - 0xD800) * 0x400 + (lo as int - 0xDC00) == c
  {
    var q := (c - 0x1_0000) / 0x400;
    var m := (c - 0x1_0000) % 0x400;
    assert 0 <= q < 0x400 && 0 <= m < 0x400;
    assert q * 0x400 + m == c - 0x1_0000;
    assert ((0xD800 + q) as CodeUnit) as int == 0xD800 + q;
    assert ((0xDC00 + m) as CodeUnit) as int == 0xDC00 + m;
  }

  const Seed: bv32 := 5381

  /** One step of the fold: shift by five plus itself (times 33), then xor the code unit. */
  function Step(h: bv32, u: CodeUnit): bv32 {
    ((h << 5) + h) ^ (u as bv32)
  }

  /** The fold over a sequence of code units, written from the last unit back. */
  function Fold(units: seq<CodeUnit>): bv32 {
    if units == [] then Seed else Step(Fold(units[..|units| - 1]), units[|units| - 1])
  }

  /** The fold of a prefix one unit longer is one more step. */
  lemma FoldSnoc(units: seq<CodeUnit>, i: nat)
    requires i < |units|
    ensures Fold(units[..i + 1]) == Step(Fold(units[..i]), units[i])
  {
    assert units[..i + 1][..i] == units[..i];
  }

  /** `hash >>> 0` for the string: the unsigned 32-bit value of the fold. */
  function HashValue(s: string): nat {
    Fold(CodeUnits(s)) as nat
  }

  /** The base-36 digit for `d`, as `toString(36)` writes it: 0-9, then lower-case a-z. */
  function Digit(d: nat): (c: char)
    requires d < 36
    ensures IsBase36Digit(c)
  {
    if d < 10 then (48 + d) as char else (97 + d - 10) as char
  }

  predicate IsBase36Digit(c: char) {
    '0' <= c <= '9' || 'a' <= c <= 'z'
  }

  predicate AllDigits(s: string) {
    forall i :: 0 <= i < |s| ==> IsBase36Digit(s[i])
  }

  /** `Number.prototype.toString(36)` of a non-negative integer: no leading zeros. */
  function ToBase36(n: nat): (s: string)
    ensures |s| >= 1 && AllDigits(s)
    decreases n
  {
    if n < 36 then [Digit(n)] else ToBase36(n / 36) + [Digit(n % 36)]
  }

  function Zeros(k: nat): (z: string)
    ensures |z| == k && forall i :: 0 <= i < k ==> z[i] == '0'
  {
    seq(k, _ => '0')
  }

  /** `padStart(width, '0')`. */
  function PadStart(s: string, width: nat): (r: string)
    ensures |r| == if |s| >= width then |s| else width
    ensures r[|r| - |s|..] == s
    ensures forall i :: 0 <= i < |r| - |s| ==> r[i] == '0'
  {
    if |s| >= width then s else Zeros(width - |s|) + s
  }

  const Prefix: string := "id-"

  /** The identifier of a hash value: "id-" followed by at least six base-36 digits. */
  function IdOfHash(h: nat): string {
    Prefix + PadStart(ToBase36(h), 6)
  }

  /** `hashDomTreeString(input)`. */
  function IdOf(s: string): string {
    IdOfHash(HashValue(s))
  }

  /** The loop of `hashDomTreeString`, proved to compute `IdOf`. */
  method HashDomTreeString(input: string) returns (id: string)
    ensures id == IdOf(input)
  {
    var units := CodeUnits(input);
    var hash: bv32 := 5381;
    for i := 0 to |units|
      invariant hash == Fold(units[..i])
    {
      FoldSnoc(units, i);
      hash := Step(hash, units[i]);
    }
    assert units[..|units|] == units;
    id := "id-" + PadStart(ToBase36(hash as nat), 6);
  }

  /** The value of a base-36 digit string (inverse of `ToBase36`). */
  function FromBase36(s: string): nat
    requires AllDigits(s)
  {
    if s == [] then 0 else 36 * FromBase36(s[..|s| - 1]) + DigitValue(s[|s| - 1])
  }

  function DigitValue(c: char): (d: nat)
    requires IsBase36Digit(c)
    ensures d < 36 && Digit(d) == c
  {
    if c <= '9' then c as nat - 48 else c as nat - 97 + 10
  }

  function Pow36(k: nat): nat {
    if k == 0 then 1 else 36 * Pow36(k - 1)
  }

  /** Reading back the digits gives the number: `ToBase36` loses nothing. */
  lemma {:induction false} Base36RoundTrip(n: nat)
    ensures FromBase36(ToBase36(n)) == n
    decreases n
  {
    var s := ToBase36(n);
    if n < 36 {
      assert s[..0] == [];
    } else {
      Base36RoundTrip(n / 36);
      assert s[..|s| - 1] == ToBase36(n / 36);
    }
  }

  /** Leading zeros do not change the value of a digit string. */
  lemma {:induction false} LeadingZeros(z: nat, s: string)
    requires AllDigits(s)
    ensures AllDigits(Zeros(z) + s)
    ensures FromBase36(Zeros(z) + s) == FromBase36(s)
    decreases |s|
  {
    var p := Zeros(z) + s;
    assert AllDigits(p);
    if s == [] {
      assert p == Zeros(z);
      AllZeros(z);
    } else {
      LeadingZeros(z, s[..|s| - 1]);
      assert p[..|p| - 1] == Zeros(z) + s[..|s| - 1];
    }
  }

  lemma {:induction false} AllZeros(z: nat)
    ensures AllDigits(Zeros(z)) && FromBase36(Zeros(z)) == 0
  {
    if z > 0 {
      AllZeros(z - 1);
      assert Zeros(z)[..z - 1] == Zeros(z - 1);
    }
  }

  /** A number below 36^k has at most k base-36 digits. */
  lemma {:induction false} Base36Length(n: nat, k: nat)
    requires k >= 1 && n < Pow36(k)
    ensures |ToBase36(n)| <= k
    decreases n
  {
    if n >= 36 {
      assert Pow36(k) == 36 * Pow36(k - 1);
      assert n / 36 < Pow36(k - 1);
      assert Pow36(0) == 1;
      Base36Length(n / 36, k - 1);
    }
  }

  /** The digits that follow the prefix of an identifier. */
  function Digits(id: string): string
    requires |id| >= |Prefix|
  {
    id[|Prefix|..]
  }

  /**
   * Shape of every identifier: the prefix "id-", then six or seven base-36
   * digits (six because of the padding, at most seven because
   * 2^32 < 36^7), whose value is the 32-bit hash.
   */
  lemma IdShape(s: string)
    ensures var id := IdOf(s);
      && id[..3] == Prefix
      && (|id| == 9 || |id| == 10)
      && AllDigits(Digits(id))
      && FromBase36(Digits(id)) == HashValue(s)
  {
    IdOfHashShape(HashValue(s));
  }

  /** `IdShape` for a hash value given as a number below 2^32. */
  lemma IdOfHashShape(h: nat)
    requires h < 0x1_0000_0000
    ensures var id := IdOfHash(h);
      && id[..3] == Prefix
      && (|id| == 9 || |id| == 10)
      && AllDigits(Digits(id))
      && FromBase36(Digits(id)) == h
  {
    var d := ToBase36(h);
    assert Pow36(7) == 78364164096;
    Base36Length(h, 7);
    var p := PadStart(d, 6);
    if |d| < 6 {
      assert p == Zeros(6 - |d|) + d;
      LeadingZeros(6 - |d|, d);
    }
    Base36RoundTrip(h);
    assert Digits(IdOfHash(h)) == p;
  }

  /** Different 32-bit hash values never share an identifier: the identifier encodes the hash. */
  lemma IdDeterminesHash(s1: string, s2: string)
    requires IdOf(s1) == IdOf(s2)
    ensures HashValue(s1) == HashValue(s2)
  {
    IdShape(s1);
    IdShape(s2);
  }
}

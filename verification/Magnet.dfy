/** Reading the info-hash out of a magnet URI: apps/backend/src/common/magnet.ts. */
module Magnet {
  import opened Sequences
  import opened Text

  // ------------------------------------------------------- numbers in digits

  function Pow2(n: nat): (r: nat)
    ensures r > 0
  {
    if n == 0 then 1 else 2 * Pow2(n - 1)
  }

  /** The number a sequence of digits denotes in a base, most significant first. */
  function Value(base: nat, digits: seq<nat>): nat {
    if digits == [] then 0 else base * Value(base, digits[..|digits| - 1]) + digits[|digits| - 1]
  }

  predicate Below(base: nat, digits: seq<nat>) {
    forall i :: 0 <= i < |digits| ==> digits[i] < base
  }

  lemma {:induction false} BitsAppend(a: seq<nat>, b: seq<nat>)
    ensures Value(2, a + b) == Value(2, a) * Pow2(|b|) + Value(2, b)
  {
    if b == [] {
      assert a + b == a;
    } else {
      var front, last := b[..|b| - 1], b[|b| - 1];
      assert b == front + [last] && a + b == (a + front) + [last];
      BitsAppend(a, front);
      Doubled(Value(2, a), Pow2(|front|));
    }
  }

  lemma Doubled(x: nat, p: nat)
    ensures 2 * (x * p) == x * (2 * p)
  {
  }

  lemma {:induction false} BitsBelow(b: seq<nat>)
    requires Below(2, b)
    ensures Value(2, b) < Pow2(|b|)
  {
    if b != [] {
      BitsBelow(b[..|b| - 1]);
    }
  }

  /** Hexadecimal digits of a given length are determined by their value. */
  lemma {:induction false} HexInjective(a: seq<nat>, b: seq<nat>)
    requires |a| == |b| && Below(16, a) && Below(16, b) && Value(16, a) == Value(16, b)
    ensures a == b
  {
    if a != [] {
      var n := |a| - 1;
      HexInjective(a[..n], b[..n]);
      assert a == a[..n] + [a[n]] && b == b[..n] + [b[n]];
    }
  }

  // --------------------------------------------------------- base32 to hex

  function UpperChar(c: char): char { if 'a' <= c <= 'z' then c - 'a' + 'A' else c }

  /** The place of a character in ABCDEFGHIJKLMNOPQRSTUVWXYZ234567, or -1. */
  function AlphabetIndex(c: char): (r: int)
    ensures -1 <= r < 32
  {
    if 'A' <= c <= 'Z' then c as int - 'A' as int
    else if '2' <= c <= '7' then c as int - '2' as int + 26
    else -1
  }

  function Base32Index(c: char): int { AlphabetIndex(UpperChar(c)) }

  /** The base32 digits of a string; other characters are skipped. */
  function Base32Digits(s: string): (r: seq<nat>)
    ensures Below(32, r) && |r| <= |s|
  {
    if s == "" then []
    else
      var front, i := Base32Digits(s[..|s| - 1]), Base32Index(s[|s| - 1]);
      if i == -1 then front else front + [i]
  }

  /** `idx.toString(2)` as bits, without leading zeros. */
  function Binary(n: nat): (r: seq<nat>)
    ensures r != [] && Below(2, r) && Value(2, r) == n
    ensures forall k: nat :: k > 0 && n < Pow2(k) ==> |r| <= k
  {
    if n < 2 then
      assert [n][..0] == [];
      [n]
    else
      var r := Binary(n / 2);
      assert forall k: nat :: k > 0 && n < Pow2(k) ==> k > 1 && n / 2 < Pow2(k - 1);
      r + [n % 2]
  }

  function PadStart(bits: seq<nat>, width: nat): seq<nat>
    decreases width - |bits|
  {
    if |bits| >= width then bits else PadStart([0] + bits, width)
  }

  lemma {:induction false} PadKeepsValue(bits: seq<nat>, width: nat)
    requires Below(2, bits) && |bits| <= width
    ensures |PadStart(bits, width)| == width && Below(2, PadStart(bits, width))
    ensures Value(2, PadStart(bits, width)) == Value(2, bits)
    decreases width - |bits|
  {
    if |bits| < width {
      BitsAppend([0], bits);
      assert Value(2, [0]) == 0 by { assert [0][..0] == []; }
      PadKeepsValue([0] + bits, width);
    }
  }

  /** Five bits for one base32 digit. */
  function FiveBits(d: nat): seq<nat> { PadStart(Binary(d), 5) }

  lemma FiveBitsExact(d: nat)
    requires d < 32
    ensures |FiveBits(d)| == 5 && Below(2, FiveBits(d)) && Value(2, FiveBits(d)) == d
  {
    assert Pow2(5) == 32;
    PadKeepsValue(Binary(d), 5);
  }

  function Bits(digits: seq<nat>): seq<nat> {
    if digits == [] then [] else Bits(digits[..|digits| - 1]) + FiveBits(digits[|digits| - 1])
  }

  /** Regrouping digits into bits keeps the number. */
  lemma {:induction false} BitsExact(digits: seq<nat>)
    requires Below(32, digits)
    ensures |Bits(digits)| == 5 * |digits| && Below(2, Bits(digits)) && Value(2, Bits(digits)) == Value(32, digits)
  {
    if digits != [] {
      var front, last := digits[..|digits| - 1], digits[|digits| - 1];
      BitsExact(front);
      FiveBitsExact(last);
      BitsAppend(Bits(front), FiveBits(last));
      FiveMore(Bits(front), Value(2, Bits(front) + FiveBits(last)), last);
    }
  }

  lemma FiveMore(front: seq<nat>, v: nat, last: nat)
    requires v == Value(2, front) * Pow2(5) + last
    ensures v == 32 * Value(2, front) + last
  {
    assert Pow2(5) == 32;
  }

  /** The first `k` groups of four bits, as digits. */
  function Nibbles(bits: seq<nat>, k: nat): (r: seq<nat>)
    requires 4 * k <= |bits|
    ensures |r| == k
  {
    if k == 0 then [] else Nibbles(bits, k - 1) + [Value(2, bits[4 * k - 4..4 * k])]
  }

  lemma {:induction false} NibblesBelow(bits: seq<nat>, k: nat)
    requires 4 * k <= |bits| && Below(2, bits)
    ensures Below(16, Nibbles(bits, k))
  {
    if k > 0 {
      NibblesBelow(bits, k - 1);
      NibbleStep(bits, 4 * k - 4);
    }
  }

  lemma {:induction false} NibblesValue(bits: seq<nat>, k: nat)
    requires 4 * k <= |bits| && Below(2, bits)
    ensures Value(16, Nibbles(bits, k)) == Value(2, bits[..4 * k])
  {
    if k > 0 {
      NibblesValue(bits, k - 1);
      NibbleStep(bits, 4 * k - 4);
    }
  }

  lemma NibblesExact(bits: seq<nat>, k: nat)
    requires 4 * k <= |bits| && Below(2, bits)
    ensures Below(16, Nibbles(bits, k)) && Value(16, Nibbles(bits, k)) == Value(2, bits[..4 * k])
  {
    NibblesBelow(bits, k);
    NibblesValue(bits, k);
  }

  lemma NibbleStep(bits: seq<nat>, m: nat)
    requires m + 4 <= |bits| && Below(2, bits)
    ensures Value(2, bits[m..m + 4]) < 16
    ensures Value(2, bits[..m + 4]) == 16 * Value(2, bits[..m]) + Value(2, bits[m..m + 4])
  {
    var group := bits[m..m + 4];
    BitsBelow(group);
    assert Pow2(4) == 16;
    assert bits[..m + 4] == bits[..m] + group;
    BitsAppend(bits[..m], group);
  }

  function HexChar(d: nat): char
    requires d < 16
  {
    if d < 10 then '0' + d as char else 'a' + (d - 10) as char
  }

  predicate IsHex(c: char) { '0' <= c <= '9' || 'a' <= LowerChar(c) <= 'f' }

  function HexDigit(c: char): (d: nat)
    requires IsHex(c)
    ensures d < 16
  {
    if '0' <= c <= '9' then c as int - '0' as int else LowerChar(c) as int - 'a' as int + 10
  }

  predicate AllHex(s: string) { forall i :: 0 <= i < |s| ==> IsHex(s[i]) }

  function HexDigits(s: string): (r: seq<nat>)
    requires AllHex(s)
    ensures |r| == |s| && Below(16, r)
  {
    seq(|s|, i requires 0 <= i < |s| => HexDigit(s[i]))
  }

  function HexText(digits: seq<nat>): (s: string)
    requires Below(16, digits)
    ensures |s| == |digits| && AllHex(s) && HexDigits(s) == digits && Lower(s) == s
  {
    seq(|digits|, i requires 0 <= i < |digits| => HexChar(digits[i]))
  }

  function HexOfBits(bits: seq<nat>): string
    requires Below(2, bits)
  {
    NibblesExact(bits, |bits| / 4);
    HexText(Nibbles(bits, |bits| / 4))
  }

  function Base32Hex(input: string): string {
    BitsExact(Base32Digits(input));
    HexOfBits(Bits(Base32Digits(input)))
  }

  method CollectBits(input: string) returns (bits: seq<nat>)
    ensures bits == Bits(Base32Digits(input))
  {
    bits := [];
    for i := 0 to |input|
      invariant bits == Bits(Base32Digits(input[..i]))
    {
      assert input[..i + 1][..i] == input[..i];
      var idx := AlphabetIndex(UpperChar(input[i]));
      if idx == -1 { continue; }
      ghost var digits := Base32Digits(input[..i]);
      assert (digits + [idx])[..|digits|] == digits;
      bits := bits + FiveBits(idx);
    }
    assert input[..|input|] == input;
  }

  method RenderHex(bits: seq<nat>) returns (hex: string)
    requires Below(2, bits)
    ensures hex == HexOfBits(bits)
  {
    hex := "";
    var i := 0;
    ghost var k := 0;
    while i + 4 <= |bits|
      invariant i == 4 * k <= |bits| && Below(16, Nibbles(bits, k)) && hex == HexText(Nibbles(bits, k))
    {
      NibbleStep(bits, i);
      hex := hex + [HexChar(Value(2, bits[i..i + 4]))];
      i, k := i + 4, k + 1;
    }
  }

  /** `base32ToHex`: its two loops in sequence. */
  method Base32ToHex(input: string) returns (hex: string)
    ensures hex == Base32Hex(input)
  {
    var bits := CollectBits(input);
    BitsExact(Base32Digits(input));
    hex := RenderHex(bits);
  }

  /** `q` is `n` without its `e` lowest bits. */
  predicate DropsBits(n: nat, q: nat, e: nat) { q * Pow2(e) <= n < q * Pow2(e) + Pow2(e) }

  lemma HexOfBitsKeepsTheNumber(bits: seq<nat>)
    requires Below(2, bits)
    ensures |HexOfBits(bits)| == |bits| / 4 && AllHex(HexOfBits(bits)) && Lower(HexOfBits(bits)) == HexOfBits(bits)
    ensures DropsBits(Value(2, bits), Value(16, HexDigits(HexOfBits(bits))), |bits| % 4)
  {
    var n := 4 * (|bits| / 4);
    NibblesExact(bits, |bits| / 4);
    var top, rest := bits[..n], bits[n..];
    assert bits == top + rest && |rest| == |bits| % 4;
    BitsAppend(top, rest);
    BitsBelow(rest);
  }

  /** From m base32 digits come floor(5m/4) lower-case hexadecimal digits denoting
      the same number, less the bits of an incomplete last group. */
  lemma Base32HexKeepsTheNumber(input: string)
    ensures var d := Base32Digits(input);
            var hex := Base32Hex(input);
            && |hex| == 5 * |d| / 4 && AllHex(hex) && Lower(hex) == hex
            && DropsBits(Value(32, d), Value(16, HexDigits(hex)), 5 * |d| % 4)
  {
    BitsExact(Base32Digits(input));
    HexOfBitsKeepsTheNumber(Bits(Base32Digits(input)));
  }

  /** Nothing is dropped when four divides m. */
  lemma WholeGroupsKeepTheNumber(input: string)
    requires |Base32Digits(input)| % 4 == 0
    ensures AllHex(Base32Hex(input))
    ensures Value(16, HexDigits(Base32Hex(input))) == Value(32, Base32Digits(input))
  {
    Base32HexKeepsTheNumber(input);
    DropsNothing(Value(32, Base32Digits(input)), Value(16, HexDigits(Base32Hex(input))), |Base32Digits(input)|);
  }

  lemma DropsNothing(n: nat, q: nat, m: nat)
    requires m % 4 == 0 && DropsBits(n, q, 5 * m % 4)
    ensures q == n
  {
    assert 5 * m % 4 == 0;
    assert Pow2(0) == 1;
  }

  // ----------------------------------------------------- finding the hash

  predicate IsAlnum(c: char) { IsDigit(c) || 'a' <= LowerChar(c) <= 'z' }

  /** The maximal run of alphanumerics at the start of `s`. */
  function AlnumRun(s: string): (r: string)
    ensures r <= s && forall i :: 0 <= i < |r| ==> IsAlnum(r[i])
  {
    if s == "" || !IsAlnum(s[0]) then "" else [s[0]] + AlnumRun(s[1..])
  }

  const BTIH: string := "xt=urn:btih:"
  const BTMH: string := "xt=urn:btmh:1220"

  predicate StartsWith(s: string, prefix: string) {
    |prefix| <= |s| && Lower(s[..|prefix|]) == prefix
  }

  /** `/xt=urn:btih:([a-z0-9]+)/i`: the captured run of the first match. */
  function FindV1(uri: string): Option<string> {
    if uri == "" then None
    else if StartsWith(uri, BTIH) && AlnumRun(uri[|BTIH|..]) != "" then Some(AlnumRun(uri[|BTIH|..]))
    else FindV1(uri[1..])
  }

  /** `/xt=urn:btmh:1220([0-9a-f]{64})/i`. */
  function FindV2(uri: string): (r: Option<string>)
    ensures r.Some? ==> |r.value| == 64 && AllHex(r.value)
  {
    if uri == "" then None
    else
      var n := |BTMH|;
      if StartsWith(uri, BTMH) && n + 64 <= |uri| && AllHex(uri[n..n + 64]) then Some(uri[n..n + 64])
      else FindV2(uri[1..])
  }

  /** The v1 hash a captured run spells, if it has the right size. */
  function V1Hash(raw: string): Option<string> {
    if |raw| == 40 && AllHex(raw) then Some(Lower(raw))
    else if |raw| == 32 then Some(Lower(Base32Hex(raw)))
    else None
  }

  /** `infoHashFromMagnet` on a URI without percent escapes. */
  function InfoHash(uri: string): Option<string> {
    match FindV1(uri)
    case Some(raw) => V1Hash(raw)
    case None =>
      match FindV2(uri)
      case Some(hash) => Some(Lower(hash)[..40])
      case None => None
  }

  predicate AllBase32(s: string) { forall i :: 0 <= i < |s| ==> Base32Index(s[i]) != -1 }

  lemma {:induction false} EveryDigitCounts(s: string)
    ensures |Base32Digits(s)| == |s| <==> AllBase32(s)
  {
    if s != "" {
      var front := s[..|s| - 1];
      EveryDigitCounts(front);
      assert AllBase32(s) <==> AllBase32(front) && Base32Index(s[|s| - 1]) != -1;
    }
  }

  /** A 32-character spelling gives the 40-digit hash of the same 20 bytes exactly
      when all its characters are base32. The pattern also admits 0, 1, 8 and 9;
      those are skipped and the result comes out short. */
  lemma Base32HashIsWholeIff(raw: string)
    requires |raw| == 32
    ensures V1Hash(raw).Some? && |V1Hash(raw).value| == 5 * |Base32Digits(raw)| / 4
    ensures |V1Hash(raw).value| == 40 <==> AllBase32(raw)
    ensures AllBase32(raw) ==>
              AllHex(V1Hash(raw).value) && Value(16, HexDigits(V1Hash(raw).value)) == Value(32, Base32Digits(raw))
  {
    Base32HexKeepsTheNumber(raw);
    EveryDigitCounts(raw);
    if AllBase32(raw) { WholeGroupsKeepTheNumber(raw); }
  }

  /** The hexadecimal and the base32 spelling of the same 20 bytes, in any case,
      are one identity. */
  lemma SpellingsAgree(hex: string, base32: string)
    requires |hex| == 40 && AllHex(hex) && |base32| == 32 && AllBase32(base32)
    requires Value(16, HexDigits(hex)) == Value(32, Base32Digits(base32))
    ensures V1Hash(hex) == V1Hash(base32) == Some(Lower(hex))
  {
    Base32HashIsWholeIff(base32);
    Base32HexKeepsTheNumber(base32);
    var other := V1Hash(base32).value;
    HexInjective(HexDigits(hex), HexDigits(other));
    SameDigitsSameText(hex, other);
  }

  lemma SameDigitsSameText(a: string, b: string)
    requires |a| == |b| && AllHex(a) && AllHex(b) && HexDigits(a) == HexDigits(b) && Lower(b) == b
    ensures Lower(a) == b
  {
    forall i | 0 <= i < |a| ensures Lower(a)[i] == b[i] {
      assert HexDigits(a)[i] == HexDigits(b)[i];
      assert LowerChar(b[i]) == Lower(b)[i];
    }
  }

  // ------------------------------------------------------- case never matters

  lemma SameClasses(c: char, d: char)
    requires LowerChar(c) == LowerChar(d)
    ensures IsAlnum(c) == IsAlnum(d) && IsHex(c) == IsHex(d) && Base32Index(c) == Base32Index(d)
  {
  }

  lemma {:induction false} AlnumRunIgnoresCase(s: string, t: string)
    requires Lower(s) == Lower(t)
    ensures Lower(AlnumRun(s)) == Lower(AlnumRun(t))
  {
    if s != "" {
      SameClasses(s[0], t[0]);
      assert s[1..|s|] == s[1..] && t[1..|t|] == t[1..];
      AlnumRunIgnoresCase(s[1..], t[1..]);
    }
  }

  lemma {:induction false} Base32IgnoresCase(s: string, t: string)
    requires Lower(s) == Lower(t)
    ensures Base32Digits(s) == Base32Digits(t)
  {
    if s != "" {
      var n := |s| - 1;
      assert s[0..n] == s[..n] && t[0..n] == t[..n];
      SameClasses(s[n], t[n]);
      Base32IgnoresCase(s[..n], t[..n]);
    }
  }

  lemma AllHexIgnoresCase(s: string, t: string)
    requires Lower(s) == Lower(t)
    ensures AllHex(s) == AllHex(t)
  {
    forall i | 0 <= i < |s| ensures IsHex(s[i]) == IsHex(t[i]) { SameClasses(s[i], t[i]); }
  }

  lemma V1HashIgnoresCase(s: string, t: string)
    requires Lower(s) == Lower(t)
    ensures V1Hash(s) == V1Hash(t)
  {
    AllHexIgnoresCase(s, t);
    Base32IgnoresCase(s, t);
  }

  lemma TagIgnoresCase(s: string, t: string, tag: string)
    requires Lower(s) == Lower(t)
    ensures StartsWith(s, tag) == StartsWith(t, tag) && (StartsWith(s, tag) ==> |tag| <= |s| == |t|)
  {
  }

  lemma RunBehindTagIgnoresCase(s: string, t: string, n: nat)
    requires Lower(s) == Lower(t) && n <= |s|
    ensures Lower(AlnumRun(s[n..])) == Lower(AlnumRun(t[n..])) && (AlnumRun(s[n..]) == "" <==> AlnumRun(t[n..]) == "")
  {
    assert s[n..|s|] == s[n..] && t[n..|t|] == t[n..];
    AlnumRunIgnoresCase(s[n..], t[n..]);
    assert |AlnumRun(s[n..])| == |Lower(AlnumRun(s[n..]))| == |AlnumRun(t[n..])|;
  }

  lemma {:induction false} FindV1IgnoresCase(s: string, t: string)
    requires Lower(s) == Lower(t)
    ensures FindV1(s).Some? == FindV1(t).Some?
    ensures FindV1(s).Some? ==> Lower(FindV1(s).value) == Lower(FindV1(t).value)
  {
    hide StartsWith;
    if s != "" {
      assert s[1..|s|] == s[1..] && t[1..|t|] == t[1..];
      FindV1IgnoresCase(s[1..], t[1..]);
      TagIgnoresCase(s, t, BTIH);
      if |BTIH| <= |s| { RunBehindTagIgnoresCase(s, t, |BTIH|); }
    }
  }

  lemma HexBehindTagIgnoresCase(s: string, t: string, n: nat)
    requires Lower(s) == Lower(t) && n + 64 <= |s|
    ensures |s| == |t| && Lower(s[n..n + 64]) == Lower(t[n..n + 64]) && AllHex(s[n..n + 64]) == AllHex(t[n..n + 64])
  {
    AllHexIgnoresCase(s[n..n + 64], t[n..n + 64]);
  }

  lemma {:induction false} FindV2IgnoresCase(s: string, t: string)
    requires Lower(s) == Lower(t)
    ensures FindV2(s).Some? == FindV2(t).Some?
    ensures FindV2(s).Some? ==> Lower(FindV2(s).value) == Lower(FindV2(t).value)
  {
    hide StartsWith, AllHex;
    if s != "" {
      assert s[1..|s|] == s[1..] && t[1..|t|] == t[1..];
      FindV2IgnoresCase(s[1..], t[1..]);
      TagIgnoresCase(s, t, BTMH);
      if |BTMH| + 64 <= |s| { HexBehindTagIgnoresCase(s, t, |BTMH|); }
    }
  }

  /** Two magnets that differ only in case carry the same info-hash. */
  lemma InfoHashIgnoresCase(s: string, t: string)
    requires Lower(s) == Lower(t)
    ensures InfoHash(s) == InfoHash(t)
  {
    FindV1IgnoresCase(s, t);
    if FindV1(s).Some? {
      V1HashIgnoresCase(FindV1(s).value, FindV1(t).value);
    } else {
      FindV2IgnoresCase(s, t);
    }
  }

  // ------------------------------------------------- a v1 magnet is understood

  lemma {:induction false} AlnumRunStops(raw: string, rest: string)
    requires (forall i :: 0 <= i < |raw| ==> IsAlnum(raw[i])) && (rest == "" || !IsAlnum(rest[0]))
    ensures AlnumRun(raw + rest) == raw
  {
    if raw == "" {
      assert raw + rest == rest;
    } else {
      assert (raw + rest)[1..] == raw[1..] + rest;
      AlnumRunStops(raw[1..], rest);
    }
  }

  lemma TagFound(tag: string, raw: string, rest: string)
    requires Lower(tag) == BTIH && raw != "" && (forall i :: 0 <= i < |raw| ==> IsAlnum(raw[i]))
    requires rest == "" || !IsAlnum(rest[0])
    ensures FindV1(tag + (raw + rest)) == Some(raw)
  {
    var uri := tag + (raw + rest);
    assert |tag| == |Lower(tag)| == |BTIH|;
    assert uri[..|BTIH|] == tag && uri[|BTIH|..] == raw + rest;
    AlnumRunStops(raw, rest);
  }

  /** No occurrence of the tag starts in the first `n` characters. */
  predicate NoTagBefore(uri: string, n: nat)
    requires n <= |uri|
  {
    forall i :: 0 <= i < n ==> !StartsWith(uri[i..], BTIH)
  }

  lemma NoTagBeforeTail(uri: string, n: nat)
    requires 0 < n <= |uri| && NoTagBefore(uri, n)
    ensures FindV1(uri) == FindV1(uri[1..]) && NoTagBefore(uri[1..], n - 1)
  {
    assert uri[0..] == uri;
    forall i | 0 <= i < n - 1 ensures !StartsWith(uri[1..][i..], BTIH) {
      assert uri[1..][i..] == uri[i + 1..];
    }
  }

  /** Whatever precedes the first tag and follows the hash, and in whatever case
      the tag is written, the run after the tag is what is read. */
  lemma V1MagnetIsRead(pre: string, tag: string, raw: string, rest: string)
    requires Lower(tag) == BTIH && raw != "" && (forall i :: 0 <= i < |raw| ==> IsAlnum(raw[i]))
    requires rest == "" || !IsAlnum(rest[0])
    requires NoTagBefore(pre + (tag + (raw + rest)), |pre|)
    ensures InfoHash(pre + (tag + (raw + rest))) == V1Hash(raw)
  {
    TagFoundLater(pre, tag, raw, rest);
  }

  lemma {:induction false} TagFoundLater(pre: string, tag: string, raw: string, rest: string)
    requires Lower(tag) == BTIH && raw != "" && (forall i :: 0 <= i < |raw| ==> IsAlnum(raw[i]))
    requires rest == "" || !IsAlnum(rest[0])
    requires NoTagBefore(pre + (tag + (raw + rest)), |pre|)
    ensures FindV1(pre + (tag + (raw + rest))) == Some(raw)
  {
    var uri := pre + (tag + (raw + rest));
    if pre == "" {
      assert uri == tag + (raw + rest);
      TagFound(tag, raw, rest);
    } else {
      NoTagBeforeTail(uri, |pre|);
      assert uri[1..] == pre[1..] + (tag + (raw + rest));
      TagFoundLater(pre[1..], tag, raw, rest);
    }
  }

  // ------------------------------------------------- which hash is read, exactly

  /** The digits of both spellings, by character code: A to Z and 2 to 7 are 0 to 31,
      0 to 9 and a to f are 0 to 15, and letters count in either case. */
  lemma AlphabetsAre(c: char, d: nat)
    ensures Base32Index(c) == d <==>
              (d < 26 && (c as int == 65 + d || c as int == 97 + d)) || (26 <= d < 32 && c as int == 50 + d - 26)
    ensures IsHex(c) && HexDigit(c) == d <==>
              (d < 10 && c as int == 48 + d) || (10 <= d < 16 && (c as int == 65 + d - 10 || c as int == 97 + d - 10))
    ensures d < 16 ==> HexChar(d) as int == if d < 10 then 48 + d else 97 + d - 10
    ensures IsAlnum(c) <==> 48 <= c as int <= 57 || 65 <= c as int <= 90 || 97 <= c as int <= 122
  {
  }

  /** Base32 characters are digits in the order in which they stand. */
  lemma {:induction false} DigitsStandInOrder(s: string, i: nat)
    requires AllBase32(s) && i < |s|
    ensures |Base32Digits(s)| == |s| && Base32Digits(s)[i] == Base32Index(s[i])
  {
    var n := |s| - 1;
    EveryDigitCounts(s);
    EveryDigitCounts(s[..n]);
    if i < n { DigitsStandInOrder(s[..n], i); }
  }

  /** Any other character is passed over. */
  lemma {:induction false} OthersArePassedOver(s: string, c: char, t: string)
    requires Base32Index(c) == -1
    ensures Base32Digits(s + [c] + t) == Base32Digits(s + t)
  {
    if t == "" {
      assert (s + [c] + t)[..|s|] == s && s + t == s;
    } else {
      var n := |t| - 1;
      assert (s + [c] + t)[..|s| + 1 + n] == s + [c] + t[..n] && (s + t)[..|s| + n] == s + t[..n];
      OthersArePassedOver(s, c, t[..n]);
    }
  }

  /** A run of alphanumerics follows the v1 tag written at `i`, in whatever case. */
  predicate V1At(uri: string, i: nat) {
    i + 12 < |uri| && Lower(uri[i..i + 12]) == "xt=urn:btih:" && IsAlnum(uri[i + 12])
  }

  /** 64 hexadecimal digits follow the v2 tag written at `i`. */
  predicate V2At(uri: string, i: nat) {
    i + 80 <= |uri| && Lower(uri[i..i + 16]) == "xt=urn:btmh:1220" && AllHex(uri[i + 16..i + 80])
  }

  lemma V1Here(uri: string)
    ensures uri != "" && StartsWith(uri, BTIH) && AlnumRun(uri[|BTIH|..]) != "" <==> V1At(uri, 0)
  {
    assert |BTIH| == 12;
    if 12 <= |uri| { assert uri[0..12] == uri[..12]; }
  }

  lemma V1Later(uri: string, i: nat)
    requires uri != ""
    ensures V1At(uri[1..], i) <==> V1At(uri, i + 1)
  {
    if i + 13 < |uri| { assert uri[1..][i..i + 12] == uri[i + 1..i + 13]; }
  }

  /** What the first pattern captures: the maximal run behind the first tag that has one;
      nothing if no tag has one. */
  lemma {:induction false} V1IsTheFirstRun(uri: string)
    ensures FindV1(uri).None? <==> forall i: nat :: !V1At(uri, i)
    ensures FindV1(uri).Some? ==> exists i: nat :: IsFirstRun(uri, i, FindV1(uri).value)
  {
    if uri != "" {
      V1Here(uri);
      if V1At(uri, 0) {
        RunIsMaximal(uri[|BTIH|..]);
        assert uri[12..|uri|] == uri[12..];
        assert IsFirstRun(uri, 0, FindV1(uri).value);
      } else {
        V1IsTheFirstRun(uri[1..]);
        forall i: nat ensures V1At(uri[1..], i) <==> V1At(uri, i + 1) { V1Later(uri, i); }
        if FindV1(uri).Some? {
          var i: nat :| IsFirstRun(uri[1..], i, FindV1(uri).value);
          RunMovesOn(uri, i, FindV1(uri).value);
        }
        assert (forall i: nat :: !V1At(uri[1..], i)) ==> forall i: nat :: i > 0 ==> !V1At(uri, i) by {
          if forall i: nat :: !V1At(uri[1..], i) {
            forall i: nat | i > 0 ensures !V1At(uri, i) { assert !V1At(uri[1..], i - 1); }
          }
        }
      }
    }
  }

  /** `raw` is the maximal run behind the tag at `i`, and no earlier tag has one. */
  ghost predicate IsFirstRun(uri: string, i: nat, raw: string) {
    && V1At(uri, i) && (forall j: nat :: j < i ==> !V1At(uri, j))
    && raw <= uri[i + 12..] && (forall k :: 0 <= k < |raw| ==> IsAlnum(raw[k]))
    && (i + 12 + |raw| < |uri| ==> !IsAlnum(uri[i + 12 + |raw|]))
  }

  lemma RunMovesOn(uri: string, i: nat, raw: string)
    requires uri != "" && !V1At(uri, 0) && IsFirstRun(uri[1..], i, raw)
    ensures IsFirstRun(uri, i + 1, raw)
  {
    V1Later(uri, i);
    forall j: nat | j < i + 1 ensures !V1At(uri, j) { if j > 0 { V1Later(uri, j - 1); } }
    assert uri[1..][i + 12..] == uri[i + 13..];
  }

  lemma {:induction false} RunIsMaximal(s: string)
    ensures |AlnumRun(s)| < |s| ==> !IsAlnum(s[|AlnumRun(s)|])
  {
    if s != "" && IsAlnum(s[0]) { RunIsMaximal(s[1..]); }
  }

  lemma V2Here(uri: string)
    ensures uri != "" && StartsWith(uri, BTMH) && |BTMH| + 64 <= |uri| && AllHex(uri[|BTMH|..|BTMH| + 64]) <==> V2At(uri, 0)
  {
    assert |BTMH| == 16;
    if 80 <= |uri| { assert uri[0..16] == uri[..16]; }
  }

  lemma V2Later(uri: string, i: nat)
    requires uri != ""
    ensures V2At(uri[1..], i) <==> V2At(uri, i + 1)
  {
    if i + 81 <= |uri| {
      assert uri[1..][i..i + 16] == uri[i + 1..i + 17];
      assert uri[1..][i + 16..i + 80] == uri[i + 17..i + 81];
    }
  }

  /** What the second pattern captures, for the first tag that has a whole hash. */
  lemma {:induction false} V2IsTheFirstHash(uri: string, i: nat)
    requires forall j: nat :: j < i ==> !V2At(uri, j)
    ensures V2At(uri, i) ==> FindV2(uri) == Some(uri[i + 16..i + 80])
    ensures i >= |uri| ==> FindV2(uri).None?
    decreases |uri|
  {
    if uri != "" {
      V2Here(uri);
      if i == 0 {
        assert |BTMH| == 16;
      } else {
        forall j: nat | j < i - 1 ensures !V2At(uri[1..], j) { V2Later(uri, j); }
        assert !V2At(uri, 0);
        V2IsTheFirstHash(uri[1..], i - 1);
        V2Later(uri, i - 1);
        if V2At(uri, i) { assert uri[1..][i + 15..i + 79] == uri[i + 16..i + 80]; }
      }
    }
  }

  /** A v1 hash wins over a v2 one, even if it is malformed. It is read only if it has 40
      hexadecimal digits or 32 characters. */
  lemma V1HashComesFirst(uri: string, i: nat, raw: string)
    requires IsFirstRun(uri, i, raw)
    ensures InfoHash(uri) == V1Hash(raw)
    ensures V1Hash(raw).Some? <==> (|raw| == 40 && AllHex(raw)) || |raw| == 32
  {
    V1IsTheFirstRun(uri);
    var j: nat :| IsFirstRun(uri, j, FindV1(uri).value);
    OneFirstRun(uri, i, raw, j, FindV1(uri).value);
  }

  lemma OneFirstRun(uri: string, i: nat, raw: string, j: nat, other: string)
    requires IsFirstRun(uri, i, raw) && IsFirstRun(uri, j, other)
    ensures i == j && raw == other
  {
    var rest := uri[i + 12..];
    assert i == j;
    assert |raw| == |other|;
    assert raw == rest[..|raw|] && other == rest[..|other|];
  }

  /** Without a v1 hash the first v2 hash is read, cut to its first 40 digits. */
  lemma V2HashIsCut(uri: string, i: nat)
    requires (forall j: nat :: !V1At(uri, j)) && (forall j: nat :: j < i ==> !V2At(uri, j))
    ensures V2At(uri, i) ==> InfoHash(uri) == Some(Lower(uri[i + 16..i + 56]))
    ensures i >= |uri| ==> InfoHash(uri) == None
  {
    V1IsTheFirstRun(uri);
    V2IsTheFirstHash(uri, i);
    if V2At(uri, i) { assert Lower(uri[i + 16..i + 80])[..40] == Lower(uri[i + 16..i + 56]); }
  }
}

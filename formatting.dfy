/**
 * The two integer conversions the fault dump uses, as C99 section 7.19.6.1
 * defines them for `printf`: `%d` of a non-negative int and `%08x` of an
 * unsigned int (lower-case hexadecimal, at least eight digits, padded on
 * the left with '0'). Each comes with the decoder that reads it back.
 */
module Formatting {
  import opened Words

  const HexDigits: string := "0123456789abcdef"

  predicate IsHexDigit(c: char) {
    '0' <= c <= '9' || 'a' <= c <= 'f'
  }

  predicate IsDecimalDigit(c: char) {
    '0' <= c <= '9'
  }

  predicate AllHexDigits(s: string) {
    forall i :: 0 <= i < |s| ==> IsHexDigit(s[i])
  }

  predicate AllDecimalDigits(s: string) {
    forall i :: 0 <= i < |s| ==> IsDecimalDigit(s[i])
  }

  /** The character `%x` writes for the digit d. */
  function HexDigit(d: nat): (c: char)
    requires d < 16
    ensures IsHexDigit(c) && HexDigitValue(c) == d
  {
    HexDigits[d]
  }

  /** The value of one hexadecimal digit character. */
  function HexDigitValue(c: char): (d: nat)
    requires IsHexDigit(c)
    ensures d < 16
  {
    if c <= '9' then c as nat - '0' as nat else c as nat - 'a' as nat + 10
  }

  /** `%x`: the digits of n, most significant first, with no leading zero. */
  function Hex(n: nat): (s: string)
    ensures 1 <= |s| && AllHexDigits(s)
    ensures |s| > 1 ==> s[0] != '0'
    decreases n
  {
    if n < 16 then [HexDigit(n)] else Hex(n / 16) + [HexDigit(n % 16)]
  }

  /** The number a string of hexadecimal digits denotes. */
  function HexValue(s: string): nat
    requires AllHexDigits(s)
  {
    if s == [] then 0 else HexValue(s[..|s| - 1]) * 16 + HexDigitValue(s[|s| - 1])
  }

  /** `%0<width>`: pad on the left with '0' up to width characters. */
  function ZeroPad(s: string, width: nat): (r: string)
    ensures |r| == if |s| < width then width else |s|
    ensures r[|r| - |s|..] == s
    ensures forall i :: 0 <= i < |r| - |s| ==> r[i] == '0'
  {
    if |s| < width then seq(width - |s|, _ => '0') + s else s
  }

  /** `%08x` of a 32-bit unsigned int. */
  function Hex8(w: Word): string
  {
    ZeroPad(Hex(w), 8)
  }

  /** Reading the digits left to right: one more digit scales the prefix by 16. */
  lemma {:induction false} HexValueAppend(s: string, c: char)
    requires AllHexDigits(s) && IsHexDigit(c)
    ensures AllHexDigits(s + [c]) && HexValue(s + [c]) == HexValue(s) * 16 + HexDigitValue(c)
  {
    assert (s + [c])[..|s + [c]| - 1] == s;
  }

  /** `%x` reads back to the number it was given. */
  lemma {:induction false} HexRoundTrip(n: nat)
    ensures HexValue(Hex(n)) == n
    decreases n
  {
    if n < 16 {
      assert Hex(n)[..0] == [];
    } else {
      HexRoundTrip(n / 16);
      HexValueAppend(Hex(n / 16), HexDigit(n % 16));
    }
  }

  /** A number below 16^k needs at most k digits (k >= 1). */
  lemma {:induction false} HexLength(n: nat, k: nat)
    requires 1 <= k && n < Pow16(k)
    ensures |Hex(n)| <= k
    decreases k
  {
    if 16 <= n {
      assert k != 1;
      assert n / 16 < Pow16(k - 1);
      HexLength(n / 16, k - 1);
    }
  }

  function Pow16(k: nat): (p: nat)
    ensures p >= 1
  {
    if k == 0 then 1 else 16 * Pow16(k - 1)
  }

  /** Leading zeros do not change the value of a hexadecimal string. */
  lemma {:induction false} LeadingZeros(z: string, s: string)
    requires forall i :: 0 <= i < |z| ==> z[i] == '0'
    requires AllHexDigits(s)
    ensures AllHexDigits(z + s) && HexValue(z + s) == HexValue(s)
    decreases |s|
  {
    if s == [] {
      assert z + s == z;
      LeadingZerosOnly(z);
    } else {
      var init := s[..|s| - 1];
      var last := s[|s| - 1];
      assert z + s == (z + init) + [last];
      assert s == init + [last];
      LeadingZeros(z, init);
      HexValueAppend(z + init, last);
      HexValueAppend(init, last);
    }
  }

  lemma {:induction false} LeadingZerosOnly(z: string)
    requires forall i :: 0 <= i < |z| ==> z[i] == '0'
    ensures AllHexDigits(z) && HexValue(z) == 0
    decreases |z|
  {
    if z != [] {
      LeadingZerosOnly(z[..|z| - 1]);
    }
  }

  /**
   * `%08x` writes exactly eight lower-case hexadecimal digits for any 32-bit
   * value, and they read back to that value.
   */
  lemma Hex8RoundTrip(w: Word)
    ensures |Hex8(w)| == 8 && AllHexDigits(Hex8(w))
    ensures HexValue(Hex8(w)) == w
  {
    var h := Hex(w);
    assert Pow16(8) == 0x1_0000_0000;
    HexLength(w, 8);
    var r := Hex8(w);
    assert r == r[..|r| - |h|] + h;
    LeadingZeros(r[..|r| - |h|], h);
    HexRoundTrip(w);
  }

  /** `%d` of a non-negative int: decimal digits with no leading zero. */
  function Decimal(n: nat): (s: string)
    ensures 1 <= |s| && AllDecimalDigits(s)
    ensures |s| > 1 ==> s[0] != '0'
    decreases n
  {
    if n < 10 then [DecimalDigit(n)] else Decimal(n / 10) + [DecimalDigit(n % 10)]
  }

  function DecimalDigit(d: nat): (c: char)
    requires d < 10
    ensures IsDecimalDigit(c) && c as nat - '0' as nat == d
  {
    ('0' as nat + d) as char
  }

  /** The number a string of decimal digits denotes. */
  function DecimalValue(s: string): nat
    requires AllDecimalDigits(s)
  {
    if s == [] then 0 else DecimalValue(s[..|s| - 1]) * 10 + (s[|s| - 1] as nat - '0' as nat)
  }

  /** `%d` reads back to the number it was given. */
  lemma {:induction false} DecimalRoundTrip(n: nat)
    ensures DecimalValue(Decimal(n)) == n
    decreases n
  {
    if n < 10 {
      assert Decimal(n)[..0] == [];
    } else {
      DecimalRoundTrip(n / 10);
      var s := Decimal(n);
      assert s[..|s| - 1] == Decimal(n / 10);
    }
  }
}

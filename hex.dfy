/**
 * Hexadecimal text: the upper-case, zero-padded rendering of printf's "%08X"
 * (used by the target's log dump and by the host decoder's unresolved-address
 * names) and the base-16 reading of Python's int(s, 16) (used by the map-file
 * parser). The two are inverse to each other.
 */
module Hex {

  predicate IsHexDigit(c: char)
  {
    '0' <= c <= '9' || 'a' <= c <= 'f' || 'A' <= c <= 'F'
  }

  /** The digits "%X" produces: no lower-case letters. */
  predicate IsUpperHexDigit(c: char)
  {
    '0' <= c <= '9' || 'A' <= c <= 'F'
  }

  predicate AllHexDigits(s: string)
  {
    forall i :: 0 <= i < |s| ==> IsHexDigit(s[i])
  }

  function HexValue(c: char): (v: nat)
    requires IsHexDigit(c)
    ensures v < 16
  {
    if '0' <= c <= '9' then (c - '0') as nat
    else if 'a' <= c <= 'f' then (c - 'a') as nat + 10
    else (c - 'A') as nat + 10
  }

  function HexDigit(d: nat): (c: char)
    requires d < 16
    ensures IsUpperHexDigit(c) && IsHexDigit(c) && HexValue(c) == d
  {
    if d < 10 then '0' + d as char else 'A' + (d - 10) as char
  }

  /** The shortest upper-case hexadecimal spelling of n (one digit for 0). */
  function Digits(n: nat): (s: string)
    ensures |s| >= 1
    ensures forall i :: 0 <= i < |s| ==> IsUpperHexDigit(s[i])
    decreases n
  {
    if n < 16 then [HexDigit(n)] else Digits(n / 16) + [HexDigit(n % 16)]
  }

  function Zeros(k: nat): (s: string)
    ensures |s| == k && forall i :: 0 <= i < k ==> s[i] == '0'
  {
    if k == 0 then [] else Zeros(k - 1) + ['0']
  }

  /** printf's "%0<width>X": n in upper-case hexadecimal, padded on the left with
      '0' to at least width digits. */
  function FormatHex(n: nat, width: nat): string
  {
    var d := Digits(n);
    if |d| < width then Zeros(width - |d|) + d else d
  }

  /** Python's int(s, 16) on a non-empty string of hexadecimal digits. */
  function ParseHex(s: string): nat
    requires AllHexDigits(s)
  {
    if s == [] then 0 else 16 * ParseHex(s[..|s| - 1]) + HexValue(s[|s| - 1])
  }

  function Pow16(k: nat): (r: nat)
    ensures r >= 1
  {
    if k == 0 then 1 else 16 * Pow16(k - 1)
  }

  lemma {:induction false} ParseHexOfDigits(n: nat)
    ensures AllHexDigits(Digits(n)) && ParseHex(Digits(n)) == n
    decreases n
  {
    var s := Digits(n);
    if n >= 16 {
      ParseHexOfDigits(n / 16);
      assert s[..|s| - 1] == Digits(n / 16);
    }
  }

  lemma {:induction false} ParseHexLeadingZero(s: string)
    requires AllHexDigits(s)
    ensures AllHexDigits(['0'] + s) && ParseHex(['0'] + s) == ParseHex(s)
    decreases |s|
  {
    if s != [] {
      var t := ['0'] + s;
      assert t[..|t| - 1] == ['0'] + s[..|s| - 1];
      ParseHexLeadingZero(s[..|s| - 1]);
    }
  }

  lemma {:induction false} ParseHexLeadingZeros(k: nat, s: string)
    requires AllHexDigits(s)
    ensures AllHexDigits(Zeros(k) + s) && ParseHex(Zeros(k) + s) == ParseHex(s)
  {
    if k > 0 {
      assert Zeros(k) + s == Zeros(k - 1) + (['0'] + s);
      ParseHexLeadingZero(s);
      ParseHexLeadingZeros(k - 1, ['0'] + s);
    } else {
      assert Zeros(k) + s == s;
    }
  }

  /** Reading back what "%0<width>X" wrote gives the number again. */
  lemma ParseFormatRoundTrip(n: nat, width: nat)
    ensures AllHexDigits(FormatHex(n, width)) && ParseHex(FormatHex(n, width)) == n
  {
    ParseHexOfDigits(n);
    var d := Digits(n);
    if |d| < width {
      ParseHexLeadingZeros(width - |d|, d);
    }
  }

  lemma {:induction false} DigitsLength(n: nat, k: nat)
    requires k >= 1 && n < Pow16(k)
    ensures |Digits(n)| <= k
    decreases k
  {
    if n >= 16 {
      DigitsLength(n / 16, k - 1);
    }
  }

  /** A 32-bit word renders as exactly eight upper-case hexadecimal digits. */
  lemma FormatWordWidth(n: nat)
    requires n < 0x1_0000_0000
    ensures |FormatHex(n, 8)| == 8
    ensures forall i :: 0 <= i < 8 ==> IsUpperHexDigit(FormatHex(n, 8)[i])
  {
    assert Pow16(8) == 0x1_0000_0000;
    DigitsLength(n, 8);
  }
}

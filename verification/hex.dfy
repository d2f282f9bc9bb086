/**
 * Lowercase base-16 rendering of naturals, the way JavaScript's
 * `Number.prototype.toString(16)` writes a non-negative integer (no padding,
 * no leading zeros), a two-digit padded variant, and the parser that inverts
 * both.
 */
module Hex {
  import opened Optional

  predicate IsHexDigit(c: char) {
    ('0' <= c <= '9') || ('a' <= c <= 'f')
  }

  /** The lowercase digit for a value below 16. */
  function Digit(d: nat): (c: char)
    requires d < 16
    ensures IsHexDigit(c)
    ensures c == '0' <==> d == 0
  {
    if d < 10 then ('0' as int + d) as char else ('a' as int + (d - 10)) as char
  }

  /** The value of a lowercase hex digit; None for any other character. */
  function DigitValue(c: char): (r: Option<nat>)
    ensures r.Some? <==> IsHexDigit(c)
    ensures r.Some? ==> r.value < 16 && Digit(r.value) == c
  {
    if '0' <= c <= '9' then Some(c as int - '0' as int)
    else if 'a' <= c <= 'f' then Some(c as int - 'a' as int + 10)
    else None
  }

  lemma DigitValueOfDigit(d: nat)
    requires d < 16
    ensures DigitValue(Digit(d)) == Some(d)
  {
  }

  /** Reads a non-empty string of lowercase hex digits, most significant first. */
  function ParseHex(s: string): Option<nat>
    decreases |s|
  {
    if |s| == 0 then None
    else
      match DigitValue(s[|s| - 1])
      case None => None
      case Some(d) =>
        if |s| == 1 then Some(d)
        else
          match ParseHex(s[..|s| - 1])
          case None => None
          case Some(v) => Some(v * 16 + d)
  }

  /**
   * `n.toString(16)`: at least one digit, no leading zero except for 0 itself,
   * one digit exactly below 16, at most two below 256, and it parses back to n.
   */
  function ToHex(n: nat): (s: string)
    ensures 1 <= |s|
    ensures forall i :: 0 <= i < |s| ==> IsHexDigit(s[i])
    ensures s[0] == '0' ==> n == 0
    ensures |s| == 1 <==> n < 16
    ensures n < 256 ==> |s| <= 2
    ensures ParseHex(s) == Some(n)
    decreases n
  {
    if n < 16 then
      DigitValueOfDigit(n);
      [Digit(n)]
    else
      var prefix := ToHex(n / 16);
      var s := prefix + [Digit(n % 16)];
      DigitValueOfDigit(n % 16);
      assert s[..|s| - 1] == prefix;
      s
  }

  /**
   * A byte as exactly two lowercase hex digits: `toString(16)` padded on the
   * left with '0' to width two.
   */
  function Hex2(n: nat): (s: string)
    requires n < 256
    ensures |s| == 2
    ensures forall i :: 0 <= i < |s| ==> IsHexDigit(s[i])
    ensures n < 16 ==> s == ['0'] + ToHex(n)
    ensures 16 <= n ==> s == ToHex(n)
    ensures ParseHex(s) == Some(n)
  {
    DigitValueOfDigit(n / 16);
    DigitValueOfDigit(n % 16);
    var s := [Digit(n / 16), Digit(n % 16)];
    assert s[..1] == [Digit(n / 16)];
    s
  }
}

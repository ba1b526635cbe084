/**
 * Digit strings as JavaScript writes and reads them: `Number.prototype.toString(base)` on a
 * non-negative integer, `parseInt(s, base)` on a string made only of digits of that base, and
 * `String.prototype.padStart`.
 */
module Numerals {

  /** A character `parseInt` accepts as a digit of base 16 (either case). */
  predicate IsHexDigit(c: char) {
    '0' <= c <= '9' || 'a' <= c <= 'f' || 'A' <= c <= 'F'
  }

  /** A digit as `toString` writes it: decimal digits and lower-case letters. */
  predicate IsLowerHexDigit(c: char) {
    '0' <= c <= '9' || 'a' <= c <= 'f'
  }

  function DigitValue(c: char): (d: nat)
    requires IsHexDigit(c)
    ensures d < 16
    ensures d < 10 <==> '0' <= c <= '9'
  {
    if '0' <= c <= '9' then c as int - '0' as int
    else if 'a' <= c <= 'f' then c as int - 'a' as int + 10
    else c as int - 'A' as int + 10
  }

  /** The digit `toString` writes for a value below 16; DigitValue reads it back. */
  function DigitChar(d: nat): (c: char)
    requires d < 16
    ensures IsLowerHexDigit(c) && IsHexDigit(c)
    ensures DigitValue(c) == d
  {
    if d < 10 then ('0' as int + d) as char else ('a' as int + d - 10) as char
  }

  lemma DigitCharOfValue(c: char)
    requires IsLowerHexDigit(c)
    ensures DigitChar(DigitValue(c)) == c
  {
  }

  /** The two bases the extension writes and reads numbers in. */
  predicate IsRadix(base: nat) {
    base == 10 || base == 16
  }

  /** Splitting off the last digit: quotient and remainder by a literal base. */
  lemma DivStep(n: nat, base: nat)
    requires IsRadix(base)
    ensures n / base <= n && (n >= base ==> n / base < n)
    ensures n / base * base + n % base == n && n % base < base
  {
    if base == 10 {
    } else {
    }
  }

  /** Every character of `s` is a digit of `base`. */
  predicate AllDigits(s: string, base: nat) {
    forall i :: 0 <= i < |s| ==> IsHexDigit(s[i]) && DigitValue(s[i]) < base
  }

  /** `n.toString(base)` for a non-negative integer `n`: most significant digit first, no leading zero. */
  function ToBase(n: nat, base: nat): (s: string)
    requires IsRadix(base)
    ensures 1 <= |s|
    ensures (|s| == 1) == (n < base)
    decreases n
  {
    if n < base then [DigitChar(n)]
    else
      DivStep(n, base);
      ToBase(n / base, base) + [DigitChar(n % base)]
  }

  /** `parseInt(s, base)` for a non-empty string of digits of `base`; the empty string reads as 0. */
  function FromBase(s: string, base: nat): (n: nat)
    requires IsRadix(base)
    requires AllDigits(s, base)
  {
    if s == [] then 0
    else FromBase(s[..|s| - 1], base) * base + DigitValue(s[|s| - 1])
  }

  /** What ToBase writes is digits of the base, and reading them back gives the number. */
  lemma {:induction false} FromToBase(n: nat, base: nat)
    requires IsRadix(base)
    ensures AllDigits(ToBase(n, base), base)
    ensures FromBase(ToBase(n, base), base) == n
  {
    var s := ToBase(n, base);
    if n >= base {
      DivStep(n, base);
      assert s[..|s| - 1] == ToBase(n / base, base);
      FromToBase(n / base, base);
    }
  }

  /** A leading zero does not change the value parseInt reads. */
  lemma {:induction false} FromBaseLeadingZero(s: string, base: nat)
    requires IsRadix(base)
    requires AllDigits(s, base)
    ensures AllDigits("0" + s, base)
    ensures FromBase("0" + s, base) == FromBase(s, base)
    decreases |s|
  {
    var z := "0" + s;
    if s != [] {
      assert z[..|z| - 1] == "0" + s[..|s| - 1];
      FromBaseLeadingZero(s[..|s| - 1], base);
    }
  }

  /** The value of a two-digit string is its first digit times the base plus its second. */
  lemma TwoDigits(s: string, base: nat)
    requires IsRadix(base)
    requires |s| == 2 && AllDigits(s, base)
    ensures FromBase(s, base) == DigitValue(s[0]) * base + DigitValue(s[1])
    ensures FromBase(s, base) < base * base
  {
    assert s[..1][..0] == [] && s[..1][0] == s[0];
    assert FromBase(s[..1], base) == DigitValue(s[0]);
    if base == 10 {
    } else {
    }
  }

  /** `s.padStart(width, fill)`: `fill` characters in front of `s` up to `width`; `s` itself when it is long enough. */
  function PadStart(s: string, width: nat, fill: char): (r: string)
    ensures |r| == if |s| < width then width else |s|
  {
    if |s| >= width then s else seq(width - |s|, _ => fill) + s
  }

  /** What padStart returns: `fill` characters, then `s` itself at the end. */
  lemma PadStartIs(s: string, width: nat, fill: char)
    ensures var r := PadStart(s, width, fill);
      r[|r| - |s|..] == s && forall i :: 0 <= i < |r| - |s| ==> r[i] == fill
  {
    if |s| < width {
      var r := PadStart(s, width, fill);
      assert r == seq(width - |s|, _ => fill) + s;
    }
  }
}

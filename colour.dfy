/**
 * The colour-string helpers of the extension: `hexToRgb` reads `#rgb` / `#rrggbb` strings into
 * integer components and `rgbToHex` writes components back as `#rrggbb`.
 */
module Colour {
  import opened Wrappers
  import opened Numerals

  datatype Rgb = Rgb(r: int, g: int, b: int)

  /** Removes one leading `#`, as `replace(/^#/, '')` does. */
  function StripHash(hex: string): (h: string)
    ensures h == hex || hex == "#" + h
    ensures |hex| > 0 && hex[0] == '#' ==> hex == "#" + h
    ensures (|hex| == 0 || hex[0] != '#') ==> h == hex
  {
    if |hex| > 0 && hex[0] == '#' then hex[1..] else hex
  }

  /** Doubles every character of a three-character string (`abc` to `aabbcc`); other strings are kept. */
  function ExpandShorthand(h: string): (r: string)
    ensures |h| != 3 ==> r == h
    ensures |h| == 3 ==> |r| == 6 && forall i :: 0 <= i < 6 ==> r[i] == h[i / 2]
  {
    if |h| == 3 then [h[0], h[0], h[1], h[1], h[2], h[2]] else h
  }

  /** The string whose length hexToRgb checks. */
  function Normalised(hex: string): string {
    ExpandShorthand(StripHash(hex))
  }

  /**
   * What the model asks of hexToRgb's input: wherever the code reaches `parseInt`, the six
   * characters are hex digits (what `parseInt` makes of other characters is not modelled).
   */
  predicate Parsable(hex: string) {
    |Normalised(hex)| == 6 ==> AllDigits(Normalised(hex), 16)
  }

  /** `parseInt` of one two-digit component. */
  function Component(h: string): (v: nat)
    requires |h| == 2 && AllDigits(h, 16)
    ensures v < 256
    ensures v == DigitValue(h[0]) * 16 + DigitValue(h[1])
  {
    TwoDigits(h, 16);
    FromBase(h, 16)
  }

  /** hexToRgb: `None` (the code's `null`) exactly when the normalised string is not six characters long. */
  function HexToRgb(hex: string): (rgb: Option<Rgb>)
    requires Parsable(hex)
    ensures rgb.None? <==> |Normalised(hex)| != 6
    ensures rgb.Some? ==> 0 <= rgb.value.r < 256 && 0 <= rgb.value.g < 256 && 0 <= rgb.value.b < 256
  {
    var h := Normalised(hex);
    if |h| != 6 then None
    else Some(Rgb(Component(h[0..2]), Component(h[2..4]), Component(h[4..6])))
  }

  /** `c.toString(16).padStart(2, '0')` for an integer component (a negative one keeps its minus sign). */
  function ComponentToHex(c: int): (hex: string)
    ensures |hex| >= 2
  {
    PadStart(if c < 0 then "-" + ToBase(-c, 16) else ToBase(c, 16), 2, '0')
  }

  /** rgbToHex: `#` followed by each component in hexadecimal. */
  function RgbToHex(r: int, g: int, b: int): (hex: string)
    ensures |hex| >= 7 && hex[0] == '#'
  {
    "#" + ComponentToHex(r) + ComponentToHex(g) + ComponentToHex(b)
  }

  /** A component in 0..255 is written as exactly two lower-case digits, high digit first. */
  lemma ComponentToHexByte(c: int)
    requires 0 <= c < 256
    ensures ComponentToHex(c) == [DigitChar(c / 16), DigitChar(c % 16)]
  {
    if c >= 16 {
      assert ToBase(c, 16) == ToBase(c / 16, 16) + [DigitChar(c % 16)];
    }
  }

  /** Reading a component back from the two digits rgbToHex writes for it. */
  lemma ComponentOfByte(c: int)
    requires 0 <= c < 256
    ensures |ComponentToHex(c)| == 2 && AllDigits(ComponentToHex(c), 16)
    ensures Component(ComponentToHex(c)) == c
  {
    ComponentToHexByte(c);
  }

  /** Reading back what rgbToHex wrote gives the same components. */
  lemma HexToRgbOfRgbToHex(r: int, g: int, b: int)
    requires 0 <= r < 256 && 0 <= g < 256 && 0 <= b < 256
    ensures Parsable(RgbToHex(r, g, b))
    ensures HexToRgb(RgbToHex(r, g, b)) == Some(Rgb(r, g, b))
  {
    ComponentOfByte(r);
    ComponentOfByte(g);
    ComponentOfByte(b);
    ReadsComponents(ComponentToHex(r), ComponentToHex(g), ComponentToHex(b));
  }

  /** A `#` and three two-digit components are read component by component. */
  lemma ReadsComponents(x: string, y: string, z: string)
    requires |x| == 2 && |y| == 2 && |z| == 2
    requires AllDigits(x, 16) && AllDigits(y, 16) && AllDigits(z, 16)
    ensures Parsable("#" + x + y + z)
    ensures HexToRgb("#" + x + y + z) == Some(Rgb(Component(x), Component(y), Component(z)))
  {
    var h := x + y + z;
    assert "#" + x + y + z == "#" + h;
    assert Normalised("#" + h) == h;
    assert h[0..2] == x && h[2..4] == y && h[4..6] == z;
  }

  /** A canonical `#rrggbb` string (lower-case digits) is what rgbToHex writes for the components hexToRgb reads. */
  lemma RgbToHexOfHexToRgb(hex: string)
    requires |hex| == 7 && hex[0] == '#'
    requires forall i :: 1 <= i < 7 ==> IsLowerHexDigit(hex[i])
    ensures Parsable(hex) && HexToRgb(hex).Some?
    ensures var c := HexToRgb(hex).value; RgbToHex(c.r, c.g, c.b) == hex
  {
    var x, y, z := hex[1..3], hex[3..5], hex[5..7];
    assert hex == "#" + x + y + z;
    ByteOfDigits(x);
    ByteOfDigits(y);
    ByteOfDigits(z);
    ReadsComponents(x, y, z);
  }

  /** Two lower-case digits are what rgbToHex writes for the component they denote. */
  lemma ByteOfDigits(d: string)
    requires |d| == 2 && IsLowerHexDigit(d[0]) && IsLowerHexDigit(d[1])
    ensures AllDigits(d, 16) && ComponentToHex(Component(d)) == d
  {
    DigitsOfValues(d);
    WrittenAsDigits(d, DigitValue(d[0]), DigitValue(d[1]));
  }

  lemma WrittenAsDigits(d: string, high: nat, low: nat)
    requires |d| == 2 && AllDigits(d, 16)
    requires high < 16 && low < 16
    requires Component(d) == high * 16 + low
    requires [DigitChar(high), DigitChar(low)] == d
    ensures ComponentToHex(Component(d)) == d
  {
    HexOfDigitPair(high, low);
  }

  lemma DigitsOfValues(d: string)
    requires |d| == 2 && IsLowerHexDigit(d[0]) && IsLowerHexDigit(d[1])
    ensures AllDigits(d, 16)
    ensures [DigitChar(DigitValue(d[0])), DigitChar(DigitValue(d[1]))] == d
  {
    DigitCharOfValue(d[0]);
    DigitCharOfValue(d[1]);
  }

  /** The component with high digit `high` and low digit `low` is written as those two digits. */
  lemma HexOfDigitPair(high: nat, low: nat)
    requires high < 16 && low < 16
    ensures ComponentToHex(high * 16 + low) == [DigitChar(high), DigitChar(low)]
  {
    ComponentToHexByte(high * 16 + low);
    assert (high * 16 + low) / 16 == high && (high * 16 + low) % 16 == low;
  }

  /** The shorthand `#abc` denotes the same colour as `#aabbcc`. */
  lemma ShorthandMeansDoubled(a: char, b: char, c: char)
    requires IsHexDigit(a) && IsHexDigit(b) && IsHexDigit(c)
    ensures Parsable(['#', a, b, c]) && Parsable(['#', a, a, b, b, c, c])
    ensures HexToRgb(['#', a, b, c]) == HexToRgb(['#', a, a, b, b, c, c])
  {
    var doubled := [a, a, b, b, c, c];
    assert Normalised(['#', a, b, c]) == doubled;
    assert Normalised(['#', a, a, b, b, c, c]) == doubled;
    assert AllDigits(doubled, 16);
    SameNormalised(['#', a, b, c], ['#', a, a, b, b, c, c]);
  }

  /** Two strings that normalise alike are read alike. */
  lemma SameNormalised(x: string, y: string)
    requires Normalised(x) == Normalised(y)
    requires Parsable(x)
    ensures Parsable(y) && HexToRgb(x) == HexToRgb(y)
  {
  }
}

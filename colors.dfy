/**
 * Colours as the highlighting engine stores and persists them.
 *
 * A `Color` is either Qt's invalid colour (a default-constructed QColor, or
 * one built from a string Qt cannot parse) or an ARGB value with 8-bit
 * channels. The engine writes colours with `QColor::name(QColor::HexArgb)`
 * ("#aarrggbb", lower-case hex) and reads them back with `QColor(QString)`;
 * both are modelled here for the two forms the engine uses, "#rrggbb" and
 * "#aarrggbb". The colour arithmetic of `QColor::darker` is not modelled:
 * a darkened colour is kept symbolically as a `Shade`.
 */
module Colors {
  import opened Wrappers

  type Byte = x: int | 0 <= x < 256

  datatype Color = Invalid | Rgba(alpha: Byte, red: Byte, green: Byte, blue: Byte)

  /** An opaque black: what an invalid QColor turns into once saved and read back. */
  const OpaqueBlack: Color := Rgba(255, 0, 0, 0)

  /** Qt::gray (#a0a0a4). */
  const Gray: Color := Rgba(255, 0xa0, 0xa0, 0xa4)

  /**
   * The colour a highlighted range is painted with: a rule's colour as it
   * is, or that colour passed through `QColor::darker(factor)`.
   */
  datatype Shade = Plain(color: Color) | Darkened(base: Color, factor: int)

  /** One lower-case hexadecimal digit. */
  function HexDigit(n: int): (c: char)
    requires 0 <= n < 16
    ensures ('0' <= c <= '9') || ('a' <= c <= 'f')
  {
    if n < 10 then (('0' as int) + n) as char else (('a' as int) + n - 10) as char
  }

  /** The value of a hexadecimal digit in either case, as QColor's parser reads it. */
  function DigitValue(c: char): (r: Option<int>)
    ensures r.Some? <==> ('0' <= c <= '9') || ('a' <= c <= 'f') || ('A' <= c <= 'F')
    ensures r.Some? ==> 0 <= r.value < 16
  {
    if '0' <= c <= '9' then Some(c as int - '0' as int)
    else if 'a' <= c <= 'f' then Some(c as int - 'a' as int + 10)
    else if 'A' <= c <= 'F' then Some(c as int - 'A' as int + 10)
    else None
  }

  lemma DigitValueOfHexDigit(n: int)
    requires 0 <= n < 16
    ensures DigitValue(HexDigit(n)) == Some(n)
  {
  }

  /** Two hexadecimal digits, high nibble first. */
  function ByteName(b: Byte): (s: string)
    ensures |s| == 2 && DigitValue(s[0]).Some? && DigitValue(s[1]).Some?
  {
    [HexDigit(b / 16), HexDigit(b % 16)]
  }

  /** The byte spelled by `s[i]` and `s[i + 1]`, if both are hexadecimal digits. */
  function ParseByte(s: string, i: nat): (r: Option<Byte>)
    requires i + 2 <= |s|
    ensures r.Some? <==> DigitValue(s[i]).Some? && DigitValue(s[i + 1]).Some?
  {
    match (DigitValue(s[i]), DigitValue(s[i + 1]))
    case (Some(hi), Some(lo)) => Some(hi * 16 + lo)
    case _ => None
  }

  lemma ParseByteName(b: Byte, s: string, i: nat)
    requires i + 2 <= |s| && s[i..i + 2] == ByteName(b)
    ensures ParseByte(s, i) == Some(b)
  {
    assert s[i] == ByteName(b)[0] && s[i + 1] == ByteName(b)[1];
    DigitValueOfHexDigit(b / 16);
    DigitValueOfHexDigit(b % 16);
  }

  /**
   * `QColor::name(QColor::HexArgb)`. An invalid QColor keeps an alpha of
   * 0xffff and zero colour channels, so its name is that of opaque black.
   */
  function HexArgbName(c: Color): (s: string)
    ensures |s| == 9 && s[0] == '#'
    ensures forall i :: 1 <= i < 9 ==> DigitValue(s[i]).Some?
  {
    var k := if c.Invalid? then OpaqueBlack else c;
    var a, r, g, b := ByteName(k.alpha), ByteName(k.red), ByteName(k.green), ByteName(k.blue);
    assert forall i :: 1 <= i < 9 ==> ("#" + a + r + g + b)[i] in a + r + g + b;
    "#" + a + r + g + b
  }

  /**
   * `QColor(const QString&)` for "#rrggbb" (opaque) and "#aarrggbb"; every
   * other string gives the invalid colour.
   */
  function ParseColor(s: string): (c: Color)
    ensures c.Rgba? ==> (|s| == 7 || |s| == 9) && s[0] == '#'
    ensures |s| == 7 && c.Rgba? ==> c.alpha == 255
  {
    if |s| == 7 && s[0] == '#' then
      match (ParseByte(s, 1), ParseByte(s, 3), ParseByte(s, 5))
      case (Some(r), Some(g), Some(b)) => Rgba(255, r, g, b)
      case _ => Invalid
    else if |s| == 9 && s[0] == '#' then
      match (ParseByte(s, 1), ParseByte(s, 3), ParseByte(s, 5), ParseByte(s, 7))
      case (Some(a), Some(r), Some(g), Some(b)) => Rgba(a, r, g, b)
      case _ => Invalid
    else
      Invalid
  }

  /** Reading a colour back gives the colour saved, except that an invalid one comes back as opaque black. */
  function SavedColor(c: Color): (r: Color)
    ensures r.Rgba?
    ensures c.Rgba? ==> r == c
  {
    if c.Invalid? then OpaqueBlack else c
  }

  /** Saving a colour by its HexArgb name and parsing the name back gives `SavedColor(c)`. */
  lemma ParseHexArgbName(c: Color)
    ensures ParseColor(HexArgbName(c)) == SavedColor(c)
  {
    var k := SavedColor(c);
    var s := HexArgbName(k);
    assert HexArgbName(c) == s;
    assert s == "#" + ByteName(k.alpha) + ByteName(k.red) + ByteName(k.green) + ByteName(k.blue);
    ParseByteName(k.alpha, s, 1);
    ParseByteName(k.red, s, 3);
    ParseByteName(k.green, s, 5);
    ParseByteName(k.blue, s, 7);
  }
}

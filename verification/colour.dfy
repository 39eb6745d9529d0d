/** The component's colour handling: `hexToRgb` turns the `color` prop into
    three byte channels by removing the first `#`, parsing the rest with
    `parseInt(…, 16)` and extracting bits 16-23, 8-15 and 0-7 of the 32-bit
    integer; the fragment shader then receives each channel divided by 255. */
module Colour {
  import opened JsNumber
  import opened JsString
  import opened ParseInt

  /** The array `[r, g, b]` that `hexToRgb` returns. */
  datatype Rgb = Rgb(r: int, g: int, b: int)

  const Black: Rgb := Rgb(0, 0, 0)

  predicate IsByteTriple(c: Rgb) {
    0 <= c.r < 256 && 0 <= c.g < 256 && 0 <= c.b < 256
  }

  /** The 24-bit number whose bytes are the three channels. */
  function Packed(c: Rgb): int {
    c.r * 65536 + c.g * 256 + c.b
  }

  /** The channel extraction `[(x >> 16) & 255, (x >> 8) & 255, x & 255]` for
      an int32 `x`: the three bytes of x reassemble its low 24 bits, whatever
      its sign. */
  function Channels(x: int): (c: Rgb)
    requires IsInt32(x)
    ensures IsByteTriple(c)
    ensures Packed(c) == x % TWO_24
  {
    var c := Rgb(Mask255(ShiftRight(x, 16)), Mask255(ShiftRight(x, 8)), Mask255(x));
    ChannelsAreLowBytes(x);
    c
  }

  /** The text `parseInt` sees: the prop with its first `#` removed. */
  function Stripped(hex: string): string {
    RemoveFirst(hex, '#')
  }

  /** Inputs whose digit run the double returned by parseInt holds exactly. */
  predicate CanParse(hex: string) {
    IsExact(Stripped(hex))
  }

  /** `hexToRgb(hex)`. Every channel is a byte; when parseInt finds no digit
      (NaN) the colour is black; otherwise the channels are the low 24 bits of
      the parsed integer, so digits above the sixth from the right are lost. */
  function HexToRgb(hex: string): (c: Rgb)
    requires CanParse(hex)
    ensures IsByteTriple(c)
    ensures ParseHex(Stripped(hex)).NaN? ==> c == Black
    ensures ParseHex(Stripped(hex)).Int? ==> Packed(c) == ParseHex(Stripped(hex)).value % TWO_24
  {
    Channels(ToInt32(ParseHex(Stripped(hex))))
  }

  /** The colour literal baked into the fragment shader, `r / 255` etc. */
  datatype FragColour = FragColour(r: real, g: real, b: real)

  /** Normalises each byte channel into [0, 1]; multiplying back by 255
      recovers the byte, so no colour information is lost. */
  function ShaderColour(c: Rgb): (f: FragColour)
    requires IsByteTriple(c)
    ensures 0.0 <= f.r <= 1.0 && 0.0 <= f.g <= 1.0 && 0.0 <= f.b <= 1.0
    ensures f.r * 255.0 == c.r as real && f.g * 255.0 == c.g as real && f.b * 255.0 == c.b as real
  {
    FragColour(c.r as real / 255.0, c.g as real / 255.0, c.b as real / 255.0)
  }

  // ---------------------------------------------------------------------------
  // Arithmetic behind the channel extraction

  lemma Pow2Values()
    ensures Pow2(8) == 256 && Pow2(16) == 65536
  {
    assert Pow2(4) == 16;
    assert Pow2(8) == 256;
    assert Pow2(12) == 4096;
  }

  /** The three masked shifts are the base-256 digits 2, 1 and 0 of x. */
  lemma ChannelsAreLowBytes(x: int)
    requires IsInt32(x)
    ensures Mask255(ShiftRight(x, 16)) * 65536 + Mask255(ShiftRight(x, 8)) * 256 + Mask255(x) == x % TWO_24
  {
    Pow2Values();
    var b, q1 := x % 256, x / 256;
    var g, q2 := q1 % 256, q1 / 256;
    var r, q3 := q2 % 256, q2 / 256;
    assert x == 256 * q1 + b;
    assert q1 == 256 * q2 + g;
    assert q2 == 256 * q3 + r;
    assert x == 65536 * q2 + (256 * g + b);
    DivModUnique(x, 65536, q2, 256 * g + b);
    assert x == TWO_24 * q3 + (65536 * r + 256 * g + b);
    DivModUnique(x, TWO_24, q3, 65536 * r + 256 * g + b);
  }

  /** A 24-bit value has exactly one byte triple. */
  lemma PackedUnique(c: Rgb, d: Rgb)
    requires IsByteTriple(c) && IsByteTriple(d)
    requires Packed(c) == Packed(d)
    ensures c == d
  {
    var v := Packed(c);
    DivModUnique(v, 256, c.r * 256 + c.g, c.b);
    DivModUnique(v, 256, d.r * 256 + d.g, d.b);
    DivModUnique(c.r * 256 + c.g, 256, c.r, c.g);
    DivModUnique(d.r * 256 + d.g, 256, d.r, d.g);
  }

  // ---------------------------------------------------------------------------
  // Properties of hexToRgb

  /** The channels read back the parsed number's bytes: for a nonnegative
      value v the red channel is bits 16-23, green bits 8-15, blue bits 0-7. */
  lemma ChannelsOfValue(hex: string, v: nat)
    requires CanParse(hex) && ParseHex(Stripped(hex)) == Int(v)
    ensures HexToRgb(hex) == Rgb(v / 65536 % 256, v / 256 % 256, v % 256)
  {
    var c := HexToRgb(hex);
    var k := v / TWO_24;
    assert v == TWO_24 * k + Packed(c);
    DivModUnique(v, 256, 65536 * k + 256 * c.r + c.g, c.b);
    DivModUnique(v / 256, 256, 256 * k + c.r, c.g);
    DivModUnique(v, 65536, 256 * k + c.r, 256 * c.g + c.b);
    DivModUnique(v / 65536, 256, k, c.r);
  }

  /** Any input whose digit run has at most 13 digits can be parsed, and a
      non-negative one gives the low 24 bits of the run's value. */
  lemma ShortRunColour(hex: string)
    requires |DigitRun(Stripped(hex))| <= 13
    ensures CanParse(hex)
    ensures |DigitRun(Stripped(hex))| == 0 ==> HexToRgb(hex) == Black
    ensures |DigitRun(Stripped(hex))| > 0 && !IsNegative(Stripped(hex)) ==>
              Packed(HexToRgb(hex)) == HexValue(DigitRun(Stripped(hex))) % TWO_24
  {
    ShortRunIsExact(Stripped(hex));
  }

  /** A parsed value below 2^24 is reproduced exactly by the channels. */
  lemma ColourOfBytes(hex: string, c: Rgb)
    requires IsByteTriple(c)
    requires CanParse(hex) && ParseHex(Stripped(hex)) == Int(Packed(c))
    ensures HexToRgb(hex) == c
  {
    DivModUnique(Packed(c), TWO_24, 0, Packed(c));
    PackedUnique(HexToRgb(hex), c);
  }

  /** Only the first `#` is removed, so a `#` in front of a string without
      one makes no difference. */
  lemma HashPrefixIgnored(s: string)
    requires '#' !in s && CanParse(s)
    ensures CanParse("#" + s) && HexToRgb("#" + s) == HexToRgb(s)
  {
    RemoveLeading('#', s);
  }

  /** When the text after removing the first `#` does not start with a digit,
      white space or a sign, parseInt gives NaN and the colour is black (not
      the white a CSS-style fallback would give). */
  lemma NoDigitIsBlack(hex: string)
    requires var s := Stripped(hex);
      |s| == 0 || (!IsHexDigit(s[0]) && !IsStrWhiteSpace(s[0]) && s[0] != '-' && s[0] != '+')
    ensures CanParse(hex) && HexToRgb(hex) == Black
  {
    NoDigitIsNaN(Stripped(hex));
  }

  /** Everything after the leading digit run is ignored. */
  lemma TailIgnored(z: string, tail: string)
    requires |z| > 0 && AllHexDigits(z) && HexValue(z) <= TWO_53
    requires '#' !in tail
    requires |tail| == 0 || !IsHexDigit(tail[0])
    requires !(z == "0" && |tail| > 0 && (tail[0] == 'x' || tail[0] == 'X'))
    ensures CanParse(z + tail) && CanParse(z)
    ensures HexToRgb(z + tail) == HexToRgb(z)
  {
    var s := z + tail;
    assert Stripped(s) == s && Stripped(z) == z by {
      NoHashInDigits(z);
      assert '#' !in s;
    }
    assert IsExact(s) && IsExact(z) && ParseHex(s) == ParseHex(z) by {
      ParseIgnoresTail(z, tail);
    }
  }

  lemma NoHashInDigits(z: string)
    requires AllHexDigits(z)
    ensures '#' !in z
  {
    assert !IsHexDigit('#');
  }

  /** A string of digits without a tail parses to its own value. */
  lemma ParseDigits(z: string)
    requires |z| > 0 && AllHexDigits(z) && HexValue(z) <= TWO_53
    ensures Stripped(z) == z
    ensures CanParse(z) && ParseHex(Stripped(z)) == Int(HexValue(z))
  {
    NoHashInDigits(z);
    ParseIgnoresTail(z, []);
    assert z + [] == z;
  }

  /** Six hex digits denote the value of their three digit pairs. */
  lemma SixDigitValue(s: string)
    requires |s| == 6 && AllHexDigits(s)
    ensures AllHexDigits(s[..2]) && AllHexDigits(s[2..4]) && AllHexDigits(s[4..])
    ensures HexValue(s[..2]) < 256 && HexValue(s[2..4]) < 256 && HexValue(s[4..]) < 256
    ensures HexValue(s) == HexValue(s[..2]) * 65536 + HexValue(s[2..4]) * 256 + HexValue(s[4..])
  {
    var p0, p1, p2 := s[..2], s[2..4], s[4..];
    assert Pow16(2) == 256;
    assert Pow16(4) == 65536;
    HexValueBound(p0);
    HexValueBound(p1);
    HexValueBound(p2);
    HexValueAppend(p0, p1);
    HexValueAppend(p0 + p1, p2);
    assert p0 + p1 + p2 == s;
    assert |p1 + p2| == 4;
  }

  /** The format of the default prop: exactly six hex digits, with or without
      a leading `#`, give the values of digit pairs 1-2, 3-4 and 5-6. */
  lemma SixDigitColour(s: string)
    requires |s| == 6 && AllHexDigits(s)
    ensures AllHexDigits(s[..2]) && AllHexDigits(s[2..4]) && AllHexDigits(s[4..])
    ensures CanParse(s) && CanParse("#" + s)
    ensures HexToRgb("#" + s) == HexToRgb(s) == Rgb(HexValue(s[..2]), HexValue(s[2..4]), HexValue(s[4..]))
  {
    var want := Rgb(HexValue(s[..2]), HexValue(s[2..4]), HexValue(s[4..]));
    assert Packed(want) == HexValue(s) && IsByteTriple(want) by {
      SixDigitValue(s);
    }
    ParseDigits(s);
    ColourOfBytes(s, want);
    HashPrefixIgnored(s);
  }

  /** With eight digits the top byte falls outside the 24 bits that survive
      the channel extraction: only the last six digits matter (a top byte of
      0x80 or above also makes the int32 negative, which the extraction does
      not notice). */
  lemma EightDigitsLoseTopByte(s: string)
    requires |s| == 8 && AllHexDigits(s)
    ensures AllHexDigits(s[2..])
    ensures CanParse(s) && CanParse(s[2..])
    ensures HexToRgb(s) == HexToRgb(s[2..])
  {
    var hi, lo := s[..2], s[2..];
    assert AllHexDigits(hi) && AllHexDigits(lo);
    var vh, vl := HexValue(hi), HexValue(lo);
    assert HexValue(s) == vh * TWO_24 + vl && vh < 256 && vl < TWO_24 by {
      assert hi + lo == s;
      HexValueAppend(hi, lo);
      HexValueBound(hi);
      HexValueBound(lo);
      assert Pow16(2) == 256 && Pow16(6) == TWO_24;
    }
    assert HexValue(s) % TWO_24 == vl && vl % TWO_24 == vl by {
      DivModUnique(HexValue(s), TWO_24, vh, vl);
      DivModUnique(vl, TWO_24, 0, vl);
    }
    assert CanParse(s) && Packed(HexToRgb(s)) == vl by {
      ParseDigits(s);
    }
    assert CanParse(lo) && Packed(HexToRgb(lo)) == vl by {
      ParseDigits(lo);
    }
    PackedUnique(HexToRgb(s), HexToRgb(lo));
  }

  // ---------------------------------------------------------------------------
  // Concrete inputs. Each lemma takes its literal through a requires rather
  // than writing it in the body: with a literal argument the solver unfolds
  // the parser on it character by character, which is far slower than
  // deriving the result from the general lemmas above.

  /** The value of a two-digit string of equal digits d is 17 * d. */
  lemma Doubled(z: string)
    requires |z| == 2 && AllHexDigits(z) && z[0] == z[1]
    ensures HexValue(z) == 17 * DigitValue(z[0])
  {
    PairValue(z);
  }

  /** The default prop `"#ffffff"` is white, and so is its shader colour. */
  lemma DefaultIsWhite(color: string)
    requires color == "#ffffff"
    ensures CanParse(color) && HexToRgb(color) == Rgb(255, 255, 255)
    ensures ShaderColour(HexToRgb(color)) == FragColour(1.0, 1.0, 1.0)
  {
    var s := color[1..];
    assert color == "#" + s;
    assert |s| == 6 && AllHexDigits(s);
    var v0, v1, v2 := HexValue(s[..2]), HexValue(s[2..4]), HexValue(s[4..]);
    assert v0 == 255 by { Doubled(s[..2]); }
    assert v1 == 255 by { Doubled(s[2..4]); }
    assert v2 == 255 by { Doubled(s[4..]); }
    SixDigitColour(s);
  }

  /** `"#ff0055"` reads pairwise as (255, 0, 85), which the shader receives
      as (1, 0, 1/3). */
  lemma PairwiseExample(color: string)
    requires color == "#ff0055"
    ensures CanParse(color) && HexToRgb(color) == Rgb(255, 0, 85)
    ensures ShaderColour(HexToRgb(color)) == FragColour(1.0, 0.0, 1.0 / 3.0)
  {
    var s := color[1..];
    assert color == "#" + s;
    assert |s| == 6 && AllHexDigits(s);
    var v0, v1, v2 := HexValue(s[..2]), HexValue(s[2..4]), HexValue(s[4..]);
    assert v0 == 255 by { Doubled(s[..2]); }
    assert v1 == 0 by { Doubled(s[2..4]); }
    assert v2 == 85 by { Doubled(s[4..]); }
    SixDigitColour(s);
  }

  /** Three `f` digits are the number 0xfff, not the colour 0xffffff. */
  lemma ThreeEffs(z: string)
    requires |z| == 3 && z[0] == z[1] == z[2] == 'f'
    ensures '#' !in z
    ensures CanParse(z) && HexToRgb(z) == Rgb(0, 15, 255)
  {
    assert AllHexDigits(z);
    assert HexValue(z) == 4095 by {
      Doubled(z[..2]);
      assert z[..2] == z[..|z| - 1];
    }
    ParseDigits(z);
    ColourOfBytes(z, Rgb(0, 15, 255));
  }

  /** Three-digit shorthand is not expanded: `"fff"` is the number 0xfff. */
  lemma ShorthandNotExpanded(color: string)
    requires color == "fff"
    ensures CanParse(color) && HexToRgb(color) == Rgb(0, 15, 255)
  {
    assert |color| == 3 && color[0] == color[1] == color[2] == 'f';
    ThreeEffs(color);
  }

  /** ... and neither is `"#fff"`. */
  lemma HashShorthandNotExpanded(color: string)
    requires color == "#fff"
    ensures CanParse(color) && HexToRgb(color) == Rgb(0, 15, 255)
  {
    var s := color[1..];
    assert color == "#" + s;
    assert |s| == 3 && s[0] == s[1] == s[2] == 'f';
    ThreeEffs(s);
    HashPrefixIgnored(s);
  }

  /** Malformed input gives black, not white. */
  lemma NotAColourIsBlack(color: string)
    requires color == "notacolor"
    ensures CanParse(color) && HexToRgb(color) == Black
  {
    assert '#' !in color && color[0] == 'n';
    NoDigitIsBlack(color);
  }

  /** A doubled `#` leaves one behind, which parseInt cannot read. */
  lemma DoubleHashIsBlack(color: string)
    requires color == "##ffffff"
    ensures CanParse(color) && HexToRgb(color) == Black
  {
    var s := color[1..];
    assert color == ['#'] + s && s[0] == '#';
    RemoveLeading('#', s);
    NoDigitIsBlack(color);
  }

  /** A `#` in the middle is removed too when it is the first one, joining the
      digits around it. */
  lemma InnerHashRemoved(color: string)
    requires color == "ff#ff"
    ensures CanParse(color) && HexToRgb(color) == Rgb(0, 255, 255)
  {
    var a, b := color[..2], color[3..];
    assert color == a + [color[2]] + b && color[2] == '#';
    assert a[0] == a[1] == b[0] == b[1] == 'f';
    OnlyFirstRemoved(a, '#', b);
    var s := a + b;
    assert AllHexDigits(a) && AllHexDigits(b);
    assert HexValue(s) == 65535 by {
      Doubled(a);
      Doubled(b);
      HexValueAppend(a, b);
      assert Pow16(2) == 256;
    }
    ParseDigits(s);
    ColourOfBytes(s, Rgb(0, 255, 255));
  }
}

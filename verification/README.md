# Framer particles: colour parsing and particle buffers

A Dafny model of the computable core of `particles.mjs`, a React component
that draws a field of WebGL points:

- `hexToRgb(hex)` turns the `color` prop into three byte channels. It removes
  the first `#` with `String.prototype.replace`, parses the rest with
  `parseInt(…, 16)`, and extracts bits 16-23, 8-15 and 0-7 with `>>` and
  `& 255` (module `Colour`). It rests on three models of JavaScript
  built-ins:
  - `JsString`: `replace` with a one-character pattern.
  - `ParseInt`: `parseInt` with radix 16, as section 19.2.5 of ECMA-262
    defines it. That covers leading white space, sign, `0x` prefix, the
    longest digit run and NaN. Negative zero is read as plain 0.
  - `JsNumber`: ToInt32, signed right shift and the byte mask, written out
    over unbounded integers.
- The fragment shader receives each channel divided by 255 (`Colour.ShaderColour`).
- The mount-time loop draws three `Math.random()` values per particle
  (angle, distance, size). It pushes two coordinates onto `positions` and one
  size onto `sizes`. The frame callback then calls
  `drawArrays(POINTS, 0, count)` over those two buffers (module
  `ParticleBuffers`).

The parser is not a CSS colour parser, and the model keeps the places where
the two differ:

- **Malformed colour.** A CSS-style parser would fall back to a default such as
  white. This code has no fallback: parseInt returns NaN, ToInt32 turns it
  into 0, and the colour is black `(0,0,0)`. `Colour.NotAColourIsBlack` and
  `Colour.NoDigitIsBlack` state this.
- **Channel range.** `hexToRgb` returns 0-255 integers, not 0-1 fractions.
  The division by 255 happens only when the shader source is written.
- **Accepted input.** The code accepts any string, not only six digits:
  - shorthand `fff` is not expanded;
  - only the low 24 bits of the number survive;
  - every `#` after the first stays in place.

## Model

| member | source | states |
|---|---|---|
| JsNumber.ToInt32 | particles.mjs:125 | The operand conversion of `>>` and `&`: the result is a signed 32-bit integer congruent to the input modulo 2^32. It is the input itself when that already fits, 0 for NaN, and it keeps the input's low 24 bits. |
| JsNumber.ShiftRight | particles.mjs:125 | `x >> k` on an int32 is floor division by 2^k. The result r satisfies 2^k·r ≤ x < 2^k·r + 2^k and is again an int32. |
| JsNumber.Mask255 | particles.mjs:125 | `x & 255` is a byte congruent to x modulo 256, for negative x as well. |
| JsNumber.LowBitsSurvive | particles.mjs:125 | Numbers congruent modulo 2^32 agree modulo 2^24, so wrapping to 32 bits never disturbs the colour bits. |
| JsString.RemoveFirst | particles.mjs:123 | `replace("#", "")` leaves a string without `#` unchanged, and otherwise removes exactly one character. |
| JsString.RemoveLeading | particles.mjs:123 | A `#` at the front is the one removed, and the rest is returned unchanged. |
| JsString.OnlyFirstRemoved | particles.mjs:123 | For a + `#` + b with no `#` in a, the result is a + b. Only the first occurrence goes, wherever it is, and later ones survive. |
| ParseInt.DigitValue | particles.mjs:124 | Each hex digit is worth less than 16, and a letter of either case is worth at least 10. |
| ParseInt.TrimStart | particles.mjs:124 | parseInt first drops a prefix made only of white space, leaving a suffix that does not start with white space. |
| ParseInt.LeadingHexDigits | particles.mjs:124 | The digits read form the longest prefix of hex digits: the prefix is all digits and the next character is not one. |
| ParseInt.IsStrWhiteSpace | particles.mjs:124 | The characters parseInt skips before the number: the StrWhiteSpaceChar set of ECMA-262 (tab, line feed, vertical tab, form feed, carriage return, space, no-break space, the Unicode space separators, line and paragraph separators, and the byte order mark). |
| ParseInt.HexValue | particles.mjs:124 | The value of a digit string, accumulated left to right as value·16 + digit. Its meaning is pinned by HexValueAppend, HexValueBound and PairValue. |
| ParseInt.DropSign | particles.mjs:124 | The length drops by one exactly when the text starts with `-` or `+`, and is unchanged otherwise. DropSignSuffix says the character goes from the front. |
| ParseInt.DropSignSuffix | particles.mjs:124 | DropSign's result is a suffix of its input, so with DropSign's contract it is the text after the sign. |
| ParseInt.DropPrefix | particles.mjs:124 | The length drops by two exactly when the text starts with `0x` or `0X`, and is unchanged otherwise. DropPrefixSuffix says the characters go from the front. |
| ParseInt.DropPrefixSuffix | particles.mjs:124 | DropPrefix's result is a suffix of its input, so with DropPrefix's contract it is the text after the prefix. |
| ParseInt.Unsigned | particles.mjs:124 | The text where the digit run starts is at most three characters shorter than the trimmed text: a sign and a prefix. |
| ParseInt.UnsignedSuffix | particles.mjs:124 | The text where the digit run starts is a suffix of the trimmed text: only its front is removed. |
| ParseInt.SignAndPrefixSuffix | particles.mjs:124 | Removing a sign and then a prefix leaves a suffix of the text. |
| ParseInt.IsNegative | particles.mjs:124 | The sign parseInt applies: a `-` as the first character after the white space. SignRead states its effect. |
| ParseInt.ParseHex | particles.mjs:124 | `parseInt(s, 16)` is NaN exactly when the text after the white space, the sign and the `0x` prefix does not start with a hex digit. Otherwise its magnitude is at most 2^53. The white-space, sign and prefix steps are stated by TrimSkipsWhiteSpace, WhiteSpaceIgnored, SignRead, SignThenPrefix, SignWithoutDigits and PrefixSkipped. |
| ParseInt.TrimSkipsWhiteSpace | particles.mjs:124 | Any run of white space in front of a text is dropped in full: `TrimStart(w + s) == TrimStart(s)`. |
| ParseInt.WhiteSpaceIgnored | particles.mjs:124 | Leading white space does not change the result: `parseInt(w + s, 16) == parseInt(s, 16)`. |
| ParseInt.SameTrimSameRun | particles.mjs:124 | Texts equal after trimming have the same digit run and the same sign. |
| ParseInt.SameRunSameParse | particles.mjs:124 | The result depends only on the digit run and the sign. |
| ParseInt.ParseOfRun | particles.mjs:124 | A nonempty digit run of value v gives v, or −v after a minus sign. |
| ParseInt.EmptyRunIsNaN | particles.mjs:124 | No digit run gives NaN. |
| ParseInt.SignedText | particles.mjs:124 | In `-z…` or `+z…` the sign is taken off, the digits follow it, and only `-` makes the number negative. |
| ParseInt.SignRead | particles.mjs:124 | `parseInt("-" + z + t, 16) == -value(z)` and `parseInt("+" + z + t, 16) == value(z)`, for a digit run z followed by a non-digit or nothing. The excluded case is a lone `0` before `x`/`X`, which is a prefix and is covered by SignThenPrefix. |
| ParseInt.SignOff | particles.mjs:124 | A leading sign is kept by the trim and removed by DropSign, and only `-` makes the number negative. |
| ParseInt.SignedPrefixedRun | particles.mjs:124 | In `-0x…` or `+0x…` the digit run is the digits after the prefix, and the sign is negative exactly for `-`. |
| ParseInt.SignThenPrefix | particles.mjs:124 | A sign may precede the prefix: `parseInt("-0x" + z + t, 16) == -value(z)` and `"+0x"` gives value(z), also with `0X`. With no digit after the prefix the result is NaN. |
| ParseInt.SignedNoRun | particles.mjs:124 | A sign followed by a non-digit or nothing leaves no digit run. |
| ParseInt.SignWithoutDigits | particles.mjs:124 | A sign with no digit after it, as in `-g` or `-`, gives NaN. |
| ParseInt.PrefixedText | particles.mjs:124 | In `0x…` or `0X…` the prefix is taken off and the number is not negative. |
| ParseInt.PrefixedRun | particles.mjs:124 | After a `0x` prefix, the digit run is the digits that follow it. |
| ParseInt.PrefixSkipped | particles.mjs:124 | `parseInt("0x" + z + t, 16) == value(z)`, also with `0X`. A prefix with no digit after it gives NaN. |
| ParseInt.DigitValueSpelled | particles.mjs:124 | A digit's value is its position in `0123456789abcdef`, or in the upper-case alphabet. |
| ParseInt.HexValueAppend | particles.mjs:124 | Appending digits multiplies the value read so far by 16 per digit and adds their own value. |
| ParseInt.HexValueBound | particles.mjs:124 | k digits denote a value below 16^k. |
| ParseInt.PairValue | particles.mjs:124 | Two digits are worth 16 times the first plus the second. |
| ParseInt.ShortRunIsExact | particles.mjs:124 | A digit run of at most 13 digits is read exactly, because parseInt's double holds every integer up to 2^53. |
| ParseInt.ParseIgnoresTail | particles.mjs:124 | A nonempty digit run followed by a non-digit parses as the run alone, whatever comes after. The one excluded case is a lone `0` before `x`, which is the hex prefix. |
| ParseInt.DigitsParse | particles.mjs:124 | A nonempty digit run followed by a tail that does not start with a digit parses exactly, to the run's value. A lone `0` before `x` is again excluded. |
| ParseInt.LeadingRunOfDigits | particles.mjs:124 | Digits followed by a non-digit have exactly those digits as their leading run. |
| ParseInt.DigitRunOfDigits | particles.mjs:124 | A string that starts with a digit run involves no white space, no sign and no prefix, and its digit run is that run. |
| ParseInt.NoDigitIsNaN | particles.mjs:124 | Text whose first character is neither a digit, white space nor a sign parses to NaN. |
| Colour.Stripped | particles.mjs:123 | The text parseInt sees is the prop with its first `#` removed (`JsString.RemoveFirst`). |
| Colour.Channels | particles.mjs:125 | The three masked shifts of an int32 are bytes whose base-256 number is the input's low 24 bits, whatever its sign. |
| Colour.ChannelsAreLowBytes | particles.mjs:125 | `(x>>16)&255`, `(x>>8)&255` and `x&255` are digits 2, 1 and 0 of x in base 256. |
| Colour.PackedUnique | particles.mjs:125 | Two byte triples with the same 24-bit number are equal, so the channels are determined by that number. |
| Colour.HexToRgb | particles.mjs:122-126 | Every channel is in 0..255. When parseInt gives NaN the colour is black. Otherwise r·65536 + g·256 + b is the parsed value modulo 2^24. |
| Colour.ShaderColour | particles.mjs:59 | Each shader channel c/255 lies in [0, 1], and multiplying it by 255 gives back the byte. |
| Colour.ChannelsOfValue | particles.mjs:124-125 | For a parsed value v ≥ 0 the channels are bits 16-23, 8-15 and 0-7 of v. |
| Colour.ShortRunColour | particles.mjs:124-125 | Every input whose digit run has at most 13 digits is accepted. No digits gives black; otherwise, for an unsigned run, the packed channels equal the run's value modulo 2^24. |
| Colour.ColourOfBytes | particles.mjs:124-125 | A parsed value that is the 24-bit number of a byte triple gives back exactly that triple. |
| Colour.HashPrefixIgnored | particles.mjs:123 | For any s without `#`, `hexToRgb("#" + s) == hexToRgb(s)`. |
| Colour.NoDigitIsBlack | particles.mjs:124-125 | When the stripped text has no leading digit, white space or sign, the colour is black. |
| Colour.TailIgnored | particles.mjs:124 | Characters after the leading digit run do not change the colour when they contain no `#`. A `#` in the tail is removed by `replace` and joins the digits around it, as InnerHashRemoved shows. |
| Colour.ParseDigits | particles.mjs:123-124 | A plain digit string contains no `#` and parses to its own value. |
| Colour.SixDigitValue | particles.mjs:124 | Six digits denote pair 1-2 times 65536, plus pair 3-4 times 256, plus pair 5-6, and each pair is below 256. |
| Colour.SixDigitColour | particles.mjs:122-125 | Six hex digits, with or without a leading `#`, give the values of digit pairs 1-2, 3-4 and 5-6. |
| Colour.EightDigitsLoseTopByte | particles.mjs:124-125 | With eight digits only the last six matter: the top byte is lost, even when it makes the int32 negative. |
| Colour.Doubled | particles.mjs:124 | A pair of equal digits d is worth 17·d, as in `ff` = 255. |
| Colour.DefaultIsWhite | particles.mjs:5 | The default prop `"#ffffff"` gives (255, 255, 255), and the shader receives (1, 1, 1). |
| Colour.PairwiseExample | particles.mjs:122-125 | `"#ff0055"` gives (255, 0, 85), and the shader receives (1, 0, 1/3). |
| Colour.ThreeEffs | particles.mjs:124-125 | Three `f` digits give the number 0xfff, that is (0, 15, 255). |
| Colour.ShorthandNotExpanded | particles.mjs:122-125 | `"fff"` gives (0, 15, 255), not the CSS expansion to white. |
| Colour.HashShorthandNotExpanded | particles.mjs:122-125 | `"#fff"` gives (0, 15, 255). |
| Colour.NotAColourIsBlack | particles.mjs:122-125 | `"notacolor"` gives black (0, 0, 0). |
| Colour.DoubleHashIsBlack | particles.mjs:123-125 | `"##ffffff"` keeps its second `#`, which parseInt cannot read, so the colour is black. |
| Colour.InnerHashRemoved | particles.mjs:123-125 | `"ff#ff"` loses its inner `#` and reads as 0xffff, that is (0, 255, 255). |
| ParticleBuffers.ParticleAt | particles.mjs:73-78 | Particle i as the loop body builds it from draws 3i (angle), 3i+1 (distance) and 3i+2 (size). |
| ParticleBuffers.SizeInRange | particles.mjs:78 | A particle's size `pointSize + Math.random()` lies in [pointSize, pointSize + 1). |
| ParticleBuffers.BuildBuffers | particles.mjs:70-79 | The loop runs count times, or not at all when count ≤ 0: afterwards `sizes` holds that many numbers and `positions` twice as many. Particle i, built from draws 3i, 3i+1 and 3i+2, sits at positions[2i], positions[2i+1] and sizes[i]. Every size is in [pointSize, pointSize + 1). |
| ParticleBuffers.DrawPoints | particles.mjs:112 | drawArrays fails with INVALID_VALUE exactly when first or count is negative. It draws exactly count vertices when the arguments are nonnegative and the range fits both attribute buffers, or count is 0. A successful draw of count > 0 vertices stays within both buffers. |
| ParticleBuffers.Render | particles.mjs:70-112 | With the loop's buffers, `drawArrays(POINTS, 0, count)` draws exactly the particles produced when count ≥ 0, and is rejected with INVALID_VALUE when count < 0, in which case both buffers are empty. |

## Left out

- WebGL: context creation, shader compilation and linking, buffer upload, attribute pointers, uniforms, `clear` and `clearColor` (particles.mjs:15-16, 25-68, 81-97, 116). These are foreign GPU calls. Only `drawArrays`' vertex-count and range rule (section 6.6 of the WebGL 1.0 specification) is modelled.
- The GLSL shader bodies (particles.mjs:26-49, 54-60): the pointer falloff, the displacement and the size/alpha modulation run on the GPU in floating point. Only the colour literal `r/255` is modelled.
- The number-to-text formatting of `${r / 255}` into the shader source: `ShaderColour` gives the exact real value, not its decimal rendering.
- Particle geometry: `Math.random`, `Math.cos`, `Math.sin`, `Math.sqrt` and `Math.PI` are parameters (a sequence of draws in [0, 1) and uninterpreted functions). No bound on the disc radius is stated.
- ParticleBuffers.SizeInRange: the strict upper bound pointSize + 1 holds over the reals only. In doubles, `2.0 + (1 - 2^-52)` rounds to 3.0, and `Float32Array` rounds `2 + u` up to 3 for every u > 1 - 2^-23.
- ParticleBuffers.BuildBuffers: numbers are reals. The rounding of doubles and of `Float32Array` is not modelled.
- ParticleBuffers.Layout: `count` is an integer. A fractional count (the loop would run ⌈count⌉ times) and a NaN count are not modelled.
- Pointer handling, DPI scaling, surface sizing and the `requestAnimationFrame` loop (particles.mjs:18-21, 99-117) are DOM events and host scheduling.
- ParseInt.ParseHex: requires the digit run's value to be at most 2^53. Above that the double parseInt returns is rounded, and the rounding is not modelled; `ShortRunIsExact` shows every run of up to 13 digits is exact.
- ParseInt.ParseHex: has no negative zero. For a zero digit run after `-` (`"-0"`, `"-00"`, `"-0x0"`), step 15 of section 19.2.5 of ECMA-262 returns -0; the model returns `Int(0)`. This is harmless here: ToInt32 maps -0 and +0 alike to 0, so hexToRgb gives black either way.
- Colour.HexToRgb: inherits the 2^53 precondition through `CanParse`.
- Colour.HexToRgb: the prop is typed as a string. A non-string `color` (null, a number) makes `hex.replace` throw a TypeError at particles.mjs:123, and that case is not modelled.
- JsString.RemoveFirst: strings are sequences of Unicode scalar values. JavaScript strings are UTF-16 code units, so lone surrogates cannot be represented. They are never hex digits, white space or `#`, so nothing the parser reads depends on them.

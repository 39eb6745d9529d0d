/** `parseInt(s, 16)` as section 19.2.5 of ECMA-262 defines it: skip leading
    white space, take an optional sign, drop an optional `0x`/`0X` prefix, then
    read the longest run of hexadecimal digits; no digit at all gives NaN, and
    everything after the run is ignored. */
module ParseInt {
  import opened JsNumber

  predicate IsHexDigit(c: char) {
    ('0' <= c <= '9') || ('a' <= c <= 'f') || ('A' <= c <= 'F')
  }

  predicate AllHexDigits(z: string) {
    forall i :: 0 <= i < |z| ==> IsHexDigit(z[i])
  }

  /** The value of one digit in base 16, either letter case. */
  function DigitValue(c: char): (d: nat)
    requires IsHexDigit(c)
    ensures d < 16
    ensures ('a' <= c <= 'f' || 'A' <= c <= 'F') <==> d >= 10
  {
    if '0' <= c <= '9' then c as int - '0' as int
    else if 'a' <= c <= 'f' then c as int - 'a' as int + 10
    else c as int - 'A' as int + 10
  }

  /** Each digit is worth its position in the digit alphabet, in lower or
      upper case. */
  lemma DigitValueSpelled(c: char)
    requires IsHexDigit(c)
    ensures c == "0123456789abcdef"[DigitValue(c)] || c == "0123456789ABCDEF"[DigitValue(c)]
  {
  }

  /** StrWhiteSpaceChar of ECMA-262: the WhiteSpace and LineTerminator code
      points that parseInt skips before the number. */
  predicate IsStrWhiteSpace(c: char) {
    var n := c as int;
    n == 0x09 || n == 0x0A || n == 0x0B || n == 0x0C || n == 0x0D || n == 0x20
    || n == 0xA0 || n == 0x1680 || (0x2000 <= n <= 0x200A)
    || n == 0x2028 || n == 0x2029 || n == 0x202F || n == 0x205F
    || n == 0x3000 || n == 0xFEFF
  }

  /** Drops the leading white space and nothing else. */
  function TrimStart(s: string): (t: string)
    ensures |t| <= |s| && t == s[|s| - |t|..]
    ensures forall i :: 0 <= i < |s| - |t| ==> IsStrWhiteSpace(s[i])
    ensures |t| == 0 || !IsStrWhiteSpace(t[0])
  {
    if |s| > 0 && IsStrWhiteSpace(s[0]) then TrimStart(s[1..]) else s
  }

  /** The longest prefix of `s` made of hexadecimal digits. */
  function LeadingHexDigits(s: string): (z: string)
    ensures |z| <= |s| && z == s[..|z|]
    ensures AllHexDigits(z)
    ensures |z| == |s| || !IsHexDigit(s[|z|])
  {
    if |s| > 0 && IsHexDigit(s[0]) then
      var z := [s[0]] + LeadingHexDigits(s[1..]);
      assert s == [s[0]] + s[1..];
      z
    else []
  }

  /** The number a digit string denotes, accumulated left to right as parseInt
      does: value := value * 16 + digit. */
  function HexValue(z: string): (v: nat)
    requires AllHexDigits(z)
  {
    if |z| == 0 then 0
    else HexValue(z[..|z| - 1]) * 16 + DigitValue(z[|z| - 1])
  }

  /** 16 to the power k. */
  function Pow16(k: nat): (p: nat)
    ensures p >= 1
  {
    if k == 0 then 1 else 16 * Pow16(k - 1)
  }

  /** Whether the text after the white space starts with a minus sign. */
  predicate IsNegative(s: string) {
    var t := TrimStart(s);
    |t| > 0 && t[0] == '-'
  }

  /** Takes off one leading `-` or `+`, if there is one. */
  function DropSign(t: string): (w: string)
    ensures |w| <= |t| <= |w| + 1
    ensures |w| < |t| <==> |t| > 0 && (t[0] == '-' || t[0] == '+')
  {
    if |t| > 0 && (t[0] == '-' || t[0] == '+') then t[1..] else t
  }

  /** Takes off a leading `0x` or `0X`, if there is one. */
  function DropPrefix(w: string): (u: string)
    ensures |u| <= |w|
    ensures |u| < |w| <==> |w| >= 2 && w[0] == '0' && (w[1] == 'x' || w[1] == 'X')
    ensures |u| < |w| ==> |u| == |w| - 2
  {
    if |w| >= 2 && w[0] == '0' && (w[1] == 'x' || w[1] == 'X') then w[2..] else w
  }

  /** The text after the white space, the sign and the optional `0x` prefix,
      where the digit run starts: a suffix of the trimmed text, at most three
      characters shorter. */
  function Unsigned(s: string): (u: string)
    ensures |u| <= |TrimStart(s)| <= |u| + 3
  {
    DropPrefix(DropSign(TrimStart(s)))
  }

  /** What DropSign removes comes off the front. */
  lemma DropSignSuffix(t: string)
    ensures DropSign(t) == t[|t| - |DropSign(t)|..]
  {
  }

  /** What DropPrefix removes comes off the front. */
  lemma DropPrefixSuffix(w: string)
    ensures DropPrefix(w) == w[|w| - |DropPrefix(w)|..]
  {
  }

  /** The digit run starts at a suffix of the trimmed text: only the front
      (sign and prefix) is taken off. */
  lemma UnsignedSuffix(s: string)
    ensures Unsigned(s) == TrimStart(s)[|TrimStart(s)| - |Unsigned(s)|..]
  {
    SignAndPrefixSuffix(TrimStart(s));
  }

  lemma SignAndPrefixSuffix(t: string)
    ensures DropPrefix(DropSign(t)) == t[|t| - |DropPrefix(DropSign(t))|..]
  {
    var w := DropSign(t);
    var u := DropPrefix(w);
    DropSignSuffix(t);
    DropPrefixSuffix(w);
    SuffixOfSuffix(t, w, u);
  }

  lemma SuffixOfSuffix(t: string, w: string, u: string)
    requires |w| <= |t| && w == t[|t| - |w|..]
    requires |u| <= |w| && u == w[|w| - |u|..]
    ensures u == t[|t| - |u|..]
  {
    forall i | 0 <= i < |u| ensures u[i] == t[|t| - |u| + i] {
      assert u[i] == w[|w| - |u| + i];
    }
  }

  /** The digits parseInt reads. */
  function DigitRun(s: string): (z: string)
    ensures AllHexDigits(z)
  {
    LeadingHexDigits(Unsigned(s))
  }

  /** The digit run is small enough that the double parseInt returns is the
      exact integer (every integer of magnitude at most 2^53 is a double). */
  predicate IsExact(s: string) {
    HexValue(DigitRun(s)) <= TWO_53
  }

  /** `parseInt(s, 16)`: NaN when the digit run is empty, otherwise its signed
      value. */
  function ParseHex(s: string): (r: ParsedNumber)
    requires IsExact(s)
    ensures r.NaN? <==> |DigitRun(s)| == 0
    ensures r.NaN? <==> |Unsigned(s)| == 0 || !IsHexDigit(Unsigned(s)[0])
    ensures r.Int? ==> -TWO_53 <= r.value <= TWO_53
    ensures r.Int? && !IsNegative(s) ==> r.value == HexValue(DigitRun(s))
    ensures r.Int? && IsNegative(s) ==> r.value + HexValue(DigitRun(s)) == 0
  {
    var z := DigitRun(s);
    if |z| == 0 then NaN
    else
      var v: int := HexValue(z);
      if IsNegative(s) then Int(-v) else Int(v)
  }

  lemma ConcatHexDigits(a: string, b: string)
    requires AllHexDigits(a) && AllHexDigits(b)
    ensures AllHexDigits(a + b)
  {
    var ab := a + b;
    forall i | 0 <= i < |ab| ensures IsHexDigit(ab[i]) {
      if i < |a| { assert ab[i] == a[i]; } else { assert ab[i] == b[i - |a|]; }
    }
  }

  /** Digits appended on the right shift the value left by four bits each. */
  lemma {:induction false} HexValueAppend(a: string, b: string)
    requires AllHexDigits(a) && AllHexDigits(b)
    ensures AllHexDigits(a + b)
    ensures HexValue(a + b) == HexValue(a) * Pow16(|b|) + HexValue(b)
    decreases |b|
  {
    ConcatHexDigits(a, b);
    var ab := a + b;
    if |b| == 0 {
      assert ab == a;
    } else {
      var b' := b[..|b| - 1];
      assert AllHexDigits(b');
      assert ab[..|ab| - 1] == a + b';
      HexValueAppend(a, b');
      var d := DigitValue(b[|b| - 1]);
      assert ab[|ab| - 1] == b[|b| - 1];
      assert HexValue(ab) == HexValue(a + b') * 16 + d;
      ShiftDigit(HexValue(a), HexValue(b'), Pow16(|b'|), d);
    }
  }

  lemma ShiftDigit(va: int, vb: int, p: int, d: int)
    ensures (va * p + vb) * 16 + d == va * (p * 16) + (vb * 16 + d)
  {
  }

  /** A run of k digits denotes a value below 16^k. */
  lemma {:induction false} HexValueBound(z: string)
    requires AllHexDigits(z)
    ensures HexValue(z) < Pow16(|z|)
  {
    if |z| > 0 {
      var z' := z[..|z| - 1];
      HexValueBound(z');
      assert HexValue(z) <= (Pow16(|z'|) - 1) * 16 + 15;
    }
  }

  lemma {:induction false} Pow16Monotone(j: nat, k: nat)
    requires j <= k
    ensures Pow16(j) <= Pow16(k)
    decreases k
  {
    if j < k {
      Pow16Monotone(j, k - 1);
    }
  }

  /** Up to 13 digits (16^13 = 2^52) parseInt always returns the exact value,
      which covers every colour string of the usual lengths. */
  lemma ShortRunIsExact(s: string)
    requires |DigitRun(s)| <= 13
    ensures IsExact(s)
  {
    var z := DigitRun(s);
    HexValueBound(z);
    Pow16Monotone(|z|, 13);
    assert Pow16(4) == 65536;
    assert Pow16(8) == 65536 * 65536;
    assert Pow16(13) == 65536 * 65536 * 65536 * 16;
  }

  /** The value of two digits: the high one times 16 plus the low one. */
  lemma PairValue(z: string)
    requires |z| == 2 && AllHexDigits(z)
    ensures HexValue(z) == DigitValue(z[0]) * 16 + DigitValue(z[1])
  {
    assert z[..1][..0] == [];
    assert HexValue(z[..1]) == DigitValue(z[0]);
  }

  /** A nonempty run of digits followed by anything that cannot continue it is
      parsed as exactly that run: the tail is ignored. The one exception the
      requires leaves out is a lone `0` followed by `x`/`X`, which is the hex
      prefix rather than a digit run. */
  lemma ParseIgnoresTail(z: string, tail: string)
    requires |z| > 0 && AllHexDigits(z)
    requires |tail| == 0 || !IsHexDigit(tail[0])
    requires !(z == "0" && |tail| > 0 && (tail[0] == 'x' || tail[0] == 'X'))
    requires HexValue(z) <= TWO_53
    ensures IsExact(z + tail) && IsExact(z)
    ensures ParseHex(z + tail) == ParseHex(z) == Int(HexValue(z))
  {
    DigitsParse(z, tail);
    DigitsParse(z, []);
    assert z + [] == z;
  }

  /** A digit string followed by a non-digit tail parses to the digits' value. */
  lemma DigitsParse(z: string, tail: string)
    requires |z| > 0 && AllHexDigits(z)
    requires |tail| == 0 || !IsHexDigit(tail[0])
    requires !(z == "0" && |tail| > 0 && (tail[0] == 'x' || tail[0] == 'X'))
    requires HexValue(z) <= TWO_53
    ensures IsExact(z + tail) && ParseHex(z + tail) == Int(HexValue(z))
  {
    DigitRunOfDigits(z, tail);
    ParseOfRun(z + tail, z);
  }

  lemma DigitRunOfDigits(z: string, tail: string)
    requires |z| > 0 && AllHexDigits(z)
    requires |tail| == 0 || !IsHexDigit(tail[0])
    requires !(z == "0" && |tail| > 0 && (tail[0] == 'x' || tail[0] == 'X'))
    ensures TrimStart(z + tail) == z + tail
    ensures Unsigned(z + tail) == z + tail
    ensures DigitRun(z + tail) == z && !IsNegative(z + tail)
  {
    var s := z + tail;
    assert TrimStart(s) == s by {
      assert s[0] == z[0];
      assert !IsStrWhiteSpace(s[0]);
    }
    assert Unsigned(s) == s by {
      assert s[0] == z[0] && s[0] != '-' && s[0] != '+';
      if |z| >= 2 {
        assert s[1] == z[1];
      } else if |tail| > 0 {
        assert s[1] == tail[0];
      }
    }
    LeadingRunOfDigits(z, tail);
  }

  lemma {:induction false} LeadingRunOfDigits(z: string, tail: string)
    requires AllHexDigits(z)
    requires |tail| == 0 || !IsHexDigit(tail[0])
    ensures LeadingHexDigits(z + tail) == z
    decreases |z|
  {
    if |z| == 0 {
      assert z + tail == tail;
    } else {
      assert (z + tail)[1..] == z[1..] + tail;
      LeadingRunOfDigits(z[1..], tail);
      assert z == [z[0]] + z[1..];
    }
  }

  predicate AllStrWhiteSpace(w: string) {
    forall i :: 0 <= i < |w| ==> IsStrWhiteSpace(w[i])
  }

  /** White space in front of the text is skipped, however much there is. */
  lemma {:induction false} TrimSkipsWhiteSpace(w: string, s: string)
    requires AllStrWhiteSpace(w)
    ensures TrimStart(w + s) == TrimStart(s)
    decreases |w|
  {
    if |w| == 0 {
      assert w + s == s;
    } else {
      assert (w + s)[0] == w[0];
      assert (w + s)[1..] == w[1..] + s;
      assert AllStrWhiteSpace(w[1..]) by {
        forall i | 0 <= i < |w| - 1 ensures IsStrWhiteSpace(w[1..][i]) {
          assert w[1..][i] == w[i + 1];
        }
      }
      TrimSkipsWhiteSpace(w[1..], s);
    }
  }

  /** Two texts that agree after their white space is dropped have the same
      digit run and sign. */
  lemma SameTrimSameRun(s1: string, s2: string)
    requires TrimStart(s1) == TrimStart(s2)
    ensures DigitRun(s1) == DigitRun(s2) && IsNegative(s1) == IsNegative(s2)
  {
    assert Unsigned(s1) == Unsigned(s2);
  }

  /** parseInt depends only on the digit run and the sign. */
  lemma SameRunSameParse(s1: string, s2: string)
    requires DigitRun(s1) == DigitRun(s2) && IsNegative(s1) == IsNegative(s2)
    ensures IsExact(s1) == IsExact(s2)
    ensures IsExact(s1) ==> ParseHex(s1) == ParseHex(s2)
  {
  }

  /** Leading white space changes nothing about the number read. */
  lemma WhiteSpaceIgnored(w: string, s: string)
    requires AllStrWhiteSpace(w)
    ensures IsExact(w + s) == IsExact(s)
    ensures IsExact(s) ==> ParseHex(w + s) == ParseHex(s)
  {
    TrimSkipsWhiteSpace(w, s);
    SameTrimSameRun(w + s, s);
    SameRunSameParse(w + s, s);
  }

  /** A nonempty digit run whose value fits is read as that value, negated
      after a minus sign. */
  lemma ParseOfRun(s: string, z: string)
    requires DigitRun(s) == z && |z| > 0 && HexValue(z) <= TWO_53
    ensures IsExact(s)
    ensures !IsNegative(s) ==> ParseHex(s) == Int(HexValue(z))
    ensures IsNegative(s) ==> ParseHex(s) == Int(-(HexValue(z) as int))
  {
  }

  /** Without a digit run the result is NaN. */
  lemma EmptyRunIsNaN(s: string)
    requires |DigitRun(s)| == 0
    ensures IsExact(s) && ParseHex(s) == NaN
  {
    assert DigitRun(s) == [];
  }

  /** The sign is taken off and recorded; the digits follow it. */
  lemma SignedText(sign: char, z: string, tail: string)
    requires sign == '-' || sign == '+'
    requires |z| > 0 && AllHexDigits(z)
    requires |tail| == 0 || !IsHexDigit(tail[0])
    requires !(z == "0" && |tail| > 0 && (tail[0] == 'x' || tail[0] == 'X'))
    ensures Unsigned([sign] + z + tail) == z + tail
    ensures IsNegative([sign] + z + tail) <==> sign == '-'
  {
    var s := [sign] + z + tail;
    var w := z + tail;
    assert TrimStart(s) == s by {
      assert s[0] == sign;
    }
    assert DropSign(s) == w by {
      assert s[0] == sign && s[1..] == w;
    }
    assert DropPrefix(w) == w by {
      assert w[0] == z[0];
      if |z| >= 2 {
        assert w[1] == z[1];
      } else if |tail| > 0 {
        assert w[1] == tail[0];
      }
    }
  }

  /** A minus sign in front of a digit run negates its value; a plus sign is
      dropped. */
  lemma SignRead(sign: char, z: string, tail: string)
    requires sign == '-' || sign == '+'
    requires |z| > 0 && AllHexDigits(z) && HexValue(z) <= TWO_53
    requires |tail| == 0 || !IsHexDigit(tail[0])
    requires !(z == "0" && |tail| > 0 && (tail[0] == 'x' || tail[0] == 'X'))
    ensures IsExact([sign] + z + tail)
    ensures sign == '-' ==> ParseHex([sign] + z + tail) == Int(-(HexValue(z) as int))
    ensures sign == '+' ==> ParseHex([sign] + z + tail) == Int(HexValue(z))
  {
    SignedText(sign, z, tail);
    LeadingRunOfDigits(z, tail);
    ParseOfRun([sign] + z + tail, z);
  }

  /** The `0x` prefix is taken off; there is no sign. */
  lemma PrefixedText(x: char, rest: string)
    requires x == 'x' || x == 'X'
    ensures Unsigned(['0', x] + rest) == rest && !IsNegative(['0', x] + rest)
  {
    var s := ['0', x] + rest;
    assert TrimStart(s) == s by {
      assert s[0] == '0';
    }
    assert DropSign(s) == s;
    assert s[0] == '0' && s[1] == x && s[2..] == rest;
  }

  lemma PrefixedRun(x: char, z: string, tail: string)
    requires x == 'x' || x == 'X'
    requires AllHexDigits(z)
    requires |tail| == 0 || !IsHexDigit(tail[0])
    ensures DigitRun(['0', x] + z + tail) == z && !IsNegative(['0', x] + z + tail)
  {
    assert ['0', x] + z + tail == ['0', x] + (z + tail);
    PrefixedText(x, z + tail);
    LeadingRunOfDigits(z, tail);
  }

  /** A `0x` or `0X` prefix is skipped before the digit run; with no digit
      after it the result is NaN. */
  lemma PrefixSkipped(x: char, z: string, tail: string)
    requires x == 'x' || x == 'X'
    requires AllHexDigits(z) && HexValue(z) <= TWO_53
    requires |tail| == 0 || !IsHexDigit(tail[0])
    ensures IsExact(['0', x] + z + tail)
    ensures |z| == 0 ==> ParseHex(['0', x] + z + tail) == NaN
    ensures |z| > 0 ==> ParseHex(['0', x] + z + tail) == Int(HexValue(z))
  {
    var s := ['0', x] + z + tail;
    PrefixedRun(x, z, tail);
    if |z| > 0 {
      ParseOfRun(s, z);
    } else {
      EmptyRunIsNaN(s);
    }
  }

  /** A leading sign is not white space, so trimming keeps it. */
  lemma SignNotTrimmed(sign: char, rest: string)
    requires sign == '-' || sign == '+'
    ensures TrimStart([sign] + rest) == [sign] + rest
  {
    assert ([sign] + rest)[0] == sign;
  }

  /** DropSign takes a leading sign off. */
  lemma SignDropped(sign: char, rest: string)
    requires sign == '-' || sign == '+'
    ensures DropSign([sign] + rest) == rest
  {
    assert ([sign] + rest)[0] == sign && ([sign] + rest)[1..] == rest;
  }

  /** A leading sign is taken off, and only a minus makes the number
      negative. */
  lemma SignOff(sign: char, rest: string)
    requires sign == '-' || sign == '+'
    ensures TrimStart([sign] + rest) == [sign] + rest
    ensures DropSign([sign] + rest) == rest
    ensures IsNegative([sign] + rest) <==> sign == '-'
  {
    SignNotTrimmed(sign, rest);
    SignDropped(sign, rest);
    assert ([sign] + rest)[0] == sign;
  }

  lemma SignedPrefixedRun(sign: char, x: char, z: string, tail: string)
    requires sign == '-' || sign == '+'
    requires x == 'x' || x == 'X'
    requires AllHexDigits(z)
    requires |tail| == 0 || !IsHexDigit(tail[0])
    ensures DigitRun([sign] + (['0', x] + (z + tail))) == z
    ensures IsNegative([sign] + (['0', x] + (z + tail))) <==> sign == '-'
  {
    var p := ['0', x] + (z + tail);
    SignOff(sign, p);
    assert DropPrefix(p) == z + tail by {
      assert p[0] == '0' && p[1] == x && p[2..] == z + tail;
    }
    assert Unsigned([sign] + p) == z + tail;
    LeadingRunOfDigits(z, tail);
  }

  /** A sign may precede the `0x` prefix: `-0x1f` is -31. */
  lemma SignThenPrefix(sign: char, x: char, z: string, tail: string)
    requires sign == '-' || sign == '+'
    requires x == 'x' || x == 'X'
    requires AllHexDigits(z) && HexValue(z) <= TWO_53
    requires |tail| == 0 || !IsHexDigit(tail[0])
    ensures IsExact([sign] + (['0', x] + (z + tail)))
    ensures |z| == 0 ==> ParseHex([sign] + (['0', x] + (z + tail))) == NaN
    ensures |z| > 0 && sign == '-' ==> ParseHex([sign] + (['0', x] + (z + tail))) == Int(-(HexValue(z) as int))
    ensures |z| > 0 && sign == '+' ==> ParseHex([sign] + (['0', x] + (z + tail))) == Int(HexValue(z))
  {
    var s := [sign] + (['0', x] + (z + tail));
    SignedPrefixedRun(sign, x, z, tail);
    if |z| > 0 {
      ParseOfRun(s, z);
    } else {
      EmptyRunIsNaN(s);
    }
  }

  lemma SignedNoRun(sign: char, t: string)
    requires sign == '-' || sign == '+'
    requires |t| == 0 || !IsHexDigit(t[0])
    ensures |DigitRun([sign] + t)| == 0
  {
    SignOff(sign, t);
    assert DropPrefix(t) == t;
    assert Unsigned([sign] + t) == t;
  }

  /** A sign with no digit after it gives NaN. */
  lemma SignWithoutDigits(sign: char, t: string)
    requires sign == '-' || sign == '+'
    requires |t| == 0 || !IsHexDigit(t[0])
    ensures IsExact([sign] + t) && ParseHex([sign] + t) == NaN
  {
    SignedNoRun(sign, t);
    EmptyRunIsNaN([sign] + t);
  }

  /** Input whose first character is neither a digit, white space nor a sign
      has no digit run: parseInt gives NaN. */
  lemma NoDigitIsNaN(s: string)
    requires |s| == 0 || (!IsHexDigit(s[0]) && !IsStrWhiteSpace(s[0]) && s[0] != '-' && s[0] != '+')
    ensures IsExact(s) && ParseHex(s) == NaN
  {
    assert TrimStart(s) == s;
    assert Unsigned(s) == s;
    assert LeadingHexDigits(s) == [];
    assert HexValue(DigitRun(s)) == 0;
  }
}

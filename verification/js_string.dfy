/** `String.prototype.replace` called with a plain string pattern and an empty
    replacement: only the FIRST occurrence of the pattern is removed, wherever
    it is, and a string without the pattern comes back unchanged. The pattern
    used by the colour parser is the single character `#`. */
module JsString {

  /** `s.replace(c, "")` for a one-character pattern `c`, defined by scanning
      from the left. Exactly one character goes when `c` occurs, none when it
      does not. */
  function RemoveFirst(s: string, c: char): (t: string)
    ensures c !in s ==> t == s
    ensures c in s ==> |t| == |s| - 1
  {
    if |s| == 0 then s
    else if s[0] == c then s[1..]
    else
      assert s == [s[0]] + s[1..];
      [s[0]] + RemoveFirst(s[1..], c)
  }

  /** A pattern at the very front is the one removed, so only it goes. */
  lemma RemoveLeading(c: char, s: string)
    ensures RemoveFirst([c] + s, c) == s
  {
    assert ([c] + s)[1..] == s;
  }

  /** Every string containing `c` splits as a + [c] + b with no `c` in a;
      the replacement removes exactly that occurrence, so any later copy of
      the pattern survives. */
  lemma {:induction false} OnlyFirstRemoved(a: string, c: char, b: string)
    requires c !in a
    ensures RemoveFirst(a + [c] + b, c) == a + b
    decreases |a|
  {
    var s := a + [c] + b;
    if |a| == 0 {
      assert s == [c] + b;
      RemoveLeading(c, b);
    } else {
      assert s[0] == a[0] && s[1..] == a[1..] + [c] + b;
      assert a[0] != c;
      OnlyFirstRemoved(a[1..], c, b);
      assert a + b == [a[0]] + (a[1..] + b);
    }
  }
}

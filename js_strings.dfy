/** The two JavaScript string built-ins the text layer relies on:
    `String.prototype.substring` and the regular-expression test `/\S/`. */
module JsStrings {
  import opened Wrappers

  /** ECMAScript WhiteSpace and LineTerminator code points, the set matched by `\s`. */
  predicate IsWhiteSpaceChar(c: char) {
    c == '\t' || c == '\n' || c == '\U{000B}' || c == '\U{000C}' || c == '\r' || c == ' ' ||
    c == '\U{00A0}' || c == '\U{1680}' || ('\U{2000}' <= c <= '\U{200A}') ||
    c == '\U{2028}' || c == '\U{2029}' || c == '\U{202F}' || c == '\U{205F}' ||
    c == '\U{3000}' || c == '\U{FEFF}'
  }

  /** `/\S/.test(s)`: the string holds at least one non-white-space character. */
  predicate HasNonWhiteSpace(s: string) {
    exists i :: 0 <= i < |s| && !IsWhiteSpaceChar(s[i])
  }

  /** Clamps an index argument of `substring` into `[0, n]`. */
  function Clamp(x: int, n: nat): (r: nat)
    ensures r <= n
    ensures 0 <= x <= n ==> r == x
  {
    if x < 0 then 0 else if x > n then n else x
  }

  /** `s.substring(from, to)`, with `to == None` for an `undefined` end:
      both arguments are clamped to `[0, |s|]` and swapped when out of order. */
  function Substring(s: string, from: int, to: Option<int>): (r: string)
    ensures |r| <= |s|
  {
    var a := Clamp(from, |s|);
    var b := if to.Some? then Clamp(to.value, |s|) else |s|;
    if a <= b then s[a..b] else s[b..a]
  }

  /** With in-range, ordered arguments `substring` is plain slicing, and a
      missing end means "to the end of the string". */
  lemma SubstringSlice(s: string, a: int, b: int)
    requires 0 <= a <= b <= |s|
    ensures Substring(s, a, Some(b)) == s[a..b]
    ensures Substring(s, a, None) == s[a..]
    ensures Substring(s, b, Some(a)) == s[a..b]
  {
  }
}

/**
 * `String.prototype.trim` of JavaScript, which the compression panel uses to
 * tell an empty text box from a filled one. It strips the white space and
 * line terminators of section 12.2 and 12.3 of ECMA-262 from both ends.
 */
module JsStrings {

  /** WhiteSpace or LineTerminator in the sense of ECMA-262. */
  predicate IsWhitespace(c: char) {
    var n := c as int;
    || n == 0x09 || n == 0x0B || n == 0x0C || n == 0x20 || n == 0xA0 || n == 0xFEFF
    || n == 0x1680 || (0x2000 <= n <= 0x200A) || n == 0x202F || n == 0x205F || n == 0x3000
    || n == 0x0A || n == 0x0D || n == 0x2028 || n == 0x2029
  }

  /** Every character of `s` is white space; the empty text is blank. */
  predicate Blank(s: string) {
    forall i :: 0 <= i < |s| ==> IsWhitespace(s[i])
  }

  /** `s` without its leading white space. */
  function TrimStart(s: string): (r: string)
    ensures |r| <= |s| && r == s[|s| - |r|..]
    ensures r == [] || !IsWhitespace(r[0])
    ensures forall i :: 0 <= i < |s| - |r| ==> IsWhitespace(s[i])
    decreases |s|
  {
    if s == [] || !IsWhitespace(s[0]) then s else TrimStart(s[1..])
  }

  /** `s` without its trailing white space. */
  function TrimEnd(s: string): (r: string)
    ensures |r| <= |s| && r == s[..|r|]
    ensures r == [] || !IsWhitespace(r[|r| - 1])
    ensures forall i :: |r| <= i < |s| ==> IsWhitespace(s[i])
    decreases |s|
  {
    if s == [] || !IsWhitespace(s[|s| - 1]) then s else TrimEnd(s[..|s| - 1])
  }

  /**
   * `s.trim()`: neither end of the result is white space, and the result is
   * empty exactly for a blank text, which is what `!s.trim()` tests.
   */
  function Trim(s: string): (r: string)
    ensures |r| <= |s|
    ensures r == [] || (!IsWhitespace(r[0]) && !IsWhitespace(r[|r| - 1]))
    ensures r == [] <==> Blank(s)
  {
    var t := TrimStart(s);
    assert Blank(s) ==> t == [] by {
      if Blank(s) {
        BlankTrimsToNothing(s);
      }
    }
    TrimEnd(t)
  }

  /** Trimming the start of a blank text leaves nothing. */
  lemma {:induction false} BlankTrimsToNothing(s: string)
    requires Blank(s)
    ensures TrimStart(s) == []
    decreases |s|
  {
    if s != [] {
      BlankTrimsToNothing(s[1..]);
    }
  }
}

/**
 * Character classes and the small string operations the program borrows from
 * Python's `str`: whitespace stripping and substring tests.
 */
module Text {

  predicate IsAsciiLetter(c: char) { 'a' <= c <= 'z' || 'A' <= c <= 'Z' }

  predicate IsAsciiDigit(c: char) { '0' <= c <= '9' }

  /** The characters for which Python's `str.isspace()` holds; `str.strip()` removes them. */
  predicate IsSpace(c: char) {
    || c == ' '
    || '\t' <= c <= '\r'
    || '\U{1c}' <= c <= '\U{1f}'
    || c == '\U{85}' || c == '\U{a0}' || c == '\U{1680}'
    || '\U{2000}' <= c <= '\U{200a}'
    || c == '\U{2028}' || c == '\U{2029}' || c == '\U{202f}' || c == '\U{205f}' || c == '\U{3000}'
  }

  /** Every character of t satisfies P. */
  predicate All(t: string, P: char -> bool) {
    forall k :: 0 <= k < |t| ==> P(t[k])
  }

  /** The end of the longest run of characters satisfying P that starts at i. */
  function RunEnd(s: string, i: nat, P: char -> bool): (e: nat)
    requires i <= |s|
    ensures i <= e <= |s|
    ensures forall k :: i <= k < e ==> P(s[k])
    ensures e < |s| ==> !P(s[e])
    decreases |s| - i
  {
    if i == |s| || !P(s[i]) then i else RunEnd(s, i + 1, P)
  }

  /** The start of the run of characters satisfying P that ends at e, going no lower than lo. */
  function RunStart(s: string, lo: nat, e: nat, P: char -> bool): (b: nat)
    requires lo <= e <= |s|
    ensures lo <= b <= e
    ensures forall k :: b <= k < e ==> P(s[k])
    ensures b > lo ==> !P(s[b - 1])
    decreases e - lo
  {
    if e == lo || !P(s[e - 1]) then e else RunStart(s, lo, e - 1, P)
  }

  predicate OccursAt(s: string, t: string, i: nat) {
    i + |t| <= |s| && s[i..i + |t|] == t
  }

  /** Python's `t in s`. */
  predicate Contains(s: string, t: string) {
    exists i | 0 <= i <= |s| - |t| :: OccursAt(s, t, i)
  }

  /**
   * Python's `str.strip()`: the text left once the leading and the trailing
   * whitespace are removed.
   */
  function Strip(s: string): (r: string)
    ensures |r| <= |s|
    ensures r == [] <==> All(s, IsSpace)
    ensures r != [] ==> !IsSpace(r[0]) && !IsSpace(r[|r| - 1])
    ensures exists i :: 0 <= i <= |s| - |r| && s[i..i + |r|] == r
                        && All(s[..i], IsSpace) && All(s[i + |r|..], IsSpace)
  {
    var a := RunEnd(s, 0, IsSpace);
    var b := RunStart(s, a, |s|, IsSpace);
    assert All(s[..a], IsSpace) && All(s[b..], IsSpace);
    s[a..b]
  }

  lemma StripIdempotent(s: string)
    ensures Strip(Strip(s)) == Strip(s)
  {
  }
}

/**
 * The code extractor: `re.search(r"<font[^>]*>([A-Z0-9]{10})</font>", body)`
 * and its first group.
 */
module VerificationCode {
  import opened Wrappers
  import opened Text

  /** `[A-Z0-9]`. */
  predicate IsCodeChar(c: char) {
    'A' <= c <= 'Z' || IsAsciiDigit(c)
  }

  predicate IsNotCloseAngle(c: char) {
    c != '>'
  }

  /**
   * A match of the pattern starts at p and its tag ends with the `>` at t:
   * `<font`, characters other than `>`, `>`, ten code characters, `</font>`.
   */
  predicate CodeMatchAt(s: string, p: nat, t: nat) {
    && p + 5 <= t && t + 18 <= |s|
    && s[p..p + 5] == "<font"
    && (forall k :: p + 5 <= k < t ==> s[k] != '>')
    && s[t] == '>'
    && (forall k :: t < k < t + 11 ==> IsCodeChar(s[k]))
    && s[t + 11..t + 18] == "</font>"
  }

  /**
   * The matcher at p: `[^>]*` runs to the first `>` after `<font` and cannot
   * give any of it back usefully, so that `>` closes the tag.
   */
  function TryAt(s: string, p: nat): (r: Option<nat>)
    requires p <= |s|
    ensures r.Some? ==> CodeMatchAt(s, p, r.value)
    ensures r.None? ==> forall t :: !CodeMatchAt(s, p, t)
  {
    if p + 5 <= |s| && s[p..p + 5] == "<font" then
      var t := RunEnd(s, p + 5, IsNotCloseAngle);
      if t + 18 <= |s| && All(s[t + 1..t + 11], IsCodeChar) && s[t + 11..t + 18] == "</font>" then
        assert forall k :: t < k < t + 11 ==> s[k] == s[t + 1..t + 11][k - t - 1];
        Some(t)
      else
        assert forall t' :: CodeMatchAt(s, p, t') ==> t' == t;
        None
    else None
  }

  /** The leftmost match at or after p: its start and the end of its tag. */
  function FindCodeFrom(s: string, p: nat): (r: Option<(nat, nat)>)
    requires p <= |s|
    ensures r.Some? ==> p <= r.value.0 && CodeMatchAt(s, r.value.0, r.value.1)
    ensures r.Some? ==> forall q, t :: p <= q < r.value.0 ==> !CodeMatchAt(s, q, t)
    ensures r.None? ==> forall q, t :: p <= q ==> !CodeMatchAt(s, q, t)
    decreases |s| - p
  {
    match TryAt(s, p)
    case Some(t) => Some((p, t))
    case None => if p == |s| then None else FindCodeFrom(s, p + 1)
  }

  /**
   * The code of a body: the ten characters after the end of the leftmost
   * `<font...>` tag that is followed by a code and `</font>`. None when there
   * is no such match; in particular for a body shorter than a match, such as
   * "".
   */
  function ExtractCode(body: string): (r: Option<string>)
    ensures r.Some? ==> |r.value| == 10 && All(r.value, IsCodeChar)
    ensures r.None? <==> forall q, t :: !CodeMatchAt(body, q, t)
    ensures |body| < 23 ==> r.None?
    ensures r.Some? ==> exists p: nat, t: nat ::
              && CodeMatchAt(body, p, t)
              && (forall q: nat, t': nat :: q < p ==> !CodeMatchAt(body, q, t'))
              && r.value == body[t + 1..t + 11]
  {
    match FindCodeFrom(body, 0)
    case None => None
    case Some((p, t)) =>
      assert CodeMatchAt(body, p, t);
      Some(body[t + 1..t + 11])
  }

  /**
   * A body that is one `<font ...>` wrapper around a run of code characters
   * yields that run exactly when it has ten characters; a run of nine or
   * eleven yields nothing.
   */
  lemma {:induction false} SingleWrapper(attrs: string, token: string)
    requires forall k :: 0 <= k < |attrs| ==> attrs[k] != '>'
    requires All(token, IsCodeChar)
    ensures ExtractCode("<font" + attrs + ">" + token + "</font>")
            == if |token| == 10 then Some(token) else None
  {
    var s := "<font" + attrs + ">" + token + "</font>";
    var g := 5 + |attrs|;
    assert s[..5] == "<font";
    assert forall k :: 5 <= k < g ==> s[k] == attrs[k - 5];
    assert s[g] == '>';
    assert forall k :: g < k < g + 1 + |token| ==> s[k] == token[k - g - 1];
    assert s[g + 1 + |token|..] == "</font>";
    forall q: nat, t: nat | CodeMatchAt(s, q, t) ensures t == g {
      TagEndsAtFirstAngle(s, g, |token|, q, t);
    }
    if |token| == 10 {
      assert CodeMatchAt(s, 0, g);
      assert s[g + 1..g + 11] == token;
    } else {
      if |token| < 10 {
        assert s[g + 1 + |token|] == '<';
        assert !IsCodeChar(s[g + 1 + |token|]);
      } else {
        assert s[g + 11] == token[10];
        assert IsCodeChar(s[g + 11]);
      }
    }
  }

  /** In the single-wrapper body, every match ends its tag at the one `>` before the token. */
  lemma TagEndsAtFirstAngle(s: string, g: nat, n: nat, q: nat, t: nat)
    requires |s| == g + 1 + n + 7 && 5 <= g
    requires forall k :: 5 <= k < g ==> s[k] != '>'
    requires s[g] == '>'
    requires forall k :: g < k < g + 1 + n ==> IsCodeChar(s[k])
    requires s[g + 1 + n..] == "</font>"
    requires CodeMatchAt(s, q, t)
    ensures t == g
  {
  }

  const ExampleAttrs := " color=\"red\""

  lemma ExampleAttrsHaveNoAngle()
    ensures forall k :: 0 <= k < |ExampleAttrs| ==> ExampleAttrs[k] != '>'
  {
  }

  /** The example wrapper `<font color="red">` around a run of code characters. */
  lemma ExampleWrapper(token: string)
    requires All(token, IsCodeChar)
    ensures ExtractCode("<font" + ExampleAttrs + ">" + token + "</font>")
            == if |token| == 10 then Some(token) else None
  {
    ExampleAttrsHaveNoAngle();
    SingleWrapper(ExampleAttrs, token);
  }

  lemma CodeCharsExample()
    ensures All("AB12CD34EF", IsCodeChar)
    ensures All("AB12CD34E", IsCodeChar)
    ensures All("AB12CD34EFG", IsCodeChar)
  {
  }

  /** The wrapper of the worked example around a ten-character code. */
  lemma TenCharacterExample()
    ensures ExtractCode("<font color=\"red\">AB12CD34EF</font>") == Some("AB12CD34EF")
  {
    assert "<font" + ExampleAttrs + ">" + "AB12CD34EF" + "</font>" == "<font color=\"red\">AB12CD34EF</font>";
    CodeCharsExample();
    ExampleWrapper("AB12CD34EF");
  }

  /** Nine code characters in the wrapper yield no code. */
  lemma NineCharacterExample()
    ensures ExtractCode("<font color=\"red\">AB12CD34E</font>") == None
  {
    assert "<font" + ExampleAttrs + ">" + "AB12CD34E" + "</font>" == "<font color=\"red\">AB12CD34E</font>";
    CodeCharsExample();
    ExampleWrapper("AB12CD34E");
  }

  /** Eleven code characters in the wrapper yield no code. */
  lemma ElevenCharacterExample()
    ensures ExtractCode("<font color=\"red\">AB12CD34EFG</font>") == None
  {
    assert "<font" + ExampleAttrs + ">" + "AB12CD34EFG" + "</font>" == "<font color=\"red\">AB12CD34EFG</font>";
    CodeCharsExample();
    ExampleWrapper("AB12CD34EFG");
  }
}

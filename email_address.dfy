/**
 * The address pattern `[a-zA-Z0-9._%+-]+@[a-zA-Z0-9.-]+\.[a-zA-Z]{2,}`:
 * anchored in `validate_email`, searched for in the `To` header by the
 * recipient extractor.
 */
module EmailAddress {
  import opened Wrappers
  import opened Text

  /** `[a-zA-Z0-9._%+-]`, the characters before the `@`. */
  predicate IsLocalChar(c: char) {
    IsAsciiLetter(c) || IsAsciiDigit(c) || c == '.' || c == '_' || c == '%' || c == '+' || c == '-'
  }

  /** `[a-zA-Z0-9.-]`, the characters of the domain before its last label. */
  predicate IsDomainChar(c: char) {
    IsAsciiLetter(c) || IsAsciiDigit(c) || c == '.' || c == '-'
  }

  /**
   * s[p..e] matches the pattern with its `@` at `at` and the escaped `\.` at
   * `dot`: a non-empty local part, `@`, a non-empty domain run, `.`, and at
   * least two letters.
   */
  predicate MatchSplit(s: string, p: nat, at: nat, dot: nat, e: nat) {
    && p < at && at + 1 < dot && dot + 2 < e <= |s|
    && s[at] == '@' && s[dot] == '.'
    && (forall k :: p <= k < at ==> IsLocalChar(s[k]))
    && (forall k :: at < k < dot ==> IsDomainChar(s[k]))
    && (forall k :: dot < k < e ==> IsAsciiLetter(s[k]))
  }

  /** s[p..e] is one match of the pattern. */
  ghost predicate MatchesAt(s: string, p: nat, e: nat) {
    exists at, dot :: MatchSplit(s, p, at, dot, e)
  }

  /** The whole of t matches the pattern. */
  ghost predicate IsAddress(t: string) {
    MatchesAt(t, 0, |t|)
  }

  /** A `.` followed by two letters: where `\.[a-zA-Z]{2,}` can start. */
  predicate TldDotAt(s: string, j: nat) {
    j + 2 < |s| && s[j] == '.' && IsAsciiLetter(s[j + 1]) && IsAsciiLetter(s[j + 2])
  }

  /** The last index in [lo, hi) where TldDotAt holds. */
  function LastTldDot(s: string, lo: nat, hi: nat): (r: Option<nat>)
    requires lo <= hi <= |s|
    ensures r.Some? ==> lo <= r.value < hi && TldDotAt(s, r.value)
                        && forall j :: r.value < j < hi ==> !TldDotAt(s, j)
    ensures r.None? ==> forall j :: lo <= j < hi ==> !TldDotAt(s, j)
    decreases hi - lo
  {
    if hi == lo then None
    else if TldDotAt(s, hi - 1) then Some(hi - 1)
    else LastTldDot(s, lo, hi - 1)
  }

  /**
   * Where the backtracking matcher ends a match that starts at p, if one does:
   * the greedy local run must stop at an `@`, the greedy domain run gives back
   * characters until a `.` and two letters follow, and the letter run is
   * taken whole.
   */
  function MatchEnd(s: string, p: nat): (r: Option<nat>)
    requires p <= |s|
    ensures r.Some? ==> p + 6 <= r.value <= |s| && IsLocalChar(s[p])
  {
    var at := RunEnd(s, p, IsLocalChar);
    if at == p || at == |s| || s[at] != '@' then None
    else
      var domainEnd := RunEnd(s, at + 1, IsDomainChar);
      if domainEnd < at + 2 then None
      else
        match LastTldDot(s, at + 2, domainEnd)
        case None => None
        case Some(dot) =>
          var e := RunEnd(s, dot + 1, IsAsciiLetter);
          assert IsAsciiLetter(s[dot + 1]) && IsAsciiLetter(s[dot + 2]);
          Some(e)
  }

  /** Every match that starts at p ends no later than MatchEnd says. */
  lemma MatchEndBound(s: string, p: nat, at: nat, dot: nat, e: nat)
    requires p <= |s| && MatchSplit(s, p, at, dot, e)
    ensures MatchEnd(s, p).Some? && e <= MatchEnd(s, p).value
  {
    assert RunEnd(s, p, IsLocalChar) == at;
    var de := RunEnd(s, at + 1, IsDomainChar);
    assert e <= de;
    assert TldDotAt(s, dot);
    var j := LastTldDot(s, at + 2, de);
    assert dot <= j.value;
  }

  /** The longest-match characterisation of MatchEnd. */
  lemma {:induction false} MatchEndIsLongest(s: string, p: nat)
    requires p <= |s|
    ensures MatchEnd(s, p).Some? ==> MatchesAt(s, p, MatchEnd(s, p).value)
    ensures MatchEnd(s, p).Some? ==> forall e :: MatchEnd(s, p).value < e ==> !MatchesAt(s, p, e)
    ensures MatchEnd(s, p).None? ==> forall e :: !MatchesAt(s, p, e)
  {
    forall e: nat | MatchesAt(s, p, e)
      ensures MatchEnd(s, p).Some? && e <= MatchEnd(s, p).value
    {
      var at: nat, dot: nat :| MatchSplit(s, p, at, dot, e);
      MatchEndBound(s, p, at, dot, e);
    }
    if MatchEnd(s, p).Some? {
      var at := RunEnd(s, p, IsLocalChar);
      var de := RunEnd(s, at + 1, IsDomainChar);
      var dot := LastTldDot(s, at + 2, de).value;
      var E := MatchEnd(s, p).value;
      assert IsAsciiLetter(s[dot + 1]) && IsAsciiLetter(s[dot + 2]);
      assert dot + 2 < E;
      assert MatchSplit(s, p, at, dot, E);
    }
  }

  /** A match inside s is the same thing as an address cut out of s. */
  lemma {:induction false} MatchesAtSlice(s: string, p: nat, e: nat)
    requires p <= e <= |s|
    ensures MatchesAt(s, p, e) <==> IsAddress(s[p..e])
  {
    var t := s[p..e];
    if MatchesAt(s, p, e) {
      var at: nat, dot: nat :| MatchSplit(s, p, at, dot, e);
      assert MatchSplit(t, 0, at - p, dot - p, |t|);
    }
    if IsAddress(t) {
      var at: nat, dot: nat :| MatchSplit(t, 0, at, dot, |t|);
      assert MatchSplit(s, p, at + p, dot + p, e);
    }
  }

  /**
   * `validate_email`: `re.match` with `^...$`. Python's `$` matches at the end
   * of the string and also just before a newline that ends it.
   */
  function ValidateEmail(s: string): (ok: bool)
    ensures ok ==> 6 <= |s| && IsLocalChar(s[0])
  {
    match MatchEnd(s, 0)
    case None => false
    case Some(e) => e == |s| || (e + 1 == |s| && s[e] == '\n')
  }

  /**
   * The accepted strings are exactly the addresses: a non-empty local part
   * over `[A-Za-z0-9._%+-]`, `@`, a non-empty run over `[A-Za-z0-9.-]`, `.`,
   * then two or more letters to the end; plus the same followed by one `\n`.
   */
  lemma {:induction false} ValidateEmailSpec(s: string)
    ensures ValidateEmail(s) <==>
      IsAddress(s) || (|s| > 0 && s[|s| - 1] == '\n' && IsAddress(s[..|s| - 1]))
  {
    MatchEndIsLongest(s, 0);
    MatchesAtSlice(s, 0, |s|);
    assert s[0..|s|] == s;
    if |s| > 0 {
      MatchesAtSlice(s, 0, |s| - 1);
      assert s[0..|s| - 1] == s[..|s| - 1];
    }
  }

  /** Once the input is stripped of whitespace, as the prompt does, acceptance is exactly IsAddress. */
  lemma {:induction false} ValidateStrippedEmail(line: string)
    ensures ValidateEmail(Strip(line)) <==> IsAddress(Strip(line))
  {
    var s := Strip(line);
    ValidateEmailSpec(s);
    assert |s| > 0 ==> s[|s| - 1] != '\n';
  }

  /** The shortest shape of address the pattern takes. */
  lemma ValidateEmailAccepts()
    ensures ValidateEmail("a@b.co")
  {
  }

  /** No dot-and-label after the domain, a one-letter label, an empty local part. */
  lemma ValidateEmailRejects()
    ensures !ValidateEmail("a@b")
    ensures !ValidateEmail("a@b.c")
    ensures !ValidateEmail("@b.co")
  {
  }

  // ---------------------------------------------------------------------------
  // The recipient: re.findall(pattern, To)[0]

  /** The leftmost match at or after p, with the end the matcher picks there. */
  function FindAddressFrom(s: string, p: nat): (r: Option<(nat, nat)>)
    requires p <= |s|
    ensures r.Some? ==> p <= r.value.0 < r.value.1 <= |s|
    ensures r.Some? ==> MatchesAt(s, r.value.0, r.value.1)
    ensures r.Some? ==> forall e :: r.value.1 < e ==> !MatchesAt(s, r.value.0, e)
    ensures r.Some? ==> forall q, e :: p <= q < r.value.0 ==> !MatchesAt(s, q, e)
    ensures r.None? ==> forall q, e :: p <= q <= |s| ==> !MatchesAt(s, q, e)
    decreases |s| - p
  {
    MatchEndIsLongest(s, p);
    match MatchEnd(s, p)
    case Some(e) => Some((p, e))
    case None => if p == |s| then None else FindAddressFrom(s, p + 1)
  }

  /**
   * The recipient the program records: the first element of
   * `re.findall(pattern, to)`, or None when the list is empty.
   */
  function ExtractRecipient(to: string): (r: Option<string>)
    ensures r.Some? ==> 6 <= |r.value| && exists p: nat :: OccursAt(to, r.value, p)
  {
    match FindAddressFrom(to, 0)
    case None => None
    case Some((p, e)) =>
      MatchEndIsLongest(to, p);
      assert OccursAt(to, to[p..e], p);
      Some(to[p..e])
  }

  /**
   * The recipient is a piece of the header that is itself an address
   * `validate_email` accepts; it starts at the leftmost position where any
   * address starts and is the longest address starting there.
   */
  lemma {:induction false} RecipientIsFirstAddress(to: string)
    ensures ExtractRecipient(to).Some? ==>
      var r := ExtractRecipient(to).value;
      && IsAddress(r) && ValidateEmail(r)
      && exists p: nat :: OccursAt(to, r, p)
                     && (forall q: nat, e: nat :: q < p ==> !MatchesAt(to, q, e))
                     && (forall e: nat :: p + |r| < e ==> !MatchesAt(to, p, e))
  {
    var f := FindAddressFrom(to, 0);
    if f.Some? {
      var p, e := f.value.0, f.value.1;
      var r := to[p..e];
      MatchesAtSlice(to, p, e);
      ValidateEmailSpec(r);
      assert OccursAt(to, r, p);
      assert forall q: nat, e: nat :: q < p ==> !MatchesAt(to, q, e);
      assert forall e': nat :: p + |r| < e' ==> !MatchesAt(to, p, e');
    }
  }

  /** No recipient (the message is counted and skipped) exactly when no address occurs in the header. */
  lemma NoRecipientMeansNoAddress(to: string)
    ensures ExtractRecipient(to).None? <==> forall q, e :: !MatchesAt(to, q, e)
  {
  }

  /** No match starts before P when there is no `@` before P and s[P-1] cannot be in a local part. */
  lemma NoMatchBefore(s: string, P: nat)
    requires P <= |s|
    requires forall k :: 0 <= k < P ==> s[k] != '@'
    requires P > 0 ==> !IsLocalChar(s[P - 1])
    ensures forall q: nat, e: nat :: q < P ==> !MatchesAt(s, q, e)
  {
  }

  /** A match that ends where no domain character follows cannot be extended. */
  lemma NoLongerMatch(s: string, P: nat, E: nat)
    requires MatchesAt(s, P, E)
    requires E < |s| ==> !IsDomainChar(s[E])
    ensures forall e: nat :: E < e ==> !MatchesAt(s, P, e)
  {
  }

  /**
   * An address preceded by text with no `@` that does not end in a local-part
   * character, and followed by a character that cannot continue a domain, is
   * the recipient: as for the header `"Name" <user@example.com>, other@x.org`.
   */
  lemma {:induction false} RecipientAfterDisplayName(pre: string, addr: string, rest: string)
    requires IsAddress(addr)
    requires forall k :: 0 <= k < |pre| ==> pre[k] != '@'
    requires pre != [] ==> !IsLocalChar(pre[|pre| - 1])
    requires rest != [] ==> !IsDomainChar(rest[0])
    ensures ExtractRecipient(pre + addr + rest) == Some(addr)
  {
    var s := pre + addr + rest;
    var P, E := |pre|, |pre| + |addr|;
    assert s[P..E] == addr;
    MatchesAtSlice(s, P, E);
    assert forall k :: 0 <= k < P ==> s[k] == pre[k];
    NoMatchBefore(s, P);
    assert E < |s| ==> s[E] == rest[0];
    NoLongerMatch(s, P, E);
    FirstLongestMatch(s, P, E);
  }

  /** A match with no match starting before it and no longer one from its start is what the extractor returns. */
  lemma FirstLongestMatch(s: string, P: nat, E: nat)
    requires MatchesAt(s, P, E)
    requires forall q: nat, e: nat :: q < P ==> !MatchesAt(s, q, e)
    requires forall e: nat :: E < e ==> !MatchesAt(s, P, e)
    ensures ExtractRecipient(s) == Some(s[P..E])
  {
  }

  lemma ExampleAddress()
    ensures IsAddress("user@example.com")
  {
    var a := "user@example.com";
    assert MatchSplit(a, 0, 4, 12, 16) by {
      assert a[..4] == "user" && a[5..12] == "example" && a[13..] == "com";
      forall k | 0 <= k < 4 ensures IsLocalChar(a[k]) { assert a[k] == a[..4][k]; }
      forall k | 4 < k < 12 ensures IsDomainChar(a[k]) { assert a[k] == a[5..12][k - 5]; }
      forall k | 12 < k < 16 ensures IsAsciiLetter(a[k]) { assert a[k] == a[13..][k - 13]; }
    }
  }

  /** The worked example: a display name before the address, a second address after it. */
  lemma RecipientExample()
    ensures ExtractRecipient("\"Name\" <user@example.com>, other@x.org") == Some("user@example.com")
  {
    var pre, addr, rest := "\"Name\" <", "user@example.com", ">, other@x.org";
    assert pre + addr + rest == "\"Name\" <user@example.com>, other@x.org";
    assert !IsLocalChar(pre[|pre| - 1]) && !IsDomainChar(rest[0]);
    assert forall k :: 0 <= k < |pre| ==> pre[k] != '@';
    ExampleAddress();
    RecipientAfterDisplayName(pre, addr, rest);
  }
}

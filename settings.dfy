/**
 * The configuration rules of `get_user_inputs` (stripping, fixed defaults,
 * the non-empty password) and the search criterion `extract_codes` sends.
 */
module Settings {
  import opened Wrappers
  import opened Text
  import opened Dates

  const DefaultServer := "imap.gmail.com"
  const DefaultKeyword := "20%"
  const DefaultMailbox := "[Gmail]/Spam"

  /**
   * A prompt answer that falls back to a default: the answer stripped of
   * whitespace, or the default when nothing is left.
   */
  function OrDefault(answer: string, default: string): (r: string)
    ensures All(answer, IsSpace) ==> r == default
    ensures !All(answer, IsSpace) ==> r == Strip(answer) && r != []
  {
    var stripped := Strip(answer);
    if stripped == [] then default else stripped
  }

  function ServerSetting(answer: string): (r: string)
    ensures r != [] && Strip(r) == r
  {
    assert Strip(DefaultServer) == DefaultServer by {
      assert RunEnd(DefaultServer, 0, IsSpace) == 0;
      assert DefaultServer[|DefaultServer| - 1] == 'm' && !IsSpace(DefaultServer[|DefaultServer| - 1]);
      assert RunStart(DefaultServer, 0, |DefaultServer|, IsSpace) == |DefaultServer|;
    }
    StripIdempotent(answer);
    OrDefault(answer, DefaultServer)
  }

  function KeywordSetting(answer: string): (r: string)
    ensures r != [] && Strip(r) == r
  {
    assert Strip(DefaultKeyword) == DefaultKeyword by {
      assert RunEnd(DefaultKeyword, 0, IsSpace) == 0;
      assert RunStart(DefaultKeyword, 0, |DefaultKeyword|, IsSpace) == |DefaultKeyword|;
    }
    StripIdempotent(answer);
    OrDefault(answer, DefaultKeyword)
  }

  function MailboxSetting(answer: string): (r: string)
    ensures r != [] && Strip(r) == r
  {
    assert Strip(DefaultMailbox) == DefaultMailbox by {
      assert RunEnd(DefaultMailbox, 0, IsSpace) == 0;
      assert RunStart(DefaultMailbox, 0, |DefaultMailbox|, IsSpace) == |DefaultMailbox|;
    }
    StripIdempotent(answer);
    OrDefault(answer, DefaultMailbox)
  }

  /** The password prompt repeats until the stripped answer is non-empty. */
  function AcceptPassword(answer: string): (ok: bool)
    ensures ok <==> exists k :: 0 <= k < |answer| && !IsSpace(answer[k])
  {
    Strip(answer) != []
  }

  /** Settling an answer twice changes nothing: a blank answer gives the default, any other its own stripped text. */
  lemma SettingsStable(answer: string)
    ensures ServerSetting(ServerSetting(answer)) == ServerSetting(answer)
    ensures KeywordSetting(KeywordSetting(answer)) == KeywordSetting(answer)
    ensures MailboxSetting(MailboxSetting(answer)) == MailboxSetting(answer)
  {
  }

  lemma DefaultExamples()
    ensures ServerSetting("") == "imap.gmail.com"
    ensures KeywordSetting("  ") == "20%"
    ensures MailboxSetting(" INBOX ") == "INBOX"
  {
    assert All("  ", IsSpace);
    assert Strip(" INBOX ") == "INBOX" by {
      var s := " INBOX ";
      assert RunEnd(s, 1, IsSpace) == 1;
      assert RunEnd(s, 0, IsSpace) == 1;
      assert RunStart(s, 1, 6, IsSpace) == 6;
      assert RunStart(s, 1, 7, IsSpace) == 6;
    }
  }

  // ---------------------------------------------------------------------------
  // The search criterion: (SINCE DD-Mon-YYYY SUBJECT "keyword")

  /** The keyword is spliced in between the quotes as it is, without escaping. */
  function SearchQuery(start: Date, keyword: string): (q: string)
    requires ValidDate(start)
    ensures |q| == 30 + |keyword|
    ensures q[..7] == "(SINCE " && q[7..18] == ImapDate(start)
    ensures q[18..28] == " SUBJECT \"" && q[28..28 + |keyword|] == keyword && q[28 + |keyword|..] == "\")"
  {
    "(SINCE " + ImapDate(start) + " SUBJECT \"" + keyword + "\")"
  }

  /**
   * The inverse of SearchQuery: the start date and the text between
   * ` SUBJECT "` and the final `")`. main.py never parses a criterion, and
   * this is not how a server reads one (a server stops the keyword at the
   * first unescaped `"`, as ReadQuoted does); it only shows that the
   * criterion determines what it was built from.
   */
  function ParseSearchQuery(q: string): (r: Option<(Date, string)>)
    ensures r.Some? ==> ValidDate(r.value.0) && |q| == 30 + |r.value.1|
  {
    if |q| < 30 || q[..7] != "(SINCE " || q[18..28] != " SUBJECT \"" || q[|q| - 2..] != "\")" then None
    else
      match ParseImapDate(q[7..18])
      case None => None
      case Some(d) => Some((d, q[28..|q| - 2]))
  }

  /** SearchQuery is one-to-one: its inverse gives back the start date and the keyword. */
  lemma {:induction false} SearchQueryRoundTrip(start: Date, keyword: string)
    requires ValidDate(start)
    ensures ParseSearchQuery(SearchQuery(start, keyword)) == Some((start, keyword))
  {
    var q := SearchQuery(start, keyword);
    ImapDateRoundTrip(start);
    assert q[28..|q| - 2] == keyword;
  }

  /** TEXT-CHAR of RFC 3501: any 7-bit character except NUL, CR and LF. */
  predicate IsTextChar(c: char) {
    0 < c as int < 0x80 && c != '\r' && c != '\n'
  }

  /**
   * How a server reads an IMAP quoted string (section 9 of RFC 3501) after
   * its opening quote: TEXT-CHARs up to the first unescaped `"`, with `\"`
   * and `\\` standing for `"` and `\`. Gives the text and what follows the
   * closing quote; None for a string that never closes or holds a character
   * a quoted string may not hold. main.py does not read quoted strings: this
   * models the server that receives the criterion.
   */
  function ReadQuoted(s: string): (r: Option<(string, string)>)
    ensures r.Some? ==> |r.value.0| + |r.value.1| < |s|
    decreases |s|
  {
    if s == [] then None
    else if s[0] == '"' then Some(([], s[1..]))
    else if s[0] == '\\' then
      if |s| >= 2 && (s[1] == '"' || s[1] == '\\') then
        match ReadQuoted(s[2..])
        case None => None
        case Some((text, rest)) => Some(([s[1]] + text, rest))
      else None
    else if !IsTextChar(s[0]) then None
    else
      match ReadQuoted(s[1..])
      case None => None
      case Some((text, rest)) => Some(([s[0]] + text, rest))
  }

  /**
   * A keyword of 7-bit characters other than NUL, CR, LF, `"` and `\`
   * reaches the server intact, and the criterion closes after it.
   */
  lemma {:induction false} PlainKeywordReadBack(keyword: string)
    requires forall k :: 0 <= k < |keyword| ==> IsTextChar(keyword[k]) && keyword[k] != '"' && keyword[k] != '\\'
    ensures ReadQuoted(keyword + "\")") == Some((keyword, ")"))
  {
    if keyword != [] {
      PlainKeywordReadBack(keyword[1..]);
      assert (keyword + "\")")[1..] == keyword[1..] + "\")";
      assert (keyword + "\")")[0] == keyword[0];
      assert [keyword[0]] + keyword[1..] == keyword;
    } else {
      assert keyword + "\")" == "\")";
    }
  }

  /**
   * Because the keyword is not escaped, a `"` in it ends the quoted string
   * early: the server searches for the text before it and sees the rest as
   * further criteria.
   */
  lemma {:induction false} QuoteInKeywordEndsString(keyword: string, i: nat)
    requires i < |keyword| && keyword[i] == '"'
    requires forall k :: 0 <= k < i ==> IsTextChar(keyword[k]) && keyword[k] != '"' && keyword[k] != '\\'
    ensures ReadQuoted(keyword + "\")") == Some((keyword[..i], keyword[i + 1..] + "\")"))
  {
    if i > 0 {
      QuoteInKeywordEndsString(keyword[1..], i - 1);
      assert (keyword + "\")")[1..] == keyword[1..] + "\")";
      assert [keyword[0]] + keyword[1..][..i - 1] == keyword[..i];
    } else {
      assert (keyword + "\")")[1..] == keyword[1..] + "\")";
    }
  }

  /**
   * For a keyword of TEXT-CHARs without `"` and `\`, a server reading the
   * quoted string of the criterion gets the keyword, and the criterion's
   * closing `)` follows it.
   */
  lemma ServerReadsPlainKeyword(start: Date, keyword: string)
    requires ValidDate(start)
    requires forall k :: 0 <= k < |keyword| ==> IsTextChar(keyword[k]) && keyword[k] != '"' && keyword[k] != '\\'
    ensures ReadQuoted(SearchQuery(start, keyword)[28..]) == Some((keyword, ")"))
  {
    var q := SearchQuery(start, keyword);
    assert q[28..] == keyword + "\")";
    PlainKeywordReadBack(keyword);
  }

  lemma SearchQueryExample()
    ensures SearchQuery(Date(2026, 1, 27), "20%") == "(SINCE 27-Jan-2026 SUBJECT \"20%\")"
  {
  }
}

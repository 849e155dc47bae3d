# Verification-code fetcher: a Dafny model

`main.py` collects a handful of settings at a prompt: IMAP server, account address, password, start date, subject keyword and mailbox. It then logs into the mailbox and searches for messages since the start date whose subject holds the keyword. For each message it takes the first address in the `To` header and the body text, and looks in the body for a ten-character code wrapped in a `<font ...>` tag. Each code found becomes a row `[email, code, received_date]` appended to `codes.csv`.

This project models the deterministic parts of that program and proves properties of them:

- **`Text`**: Python's `str.strip()` over Python's whitespace set.
- **`Dates`**: `validate_date` as `datetime.strptime(s, "%Y-%m-%d")` does it. The `%m` and `%d` alternatives of strptime's own regex are modelled, so `2025-1-5` is accepted as well. It also covers the `DD-Mon-YYYY` rendering used by the IMAP `SINCE` search key.
- **`EmailAddress`**: the address pattern `[a-zA-Z0-9._%+-]+@[a-zA-Z0-9.-]+\.[a-zA-Z]{2,}`.
  - Anchored, it is `validate_email`. Python's `$` also matches before one final `\n`, and the model keeps that.
  - Searched for, it is the recipient `re.findall(...)[0]`, and the model proves this is the leftmost match and the longest match from that start.
- **`Settings`**: the defaults for a blank server, keyword or mailbox, and the non-empty password rule. It also covers the search criterion `(SINCE DD-Mon-YYYY SUBJECT "keyword")`. None of `ReadQuoted`, `ParseSearchQuery` and `Dates.ParseImapDate` is code of `main.py`. `ParseSearchQuery` is the criterion builder's inverse, and shows that the builder is one-to-one. `ReadQuoted` reads the quoted string the way an IMAP server does. `Dates.ParseImapDate` reads back the fixed `DD-Mon-YYYY` form that `ImapDate` renders, a subset of RFC 3501's `date`. `ReadQuoted` follows RFC 3501's quoted string, so it refuses NUL, CR, LF and characters above 7 bits.
- **`MimeBody`**: body selection over the parts of `msg.walk()`, as a loop with its `break`.
- **`VerificationCode`**: the leftmost match of `<font[^>]*>([A-Z0-9]{10})</font>`.
- **`CsvStore`**: `codes.csv` as a class with a "file exists" flag and a sequence of rows. `SaveCode` is `save_code_to_csv`.
- **`Extraction`**: the message loop of `extract_codes`.
  - It keeps the `processed` and `codes_found` counters, the reconnect every 50 processed messages, and the fetch with its one reconnect-and-retry.
  - Each message id's server behaviour is an input: whether the periodic reconnect raises, what the first fetch does, and what the retried fetch does.
  - `ExtractCodes` is proved against the fold `Run` over those inputs, and the loop's properties are lemmas about `Run`.

Behaviours of `main.py` that the model keeps as the code has them:

- **Non-OK first fetch.** A first fetch that returns a non-OK status skips the message with no retry (`main.py:199-201`). Only a `try` that raises is retried (`main.py:203-218`), whether the fetch raised or the periodic reconnect before it did (`main.py:186-195`).
- **Failed retry.** A retried fetch that returns a non-OK status is not checked and aborts the run (see Findings).
- **Reconnect schedule.** The every-50 reconnect keys on the `processed` counter (`main.py:186`). After 50 processed messages, each following message id whose fetch fails triggers another reconnect (`Extraction.ReconnectWhileStuck`).
- **Header check.** Whether `codes.csv` exists is checked at every call of `save_code_to_csv` (`main.py:23`), and the header is written by whichever call finds it missing (`main.py:28-29`).

## Model

| member | source | states |
|---|---|---|
| Text.Strip | main.py:74 | The stripped answer has no whitespace at either end. It is empty exactly when the answer is all whitespace, and it is the answer's middle with only whitespace cut from each side |
| Text.StripIdempotent | main.py:74 | Stripping an already stripped answer changes nothing |
| Dates.DaysInMonth | main.py:59 | Months have 28 to 31 days; 29 exactly for February of a leap year, 28 exactly for February of a common year |
| Dates.MonthField | main.py:59 | strptime's `%m` reads one or two digits and yields a month from 1 to 12 |
| Dates.DayField | main.py:59 | strptime's `%d` reads one or two characters and yields a day from 1 to 31 |
| Dates.ValidateDate | main.py:58-61 | Whatever string is accepted names an existing calendar date with a year from 1 to 9999 |
| Dates.PaddedIsoDate | main.py:58-61 | On zero-padded `YYYY-MM-DD` the result is the date the digits spell when that date exists, and None when it does not (month 13, day 0, 29 February of a common year) |
| Dates.IsoText | main.py:93 | A date in the prompted `YYYY-MM-DD` form: ten characters, zero-padded, whose fields read back as the date (partner of Dates.IsoRoundTrip) |
| Dates.IsoRoundTrip | main.py:92-96 | Every existing date typed in the prompted form is accepted as exactly that date |
| Dates.LeapDayExamples | main.py:58-61 | `2024-02-29` is accepted; `2025-02-29` and `2025-13-01` are rejected |
| Dates.UnpaddedExample | main.py:59 | `2025-1-5` is accepted as 5 January 2025 |
| Dates.ImapDate | main.py:153 | The search date is eleven characters, `DD-Mon-YYYY`, with the month's English abbreviation in the middle |
| Dates.ImapDateRoundTrip | main.py:153 | Reading the rendered search date back with Dates.ParseImapDate, a reader of the fixed `DD-Mon-YYYY` form, gives the start date |
| Dates.ImapDateExample | main.py:153 | 27 January 2026 renders as `27-Jan-2026` |
| EmailAddress.LastTldDot | main.py:44 | Finds the last `.` followed by two letters in a range, where the pattern's final `\.[a-zA-Z]{2,}` can begin |
| EmailAddress.MatchEnd | main.py:44 | Where the pattern's matcher ends a match starting at a given position |
| EmailAddress.MatchEndBound | main.py:44 | No match starting at a position ends after the end MatchEnd gives |
| EmailAddress.MatchEndIsLongest | main.py:44 | MatchEnd is a match, and the longest one from its start; None exactly when no match starts there |
| EmailAddress.MatchesAtSlice | main.py:246 | A match inside a string is the same as an address cut out of it |
| EmailAddress.ValidateEmail | main.py:34-45 | An accepted address has at least six characters and starts with a local-part character; exactly which strings are accepted is stated by EmailAddress.ValidateEmailSpec |
| EmailAddress.ValidateEmailSpec | main.py:44-45 | Accepted exactly: a non-empty local part over `[A-Za-z0-9._%+-]`, `@`, a non-empty `[A-Za-z0-9.-]` run, `.`, two or more letters to the end. The same followed by one `\n` is also accepted |
| EmailAddress.ValidateStrippedEmail | main.py:80-81 | On a stripped prompt answer, acceptance is exactly the address shape |
| EmailAddress.ValidateEmailAccepts | main.py:44-45 | `a@b.co` is accepted |
| EmailAddress.ValidateEmailRejects | main.py:44-45 | `a@b`, `a@b.c` and `@b.co` are rejected |
| EmailAddress.FindAddressFrom | main.py:246 | The leftmost match at or after a position, with the longest end from its start; None exactly when no match starts there or later |
| EmailAddress.ExtractRecipient | main.py:246-250 | A recipient, when there is one, is a substring of the `To` header of at least six characters; EmailAddress.RecipientIsFirstAddress states that it is the first, longest match |
| EmailAddress.RecipientIsFirstAddress | main.py:246-250 | The recipient occurs in the `To` header, is an address `validate_email` accepts, starts where the first match starts, and is the longest match from there |
| EmailAddress.NoRecipientMeansNoAddress | main.py:246-249 | There is no recipient exactly when no address occurs anywhere in the header |
| EmailAddress.NoMatchBefore | main.py:246 | No match starts before a position preceded by no `@` and by a character outside the local-part class |
| EmailAddress.NoLongerMatch | main.py:246 | A match followed by a non-domain character cannot be extended |
| EmailAddress.FirstLongestMatch | main.py:246-250 | A match with no match before it and no longer match from its start is the recipient |
| EmailAddress.RecipientAfterDisplayName | main.py:246-250 | An address after a display name with no `@`, and before a non-domain character, is the recipient |
| EmailAddress.ExampleAddress | main.py:246 | `user@example.com` is an address |
| EmailAddress.RecipientExample | main.py:246-250 | `"Name" <user@example.com>, other@x.org` yields `user@example.com` |
| Settings.OrDefault | main.py:74-76 | An all-whitespace answer gives the default; any other answer gives its stripped, non-empty text |
| Settings.ServerSetting | main.py:74-76 | The server setting is never empty and has no surrounding whitespace |
| Settings.KeywordSetting | main.py:100-102 | The keyword setting is never empty and has no surrounding whitespace |
| Settings.MailboxSetting | main.py:105-107 | The mailbox setting is never empty and has no surrounding whitespace |
| Settings.AcceptPassword | main.py:86-89 | A password answer ends the prompt exactly when it holds a non-whitespace character |
| Settings.SettingsStable | main.py:74-107 | Settling a settled answer again gives the same setting |
| Settings.DefaultExamples | main.py:74-107 | A blank server gives `imap.gmail.com`, a blank keyword `20%`, and ` INBOX ` gives `INBOX` |
| Settings.SearchQuery | main.py:164 | The criterion is `(SINCE `, the eleven-character search date, ` SUBJECT "`, the keyword unchanged, `")`, and nothing else |
| Settings.SearchQueryRoundTrip | main.py:164 | The criterion builder is one-to-one: its inverse Settings.ParseSearchQuery recovers the start date and the keyword |
| Settings.ServerReadsPlainKeyword | main.py:164 | A server reading the criterion's quoted string gets back a keyword of 7-bit characters other than NUL, CR, LF, `"` and `\`, followed by the closing `)`; a `"` in the keyword breaks this (Settings.QuoteInKeywordEndsString) |
| Settings.PlainKeywordReadBack | main.py:164 | A keyword of 7-bit characters other than NUL, CR, LF, `"` and `\` is read back intact by an IMAP quoted-string reader (RFC 3501 TEXT-CHAR), and the criterion closes after it |
| Settings.QuoteInKeywordEndsString | main.py:164 | A `"` in the keyword, which is not escaped, ends the quoted string early; the rest is read as further criteria |
| Settings.SearchQueryExample | main.py:164 | Start 27 January 2026 with keyword `20%` gives `(SINCE 27-Jan-2026 SUBJECT "20%")` |
| MimeBody.FirstUsable | main.py:255-265 | The first part that is `text/plain`, has no `attachment` in its disposition and decodes; no earlier part is such a part |
| MimeBody.Body | main.py:253-271 | A non-empty body of a multipart message is the decoded text of one of its usable parts; MimeBody.LaterPartsIgnored and MimeBody.AttachmentNeverBody state which one |
| MimeBody.SelectBody | main.py:253-271 | The walk with its `break` yields the first usable part's text, the whole payload of a single-part message, or "" |
| MimeBody.LaterPartsIgnored | main.py:255-265 | Parts after the first usable one never change the body; with no usable part among the first ones, the body comes from the rest |
| MimeBody.AttachmentNeverBody | main.py:259 | A part with an attachment disposition is never the body |
| VerificationCode.TryAt | main.py:276 | At a position, the tag ends at the first `>` after `<font`; there is a match exactly when ten code characters and `</font>` follow |
| VerificationCode.FindCodeFrom | main.py:276 | The leftmost match at or after a position; None exactly when there is none |
| VerificationCode.ExtractCode | main.py:276-279 | A code is exactly ten characters of `[A-Z0-9]`. There is none exactly when the pattern matches nowhere, so never for a body shorter than 23 characters, such as "" |
| VerificationCode.TagEndsAtFirstAngle | main.py:276 | In a single `<font ...>` wrapper, every match ends its tag at the wrapper's `>` |
| VerificationCode.SingleWrapper | main.py:276-279 | A `<font ...>` wrapper around a run of code characters yields the run exactly when it has ten characters, and nothing otherwise |
| VerificationCode.ExampleWrapper | main.py:276-279 | The same for the wrapper `<font color="red">` |
| VerificationCode.TenCharacterExample | main.py:276-279 | `<font color="red">AB12CD34EF</font>` yields `AB12CD34EF` |
| VerificationCode.NineCharacterExample | main.py:276-279 | A nine-character token yields no code |
| VerificationCode.ElevenCharacterExample | main.py:276-279 | An eleven-character token yields no code |
| CsvStore.Appended | main.py:23-31 | One call keeps the earlier rows and adds one data row, preceded by the header only when the file did not exist |
| CsvStore.AppendedAll | main.py:23-31 | A run of calls adds one row per call, plus one header row when the file was new |
| CsvStore.AppendOne | main.py:23-31 | One more call extends a run of calls by its row |
| CsvStore.AppendedAllShape | main.py:23-31 | After a run of calls, the file is its earlier rows followed by the saved rows in order, or the header followed by them when the file was new |
| CsvStore.HeaderOnce | main.py:28-29 | A new file has the header on top and nowhere else; a file that existed gains no header |
| CsvStore.SavesExample | main.py:23-31 | Two codes into a missing file give header and two rows; a third adds one row and no header |
| CsvStore.CsvFile.SaveCode | main.py:13-31 | The file exists afterwards and its rows are the rows before plus the header if new plus the one data row |
| Extraction.ReconnectDue | main.py:186 | No reconnect is due before 50 messages have been processed, nor when `processed` is not a multiple of 50 |
| Extraction.Tried | main.py:184-197 | The `try` yields the first fetch, except that a due reconnect that raises sends the message to the `except` branch |
| Extraction.DispatchAsWritten | main.py:184-221 | As written: the iteration crashes exactly when the `try` raised and the retried fetch returned a non-OK status. It processes exactly when one of the fetches returned the message |
| Extraction.Dispatch | main.py:184-218 | Corrected: no outcome crashes, and a message is processed exactly when the first fetch returned it, or when the `try` raised and the retry returned it |
| Extraction.DispatchDiffersOnlyOnCrash | main.py:212-221 | The correction only turns the crash into a skip |
| Extraction.RetryStatusUnchecked | main.py:212-221 | A raising fetch followed by a non-OK retry crashes as written, and is skipped once corrected |
| Extraction.RetryExamples | main.py:197-218 | A good retry is processed, a raising retry is skipped, a non-OK first fetch is skipped without retry, and a due reconnect that raises leads to the retry, which can still deliver the message |
| Extraction.MessageRow | main.py:246-280 | A saved row has three fields, the last being the message's received date |
| Extraction.MessageRowWellFormed | main.py:246-280 | A row is saved exactly when the header has an address and the body a code. Its email passes `validate_email`, its code is ten `[A-Z0-9]` characters, and it is never the header row |
| Extraction.Step | main.py:183-285 | A reconnect comes before the fetch exactly when `processed > 0 and processed % 50 == 0`. `processed` grows by at most one, exactly when a message was fetched. `codes_found` grows with the saved rows and no faster than `processed`; earlier rows stay |
| Extraction.Run | main.py:183-285 | The loop state after the given ids: from zero counters, `processed` and the reconnects never exceed the number of ids seen; Extraction.RunBounds adds the bounds on codes and saved rows |
| Extraction.RunBounds | main.py:180-285 | After every message id, codes found ≤ processed ≤ ids seen, one saved row per code found, at most one periodic reconnect per id |
| Extraction.SavedRowsWellFormed | main.py:246-281 | Every saved row has an address, a ten-character code and a date, and is not the header |
| Extraction.FileHeaderOnce | main.py:278-281 | After a run, a new `codes.csv` has the header once, at the top; an existing one keeps its rows and gains no header |
| Extraction.CleanRunSchedule | main.py:183-197 | When every fetch succeeds, every message is processed, and there are (n - 1) / 50 reconnects for n messages |
| Extraction.ReconnectWhileStuck | main.py:186-201 | Once `processed` is a positive multiple of 50, each following id whose fetch fails reconnects again and leaves `processed` unchanged |
| Extraction.FetchMessage | main.py:184-218 | The `try`/`except` around the fetch goes on with exactly the message Dispatch processes |
| Extraction.HandleMessage | main.py:245-282 | Recipient, body and code handling saves the row MessageRow gives, if any, into `codes.csv` |
| Extraction.MessageIteration | main.py:183-285 | One loop turn moves the counters and the file exactly as Step moves the loop state |
| Extraction.ExtractCodes | main.py:163-285 | A failed search or an empty result changes nothing. Otherwise the final counters are Run's, and `codes.csv` is its earlier rows with Run's saved rows appended, plus a header if it was new |

## Left out

- IMAP I/O is not modelled: `connect_imap` with its "Too many simultaneous connections" wait and retry (main.py:119-143), and the select, search, fetch, close and logout calls. imaplib encodes command arguments as ASCII, so a non-ASCII keyword makes `mail.search` (main.py:165) raise `UnicodeEncodeError`, which is not modelled. The fetch outcomes, the search status and the number of ids are inputs; the session handle itself is not represented.
- Sleeps (main.py:138, 193, 211, 285) are timing only.
- Prompts: the repeat-until-valid prompt loops and all console output, including the progress line every ten messages, are interactive I/O. Only the validation and default rules they apply are modelled.
- MIME parsing (`email.message_from_bytes`), charset decoding with `errors="replace"`, and the Subject decoding (main.py:222-227) belong to Python's `email` package. A part is given as its content type, its disposition string and its decoded text or a decode failure.
- The strict `subject.decode(encoding or "utf-8")` (main.py:227) is outside any `try`. A Subject with an unknown charset (`=?x-unknown?q?hi?=`, a `LookupError`) or a malformed encoded word (`=?utf-8?b?/w==?=`, a `UnicodeDecodeError`) makes it raise and aborts `extract_codes`. The model has no subject and processes such a message like any other.
- The received date (`parsedate_to_datetime`, the `datetime.now()` fallback, `strftime`, main.py:232-239) is an opaque string input, because it depends on a library and the clock.
- CSV quoting, escaping and UTF-8 encoding by `csv.writer` are not modelled: rows are sequences of strings.
- A missing `To` header makes `re.findall` raise (main.py:246), and a missing Subject makes `decode_header` raise. Under the default `compat32` policy, a `To` header holding raw 8-bit bytes comes back as an `email.header.Header` object rather than a string, and `re.findall` raises `TypeError`. None of these crashes is modelled: `To` is always a string.
- `KeyboardInterrupt` and the re-raise in `main` (main.py:301-312) are not modelled.
- Dates.ValidateDate: strptime's `\d` also accepts non-ASCII decimal digits; the model accepts ASCII digits only.
- Dates.ImapDate: years below 1000 are rendered with four digits, while the platform's `strftime("%Y")` may print fewer. The `%b` names are those of the C/English locale.
- Extraction.ExtractCodes: the loop uses the corrected fetch handling, so it never aborts; the abort of the code as written is captured by Extraction.DispatchAsWritten (see Findings).
- Extraction.FetchMessage: a fetch with status "OK" is assumed to hold the raw message at `msg_data[0][1]`.

## Findings

| source | as written | input that shows it | evidently intended | confidence | as-written member | corrected member |
|---|---|---|---|---|---|---|
| main.py:212-221 | After the reconnect in the `except` branch, the status of the retried `mail.fetch` is never checked. A non-OK retry falls through to `msg_data[0][1]` outside any `try`. There `msg_data` holds the server's response text, not a message, so parsing raises and `extract_codes` aborts with the remaining messages unprocessed | first fetch raises (for example a dropped session), reconnect succeeds, server answers the retried FETCH with `NO` | check the retried status as at main.py:199-201 and skip the message | medium, not executed | Extraction.RetryStatusUnchecked | Extraction.Dispatch |

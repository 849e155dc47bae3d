/**
 * The message loop of `extract_codes`: for each message id the search
 * returned, an optional reconnect every 50 processed messages, the fetch with
 * its one reconnect-and-retry when the fetch raises, then the recipient, the
 * body and the code, and a CSV row when both a recipient and a code are found.
 *
 * The IMAP session is not modelled: what the server does for one message id
 * is an `Attempt`, given as input, and the loop sees only what each call
 * returns or that it raised.
 */
module Extraction {
  import opened Wrappers
  import opened Text
  import opened CsvStore
  import EmailAddress
  import MimeBody
  import VerificationCode

  /**
   * A fetched message: its `To` header, its received date already formatted
   * (`parsedate_to_datetime`, its `datetime.now()` fallback and `strftime`
   * are not part of this model), and its MIME structure.
   */
  datatype Mail = Mail(to: string, date: string, content: MimeBody.Message)

  /** A fetch that returns: status "OK" with the message, or any other status. */
  datatype Fetch = Fetched(mail: Mail) | NotOk

  /** A step that may raise: what it returned, or that it raised. */
  datatype Call = Returned(fetch: Fetch) | Raised

  /**
   * What the server does for one message id: whether the periodic reconnect
   * raises (consulted only when one is due), the first fetch, and the
   * reconnect-and-fetch of the `except` branch (consulted only when the `try`
   * raised).
   */
  datatype Attempt = Attempt(reconnectRaises: bool, first: Call, retry: Call)

  /**
   * What the rest of the iteration does: go on with the message, `continue`
   * to the next id, or leave `extract_codes` with an uncaught exception.
   */
  datatype Disposition = Process(mail: Mail) | Skip | Crash

  /** A reconnect is due before the fetch once a positive multiple of 50 messages has been processed. */
  function ReconnectDue(processed: nat): (due: bool)
    ensures due ==> 50 <= processed
    ensures processed % 50 != 0 ==> !due
  {
    processed > 0 && processed % 50 == 0
  }

  /** What the `try` block yields: the first fetch, unless a due reconnect raised first. */
  function Tried(due: bool, a: Attempt): (r: Call)
    ensures r.Returned? ==> r == a.first
    ensures due && a.reconnectRaises ==> r.Raised?
    ensures !(due && a.reconnectRaises) ==> r == a.first
  {
    if due && a.reconnectRaises then Raised else a.first
  }

  /**
   * The fetch as written: a non-OK status in the `try` continues, but the
   * retried fetch's status is never looked at, so a non-OK retry falls
   * through to `msg_data[0][1]` outside any `try`.
   */
  function DispatchAsWritten(due: bool, a: Attempt): (r: Disposition)
    ensures r.Crash? <==> Tried(due, a).Raised? && a.retry == Returned(NotOk)
    ensures r.Process? <==> (Tried(due, a).Returned? && Tried(due, a).fetch.Fetched?)
                            || (Tried(due, a).Raised? && a.retry.Returned? && a.retry.fetch.Fetched?)
  {
    match Tried(due, a)
    case Returned(Fetched(m)) => Process(m)
    case Returned(NotOk) => Skip
    case Raised =>
      match a.retry
      case Raised => Skip
      case Returned(Fetched(m)) => Process(m)
      case Returned(NotOk) => Crash
  }

  /**
   * The fetch with the retried status checked like the first one: a message
   * is processed exactly when one of the two fetches returned it, and no
   * outcome of the server leaves the loop.
   */
  function Dispatch(due: bool, a: Attempt): (r: Disposition)
    ensures !r.Crash?
    ensures r.Process? <==> (Tried(due, a).Returned? && Tried(due, a).fetch.Fetched?)
                            || (Tried(due, a).Raised? && a.retry.Returned? && a.retry.fetch.Fetched?)
    ensures r.Process? ==> r.mail == (if Tried(due, a).Returned? then a.first.fetch.mail else a.retry.fetch.mail)
  {
    match Tried(due, a)
    case Returned(Fetched(m)) => Process(m)
    case Returned(NotOk) => Skip
    case Raised =>
      match a.retry
      case Returned(Fetched(m)) => Process(m)
      case _ => Skip
  }

  /** The correction changes only the crashing case, which becomes a `continue`. */
  lemma DispatchDiffersOnlyOnCrash(due: bool, a: Attempt)
    ensures DispatchAsWritten(due, a).Crash? ==> Dispatch(due, a) == Skip
    ensures !DispatchAsWritten(due, a).Crash? ==> Dispatch(due, a) == DispatchAsWritten(due, a)
  {
  }

  /**
   * The input that shows the unchecked retry: the first fetch raises (say the
   * session timed out), the reconnect succeeds, and the server answers the
   * retried fetch with NO.
   */
  lemma RetryStatusUnchecked()
    ensures DispatchAsWritten(false, Attempt(false, Raised, Returned(NotOk))) == Crash
    ensures Dispatch(false, Attempt(false, Raised, Returned(NotOk))) == Skip
  {
  }

  /**
   * A fetch that raises, followed by a retry that returns the message, lets
   * the message through; a retry that raises again skips it. A first fetch
   * with a non-OK status is skipped without any retry.
   */
  lemma RetryExamples(m: Mail)
    ensures Dispatch(false, Attempt(false, Raised, Returned(Fetched(m)))) == Process(m)
    ensures Dispatch(false, Attempt(false, Raised, Raised)) == Skip
    ensures Dispatch(false, Attempt(false, Returned(NotOk), Returned(Fetched(m)))) == Skip
    ensures Dispatch(true, Attempt(true, Returned(Fetched(m)), Returned(Fetched(m)))) == Process(m)
  {
  }

  /**
   * The row saved for a processed message: recipient, code and received date,
   * or None when the `To` header holds no address or the body holds no code.
   */
  function MessageRow(m: Mail): (r: Option<Row>)
    ensures r.Some? ==> |r.value| == 3 && r.value[2] == m.date
  {
    match EmailAddress.ExtractRecipient(m.to)
    case None => None
    case Some(recipient) =>
      var body := MimeBody.Body(m.content);
      if body == "" then None
      else
        match VerificationCode.ExtractCode(body)
        case None => None
        case Some(code) => Some([recipient, code, m.date])
  }

  /**
   * A row is saved exactly when the header holds an address and the body a
   * code; its email is an address `validate_email` accepts, its code ten
   * characters of `[A-Z0-9]`, and it never equals the header row.
   */
  lemma MessageRowWellFormed(m: Mail)
    ensures MessageRow(m).Some? <==> EmailAddress.ExtractRecipient(m.to).Some?
                                     && VerificationCode.ExtractCode(MimeBody.Body(m.content)).Some?
    ensures MessageRow(m).Some? ==>
              var row := MessageRow(m).value;
              && EmailAddress.IsAddress(row[0]) && EmailAddress.ValidateEmail(row[0])
              && |row[1]| == 10 && All(row[1], VerificationCode.IsCodeChar)
              && row != Header
  {
    EmailAddress.RecipientIsFirstAddress(m.to);
    if MessageRow(m).Some? {
      assert MessageRow(m).value[1] != Header[1];
    }
  }

  /**
   * The loop's state after some message ids: the two counters, the number of
   * periodic reconnects, and the rows saved so far.
   */
  datatype LoopState = LoopState(processed: nat, codesFound: nat, reconnects: nat, saved: seq<Row>)

  /** One message id. */
  function Step(st: LoopState, a: Attempt): (r: LoopState)
    ensures r.reconnects == st.reconnects + (if ReconnectDue(st.processed) then 1 else 0)
    ensures st.processed <= r.processed <= st.processed + 1
    ensures r.processed == st.processed + 1 <==> Dispatch(ReconnectDue(st.processed), a).Process?
    ensures |st.saved| <= |r.saved| && r.saved[..|st.saved|] == st.saved
    ensures |r.saved| - |st.saved| == r.codesFound - st.codesFound <= r.processed - st.processed
  {
    var due := ReconnectDue(st.processed);
    var reconnects := st.reconnects + (if due then 1 else 0);
    var d := Dispatch(due, a);
    if d.Process? then
      var row := MessageRow(d.mail);
      LoopState(st.processed + 1,
                st.codesFound + (if row.Some? then 1 else 0),
                reconnects,
                st.saved + (if row.Some? then [row.value] else []))
    else st.(reconnects := reconnects)
  }

  /** The state after the given message ids, in order. */
  function Run(attempts: seq<Attempt>): (r: LoopState)
    ensures r.processed <= |attempts| && r.reconnects <= |attempts|
    ensures attempts == [] ==> r == LoopState(0, 0, 0, [])
    decreases |attempts|
  {
    if attempts == [] then LoopState(0, 0, 0, [])
    else Step(Run(attempts[..|attempts| - 1]), attempts[|attempts| - 1])
  }

  lemma RunLast(attempts: seq<Attempt>, i: nat)
    requires i < |attempts|
    ensures Run(attempts[..i + 1]) == Step(Run(attempts[..i]), attempts[i])
  {
    assert attempts[..i + 1][..i] == attempts[..i];
  }

  /**
   * At the end of every turn `codes_found` is at most `processed`, which is
   * at most the number of message ids seen; every code found is a saved row,
   * and there is at most one periodic reconnect per message id.
   */
  lemma {:induction false} RunBounds(attempts: seq<Attempt>)
    ensures var st := Run(attempts);
            && st.codesFound <= st.processed <= |attempts|
            && |st.saved| == st.codesFound
            && st.reconnects <= |attempts|
    decreases |attempts|
  {
    if attempts != [] {
      RunBounds(attempts[..|attempts| - 1]);
    }
  }

  /** A row the loop saves: an address, a ten-character code, and a date; never the header. */
  ghost predicate WellFormedRow(row: Row) {
    && |row| == 3
    && EmailAddress.IsAddress(row[0])
    && |row[1]| == 10 && All(row[1], VerificationCode.IsCodeChar)
    && row != Header
  }

  /** Every saved row is well formed, in the order the messages came. */
  lemma {:induction false} SavedRowsWellFormed(attempts: seq<Attempt>)
    ensures forall k :: 0 <= k < |Run(attempts).saved| ==> WellFormedRow(Run(attempts).saved[k])
    decreases |attempts|
  {
    if attempts != [] {
      var init := attempts[..|attempts| - 1];
      var a := attempts[|attempts| - 1];
      SavedRowsWellFormed(init);
      var st := Run(init);
      var d := Dispatch(ReconnectDue(st.processed), a);
      if d.Process? {
        MessageRowWellFormed(d.mail);
      }
    }
  }

  /**
   * `codes.csv` after a whole run holds the header once, at the top, when it
   * did not exist before; a file that existed keeps its rows and gains no
   * header.
   */
  lemma FileHeaderOnce(present: bool, rows: seq<Row>, attempts: seq<Attempt>)
    requires !present ==> rows == []
    ensures var r := AppendedAll(present, rows, Run(attempts).saved);
            && (!present && Run(attempts).saved != [] ==> r[0] == Header && forall k :: 0 < k < |r| ==> r[k] != Header)
            && (present ==> r[..|rows|] == rows && forall k :: |rows| <= k < |r| ==> r[k] != Header)
  {
    SavedRowsWellFormed(attempts);
    HeaderOnce(present, rows, Run(attempts).saved);
  }

  /** Every message id whose first fetch returns the message, with no reconnect raising. */
  predicate Clean(attempts: seq<Attempt>) {
    forall k :: 0 <= k < |attempts| ==>
      !attempts[k].reconnectRaises && attempts[k].first.Returned? && attempts[k].first.fetch.Fetched?
  }

  /**
   * On a run where every fetch succeeds, every message is processed and the
   * session is renewed before messages 51, 101, 151, ...: once per 50
   * messages after the first 50.
   */
  lemma {:induction false} CleanRunSchedule(attempts: seq<Attempt>)
    requires Clean(attempts)
    ensures Run(attempts).processed == |attempts|
    ensures Run(attempts).reconnects == if attempts == [] then 0 else (|attempts| - 1) / 50
    decreases |attempts|
  {
    if attempts != [] {
      var n := |attempts| - 1;
      var init := attempts[..n];
      assert Clean(init) by {
        forall k | 0 <= k < |init| ensures init[k] == attempts[k] { }
      }
      CleanRunSchedule(init);
      if n > 0 {
        NextBlock(n);
      }
    }
  }

  /** `n / 50` grows by one exactly at the multiples of 50. */
  lemma NextBlock(n: nat)
    requires n > 0
    ensures n / 50 == (n - 1) / 50 + (if n % 50 == 0 then 1 else 0)
  {
  }

  /**
   * The schedule keys on `processed`, not on message ids: once `processed`
   * is a positive multiple of 50, every following id whose fetch fails
   * reconnects again, one reconnect per failed id.
   */
  lemma {:induction false} ReconnectWhileStuck(done: seq<Attempt>, failing: seq<Attempt>)
    requires ReconnectDue(Run(done).processed)
    requires forall k :: 0 <= k < |failing| ==> !Dispatch(true, failing[k]).Process?
    ensures Run(done + failing).processed == Run(done).processed
    ensures Run(done + failing).reconnects == Run(done).reconnects + |failing|
    decreases |failing|
  {
    if failing != [] {
      var init := failing[..|failing| - 1];
      assert (done + failing)[..|done + failing| - 1] == done + init;
      ReconnectWhileStuck(done, init);
    } else {
      assert done + failing == done;
    }
  }

  /** One message id whose fetch yields a message. */
  lemma StepOnMail(st: LoopState, a: Attempt, m: Mail)
    requires Dispatch(ReconnectDue(st.processed), a) == Process(m)
    ensures var r := Step(st, a);
            && r.processed == st.processed + 1
            && r.reconnects == st.reconnects + (if ReconnectDue(st.processed) then 1 else 0)
            && (MessageRow(m).Some? ==> r.codesFound == st.codesFound + 1 && r.saved == st.saved + [MessageRow(m).value])
            && (MessageRow(m).None? ==> r.codesFound == st.codesFound && r.saved == st.saved)
  {
  }

  /** One message id the iteration `continue`s past without a message. */
  lemma StepSkipped(st: LoopState, a: Attempt)
    requires !Dispatch(ReconnectDue(st.processed), a).Process?
    ensures Step(st, a) == st.(reconnects := st.reconnects + (if ReconnectDue(st.processed) then 1 else 0))
  {
  }

  /**
   * The `try`/`except` around the fetch of one message id: the message the
   * iteration goes on with, or None where it `continue`s.
   */
  method FetchMessage(due: bool, a: Attempt) returns (mail: Option<Mail>)
    ensures mail.Some? <==> Dispatch(due, a).Process?
    ensures mail.Some? ==> mail.value == Dispatch(due, a).mail
  {
    var tried := if due && a.reconnectRaises then Raised else a.first;
    if tried.Raised? {
      if a.retry.Raised? || a.retry.fetch.NotOk? {
        return None;
      }
      return Some(a.retry.fetch.mail);
    } else if tried.fetch.NotOk? {
      return None;
    }
    return Some(tried.fetch.mail);
  }

  /**
   * The rest of the iteration for a fetched message: the recipient, the body,
   * the code, and the CSV row when both are found. `found` says whether a row
   * was saved; `saved` are the rows the earlier turns saved into the file
   * that held `rows0` before the loop.
   */
  method HandleMessage(mail: Mail, store: CsvFile, ghost present0: bool, ghost rows0: seq<Row>, ghost saved: seq<Row>)
    returns (found: bool)
    requires !present0 ==> rows0 == []
    requires store.Valid()
    requires store.present == (present0 || saved != [])
    requires store.rows == AppendedAll(present0, rows0, saved)
    modifies store
    ensures store.Valid()
    ensures found == MessageRow(mail).Some?
    ensures var saved' := saved + (if found then [MessageRow(mail).value] else []);
            && store.present == (present0 || saved' != [])
            && store.rows == AppendedAll(present0, rows0, saved')
  {
    found := false;
    assert saved + [] == saved;
    var recipient := EmailAddress.ExtractRecipient(mail.to);
    if recipient.None? {
      return;
    }
    var body := MimeBody.SelectBody(mail.content);
    if body != "" {
      var code := VerificationCode.ExtractCode(body);
      if code.Some? {
        var row := [recipient.value, code.value, mail.date];
        assert MessageRow(mail) == Some(row);
        AppendOne(present0, rows0, saved, row);
        store.SaveCode(recipient.value, code.value, mail.date);
        found := true;
      }
    }
  }

  /**
   * One turn of the `for num in message_ids` loop, from the counters before
   * it to the counters after it; `st` is the loop's state before the turn and
   * `present0`, `rows0` the file as it was before the loop.
   */
  method MessageIteration(ghost st: LoopState, processed: nat, codesFound: nat, reconnects: nat,
                          a: Attempt, store: CsvFile, ghost present0: bool, ghost rows0: seq<Row>)
    returns (processed': nat, codesFound': nat, reconnects': nat)
    requires !present0 ==> rows0 == []
    requires store.Valid()
    requires processed == st.processed && codesFound == st.codesFound && reconnects == st.reconnects
    requires store.present == (present0 || st.saved != [])
    requires store.rows == AppendedAll(present0, rows0, st.saved)
    modifies store
    ensures store.Valid()
    ensures var r := Step(st, a);
            && processed' == r.processed && codesFound' == r.codesFound && reconnects' == r.reconnects
            && store.present == (present0 || r.saved != [])
            && store.rows == AppendedAll(present0, rows0, r.saved)
  {
    processed', codesFound', reconnects' := processed, codesFound, reconnects;
    var due := ReconnectDue(processed);
    if due {
      reconnects' := reconnects' + 1;
    }
    var mail := FetchMessage(due, a);
    if mail.None? {
      StepSkipped(st, a);
      return;
    }
    StepOnMail(st, a, mail.value);
    var found := HandleMessage(mail.value, store, present0, rows0, st.saved);
    if found {
      codesFound' := codesFound' + 1;
    }
    processed' := processed' + 1;
  }

  /** What `extract_codes` ends with. */
  datatype Outcome =
    | SearchFailed
    | NoMessages
    | Completed(processed: nat, codesFound: nat, reconnects: nat)

  /**
   * `extract_codes` after the search: `searchOk` is whether the search status
   * was "OK", and `attempts` holds one entry per message id it returned. Each
   * row found goes to `store` through `save_code_to_csv`.
   */
  method ExtractCodes(searchOk: bool, attempts: seq<Attempt>, store: CsvFile) returns (outcome: Outcome)
    requires store.Valid()
    modifies store
    ensures store.Valid()
    ensures !searchOk ==> outcome == SearchFailed && unchanged(store)
    ensures searchOk && attempts == [] ==> outcome == NoMessages && unchanged(store)
    ensures searchOk && attempts != [] ==>
              var st := Run(attempts);
              && outcome == Completed(st.processed, st.codesFound, st.reconnects)
              && store.present == (old(store.present) || st.saved != [])
              && store.rows == AppendedAll(old(store.present), old(store.rows), st.saved)
  {
    if !searchOk {
      return SearchFailed;
    }
    if |attempts| == 0 {
      return NoMessages;
    }
    var processed, codesFound, reconnects := 0, 0, 0;
    for i := 0 to |attempts|
      invariant store.Valid()
      invariant processed == Run(attempts[..i]).processed
      invariant codesFound == Run(attempts[..i]).codesFound
      invariant reconnects == Run(attempts[..i]).reconnects
      invariant store.present == (old(store.present) || Run(attempts[..i]).saved != [])
      invariant store.rows == AppendedAll(old(store.present), old(store.rows), Run(attempts[..i]).saved)
    {
      RunLast(attempts, i);
      processed, codesFound, reconnects :=
        MessageIteration(Run(attempts[..i]), processed, codesFound, reconnects, attempts[i], store,
                         old(store.present), old(store.rows));
    }
    assert attempts[..|attempts|] == attempts;
    return Completed(processed, codesFound, reconnects);
  }
}

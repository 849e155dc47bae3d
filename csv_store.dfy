/**
 * The append-only CSV file `codes.csv` written by `save_code_to_csv`: a file
 * that either does not exist or holds a sequence of rows. Each call appends
 * one data row, preceded by the header row when the file did not exist yet.
 * Rows are sequences of fields; the quoting `csv.writer` applies on disk is
 * not part of this model.
 */
module CsvStore {

  type Row = seq<string>

  /** The header row, written only by the call that creates the file. */
  const Header: Row := ["email", "code", "received_date"]

  /**
   * The rows of the file after one call, given whether it existed and what it
   * held before the call: the earlier rows untouched, then the header if the
   * file is new, then the one data row.
   */
  function Appended(present: bool, rows: seq<Row>, row: Row): (r: seq<Row>)
    requires !present ==> rows == []
    ensures |r| == |rows| + (if present then 1 else 2)
    ensures r[|r| - 1] == row
    ensures present ==> r[..|rows|] == rows
    ensures !present ==> r[0] == Header
  {
    if present then rows + [row] else [Header, row]
  }

  /**
   * The rows of the file after one call per element of `saved`, in order; the
   * file exists from the first call on.
   */
  function AppendedAll(present: bool, rows: seq<Row>, saved: seq<Row>): (r: seq<Row>)
    requires !present ==> rows == []
    ensures |r| == |rows| + |saved| + (if present || saved == [] then 0 else 1)
    ensures saved != [] ==> r[|r| - 1] == saved[|saved| - 1]
    decreases |saved|
  {
    if saved == [] then rows
    else
      Appended(present || |saved| > 1, AppendedAll(present, rows, saved[..|saved| - 1]), saved[|saved| - 1])
  }

  /** One more call extends a run of calls by its row. */
  lemma AppendOne(present: bool, rows: seq<Row>, saved: seq<Row>, row: Row)
    requires !present ==> rows == []
    ensures AppendedAll(present, rows, saved + [row])
            == Appended(present || saved != [], AppendedAll(present, rows, saved), row)
  {
  }

  /**
   * A run of calls leaves the earlier rows as they were and adds the saved
   * rows in order, with one header in front of them when the file was new.
   */
  lemma {:induction false} AppendedAllShape(present: bool, rows: seq<Row>, saved: seq<Row>)
    requires !present ==> rows == []
    ensures AppendedAll(present, rows, saved)
            == if present then rows + saved
               else if saved == [] then []
               else [Header] + saved
    decreases |saved|
  {
    if saved != [] {
      var init := saved[..|saved| - 1];
      AppendedAllShape(present, rows, init);
      assert saved == init + [saved[|saved| - 1]];
    }
  }

  /**
   * The header is written once: a new file starts with it and, as long as no
   * data row equals it, holds it nowhere else; a file that existed gains no
   * header.
   */
  lemma HeaderOnce(present: bool, rows: seq<Row>, saved: seq<Row>)
    requires !present ==> rows == []
    requires forall k :: 0 <= k < |saved| ==> saved[k] != Header
    ensures var r := AppendedAll(present, rows, saved);
            && (!present && saved != [] ==> r[0] == Header && forall k :: 0 < k < |r| ==> r[k] != Header)
            && (present ==> r[..|rows|] == rows && forall k :: |rows| <= k < |r| ==> r[k] != Header)
  {
  }

  /**
   * Two codes into a file that does not exist give the header and two rows
   * in order; a third code into the existing file adds one row and no header.
   */
  lemma SavesExample(r1: Row, r2: Row, r3: Row)
    ensures AppendedAll(false, [], [r1, r2]) == [Header, r1, r2]
    ensures AppendedAll(true, [Header, r1, r2], [r3]) == [Header, r1, r2, r3]
  {
  }

  /** The file `codes.csv`: whether it exists, and its rows. */
  class CsvFile {
    var present: bool
    var rows: seq<Row>

    /** A file that does not exist holds no rows. */
    ghost predicate Valid()
      reads this
    {
      !present ==> rows == []
    }

    constructor (present0: bool, rows0: seq<Row>)
      requires !present0 ==> rows0 == []
      ensures Valid()
      ensures present == present0 && rows == rows0
    {
      present := present0;
      rows := rows0;
    }

    /** `save_code_to_csv(email, code, date)`. */
    method SaveCode(email: string, code: string, date: string)
      requires Valid()
      modifies this
      ensures Valid() && present
      ensures rows == Appended(old(present), old(rows), [email, code, date])
    {
      var fileExists := present;
      if !fileExists {
        rows := rows + [Header];
      }
      rows := rows + [[email, code, date]];
      present := true;
    }
  }
}

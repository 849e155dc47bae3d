/**
 * Calendar dates: `validate_date` (Python's `datetime.strptime(s, "%Y-%m-%d")`)
 * and the `%d-%b-%Y` rendering the IMAP SINCE search key is built from.
 */
module Dates {
  import opened Wrappers
  import opened Text

  datatype Date = Date(year: int, month: int, day: int)

  /** Gregorian leap years, as Python's `calendar.isleap`. */
  predicate IsLeapYear(y: int) {
    y % 4 == 0 && (y % 100 != 0 || y % 400 == 0)
  }

  function DaysInMonth(y: int, m: int): (n: int)
    requires 1 <= m <= 12
    ensures 28 <= n <= 31
    ensures n == 29 <==> m == 2 && IsLeapYear(y)
    ensures n == 28 <==> m == 2 && !IsLeapYear(y)
  {
    if m == 2 then (if IsLeapYear(y) then 29 else 28)
    else if m == 4 || m == 6 || m == 9 || m == 11 then 30
    else 31
  }

  /** A date `datetime` accepts: a year from 1 to 9999 and a day that exists in its month. */
  predicate ValidDate(d: Date) {
    1 <= d.year <= 9999 && 1 <= d.month <= 12 && 1 <= d.day <= DaysInMonth(d.year, d.month)
  }

  function DigitValue(c: char): (n: int)
    requires IsAsciiDigit(c)
    ensures 0 <= n <= 9
  {
    c as int - '0' as int
  }

  function DigitChar(n: int): (c: char)
    requires 0 <= n <= 9
    ensures IsAsciiDigit(c) && DigitValue(c) == n
  {
    ('0' as int + n) as char
  }

  function TwoDigitValue(hi: char, lo: char): int
    requires IsAsciiDigit(hi) && IsAsciiDigit(lo)
  {
    10 * DigitValue(hi) + DigitValue(lo)
  }

  function FourDigitValue(t: string): int
    requires |t| == 4 && All(t, IsAsciiDigit)
  {
    1000 * DigitValue(t[0]) + 100 * DigitValue(t[1]) + 10 * DigitValue(t[2]) + DigitValue(t[3])
  }

  /** Two decimal digits with a leading zero, as `%d` and `%m` print them. */
  function Pad2(n: int): (r: string)
    requires 0 <= n <= 99
    ensures |r| == 2 && IsAsciiDigit(r[0]) && IsAsciiDigit(r[1]) && TwoDigitValue(r[0], r[1]) == n
  {
    [DigitChar(n / 10), DigitChar(n % 10)]
  }

  /** Four decimal digits with leading zeros, as `%Y` prints a `datetime` year. */
  function Pad4(n: int): (r: string)
    requires 0 <= n <= 9999
    ensures |r| == 4 && All(r, IsAsciiDigit) && FourDigitValue(r) == n
  {
    var q := n / 10;
    var h := q / 10;
    assert n == 10 * q + n % 10;
    assert q == 10 * h + q % 10;
    assert h == 10 * (h / 10) + h % 10;
    [DigitChar(h / 10), DigitChar(h % 10), DigitChar(q % 10), DigitChar(n % 10)]
  }

  // ---------------------------------------------------------------------------
  // validate_date: strptime with the format "%Y-%m-%d"

  /**
   * strptime's pattern for `%m`, `1[0-2]|0[1-9]|[1-9]`, at index i: the first
   * alternative that matches gives the month and the index after it.
   */
  function MonthField(s: string, i: nat): (r: Option<(int, nat)>)
    requires i <= |s|
    ensures r.Some? ==> 1 <= r.value.0 <= 12 && i < r.value.1 <= i + 2 && r.value.1 <= |s|
  {
    if i + 1 < |s| && s[i] == '1' && '0' <= s[i + 1] <= '2' then Some((10 + DigitValue(s[i + 1]), i + 2))
    else if i + 1 < |s| && s[i] == '0' && '1' <= s[i + 1] <= '9' then Some((DigitValue(s[i + 1]), i + 2))
    else if i < |s| && '1' <= s[i] <= '9' then Some((DigitValue(s[i]), i + 1))
    else None
  }

  /**
   * strptime's pattern for `%d`, `3[01]|[12]\d|0[1-9]|[1-9]| [1-9]`, at index i.
   * Nothing follows `%d` in the format, so the first alternative that matches
   * is the one taken.
   */
  function DayField(s: string, i: nat): (r: Option<(int, nat)>)
    requires i <= |s|
    ensures r.Some? ==> 1 <= r.value.0 <= 31 && i < r.value.1 <= i + 2 && r.value.1 <= |s|
  {
    if i + 1 < |s| && s[i] == '3' && '0' <= s[i + 1] <= '1' then Some((30 + DigitValue(s[i + 1]), i + 2))
    else if i + 1 < |s| && '1' <= s[i] <= '2' && IsAsciiDigit(s[i + 1]) then Some((TwoDigitValue(s[i], s[i + 1]), i + 2))
    else if i + 1 < |s| && s[i] == '0' && '1' <= s[i + 1] <= '9' then Some((DigitValue(s[i + 1]), i + 2))
    else if i < |s| && '1' <= s[i] <= '9' then Some((DigitValue(s[i]), i + 1))
    else if i + 1 < |s| && s[i] == ' ' && '1' <= s[i + 1] <= '9' then Some((DigitValue(s[i + 1]), i + 2))
    else None
  }

  /**
   * `validate_date`: the date the string names, or None where strptime raises
   * ValueError (no match, unconverted text after the day, or a date that does
   * not exist).
   */
  function ValidateDate(s: string): (r: Option<Date>)
    ensures r.Some? ==> ValidDate(r.value)
  {
    if |s| < 5 || !All(s[..4], IsAsciiDigit) || s[4] != '-' then None
    else
      var year := FourDigitValue(s[..4]);
      match MonthField(s, 5)
      case None => None
      case Some((month, i)) =>
        if i == |s| || s[i] != '-' then None
        else
          match DayField(s, i + 1)
          case None => None
          case Some((day, j)) =>
            if j == |s| && ValidDate(Date(year, month, day)) then Some(Date(year, month, day)) else None
  }

  /** The zero-padded `YYYY-MM-DD` shape: four digits, dash, two digits, dash, two digits. */
  predicate IsPaddedIso(s: string) {
    && |s| == 10 && s[4] == '-' && s[7] == '-' && All(s[..4], IsAsciiDigit)
    && IsAsciiDigit(s[5]) && IsAsciiDigit(s[6]) && IsAsciiDigit(s[8]) && IsAsciiDigit(s[9])
  }

  /** The year, month and day a zero-padded string spells, whether or not they form a date. */
  function PaddedFields(s: string): Date
    requires IsPaddedIso(s)
  {
    Date(FourDigitValue(s[..4]), TwoDigitValue(s[5], s[6]), TwoDigitValue(s[8], s[9]))
  }

  /**
   * On zero-padded input `validate_date` returns the date the digits spell
   * when that date exists, and None when it does not (month 00 or 13, day 00,
   * 2025-02-29, year 0000, ...).
   */
  lemma PaddedIsoDate(s: string)
    requires IsPaddedIso(s)
    ensures ValidateDate(s) == if ValidDate(PaddedFields(s)) then Some(PaddedFields(s)) else None
  {
  }

  /** `YYYY-MM-DD` with zero padding, the form the prompt asks for. */
  function IsoText(d: Date): (r: string)
    requires ValidDate(d)
    ensures IsPaddedIso(r) && PaddedFields(r) == d
  {
    var r := Pad4(d.year) + "-" + Pad2(d.month) + "-" + Pad2(d.day);
    assert r[..4] == Pad4(d.year);
    r
  }

  /** Every existing date typed in the prompted form is accepted as itself. */
  lemma {:induction false} IsoRoundTrip(d: Date)
    requires ValidDate(d)
    ensures ValidateDate(IsoText(d)) == Some(d)
  {
    PaddedIsoDate(IsoText(d));
  }

  // ---------------------------------------------------------------------------
  // The IMAP date of the search key: strftime("%d-%b-%Y")

  /** `%b` in the C locale. */
  const MonthNames: seq<string> :=
    ["Jan", "Feb", "Mar", "Apr", "May", "Jun", "Jul", "Aug", "Sep", "Oct", "Nov", "Dec"]

  /** `DD-Mon-YYYY`, the `date` form of section 9 of RFC 3501 used by the SINCE key. */
  function ImapDate(d: Date): (r: string)
    requires ValidDate(d)
    ensures |r| == 11 && r[2] == '-' && r[6] == '-' && r[3..6] == MonthNames[d.month - 1]
  {
    Pad2(d.day) + "-" + MonthNames[d.month - 1] + "-" + Pad4(d.year)
  }

  function MonthNumberFrom(name: string, k: nat): (r: Option<int>)
    requires k <= 12
    ensures r.Some? ==> k + 1 <= r.value <= 12 && MonthNames[r.value - 1] == name
    ensures r.None? ==> forall j :: k <= j < 12 ==> MonthNames[j] != name
    decreases 12 - k
  {
    if k == 12 then None
    else if MonthNames[k] == name then Some(k + 1)
    else MonthNumberFrom(name, k + 1)
  }

  /**
   * Reads back the fixed `DD-Mon-YYYY` form that ImapDate renders: a subset
   * of the `date` of section 9 of RFC 3501, which also allows a one-digit day
   * and month names in any case. main.py never parses this form: the
   * function is the partner against which ImapDate is checked.
   */
  function ParseImapDate(s: string): (r: Option<Date>)
    ensures r.Some? ==> ValidDate(r.value) && |s| == 11
  {
    if |s| != 11 || s[2] != '-' || s[6] != '-' || !IsAsciiDigit(s[0]) || !IsAsciiDigit(s[1])
       || !All(s[7..], IsAsciiDigit)
    then None
    else
      match MonthNumberFrom(s[3..6], 0)
      case None => None
      case Some(month) =>
        var d := Date(FourDigitValue(s[7..]), month, TwoDigitValue(s[0], s[1]));
        if ValidDate(d) then Some(d) else None
  }

  lemma MonthNamesDistinct()
    ensures forall i, j :: 0 <= i < j < 12 ==> MonthNames[i] != MonthNames[j]
  {
  }

  /** The rendered search date names the start date and nothing else. */
  lemma {:induction false} ImapDateRoundTrip(d: Date)
    requires ValidDate(d)
    ensures ParseImapDate(ImapDate(d)) == Some(d)
  {
    var r := ImapDate(d);
    MonthNamesDistinct();
    assert r[7..] == Pad4(d.year);
    assert r[0..2] == Pad2(d.day);
    assert MonthNumberFrom(r[3..6], 0) == Some(d.month);
  }

  /** 2024 is a leap year, 2025 is not; month 13 does not exist. */
  lemma LeapDayExamples()
    ensures ValidateDate("2024-02-29") == Some(Date(2024, 2, 29))
    ensures ValidateDate("2025-02-29") == None
    ensures ValidateDate("2025-13-01") == None
  {
    PaddedIsoDate("2024-02-29");
    PaddedIsoDate("2025-02-29");
    PaddedIsoDate("2025-13-01");
  }

  /** strptime also takes a month and a day written with one digit. */
  lemma UnpaddedExample()
    ensures ValidateDate("2025-1-5") == Some(Date(2025, 1, 5))
  {
  }

  lemma ImapDateExample()
    ensures ImapDate(Date(2026, 1, 27)) == "27-Jan-2026"
  {
  }
}

/** The calendar dates of the traversal's cutoff rule: the first `dddd/dd/dd` in a
    row's text (a `re.search`), and the parse `datetime.strptime(s, "%Y%m%d")`
    that turns both that row date and the cutoff argument into a `datetime`. */
module Dates {
  import opened Wrappers

  datatype Date = Date(year: nat, month: nat, day: nat)

  predicate IsLeap(y: nat) {
    (y % 4 == 0 && y % 100 != 0) || y % 400 == 0
  }

  function DaysInMonth(y: nat, m: nat): nat
    requires 1 <= m <= 12
  {
    if m == 2 then (if IsLeap(y) then 29 else 28)
    else if m == 4 || m == 6 || m == 9 || m == 11 then 30
    else 31
  }

  /** A date `datetime` accepts: year 1 to 9999, a month, a day of that month. */
  predicate ValidDate(d: Date) {
    1 <= d.year <= 9999 && 1 <= d.month <= 12 && 1 <= d.day <= DaysInMonth(d.year, d.month)
  }

  /** `a < b` on two `datetime`s at midnight: year, then month, then day. */
  predicate Before(a: Date, b: Date) {
    a.year < b.year
    || (a.year == b.year && (a.month < b.month || (a.month == b.month && a.day < b.day)))
  }

  // ---------------------------------------------------------------------------
  // Digits

  /** An ASCII decimal digit. */
  predicate IsDigit(c: char) {
    '0' <= c <= '9'
  }

  predicate IsNonZeroDigit(c: char) {
    '1' <= c <= '9'
  }

  function DigitValue(c: char): nat
    requires IsDigit(c)
  {
    c as int - '0' as int
  }

  predicate AllDigits(s: string) {
    forall k :: 0 <= k < |s| ==> IsDigit(s[k])
  }

  /** `int(s)` on a string of digits. */
  function Number(s: string): nat
    requires AllDigits(s)
  {
    if s == [] then 0 else 10 * Number(s[..|s| - 1]) + DigitValue(s[|s| - 1])
  }

  // ---------------------------------------------------------------------------
  // The row date: re.search(r"(\d{4})/(\d{2})/(\d{2})", row_text)

  predicate DatePatternAt(text: string, i: nat) {
    i + 10 <= |text|
    && AllDigits(text[i..i + 4]) && text[i + 4] == '/'
    && AllDigits(text[i + 5..i + 7]) && text[i + 7] == '/'
    && AllDigits(text[i + 8..i + 10])
  }

  /** The position of the leftmost match at or after `from`. */
  function FindDateFrom(text: string, from: nat): (r: Option<nat>)
    ensures r.Some? ==> from <= r.value && DatePatternAt(text, r.value)
    ensures forall j :: from <= j && (r.None? || j < r.value) ==> !DatePatternAt(text, j)
    decreases |text| - from
  {
    if from + 10 > |text| then None
    else if DatePatternAt(text, from) then Some(from)
    else FindDateFrom(text, from + 1)
  }

  /** The leftmost match in the whole text. */
  function FindDate(text: string): (r: Option<nat>)
    ensures r.Some? ==> DatePatternAt(text, r.value)
    ensures forall j :: 0 <= j && (r.None? || j < r.value) ==> !DatePatternAt(text, j)
  {
    FindDateFrom(text, 0)
  }

  /** `f"{group(1)}{group(2)}{group(3)}"` for the match at `i`. */
  function DateDigits(text: string, i: nat): (s: string)
    requires DatePatternAt(text, i)
    ensures |s| == 8 && AllDigits(s)
  {
    text[i..i + 4] + text[i + 5..i + 7] + text[i + 8..i + 10]
  }

  // ---------------------------------------------------------------------------
  // datetime.strptime(s, "%Y%m%d")
  //
  // The directives become the regular expressions
  //   %Y: \d\d\d\d      %m: 1[0-2]|0[1-9]|[1-9]      %d: 3[01]|[12]\d|0[1-9]|[1-9]| [1-9]
  // matched from the start of `s` with the usual leftmost, first-alternative-first
  // backtracking; the parse fails unless the match ends at the end of `s`, and
  // then `datetime` rejects a day beyond the month or year 0.

  /** The first alternative of `%d` that matches at `p`: the day and where it ends. */
  function DayAt(s: string, p: nat): (r: Option<(nat, nat)>)
    ensures r.Some? ==> p < r.value.1 <= |s| && r.value.1 <= p + 2 && 1 <= r.value.0 <= 31
  {
    if p + 2 <= |s| && s[p] == '3' && (s[p + 1] == '0' || s[p + 1] == '1') then
      Some((30 + DigitValue(s[p + 1]), p + 2))
    else if p + 2 <= |s| && (s[p] == '1' || s[p] == '2') && IsDigit(s[p + 1]) then
      Some((10 * DigitValue(s[p]) + DigitValue(s[p + 1]), p + 2))
    else if p + 2 <= |s| && s[p] == '0' && IsNonZeroDigit(s[p + 1]) then
      Some((DigitValue(s[p + 1]), p + 2))
    else if p + 1 <= |s| && IsNonZeroDigit(s[p]) then
      Some((DigitValue(s[p]), p + 1))
    else if p + 2 <= |s| && s[p] == ' ' && IsNonZeroDigit(s[p + 1]) then
      Some((DigitValue(s[p + 1]), p + 2))
    else None
  }

  /** `%m%d` at `p`: the month alternatives in order, each tried with `%d` after it
      before the next one is tried. Gives the month, the day and the end. */
  function MonthDayAt(s: string, p: nat): (r: Option<(nat, nat, nat)>)
    ensures r.Some? ==> 1 <= r.value.0 <= 12 && 1 <= r.value.1 <= 31 && p < r.value.2 <= |s|
  {
    var tenToTwelve := p + 2 <= |s| && s[p] == '1' && '0' <= s[p + 1] <= '2';
    var zeroPadded := p + 2 <= |s| && s[p] == '0' && IsNonZeroDigit(s[p + 1]);
    var single := p + 1 <= |s| && IsNonZeroDigit(s[p]);
    if tenToTwelve && DayAt(s, p + 2).Some? then
      Some((10 + DigitValue(s[p + 1]), DayAt(s, p + 2).value.0, DayAt(s, p + 2).value.1))
    else if zeroPadded && DayAt(s, p + 2).Some? then
      Some((DigitValue(s[p + 1]), DayAt(s, p + 2).value.0, DayAt(s, p + 2).value.1))
    else if single && DayAt(s, p + 1).Some? then
      Some((DigitValue(s[p]), DayAt(s, p + 1).value.0, DayAt(s, p + 1).value.1))
    else None
  }

  /** `datetime.strptime(s, "%Y%m%d")`: `None` where it raises `ValueError`. */
  function ParseYmd(s: string): (r: Option<Date>)
    ensures r.Some? ==> ValidDate(r.value)
    ensures r.Some? ==> |s| >= 6 && AllDigits(s[..4]) && r.value.year == Number(s[..4])
  {
    if |s| < 4 || !AllDigits(s[..4]) then None
    else
      match MonthDayAt(s, 4)
      case None => None
      case Some((m, d, end)) =>
        var date := Date(Number(s[..4]), m, d);
        if end == |s| && ValidDate(date) then Some(date) else None
  }

  /** `if cutoff_date: cutoff_dt = strptime(cutoff_date, "%Y%m%d")` with a failed
      parse swallowed: no cutoff for `None`, the empty string or a string that
      does not parse. */
  function ParseCutoff(cutoffDate: Option<string>): (r: Option<Date>)
    ensures cutoffDate.None? || cutoffDate == Some("") ==> r.None?
    ensures r.Some? ==> ValidDate(r.value)
  {
    if cutoffDate.None? || cutoffDate.value == "" then None else ParseYmd(cutoffDate.value)
  }

  // ---------------------------------------------------------------------------
  // Properties

  lemma NumberOfTwo(s: string)
    requires |s| == 2 && AllDigits(s)
    ensures Number(s) == 10 * DigitValue(s[0]) + DigitValue(s[1])
  {
    var first := s[..1];
    assert first[..0] == [] && first[0] == s[0];
    assert Number(first) == DigitValue(s[0]);
  }

  /** On eight digits the parse is the plain year-month-day split: it succeeds
      exactly when the split names a valid date, and then gives that date. */
  lemma EightDigitsParse(s: string)
    requires |s| == 8 && AllDigits(s)
    ensures ParseYmd(s) == (var d := Date(Number(s[..4]), Number(s[4..6]), Number(s[6..8]));
                            if ValidDate(d) then Some(d) else None)
  {
    var mm, dd := s[4..6], s[6..8];
    NumberOfTwo(mm);
    NumberOfTwo(dd);
    assert mm[0] == s[4] && mm[1] == s[5] && dd[0] == s[6] && dd[1] == s[7];
    assert AllDigits(s[..4]);
    assert IsDigit(s[4]) && IsDigit(s[5]) && IsDigit(s[6]) && IsDigit(s[7]);
  }

  /** The row date of a row whose text holds a match is the date at the leftmost
      match, when that one is a calendar date. */
  lemma RowDateIsLeftmost(text: string)
    requires FindDate(text).Some?
    ensures var i := FindDate(text).value;
      ParseYmd(DateDigits(text, i)).Some? <==>
        ValidDate(Date(Number(text[i..i + 4]), Number(text[i + 5..i + 7]), Number(text[i + 8..i + 10])))
  {
    var i := FindDate(text).value;
    var s := DateDigits(text, i);
    EightDigitsParse(s);
    assert s[..4] == text[i..i + 4];
    assert s[4..6] == text[i + 5..i + 7];
    assert s[6..8] == text[i + 8..i + 10];
  }

  /** `strptime` is lenient about the padding of short inputs: seven characters
      can read as a two-digit month and a one-digit day. */
  lemma SevenCharacterCutoff()
    ensures ParseYmd("2024111") == Some(Date(2024, 11, 1))
  {
    assert "2024111"[..4] == "2024";
    assert Number("2024") == 2024 by {
      assert "2024"[..3] == "202" && "202"[..2] == "20" && "20"[..1] == "2" && "2"[..0] == "";
    }
  }

  /** Six characters fall back to the one-digit month once `%d` finds nothing
      after two: "202411" is the first of January. */
  lemma SixCharacterCutoff()
    ensures ParseYmd("202411") == Some(Date(2024, 1, 1))
  {
    assert "202411"[..4] == "2024";
    assert Number("2024") == 2024 by {
      assert "2024"[..3] == "202" && "202"[..2] == "20" && "20"[..1] == "2" && "2"[..0] == "";
    }
    assert DayAt("202411", 6).None?;
  }

  /** Month 13 and February 30 are rejected. */
  lemma InvalidCalendarDates()
    ensures ParseYmd("20241305").None?
    ensures ParseYmd("20240230").None?
  {
    EightDigitsParse("20241305");
    EightDigitsParse("20240230");
    assert "20241305"[4..6] == "13";
    assert "20240230"[4..6] == "02" && "20240230"[6..8] == "30";
    NumberOfTwo("13");
    NumberOfTwo("02");
    NumberOfTwo("30");
  }

  /** `Before` is a strict order. */
  lemma BeforeStrictOrder(a: Date, b: Date, c: Date)
    ensures !Before(a, a)
    ensures Before(a, b) ==> !Before(b, a)
    ensures Before(a, b) && Before(b, c) ==> Before(a, c)
    ensures a != b ==> Before(a, b) || Before(b, a)
  {
  }
}

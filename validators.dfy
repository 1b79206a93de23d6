/** The query-parameter validators: `is_valid_int`, `is_valid_date` and
    `is_valid_date_range`. Each is total: wherever Python raises inside the
    `try`, the predicate is false. */
module Validators {
  import opened Wrappers
  import opened PyText
  import opened Calendar

  /** The Python values a validator can be handed: `None`, an `int` (the
      defaults of `page` and `per_page`), a `str` (a query argument), or,
      from a JSON document, a finite `float` (as the real it stands for) or
      a `bool`. */
  datatype PyValue = PyNone | PyInt(i: int) | PyStr(s: string) | PyFloat(r: real) | PyBool(b: bool)

  /** `int(r)` on a finite float: truncates toward zero. */
  function Truncate(r: real): (n: int)
    ensures r >= 0.0 ==> n as real <= r < n as real + 1.0
    ensures r < 0.0 ==> n as real - 1.0 < r <= n as real
  {
    if r >= 0.0 then r.Floor else -((-r).Floor)
  }

  /** A float passes `int(val) > 0` exactly when it is at least one. */
  lemma TruncatePositive(r: real)
    ensures Truncate(r) > 0 <==> r >= 1.0
  {
  }

  predicate IsDigit(c: char)
  {
    '0' <= c <= '9'
  }

  function DigitValue(c: char): (n: nat)
    requires IsDigit(c)
    ensures n <= 9
  {
    c as int - '0' as int
  }

  /** The digit part `int()` accepts: ASCII digits, with single underscores
      allowed between two digits. Read from the right: a digit, preceded by
      nothing, by a digit run, or by an underscore and a digit run. */
  predicate IsDigitRun(s: string)
    decreases |s|
  {
    && |s| > 0
    && IsDigit(s[|s| - 1])
    && var p := s[..|s| - 1];
       || |p| == 0
       || (p[|p| - 1] != '_' && IsDigitRun(p))
       || (p[|p| - 1] == '_' && IsDigitRun(p[..|p| - 1]))
  }

  /** The number a run of digits spells, underscores ignored. */
  function RunValue(s: string): nat
    requires IsDigitRun(s)
    decreases |s|
  {
    var p := s[..|s| - 1];
    var last := DigitValue(s[|s| - 1]);
    if |p| == 0 then last
    else if p[|p| - 1] == '_' then RunValue(p[..|p| - 1]) * 10 + last
    else RunValue(p) * 10 + last
  }

  lemma {:induction false} DigitRunStartsWithDigit(s: string)
    requires IsDigitRun(s)
    ensures IsDigit(s[0])
    decreases |s|
  {
    var p := s[..|s| - 1];
    if |p| > 0 {
      if p[|p| - 1] == '_' {
        DigitRunStartsWithDigit(p[..|p| - 1]);
        assert s[0] == p[..|p| - 1][0];
      } else {
        DigitRunStartsWithDigit(p);
        assert s[0] == p[0];
      }
    }
  }

  /** `int(t)` for text `t` already stripped of white space: an optional sign,
      then a digit run. `None` where Python raises `ValueError`. */
  function ParseInt(t: string): Option<int>
  {
    var signed := |t| > 0 && (t[0] == '+' || t[0] == '-');
    var body := if signed then t[1..] else t;
    if !IsDigitRun(body) then None
    else
      var magnitude: int := RunValue(body);
      if signed && t[0] == '-' then Some(-magnitude) else Some(magnitude)
  }

  /** The white space `int()` skips around a number: ASCII space, tab,
      newline, carriage return, vertical tab and form feed. `strip()` also
      removes the information separators `\x1c` to `\x1f`; `int()` does not. */
  predicate IsIntSpace(c: char)
  {
    c == ' ' || c == '\t' || c == '\n' || c == '\r' || c == '\U{b}' || c == '\U{c}'
  }

  /** An information separator: white space to `strip()`, but not to `int()`. */
  predicate IsSeparator(c: char)
  {
    '\U{1c}' <= c <= '\U{1f}'
  }

  /** The text without the white space `int()` skips at its start. */
  function TrimLeft(s: string): (r: string)
    ensures |r| <= |s| && r == s[|s| - |r|..]
    ensures |r| > 0 ==> !IsIntSpace(r[0])
    decreases |s|
  {
    if |s| > 0 && IsIntSpace(s[0]) then TrimLeft(s[1..]) else s
  }

  /** `TrimLeft` cuts only white space. */
  lemma {:induction false} TrimLeftSkipped(s: string)
    ensures forall j :: 0 <= j < |s| - |TrimLeft(s)| ==> IsIntSpace(s[j])
    decreases |s|
  {
    if |s| > 0 && IsIntSpace(s[0]) {
      TrimLeftSkipped(s[1..]);
      assert forall j :: 1 <= j < |s| ==> s[j] == s[1..][j - 1];
    }
  }

  /** The text without the white space `int()` skips at its end. */
  function TrimRight(s: string): (r: string)
    ensures |r| <= |s| && r == s[..|r|]
    ensures |r| > 0 ==> !IsIntSpace(r[|r| - 1])
    decreases |s|
  {
    if |s| > 0 && IsIntSpace(s[|s| - 1]) then TrimRight(s[..|s| - 1]) else s
  }

  /** `TrimRight` cuts only white space. */
  lemma {:induction false} TrimRightSkipped(s: string)
    ensures forall j :: |TrimRight(s)| <= j < |s| ==> IsIntSpace(s[j])
    decreases |s|
  {
    if |s| > 0 && IsIntSpace(s[|s| - 1]) {
      TrimRightSkipped(s[..|s| - 1]);
    }
  }

  /** The text `int()` reads once the white space it skips is cut from
      either end. */
  function IntText(s: string): string
  {
    TrimRight(TrimLeft(s))
  }

  /** `int(val)` on a `str`: the white space `int()` skips is ignored. */
  function IntOfText(s: string): Option<int>
  {
    ParseInt(IntText(s))
  }

  /** `is_valid_int(val)`: true exactly for a value that is not `None`, whose
      text is not blank, and that `int()` turns into an integer above zero.
      `str()` of a number or a `bool` is never blank; `int(True)` is 1. */
  predicate IsValidInt(v: PyValue)
  {
    match v
    case PyNone => false
    case PyInt(i) => i > 0
    case PyFloat(r) => Truncate(r) > 0
    case PyBool(b) => b
    case PyStr(s) =>
      Strip(s) != "" &&
      match IntOfText(s)
      case None => false
      case Some(n) => n > 0
  }

  /** `str(n)` for a natural number. */
  function DecimalText(n: nat): (s: string)
    ensures |s| > 0 && IsDigit(s[0]) && IsDigit(s[|s| - 1])
    ensures forall i :: 0 <= i < |s| ==> IsDigit(s[i])
  {
    if n < 10 then [('0' as int + n) as char]
    else DecimalText(n / 10) + [('0' as int + n % 10) as char]
  }

  /** `int(str(n)) == n`: the decimal text of a number reads back as that
      number. */
  lemma {:induction false} DecimalTextReadsBack(n: nat)
    ensures IsDigitRun(DecimalText(n)) && RunValue(DecimalText(n)) == n
  {
    var s := DecimalText(n);
    if n >= 10 {
      DecimalTextReadsBack(n / 10);
      var p := s[..|s| - 1];
      assert p == DecimalText(n / 10);
      assert p[|p| - 1] != '_';
    }
  }

  /** Text with no skipped white space at either end is read as it is. */
  lemma IntTextTrimmed(s: string)
    requires |s| > 0 && !IsIntSpace(s[0]) && !IsIntSpace(s[|s| - 1])
    ensures IntText(s) == s
    ensures IntOfText(s) == ParseInt(s)
  {
  }

  /** Every character of a digit run is a digit or an underscore. */
  lemma {:induction false} DigitRunChars(s: string)
    requires IsDigitRun(s)
    ensures forall i :: 0 <= i < |s| ==> IsDigit(s[i]) || s[i] == '_'
    decreases |s|
  {
    var p := s[..|s| - 1];
    if |p| > 0 {
      if p[|p| - 1] == '_' {
        DigitRunChars(p[..|p| - 1]);
        assert forall i :: 0 <= i < |p| - 1 ==> s[i] == p[..|p| - 1][i];
      } else {
        DigitRunChars(p);
        assert forall i :: 0 <= i < |p| ==> s[i] == p[i];
      }
    }
  }

  /** A digit run with no sign is read as the number it spells. */
  lemma ParseDigitRun(s: string)
    requires IsDigitRun(s)
    ensures ParseInt(s) == Some(RunValue(s) as int)
  {
    DigitRunStartsWithDigit(s);
  }

  /** A digit run after a minus sign is read as its negation. */
  lemma ParseMinusDigitRun(s: string)
    requires IsDigitRun(s)
    ensures ParseInt("-" + s) == Some(-(RunValue(s) as int))
  {
    assert ("-" + s)[1..] == s;
  }

  lemma ParseUnsigned(s: string)
    requires IsDigitRun(s)
    ensures IntOfText(s) == Some(RunValue(s) as int)
    ensures Strip(s) != ""
  {
    DigitRunStartsWithDigit(s);
    assert IntOfText(s) == ParseInt(s) by { IntTextTrimmed(s); }
    assert Strip(s) != "" by { StripTrimmed(s); }
    ParseDigitRun(s);
  }

  lemma ParseNegative(s: string)
    requires IsDigitRun(s)
    ensures IntOfText("-" + s) == Some(-(RunValue(s) as int))
    ensures Strip("-" + s) != ""
  {
    var t := "-" + s;
    assert t[|t| - 1] == s[|s| - 1];
    assert IntOfText(t) == ParseInt(t) by { IntTextTrimmed(t); }
    assert Strip(t) != "" by { StripTrimmed(t); }
    ParseMinusDigitRun(s);
  }

  /** A character that `int()` does not skip survives into the text it
      reads, at the returned position. */
  lemma KeptInIntText(s: string, i: nat) returns (j: nat)
    requires i < |s| && !IsIntSpace(s[i])
    ensures j < |IntText(s)| && IntText(s)[j] == s[i]
  {
    var l := TrimLeft(s);
    var a := |s| - |l|;
    TrimLeftSkipped(s);
    assert a <= i;
    assert l[i - a] == s[i];
    TrimRightSkipped(l);
    j := i - a;
    assert IntText(s) == l[..|IntText(s)|];
  }

  /** `int()` raises on text holding an information separator: it is
      neither a sign, a digit nor an underscore. */
  lemma ParseIntRefusesSeparator(t: string, j: nat)
    requires j < |t| && IsSeparator(t[j])
    ensures ParseInt(t) == None
  {
    var signed := |t| > 0 && (t[0] == '+' || t[0] == '-');
    var body := if signed then t[1..] else t;
    var k := if signed then j - 1 else j;
    assert 0 <= k < |body| && body[k] == t[j];
    if IsDigitRun(body) {
      DigitRunChars(body);
      assert false;
    }
  }

  /** `int()` refuses any text holding an information separator, wherever it
      stands: the separator is not skipped, and it is neither a sign, a digit
      nor an underscore. */
  lemma SeparatorRefused(s: string, i: nat)
    requires i < |s| && IsSeparator(s[i])
    ensures IntOfText(s) == None
  {
    var j := KeptInIntText(s, i);
    ParseIntRefusesSeparator(IntText(s), j);
  }

  /** Text that is not blank and that `int()` reads as `k` is accepted
      exactly when `k > 0`. */
  lemma IsValidIntOnParsed(s: string, k: int)
    requires Strip(s) != "" && IntOfText(s) == Some(k)
    ensures IsValidInt(PyStr(s)) <==> k > 0
  {
    if k > 0 {
      assert IsValidInt(PyStr(s));
    }
  }

  /** A digit run is accepted exactly when it spells a number above zero. */
  lemma IsValidIntOnRuns(s: string)
    requires IsDigitRun(s)
    ensures IsValidInt(PyStr(s)) <==> RunValue(s) > 0
  {
    ParseUnsigned(s);
    IsValidIntOnParsed(s, RunValue(s) as int);
  }

  /** A digit run with a minus sign in front is refused. */
  lemma IsValidIntRefusesNegativeRun(s: string)
    requires IsDigitRun(s)
    ensures !IsValidInt(PyStr("-" + s))
  {
    var t, k := "-" + s, -(RunValue(s) as int);
    assert Strip(t) != "" && IntOfText(t) == Some(k) by { ParseNegative(s); }
    IsValidIntOnParsed(t, k);
  }

  /** The accepted text of numbers: `str(n)` passes exactly when `n > 0`, so
      "0" fails, and so does every negative number such as "-1". */
  lemma IsValidIntOnNumbers(n: nat)
    ensures IsValidInt(PyStr(DecimalText(n))) <==> n > 0
    ensures !IsValidInt(PyStr("-" + DecimalText(n)))
  {
    DecimalTextReadsBack(n);
    IsValidIntOnRuns(DecimalText(n));
    IsValidIntRefusesNegativeRun(DecimalText(n));
  }

  /** Blank text, `None`, and text `int()` rejects are all refused; among
      the last, any text holding an information separator, which `strip()`
      would remove but `int()` does not skip. */
  lemma IsValidIntRefusals(s: string)
    ensures !IsValidInt(PyNone)
    ensures (forall i :: 0 <= i < |s| ==> IsSpace(s[i])) ==> !IsValidInt(PyStr(s))
    ensures IntOfText(s).None? ==> !IsValidInt(PyStr(s))
    ensures (exists i :: 0 <= i < |s| && IsSeparator(s[i])) ==> !IsValidInt(PyStr(s))
  {
    StripEmpty(s);
    if exists i :: 0 <= i < |s| && IsSeparator(s[i]) {
      var i :| 0 <= i < |s| && IsSeparator(s[i]);
      SeparatorRefused(s, i);
    }
  }

  /** "\x1c1" is not blank, since `strip()` leaves "1", yet `int()` raises on
      it, so it is refused. */
  lemma IsValidIntRefusesSeparator()
    ensures Strip("\U{1c}1") == "1"
    ensures !IsValidInt(PyStr("\U{1c}1"))
  {
    var s := "\U{1c}1";
    assert Strip(s) == "1" by {
      assert IsSpace(s[0]) && s[1..] == "1";
      assert StripLeft(s) == StripLeft("1") == "1";
    }
    assert IntOfText(s) == None by { SeparatorRefused(s, 0); }
  }

  lemma ReadsOne()
    ensures IntOfText("1") == Some(1) && IsValidInt(PyStr("1"))
  {
    IsValidIntOnNumbers(1);
    SmallDecimals();
    assert IsDigitRun("1") && RunValue("1") == 1;
    ParseUnsigned("1");
  }

  lemma SmallDecimals()
    ensures DecimalText(0) == "0" && DecimalText(1) == "1" && "-" + DecimalText(1) == "-1"
  {
  }

  /** The API's own test: a `location_id` of "-1" is refused, as is "0";
      "1" is accepted. */
  lemma IsValidIntExamples()
    ensures IsValidInt(PyStr("1"))
    ensures !IsValidInt(PyStr("0")) && !IsValidInt(PyStr("-1"))
  {
    IsValidIntOnNumbers(1);
    IsValidIntOnNumbers(0);
    SmallDecimals();
  }

  lemma NotADigitRun()
    ensures ParseInt("1.5").None?
  {
    assert "1.5"[..2][1] == '.';
    assert !IsDigitRun("1.5");
  }

  /** Text that is not an integer is refused. */
  lemma IsValidIntRefusesText()
    ensures !IsValidInt(PyStr("1.5"))
  {
    NotADigitRun();
    IntTextTrimmed("1.5");
  }

  lemma UnderscoreRun()
    ensures IsDigitRun("1_000") && RunValue("1_000") == 1000
  {
    var t := "1_000";
    assert t[..4] == "1_00" && t[..4][..3] == "1_0" && t[..4][..3][..2] == "1_" && "1_"[..1] == "1";
    assert IsDigitRun("1");
    assert IsDigitRun("1_0");
    assert IsDigitRun("1_00");
  }

  /** `int()` takes underscores between digits, so "1_000" is a valid id. */
  lemma IsValidIntUnderscores()
    ensures IsValidInt(PyStr("1_000"))
  {
    UnderscoreRun();
    ParseUnsigned("1_000");
  }

  // ---------------------------------------------------------------------
  // `datetime.strptime(val, "%Y-%m-%d")`

  /** The lengths of the alternatives of the month pattern
      `1[0-2]|0[1-9]|[1-9]` that match at the start of `r`, in the order the
      regular expression tries them. */
  function MonthAlternatives(r: string): (lens: seq<nat>)
    ensures forall k :: 0 <= k < |lens| ==> 1 <= lens[k] <= 2 && lens[k] <= |r|
  {
    (if |r| >= 2 && r[0] == '1' && '0' <= r[1] <= '2' then [2] else [])
    + (if |r| >= 2 && r[0] == '0' && '1' <= r[1] <= '9' then [2] else [])
    + (if |r| >= 1 && '1' <= r[0] <= '9' then [1] else [])
  }

  /** The first alternative of the day pattern
      `3[01]|[12]\d|0[1-9]|[1-9]| [1-9]` that matches at the start of `r`:
      its length, or 0 when none does. */
  function DayMatch(r: string): (len: nat)
    ensures len <= 2 && len <= |r|
  {
    if |r| >= 2 && r[0] == '3' && '0' <= r[1] <= '1' then 2
    else if |r| >= 2 && '1' <= r[0] <= '2' && IsDigit(r[1]) then 2
    else if |r| >= 2 && r[0] == '0' && '1' <= r[1] <= '9' then 2
    else if |r| >= 1 && '1' <= r[0] <= '9' then 1
    else if |r| >= 2 && r[0] == ' ' && '1' <= r[1] <= '9' then 2
    else 0
  }

  /** The value of a one- or two-character field the patterns matched; a
      leading space (only in the day pattern) counts as nothing. */
  function FieldValue(f: string): int
    requires 1 <= |f| <= 2
    requires forall i :: 0 <= i < |f| ==> IsDigit(f[i]) || f[i] == ' '
  {
    var units := if IsDigit(f[|f| - 1]) then DigitValue(f[|f| - 1]) else 0;
    if |f| == 2 && IsDigit(f[0]) then DigitValue(f[0]) * 10 + units else units
  }

  lemma DayFieldShape(r: string)
    requires DayMatch(r) > 0
    ensures forall i :: 0 <= i < DayMatch(r) ==> IsDigit(r[i]) || r[i] == ' '
  {
  }

  /** The date the text after `yyyy-` spells, trying the month alternatives in
      order as the regular expression does (backtracking into the next one
      when the rest fails), and requiring the whole text to be consumed. */
  function MatchMonthDay(year: int, r: string, alts: seq<nat>): Option<Date>
    requires forall k :: 0 <= k < |alts| ==> 1 <= alts[k] <= 2 && alts[k] <= |r|
    requires forall k, i :: 0 <= k < |alts| && 0 <= i < alts[k] ==> IsDigit(r[i])
    decreases |alts|
  {
    if |alts| == 0 then None
    else
      var m := alts[0];
      var rest := r[m..];
      if |rest| > 0 && rest[0] == '-' && DayMatch(rest[1..]) > 0 then
        var d := DayMatch(rest[1..]);
        DayFieldShape(rest[1..]);
        if 1 + d == |rest| then
          Some(Date(year, FieldValue(r[..m]), FieldValue(rest[1..][..d])))
        else None  // the regular expression matched, but data remains
      else MatchMonthDay(year, r, alts[1..])
  }

  lemma MonthAlternativesAreDigits(r: string)
    ensures forall k, i :: 0 <= k < |MonthAlternatives(r)| && 0 <= i < MonthAlternatives(r)[k] ==> IsDigit(r[i])
  {
  }

  /** What `strptime(s, "%Y-%m-%d")` matches: four digits, `-`, a month,
      `-`, a day, and nothing after. The month and day ranges are those of the
      patterns; whether the day exists is checked apart. */
  function MatchDate(s: string): Option<Date>
  {
    if |s| < 5 || !(IsDigit(s[0]) && IsDigit(s[1]) && IsDigit(s[2]) && IsDigit(s[3])) || s[4] != '-' then None
    else
      var year := DigitValue(s[0]) * 1000 + DigitValue(s[1]) * 100 + DigitValue(s[2]) * 10 + DigitValue(s[3]);
      MatchMonthDayText(year, s[5..])
  }

  /** The month and day part, every month alternative tried in turn. */
  function MatchMonthDayText(year: int, r: string): Option<Date>
  {
    MonthAlternativesAreDigits(r);
    MatchMonthDay(year, r, MonthAlternatives(r))
  }

  /** `datetime.strptime(s, "%Y-%m-%d").date()`, or `None` where it raises:
      the text must match and name a day that exists. */
  function ParseDate(s: string): (r: Option<Date>)
    ensures r.Some? ==> IsCalendarDate(r.value)
  {
    match MatchDate(s)
    case Some(d) => if IsCalendarDate(d) then Some(d) else None
    case None => None
  }

  /** `is_valid_date(val)` */
  predicate IsValidDate(v: PyValue)
  {
    v.PyStr? && ParseDate(v.s).Some?
  }

  /** `is_valid_date_range(start, end)`: both ends are valid dates and the
      end does not come before the start. */
  predicate IsValidDateRange(start: PyValue, end: PyValue)
  {
    IsValidDate(start) && IsValidDate(end) && !Before(ParseDate(end.s).value, ParseDate(start.s).value)
  }

  /** `str(n)` padded with zeros to `width` digits (`%04d`, `%02d`). */
  function Padded(n: nat, width: nat): (s: string)
    ensures |s| == width
    ensures forall i :: 0 <= i < |s| ==> IsDigit(s[i])
  {
    if width == 0 then "" else Padded(n / 10, width - 1) + [DigitChar(n % 10)]
  }

  /** `date.strftime("%Y-%m-%d")` for a calendar date. */
  function Format(d: Date): string
    requires IsCalendarDate(d)
  {
    Padded(d.year, 4) + "-" + Padded(d.month, 2) + "-" + Padded(d.day, 2)
  }

  lemma PaddedTwo(n: nat)
    requires n < 100
    ensures Padded(n, 2) == [DigitChar(n / 10), DigitChar(n % 10)]
  {
    assert Padded(n / 10, 1) == [DigitChar(n / 10 % 10)];
  }

  function DigitChar(n: nat): (c: char)
    requires n < 10
    ensures IsDigit(c) && DigitValue(c) == n
  {
    ('0' as int + n) as char
  }

  lemma DivTen(n: nat)
    ensures n / 10 / 10 == n / 100 && n / 100 / 10 == n / 1000
    ensures n < 10000 ==> n / 1000 % 10 == n / 1000
    ensures n < 10000 ==> n == n / 1000 * 1000 + n / 100 % 10 * 100 + n / 10 % 10 * 10 + n % 10
  {
  }

  lemma PaddedFour(n: nat)
    requires n < 10000
    ensures Padded(n, 4) == [DigitChar(n / 1000), DigitChar(n / 100 % 10), DigitChar(n / 10 % 10), DigitChar(n % 10)]
  {
    DivTen(n);
    assert Padded(n / 1000, 1) == [DigitChar(n / 1000)];
    assert Padded(n / 100, 2) == Padded(n / 1000, 1) + [DigitChar(n / 100 % 10)];
    assert Padded(n / 10, 3) == Padded(n / 100, 2) + [DigitChar(n / 10 % 10)];
    assert Padded(n, 4) == Padded(n / 10, 3) + [DigitChar(n % 10)];
  }

  /** Every calendar date, written out as `YYYY-MM-DD`, is accepted and reads
      back as the same date. */
  lemma FormatReadsBack(d: Date)
    requires IsCalendarDate(d)
    ensures ParseDate(Format(d)) == Some(d)
    ensures IsValidDate(PyStr(Format(d)))
  {
    FormatChars(d);
    DivTen(d.year);
    YearField(d.year / 1000, d.year / 100 % 10, d.year / 10 % 10, d.year % 10, TwoFields(d.month, d.day));
    MonthDayReadsBack(d.year, d.month, d.day);
  }

  /** Four digits and a `-` give the year; the rest is the month and day. */
  lemma YearField(a: nat, b: nat, c: nat, e: nat, r: string)
    requires a < 10 && b < 10 && c < 10 && e < 10
    ensures MatchDate([DigitChar(a), DigitChar(b), DigitChar(c), DigitChar(e), '-'] + r)
         == MatchMonthDayText(a * 1000 + b * 100 + c * 10 + e, r)
  {
    var s := [DigitChar(a), DigitChar(b), DigitChar(c), DigitChar(e), '-'] + r;
    assert s[5..] == r;
  }

  /** `MM-DD` for a month and a day below 100. */
  function TwoFields(month: nat, day: nat): string
    requires month < 100 && day < 100
  {
    [DigitChar(month / 10), DigitChar(month % 10), '-', DigitChar(day / 10), DigitChar(day % 10)]
  }

  /** The ten characters of a formatted date. */
  lemma FormatChars(d: Date)
    requires IsCalendarDate(d)
    ensures Format(d) == [DigitChar(d.year / 1000), DigitChar(d.year / 100 % 10), DigitChar(d.year / 10 % 10),
                          DigitChar(d.year % 10), '-'] + TwoFields(d.month, d.day)
  {
    PaddedFour(d.year);
    PaddedTwo(d.month);
    PaddedTwo(d.day);
  }

  /** `MM-DD` matches the month's two-digit alternative, then the day's. */
  lemma MonthDayReadsBack(year: int, month: nat, day: nat)
    requires 1 <= month <= 12 && 1 <= day <= 31
    ensures MatchMonthDayText(year, TwoFields(month, day)) == Some(Date(year, month, day))
  {
    var r := TwoFields(month, day);
    MonthAlternativesAreDigits(r);
    var alts := MonthAlternatives(r);
    assert |alts| > 0 && alts[0] == 2;
    var rest := r[2..];
    assert rest == ['-', DigitChar(day / 10), DigitChar(day % 10)];
    var f := rest[1..];
    assert f == [DigitChar(day / 10), DigitChar(day % 10)];
    assert DayMatch(f) == 2;
    assert f[..2] == f;
    assert FieldValue(f) == day;
    assert FieldValue(r[..2]) == month;
  }

  /** The API's own test: "2025-99-99" is refused (no month 99). */
  lemma NoMonthNinetyNine()
    ensures !IsValidDate(PyStr("2025-99-99"))
  {
    var bad := "2025-99-99";
    var r := bad[5..];
    assert r[0] == '9' && r[1] == '9';
    assert MonthAlternatives(r) == [1];
    assert r[1..][0] == '9';
    assert MatchMonthDay(2025, r, [1]) == None;
  }

  /** February 29 of a leap year is accepted, as in 2024 and 2000. */
  lemma LeapDayAccepted(y: int)
    requires 1 <= y <= 9999 && IsLeapYear(y)
    ensures IsValidDate(PyStr(Format(Date(y, 2, 29))))
  {
    FormatReadsBack(Date(y, 2, 29));
  }

  lemma LeapDayExamples()
    ensures IsLeapYear(2024) && IsLeapYear(2000)
    ensures !IsValidDate(PyNone)
  {
  }

  /** February 29 is refused in 2025 and in 1900 (divisible by 100 but not
      by 400). */
  lemma NoLeapDayExamples()
    ensures !IsValidDate(PyStr("2025-02-29")) && !IsValidDate(PyStr("1900-02-29"))
  {
    var a := "2025-02-29";
    assert a[5..] == "02-29";
    NotLeapDay(a, 2025);
    var b := "1900-02-29";
    assert b[5..] == "02-29";
    NotLeapDay(b, 1900);
  }

  lemma NotLeapDay(s: string, y: int)
    requires |s| == 10 && s[4] == '-' && s[5..] == "02-29"
    requires forall i :: 0 <= i < 4 ==> IsDigit(s[i])
    requires DigitValue(s[0]) * 1000 + DigitValue(s[1]) * 100 + DigitValue(s[2]) * 10 + DigitValue(s[3]) == y
    requires !IsLeapYear(y)
    ensures !IsValidDate(PyStr(s))
  {
    var r := s[5..];
    assert MonthAlternatives(r) == [2];
    assert r[2..][1..] == "29";
    assert MatchDate(s) == Some(Date(y, 2, 29));
  }

  /** The format is lenient where `strptime` is: a one-digit month or day is
      accepted too. */
  lemma UnpaddedAccepted()
    ensures ParseDate("2025-1-5") == Some(Date(2025, 1, 5))
  {
    var s := "2025-1-5";
    var r := s[5..];
    assert r == "1-5";
    assert MonthAlternatives(r) == [1];
    assert r[1..][1..] == "5";
  }

  /** A range is valid exactly when both ends are dates and the end is not
      earlier than the start by the ordinal day count; equal ends pass and
      reversed ones fail. */
  lemma DateRangeIsChronological(start: string, end: string)
    requires ParseDate(start).Some? && ParseDate(end).Some?
    ensures IsValidDateRange(PyStr(start), PyStr(end)) <==> Ordinal(ParseDate(end).value) >= Ordinal(ParseDate(start).value)
    ensures IsValidDateRange(PyStr(start), PyStr(start))
    ensures ParseDate(start) != ParseDate(end) && IsValidDateRange(PyStr(start), PyStr(end)) ==> !IsValidDateRange(PyStr(end), PyStr(start))
  {
    OrdinalOrder(ParseDate(start).value, ParseDate(end).value);
    OrdinalOrder(ParseDate(start).value, ParseDate(start).value);
  }

  /** An invalid end makes the range invalid, whatever the other end. */
  lemma DateRangeNeedsBothEnds(start: PyValue, end: PyValue)
    ensures !IsValidDate(start) || !IsValidDate(end) ==> !IsValidDateRange(start, end)
  {
  }

  /** The API's own test: the range 2025-04-15 .. 2025-01-01 is refused,
      and the same dates the other way round are accepted. */
  lemma DateRangeExample()
    ensures !IsValidDateRange(PyStr(Format(Date(2025, 4, 15))), PyStr(Format(Date(2025, 1, 1))))
    ensures IsValidDateRange(PyStr(Format(Date(2025, 1, 1))), PyStr(Format(Date(2025, 4, 15))))
  {
    FormatReadsBack(Date(2025, 4, 15));
    FormatReadsBack(Date(2025, 1, 1));
  }
}

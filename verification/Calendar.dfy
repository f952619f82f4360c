/** `cal` and its weekday arithmetic (src/cmds.c:740-773). */
module Calendar {
  import opened Arithmetic
  import opened Strings

  /** zeller, for years from 1 on. */
  function Zeller(year: nat, month: nat, d: nat): nat
    requires year >= 1 && 1 <= month <= 12
  {
    if month < 3 then Weekday(ZellerSum(year - 1, month + 12, d))
    else Weekday(ZellerSum(year, month, d))
  }

  function Weekday(sum: nat): nat {
    (sum % 7 + 6) % 7
  }

  function ZellerSum(y: nat, m: nat, d: nat): nat {
    d + MonthPart(m) + YearPart(y % 100, y / 100)
  }

  function YearPart(k: nat, j: nat): nat {
    k + k / 4 + j / 4 + 5 * j
  }

  predicate IsLeap(year: int) {
    (year % 4 == 0 && year % 100 != 0) || year % 400 == 0
  }

  const MONTH_LENGTHS := [31, 28, 31, 30, 31, 30, 31, 31, 30, 31, 30, 31]

  function DaysInMonth(year: int, month: nat): nat
    requires 1 <= month <= 12
  {
    if month == 2 && IsLeap(year) then 29 else MONTH_LENGTHS[month - 1]
  }

  function NextMonth(year: nat, month: nat): (next: (nat, nat))
    requires 1 <= month <= 12
    ensures 1 <= next.1 <= 12
  {
    if month == 12 then (year + 1, 1) else (year, month + 1)
  }

  /** The lengths of the months, by the Gregorian rule for February. */
  lemma DaysOfMonth(year: int, month: nat)
    requires 1 <= month <= 12
    ensures month in {1, 3, 5, 7, 8, 10, 12} ==> DaysInMonth(year, month) == 31
    ensures month in {4, 6, 9, 11} ==> DaysInMonth(year, month) == 30
    ensures month == 2 ==>
      DaysInMonth(year, month) == if year % 400 == 0 || (year % 4 == 0 && year % 100 != 0) then 29 else 28
  {
  }

  function DaysUpTo(year: int, month: nat): nat
    requires 1 <= month <= 13
  {
    if month == 1 then 0 else DaysUpTo(year, month - 1) + DaysInMonth(year, month - 1)
  }

  /** Twelve months make a year. */
  lemma YearLength(year: int)
    ensures DaysUpTo(year, 13) == if year % 400 == 0 || (year % 4 == 0 && year % 100 != 0) then 366 else 365
  {
    assert DaysUpTo(year, 1) == 0 && DaysUpTo(year, 2) == 31;
    assert DaysUpTo(year, 3) == 31 + DaysInMonth(year, 2);
    assert DaysUpTo(year, 5) == DaysUpTo(year, 3) + 61;
    assert DaysUpTo(year, 7) == DaysUpTo(year, 5) + 61;
    assert DaysUpTo(year, 9) == DaysUpTo(year, 7) + 62;
    assert DaysUpTo(year, 11) == DaysUpTo(year, 9) + 61;
    assert DaysUpTo(year, 13) == DaysUpTo(year, 11) + 61;
  }

  // ----- the formula against counting days

  lemma SplitYear(y: nat, k: nat, j: nat)
    requires k < 100 && y == 100 * j + k
    ensures y % 100 == k && y / 100 == j
    ensures IsLeap(y) <==> if k == 0 then j % 4 == 0 else k % 4 == 0
  {
    var q, r := j / 4, j % 4;
    DivModUnique(y, 100, j, k);
    DivModUnique(y, 400, q, 100 * r + k);
    DivModUnique(y, 4, 25 * j + k / 4, k % 4);
  }

  /** One year later in the March-based count: one day more, or two in a leap year,
      up to whole weeks. */
  lemma YearStep(y: nat)
    ensures
      YearPart((y + 1) % 100, (y + 1) / 100) + (if y % 100 == 99 then 119 else 0)
      == YearPart(y % 100, y / 100) + (if IsLeap(y + 1) then 2 else 1)
  {
    var k, j := y % 100, y / 100;
    if k == 99 {
      SplitYear(y + 1, 0, j + 1);
    } else {
      SplitYear(y + 1, k + 1, j);
    }
  }

  lemma WholeWeeks(a: nat, b: nat, weeks: nat)
    requires a + 7 * weeks == b
    ensures Weekday(a) == Weekday(b)
  {
    Mod7(b, a / 7 + weeks, a % 7);
  }

  lemma FirstOfMarch(year: nat)
    requires year >= 1
    ensures Zeller(year, 3, 1) == (Zeller(year, 2, 1) + DaysInMonth(year, 2)) % 7
  {
    hide YearPart, MonthPart, Weekday, IsLeap;
    YearStep(year - 1);
    MarchSums(year - 1, YearPart((year - 1) % 100, (year - 1) / 100), YearPart(year % 100, year / 100));
  }

  lemma MarchSums(y: nat, before: nat, after: nat)
    requires after + (if y % 100 == 99 then 119 else 0) == before + (if IsLeap(y + 1) then 2 else 1)
    ensures Weekday(1 + MonthPart(3) + after)
      == (Weekday(1 + MonthPart(14) + before) + (if IsLeap(y + 1) then 29 else 28)) % 7
  {
    MarchAndFebruaryParts();
    MarchFromFebruary(before, after, if y % 100 == 99 then 17 else 0, IsLeap(y + 1));
  }

  lemma FirstInSameYear(year: nat, month: nat)
    requires year >= 1 && 1 <= month <= 12 && month != 2
    ensures
      var next := NextMonth(year, month);
      Zeller(next.0, next.1, 1) == (Zeller(year, month, 1) + MONTH_LENGTHS[month - 1]) % 7
  {
    hide YearPart, MonthPart, Weekday, IsLeap;
    var y := if month < 3 then year - 1 else year;
    SameYearPart(month, YearPart(y % 100, y / 100));
  }

  lemma FirstOfNextMonth(year: nat, month: nat)
    requires year >= 1 && 1 <= month <= 12
    ensures
      var next := NextMonth(year, month);
      Zeller(next.0, next.1, 1) == (Zeller(year, month, 1) + DaysInMonth(year, month)) % 7
  {
    if month == 2 {
      FirstOfMarch(year);
    } else {
      FirstInSameYear(year, month);
    }
  }

  lemma MarchFromFebruary(before: nat, after: nat, weeks: nat, leap: bool)
    requires after + 7 * weeks == before + (if leap then 2 else 1)
    ensures Weekday(11 + after) == (Weekday(40 + before) + (if leap then 29 else 28)) % 7
  {
    var days := if leap then 29 else 28;
    ShiftWeekday(40 + before, days);
    WholeWeeks(11 + after, 40 + before + days, 8 + weeks);
  }

  function MonthPart(m: nat): nat {
    13 * (m + 1) / 5
  }

  /** The eleven steps inside a March-based year. */
  lemma SameYearPart(month: nat, part: nat)
    requires 1 <= month <= 12 && month != 2
    ensures
      var m := if month < 3 then month + 12 else month;
      var next := if month == 12 then 13 else m + 1;
      Weekday(1 + MonthPart(next) + part) == (Weekday(1 + MonthPart(m) + part) + MONTH_LENGTHS[month - 1]) % 7
  {
    var m := if month < 3 then month + 12 else month;
    var next := if month == 12 then 13 else m + 1;
    MonthLengths(month);
    ShiftWeekday(1 + MonthPart(m) + part, MONTH_LENGTHS[month - 1]);
    assert 1 + MonthPart(m) + part + MONTH_LENGTHS[month - 1] == 1 + MonthPart(next) + part + 28;
    WholeWeeks(1 + MonthPart(next) + part, 1 + MonthPart(next) + part + 28, 4);
  }

  lemma MarchAndFebruaryParts()
    ensures MonthPart(3) == 10 && MonthPart(14) == 39
  {
  }

  lemma MonthLengths(month: nat)
    requires 1 <= month <= 12 && month != 2
    ensures
      var m := if month < 3 then month + 12 else month;
      var next := if month == 12 then 13 else m + 1;
      MonthPart(m) + MONTH_LENGTHS[month - 1] == MonthPart(next) + 28
  {
  }

  lemma Mod7(x: nat, q: nat, r: nat)
    requires x == 7 * q + r && r < 7
    ensures x % 7 == r
  {
  }

  lemma Mod7Add(a: nat, b: nat)
    ensures (a + b) % 7 == (a % 7 + b) % 7
  {
    var r := a % 7 + b;
    Mod7(a + b, a / 7 + r / 7, r % 7);
  }

  lemma ShiftWeekday(sum: nat, days: nat)
    ensures Weekday(sum + days) == (Weekday(sum) + days) % 7
  {
    var s := sum % 7;
    Mod7Add(sum, days);
    Mod7Add(s + days, 6);
    Mod7Add(s + 6, days);
  }

  /** Days from 1 January of year 1 to the last day before the month. */
  function DaysBefore(year: nat, month: nat): nat
    requires year >= 1 && 1 <= month <= 12
    decreases year, month
  {
    if month > 1 then DaysBefore(year, month - 1) + DaysInMonth(year, month - 1)
    else if year > 1 then DaysBefore(year - 1, 12) + DaysInMonth(year - 1, 12)
    else 0
  }

  /** `weekday` moves on by one from day to day and by the length of a month from one
      first to the next. */
  ghost predicate Advances(weekday: (nat, nat, nat) -> nat, y: nat, m: nat, d: nat) {
    y >= 1 && 1 <= m <= 12 && d >= 1 ==>
      && weekday(NextMonth(y, m).0, NextMonth(y, m).1, 1) == (weekday(y, m, 1) + DaysInMonth(y, m)) % 7
      && weekday(y, m, d + 1) == (weekday(y, m, d) + 1) % 7
  }

  lemma AddDays(weekday: nat, count: nat, days: nat)
    requires weekday == count % 7
    ensures (weekday + days) % 7 == (count + days) % 7
  {
    Mod7Add(count, days);
  }

  /** Whatever starts on Monday, 1 January of year 1 and advances day by day gives the
      weekday by counting days (Sunday is 0). */
  lemma {:induction false} DayByDay(weekday: (nat, nat, nat) -> nat, year: nat, month: nat, d: nat)
    requires year >= 1 && 1 <= month <= 12 && d >= 1
    requires weekday(1, 1, 1) == 1
    requires forall y: nat, m: nat, e: nat :: Advances(weekday, y, m, e)
    ensures weekday(year, month, d) == (DaysBefore(year, month) + d) % 7
    decreases year, month, d
  {
    hide IsLeap, DaysInMonth;
    if d > 1 {
      var w := weekday(year, month, d - 1);
      DayByDay(weekday, year, month, d - 1);
      assert Advances(weekday, year, month, d - 1);
      assert weekday(year, month, d) == (w + 1) % 7;
      AddDays(w, DaysBefore(year, month) + (d - 1), 1);
    } else if month > 1 || year > 1 {
      var y, m := if month > 1 then year else year - 1, if month > 1 then month - 1 else 12;
      DayByDay(weekday, y, m, 1);
      assert Advances(weekday, y, m, 1) && NextMonth(y, m) == (year, month);
      AddDays(weekday(y, m, 1), DaysBefore(y, m) + 1, DaysInMonth(y, m));
    }
  }

  /** Zeller's formula, and 0 where there is no such month. */
  function ZellerOrZero(): (nat, nat, nat) -> nat {
    (y: nat, m: nat, d: nat) => if y >= 1 && 1 <= m <= 12 then Zeller(y, m, d) else 0
  }

  lemma NextDay(year: nat, month: nat, d: nat)
    requires year >= 1 && 1 <= month <= 12
    ensures Zeller(year, month, d + 1) == (Zeller(year, month, d) + 1) % 7
  {
    hide YearPart, MonthPart, Weekday;
    ShiftWeekday(ZellerSum(if month < 3 then year - 1 else year, if month < 3 then month + 12 else month, d), 1);
  }

  lemma ZellerAt(weekday: (nat, nat, nat) -> nat, y: nat, m: nat, d: nat, h: nat)
    requires weekday == ZellerOrZero() && y >= 1 && 1 <= m <= 12 && h == Zeller(y, m, d)
    ensures weekday(y, m, d) == h
  {
  }

  lemma ZellerNextMonth(weekday: (nat, nat, nat) -> nat, y: nat, m: nat, year: nat, month: nat, days: nat)
    requires weekday == ZellerOrZero() && y >= 1 && 1 <= m <= 12
    requires (year, month) == NextMonth(y, m) && days == DaysInMonth(y, m)
    ensures weekday(year, month, 1) == (weekday(y, m, 1) + days) % 7
  {
    FirstOfNextMonth(y, m);
    ZellerAt(weekday, y, m, 1, Zeller(y, m, 1));
    ZellerAt(weekday, year, month, 1, Zeller(year, month, 1));
  }

  lemma ZellerNextDay(weekday: (nat, nat, nat) -> nat, y: nat, m: nat, d: nat)
    requires weekday == ZellerOrZero() && y >= 1 && 1 <= m <= 12
    ensures weekday(y, m, d + 1) == (weekday(y, m, d) + 1) % 7
  {
    NextDay(y, m, d);
    ZellerAt(weekday, y, m, d, Zeller(y, m, d));
    ZellerAt(weekday, y, m, d + 1, Zeller(y, m, d + 1));
  }

  lemma ZellerAdvances(weekday: (nat, nat, nat) -> nat, y: nat, m: nat, d: nat)
    requires weekday == ZellerOrZero()
    ensures Advances(weekday, y, m, d)
  {
    if y >= 1 && 1 <= m <= 12 {
      var next := NextMonth(y, m);
      ZellerNextMonth(weekday, y, m, next.0, next.1, DaysInMonth(y, m));
      ZellerNextDay(weekday, y, m, d);
    }
  }

  lemma ZellerStartsOnMonday()
    ensures ZellerOrZero()(1, 1, 1) == 1
  {
    YearZeroSum();
    MondaySum();
  }

  lemma YearZeroSum()
    ensures ZellerSum(0, 13, 1) == 37
  {
  }

  lemma MondaySum()
    ensures Weekday(37) == 1
  {
  }

  lemma ZellerCountsDays(year: nat, month: nat, d: nat)
    requires year >= 1 && 1 <= month <= 12 && d >= 1
    ensures Zeller(year, month, d) == (DaysBefore(year, month) + d) % 7
  {
    var weekday := ZellerOrZero();
    ZellerStartsOnMonday();
    forall y: nat, m: nat, e: nat
      ensures Advances(weekday, y, m, e)
    {
      ZellerAdvances(weekday, y, m, e);
    }
    DayByDay(weekday, year, month, d);
    ZellerAt(weekday, year, month, d, Zeller(year, month, d));
  }

  lemma WeekdayInMonth(year: nat, month: nat, d: nat)
    requires year >= 1 && 1 <= month <= 12 && d >= 1
    ensures Zeller(year, month, d) == (Zeller(year, month, 1) + d - 1) % 7
  {
    var m, y := if month < 3 then month + 12 else month, if month < 3 then year - 1 else year;
    ShiftSum(y, m, d);
  }

  lemma ShiftSum(y: nat, m: nat, d: nat)
    requires d >= 1
    ensures Weekday(ZellerSum(y, m, d)) == (Weekday(ZellerSum(y, m, 1)) + d - 1) % 7
  {
    hide YearPart, MonthPart, Weekday;
    ShiftWeekday(ZellerSum(y, m, 1), d - 1);
  }

  /** The calendar repeats every 400 years. */
  lemma Cycle(year: nat, month: nat, d: nat)
    requires year >= 1 && 1 <= month <= 12
    ensures Zeller(year + 400, month, d) == Zeller(year, month, d)
    ensures DaysInMonth(year + 400, month) == DaysInMonth(year, month)
  {
    var y := if month < 3 then year - 1 else year;
    var k, j := y % 100, y / 100;
    SplitYear(y + 400, k, j + 4);
    assert YearPart(k, j + 4) == YearPart(k, j) + 21;
    WholeWeeks(ZellerSum(y, if month < 3 then month + 12 else month, d),
               ZellerSum(y + 400, if month < 3 then month + 12 else month, d), 3);
    SplitYear(year, year % 100, year / 100);
    SplitYear(year + 400, year % 100, year / 100 + 4);
  }

  // ----- the printed month

  const MONTH_NAMES := ["January", "February", "March", "April", "May", "June", "July",
                        "August", "September", "October", "November", "December"]

  /** "%u" of an int */
  function Unsigned(n: int): nat
    requires n >= -0x8000_0000
  {
    if n < 0 then n + 0x1_0000_0000 else n
  }

  function Header(year: int, month: nat): string
    requires 1 <= month <= 12 && year >= -0x8000_0000
  {
    "    " + MONTH_NAMES[month - 1] + " " + Digits(Unsigned(year)) + "\n" + "Su Mo Tu We Th Fr Sa\n"
  }

  /** "%2d " */
  function DayText(d: nat): (text: string)
    requires 1 <= d <= 31
    ensures |text| == 3 && '\n' !in text
  {
    if d < 10 then [' ', DigitChar(d), ' '] else [DigitChar(d / 10), DigitChar(d % 10), ' ']
  }

  /** The decimal number of the day, right in two columns, and a blank. */
  lemma DayDigits(d: nat)
    requires 1 <= d <= 31
    ensures DayText(d) == (if d < 10 then " " else "") + Digits(d) + " "
    ensures NumberOf(Digits(d)) == d
  {
    DigitsGiveNumber(d);
    DigitsSplit(d);
    DigitsSplit(d / 10);
  }

  /** How far the end of a text is from the start of its last line. */
  function Column(text: string): nat {
    if text == "" || text[|text| - 1] == '\n' then 0
    else 1 + Column(text[..|text| - 1])
  }

  /** The number of lines ended before the end of a text. */
  function Row(text: string): nat {
    if text == "" then 0
    else Row(text[..|text| - 1]) + if text[|text| - 1] == '\n' then 1 else 0
  }

  lemma {:induction false} AppendPlain(text: string, more: string)
    requires '\n' !in more
    ensures Column(text + more) == Column(text) + |more| && Row(text + more) == Row(text)
  {
    if more == "" {
      assert text + more == text;
    } else {
      var n := |more| - 1;
      assert (text + more)[..|text + more| - 1] == text + more[..n];
      assert more[n] in more;
      AppendPlain(text, more[..n]);
    }
  }

  lemma AppendNewline(text: string)
    ensures Column(text + "\n") == 0 && Row(text + "\n") == Row(text) + 1
  {
    assert (text + "\n")[..|text + "\n"| - 1] == text;
  }

  /** Where day d starts after the header, when the first day is in column `first`. */
  function Offset(first: nat, d: nat): nat
    requires d >= 1
  {
    3 * (first + d - 1) + (first + d - 1) / 7
  }

  ghost predicate DayIsAt(out: string, d: nat, position: nat, row: nat, column: nat)
    requires 1 <= d <= 31
  {
    && position + 3 <= |out|
    && out[position..position + 3] == DayText(d)
    && Row(out[..position]) == row
    && Column(out[..position]) == column
  }

  lemma StillAt(out: string, more: string, d: nat, position: nat, row: nat, column: nat)
    requires 1 <= d <= 31 && DayIsAt(out, d, position, row, column)
    ensures DayIsAt(out + more, d, position, row, column)
  {
    assert (out + more)[..position] == out[..position];
    assert (out + more)[position..position + 3] == out[position..position + 3];
  }

  ghost predicate DaysPrinted(out: string, base: nat, row: nat, first: nat, days: nat)
    requires days <= 31
  {
    forall d :: 1 <= d <= days ==>
      DayIsAt(out, d, base + Offset(first, d), row + (first + d - 1) / 7, 3 * ((first + d - 1) % 7))
  }

  lemma KeepDays(out: string, more: string, base: nat, row: nat, first: nat, days: nat)
    requires days <= 31 && DaysPrinted(out, base, row, first, days)
    ensures DaysPrinted(out + more, base, row, first, days)
  {
    forall d | 1 <= d <= days
      ensures DayIsAt(out + more, d, base + Offset(first, d), row + (first + d - 1) / 7, 3 * ((first + d - 1) % 7))
    {
      StillAt(out, more, d, base + Offset(first, d), row + (first + d - 1) / 7, 3 * ((first + d - 1) % 7));
    }
  }

  /** The header, three characters for every skipped or printed day, and the newlines. */
  function MonthLength(header: string, first: nat, dim: nat): nat {
    |header| + 3 * (first + dim) + (first + dim + 6) / 7
  }

  /** Blanks for the days before the first. */
  method SkipDays(header: string, first: nat) returns (out: string)
    requires Column(header) == 0
    ensures header <= out && |out| == |header| + 3 * first
    ensures Column(out) == 3 * first && Row(out) == Row(header)
  {
    out := header;
    for i := 0 to first
      invariant header <= out
      invariant |out| == |header| + 3 * i && Column(out) == 3 * i && Row(out) == Row(header)
    {
      AppendPlain(out, "   ");
      out := out + "   ";
    }
  }

  /** The body of src/cmds.c:762-771, for a month of `dim` days whose first is in
      column `first`. */
  method PrintMonth(header: string, first: nat, dim: nat) returns (out: string)
    requires first < 7 && dim <= 31 && Column(header) == 0
    ensures DaysPrinted(out, |header|, Row(header), first, dim)
    ensures header <= out && |out| == MonthLength(header, first, dim)
  {
    out := SkipDays(header, first);
    for d := 1 to dim + 1
      invariant header <= out
      invariant |out| == |header| + Offset(first, d)
      invariant Row(out) == Row(header) + (first + d - 1) / 7 && Column(out) == 3 * ((first + d - 1) % 7)
      invariant DaysPrinted(out, |header|, Row(header), first, d - 1)
    {
      out := PrintDay(out, |header|, Row(header), first, d);
    }
    if (first + dim) % 7 != 0 {
      KeepDays(out, "\n", |header|, Row(header), first, dim);
      out := out + "\n";
    }
  }

  lemma WeekStep(n: nat)
    requires n >= 1
    ensures if n % 7 == 0 then (n - 1) % 7 == 6 && n / 7 == (n - 1) / 7 + 1
            else n % 7 == (n - 1) % 7 + 1 && n / 7 == (n - 1) / 7
  {
  }

  /** Adding a day keeps the earlier ones. */
  lemma OneMoreDay(before: string, base: nat, row: nat, first: nat, d: nat)
    requires 1 <= d <= 31
    requires |before| == base + Offset(first, d)
    requires Row(before) == row + (first + d - 1) / 7 && Column(before) == 3 * ((first + d - 1) % 7)
    requires DaysPrinted(before, base, row, first, d - 1)
    ensures DaysPrinted(before + DayText(d), base, row, first, d)
  {
    KeepDays(before, DayText(d), base, row, first, d - 1);
    NewDayAt(before, DayText(d), d);
  }

  lemma Pieces(before: string, text: string)
    ensures (before + text)[..|before|] == before
    ensures (before + text)[|before|..|before| + |text|] == text
  {
  }

  lemma NewDayAt(before: string, text: string, d: nat)
    requires 1 <= d <= 31 && text == DayText(d)
    ensures DayIsAt(before + text, d, |before|, Row(before), Column(before))
  {
    Pieces(before, text);
  }

  method PrintDay(before: string, base: nat, row: nat, first: nat, d: nat) returns (out: string)
    requires 1 <= d <= 31
    requires |before| == base + Offset(first, d)
    requires Row(before) == row + (first + d - 1) / 7 && Column(before) == 3 * ((first + d - 1) % 7)
    requires DaysPrinted(before, base, row, first, d - 1)
    ensures before <= out && |out| == base + Offset(first, d + 1)
    ensures Row(out) == row + (first + d) / 7 && Column(out) == 3 * ((first + d) % 7)
    ensures DaysPrinted(out, base, row, first, d)
  {
    var text := DayText(d);
    out := before + text;
    AppendPlain(before, text);
    OneMoreDay(before, base, row, first, d);
    WeekStep(first + d);
    if (first + d) % 7 == 0 {
      AppendNewline(out);
      KeepDays(out, "\n", base, row, first, d);
      out := out + "\n";
    }
  }

  lemma HeaderEndsLine(year: int, month: nat)
    requires 1 <= month <= 12 && year >= -0x8000_0000
    ensures Column(Header(year, month)) == 0
  {
    var text := "    " + MONTH_NAMES[month - 1] + " " + Digits(Unsigned(year)) + "\n";
    AppendNewline(text + "Su Mo Tu We Th Fr Sa");
    assert Header(year, month) == text + "Su Mo Tu We Th Fr Sa" + "\n";
  }

  /** Every day of the month is printed in the three columns of its weekday, one week
      a line. */
  ghost predicate MonthPrinted(out: string, header: string, dim: nat, weekday: nat -> nat)
    requires dim <= 31
  {
    && header <= out
    && forall d :: 1 <= d <= dim ==>
      DayIsAt(out, d, |header| + Offset(weekday(1), d), Row(header) + (weekday(1) + d - 1) / 7, 3 * weekday(d))
  }

  lemma InWeekdayColumns(out: string, header: string, dim: nat, weekday: nat -> nat)
    requires dim <= 31 && header <= out
    requires DaysPrinted(out, |header|, Row(header), weekday(1), dim)
    requires forall d: nat :: d >= 1 ==> weekday(d) == (weekday(1) + d - 1) % 7
    ensures MonthPrinted(out, header, dim, weekday)
  {
    forall d: nat | 1 <= d <= dim
      ensures DayIsAt(out, d, |header| + Offset(weekday(1), d), Row(header) + (weekday(1) + d - 1) / 7, 3 * weekday(d))
    {
      assert 3 * weekday(d) == 3 * ((weekday(1) + d - 1) % 7);
    }
  }

  // ----- every year that fits an int

  /** The quotient and the remainder of C, towards zero. */
  function Quotient(a: int, b: nat): int
    requires b > 0
  {
    if a >= 0 then a / b else -((-a) / b)
  }

  function Remainder(a: int, b: nat): int
    requires b > 0
  {
    a - b * Quotient(a, b)
  }

  function CenturyPart(y: int): int {
    var k, j := Remainder(y, 100), Quotient(y, 100);
    k + Quotient(k, 4) + Quotient(j, 4) + 5 * j
  }

  function WeekdayOfSum(sum: int): int {
    Remainder(Remainder(sum, 7) + 6, 7)
  }

  /** zeller, for any year. */
  function AnyZeller(year: int, month: nat, d: nat): int
    requires 1 <= month <= 12
  {
    var y, m := if month < 3 then year - 1 else year, if month < 3 then month + 12 else month;
    WeekdayOfSum(d + MonthPart(m) + CenturyPart(y))
  }

  lemma AnyZellerIsZeller(year: nat, month: nat, d: nat)
    requires year >= 1 && 1 <= month <= 12
    ensures AnyZeller(year, month, d) == Zeller(year, month, d)
  {
    hide YearPart, CenturyPart, MonthPart, Weekday, WeekdayOfSum;
    var y: nat := if month < 3 then year - 1 else year;
    SplitSum(y);
    WeekdayOfNat(d + MonthPart(if month < 3 then month + 12 else month) + YearPart(y % 100, y / 100));
  }

  lemma SplitSum(y: nat)
    ensures CenturyPart(y) == YearPart(y % 100, y / 100)
  {
  }

  lemma WeekdayOfNat(sum: nat)
    ensures WeekdayOfSum(sum) == Weekday(sum)
  {
  }

  /** The remainder may be negative, but 6 more makes up for it. */
  lemma WeekdayOfAny(sum: int)
    ensures 0 <= WeekdayOfSum(sum) < 7 && WeekdayOfSum(sum) == (sum + 6) % 7
  {
    if sum < 0 {
      var q, r := (-sum) / 7, (-sum) % 7;
      assert -sum == 7 * q + r && Remainder(sum, 7) == -r;
      assert sum + 6 == -7 * q + (6 - r);
      assert (sum + 6) % 7 == 6 - r;
    }
  }

  lemma AnyWeekdayInMonth(year: int, month: nat, d: nat)
    requires 1 <= month <= 12 && d >= 1
    ensures 0 <= AnyZeller(year, month, d) < 7
    ensures AnyZeller(year, month, d) == (AnyZeller(year, month, 1) + d - 1) % 7
  {
    var y, m := if month < 3 then year - 1 else year, if month < 3 then month + 12 else month;
    hide CenturyPart, MonthPart, WeekdayOfSum;
    var first := 1 + MonthPart(m) + CenturyPart(y);
    WeekdayOfAny(first);
    WeekdayOfAny(first + (d - 1));
    Euclid7(first + 6, d - 1);
  }

  lemma Euclid7(a: int, b: int)
    ensures (a + b) % 7 == (a % 7 + b) % 7
  {
  }

  /** The weekdays of a month by zeller. */
  function WeekdaysOf(year: int, month: nat): nat -> nat
    requires 1 <= month <= 12
  {
    (d: nat) => if d >= 1 then AnyWeekday(year, month, d) else 0
  }

  function AnyWeekday(year: int, month: nat, d: nat): (weekday: nat)
    requires 1 <= month <= 12 && d >= 1
    ensures weekday < 7
  {
    AnyWeekdayInMonth(year, month, d);
    AnyZeller(year, month, d)
  }

  lemma WeekdaysAdvance(weekday: nat -> nat, year: int, month: nat)
    requires 1 <= month <= 12 && weekday == WeekdaysOf(year, month)
    ensures weekday(1) == AnyZeller(year, month, 1) && 0 <= weekday(1) < 7
    ensures forall d: nat :: d >= 1 ==> weekday(d) == (weekday(1) + d - 1) % 7
  {
    hide AnyZeller, WeekdayOfSum;
    AnyWeekdayInMonth(year, month, 1);
    forall d: nat | d >= 1
      ensures weekday(d) == (weekday(1) + d - 1) % 7
    {
      AnyWeekdayInMonth(year, month, d);
    }
  }

  /** `cal [month [year]]`: the arguments as atoi read them, and the clock. A month out
      of range falls back to the current one. */
  method CmdCal(argMonth: int, hasMonth: bool, argYear: int, hasYear: bool, nowMonth: nat, nowYear: int)
    returns (out: string)
    requires 1 <= nowMonth <= 12 && (hasYear ==> hasMonth)
    requires argYear > -0x8000_0000 && nowYear > -0x8000_0000
    ensures
      var month := if hasMonth && 1 <= argMonth <= 12 then argMonth else nowMonth;
      var year := if hasYear then argYear else nowYear;
      && MonthPrinted(out, Header(year, month), DaysInMonth(year, month), WeekdaysOf(year, month))
      && |out| == MonthLength(Header(year, month), WeekdaysOf(year, month)(1), DaysInMonth(year, month))
  {
    var month: int, year := nowMonth, nowYear;
    if hasYear {
      month, year := argMonth, argYear;
    } else if hasMonth {
      month := argMonth;
    }
    if month < 1 || month > 12 {
      month := nowMonth;
    }
    out := PrintYearMonth(year, month);
  }

  method PrintYearMonth(year: int, month: nat) returns (out: string)
    requires year > -0x8000_0000 && 1 <= month <= 12
    ensures MonthPrinted(out, Header(year, month), DaysInMonth(year, month), WeekdaysOf(year, month))
    ensures |out| == MonthLength(Header(year, month), WeekdaysOf(year, month)(1), DaysInMonth(year, month))
  {
    ghost var weekday := WeekdaysOf(year, month);
    WeekdaysAdvance(weekday, year, month);
    HeaderEndsLine(year, month);
    var first := AnyZeller(year, month, 1);
    var header, dim := Header(year, month), DaysInMonth(year, month);
    out := PrintMonth(header, first, dim);
    InWeekdayColumns(out, header, dim, weekday);
  }
}

/**
 * Local calendar dates as JavaScript's `Date` sees them at day granularity: a date is a
 * (year, month, day) triple of the proleptic Gregorian calendar, `DayNumber` counts days
 * from 1 January of year 1, `Next` is `setDate(getDate() + 1)`, and `WeekdayOf` is
 * `getDay()`. Also the two textual forms the application prints and reads:
 * `DD/MM/YYYY` and ISO `YYYY-MM-DD`.
 */
module Calendar {
  import opened Wrappers
  import opened Text

  datatype Date = Date(year: int, month: int, day: int)

  predicate IsLeapYear(y: int) {
    y % 4 == 0 && (y % 100 != 0 || y % 400 == 0)
  }

  function DaysInMonth(y: int, m: int): int
    requires 1 <= m <= 12
  {
    if m == 2 then (if IsLeapYear(y) then 29 else 28)
    else if m == 4 || m == 6 || m == 9 || m == 11 then 30
    else 31
  }

  function DaysInYear(y: int): int {
    if IsLeapYear(y) then 366 else 365
  }

  /** A real calendar date from year 1 on. */
  predicate ValidDate(d: Date) {
    d.year >= 1 && 1 <= d.month <= 12 && 1 <= d.day <= DaysInMonth(d.year, d.month)
  }

  /** The number of days of year `y` before the first of month `m`. */
  function DaysBeforeMonth(y: int, m: int): int
    requires 1 <= m <= 12
  {
    var common :=
      if m == 1 then 0 else if m == 2 then 31 else if m == 3 then 59
      else if m == 4 then 90 else if m == 5 then 120 else if m == 6 then 151
      else if m == 7 then 181 else if m == 8 then 212 else if m == 9 then 243
      else if m == 10 then 273 else if m == 11 then 304 else 334;
    common + (if m > 2 && IsLeapYear(y) then 1 else 0)
  }

  /** Each month starts where the previous one ends, and December ends the year. */
  lemma MonthStep(y: int, m: int)
    requires 1 <= m <= 12
    ensures m < 12 ==> DaysBeforeMonth(y, m + 1) == DaysBeforeMonth(y, m) + DaysInMonth(y, m)
    ensures m == 12 ==> DaysBeforeMonth(y, m) + DaysInMonth(y, m) == DaysInYear(y)
  {
  }

  /** Later months start later, and every month ends within the year. */
  lemma MonthBounds(y: int, m: int, m': int)
    requires 1 <= m < m' <= 12
    ensures DaysBeforeMonth(y, m) + DaysInMonth(y, m) <= DaysBeforeMonth(y, m')
    ensures DaysBeforeMonth(y, m') + DaysInMonth(y, m') <= DaysInYear(y)
  {
  }

  /** The number of days before 1 January of year `y`, counted from 1 January of year 1. */
  function DaysBeforeYear(y: int): int
    requires y >= 1
  {
    var p := y - 1;
    365 * p + p / 4 - p / 100 + p / 400
  }

  /** One more multiple of `k` is passed exactly when `p + 1` is a multiple of `k`. */
  lemma DivStep(p: nat, k: int)
    requires k == 4 || k == 100 || k == 400
    ensures (p + 1) / k == p / k + (if (p + 1) % k == 0 then 1 else 0)
  {
    var q, r := p / k, p % k;
    assert p == q * k + r && 0 <= r < k;
    if r + 1 < k {
      assert p + 1 == q * k + (r + 1);
    } else {
      assert p + 1 == (q + 1) * k + 0;
    }
  }

  /** Consecutive years are `DaysInYear` apart. */
  lemma YearStep(y: int)
    requires y >= 1
    ensures DaysBeforeYear(y + 1) == DaysBeforeYear(y) + DaysInYear(y)
  {
    var p := y - 1;
    DivStep(p, 4);
    DivStep(p, 100);
    DivStep(p, 400);
    LeapDivisibility(y);
    var leap := (if y % 4 == 0 then 1 else 0) - (if y % 100 == 0 then 1 else 0) + (if y % 400 == 0 then 1 else 0);
    assert DaysInYear(y) == 365 + leap;
    assert DaysBeforeYear(y) == 365 * p + p / 4 - p / 100 + p / 400;
    assert DaysBeforeYear(y + 1) == 365 * y + y / 4 - y / 100 + y / 400;
  }

  /** A multiple of 400 is a multiple of 100, and a multiple of 100 a multiple of 4. */
  lemma LeapDivisibility(y: int)
    ensures y % 400 == 0 ==> y % 100 == 0
    ensures y % 100 == 0 ==> y % 4 == 0
  {
    if y % 400 == 0 {
      DivModUnique(y, 100, 4 * (y / 400), 0);
    }
    if y % 100 == 0 {
      DivModUnique(y, 4, 25 * (y / 100), 0);
    }
  }

  /** Quotient and remainder are the only such pair. */
  lemma DivModUnique(a: int, m: int, q: int, r: int)
    requires m > 0 && 0 <= r < m && a == q * m + r
    ensures a / m == q && a % m == r
  {
    var q', r' := a / m, a % m;
    assert a == q' * m + r';
    assert (q' - q) * m == r - r';
    MulBetween(q' - q, m);
  }

  lemma {:induction false} MulAtLeast(d: int, m: int)
    requires d >= 1 && m > 0
    ensures d * m >= m
    decreases d
  {
    if d > 1 {
      MulAtLeast(d - 1, m);
      assert d * m == (d - 1) * m + m;
    }
  }

  lemma MulBetween(d: int, m: int)
    requires m > 0 && -m < d * m < m
    ensures d == 0
  {
    if d > 0 {
      MulAtLeast(d, m);
    } else if d < 0 {
      MulAtLeast(-d, m);
    }
  }

  /** A later year starts after the whole of an earlier one. */
  lemma {:induction false} YearsAscend(y: int, y': int)
    requires 1 <= y < y'
    ensures DaysBeforeYear(y) + DaysInYear(y) <= DaysBeforeYear(y')
    decreases y' - y
  {
    YearStep(y);
    if y + 1 < y' {
      YearsAscend(y + 1, y');
    }
  }

  /** The day count of a date: days elapsed since 1 January of year 1. JavaScript compares
      dates (`<=`, `-`) by their time value, which orders local dates the same way. */
  function DayNumber(d: Date): int
    requires ValidDate(d)
  {
    DaysBeforeYear(d.year) + DaysBeforeMonth(d.year, d.month) + d.day - 1
  }

  /** The day count of a date lies inside the span of its year. */
  lemma DayNumberInYear(d: Date)
    requires ValidDate(d)
    ensures DaysBeforeYear(d.year) <= DayNumber(d) < DaysBeforeYear(d.year) + DaysInYear(d.year)
  {
    if d.month < 12 {
      MonthBounds(d.year, d.month, 12);
    }
  }

  /** Dates known to be real calendar days. */
  type CalendarDate = d: Date | ValidDate(d) witness Date(1, 1, 1)

  /** `new Date(y, ...)` reads a year from 0 to 99 as 1900 to 1999. */
  function JsYear(y: int): int {
    if 0 <= y <= 99 then 1900 + y else y
  }

  /** The zero-based position of a date within its year. */
  function DayOfYear(d: Date): int
    requires ValidDate(d)
  {
    DaysBeforeMonth(d.year, d.month) + d.day - 1
  }

  /** The date at zero-based position `k` of year `y`, looked up from month `m` on. */
  function FromDayOfYear(y: int, k: int, m: int): (r: Date)
    requires y >= 1 && 1 <= m <= 12
    requires DaysBeforeMonth(y, m) <= k < DaysInYear(y)
    ensures ValidDate(r) && r.year == y && DayOfYear(r) == k
    ensures DayNumber(r) == DaysBeforeYear(y) + k
    decreases 12 - m
  {
    MonthStep(y, m);
    if k < DaysBeforeMonth(y, m) + DaysInMonth(y, m) then
      Date(y, m, k - DaysBeforeMonth(y, m) + 1)
    else
      FromDayOfYear(y, k, m + 1)
  }

  /** `date.setDate(date.getDate() + n)` for a shift that stays inside the year. */
  function AddDays(d: Date, n: int): (r: Date)
    requires ValidDate(d) && 0 <= DayOfYear(d) + n < DaysInYear(d.year)
    ensures ValidDate(r) && r.year == d.year
    ensures DayNumber(r) == DayNumber(d) + n
  {
    FromDayOfYear(d.year, DayOfYear(d) + n, 1)
  }

  /** Calendar order: by year, then month, then day. */
  predicate LexLess(a: Date, b: Date) {
    || a.year < b.year
    || (a.year == b.year && a.month < b.month)
    || (a.year == b.year && a.month == b.month && a.day < b.day)
  }

  /** Calendar order and day-count order agree. */
  lemma DayNumberOrder(a: Date, b: Date)
    requires ValidDate(a) && ValidDate(b)
    ensures LexLess(a, b) <==> DayNumber(a) < DayNumber(b)
    ensures a == b <==> DayNumber(a) == DayNumber(b)
  {
    DayNumberInYear(a);
    DayNumberInYear(b);
    if a.year < b.year {
      YearsAscend(a.year, b.year);
    } else if b.year < a.year {
      YearsAscend(b.year, a.year);
    } else if a.month < b.month {
      MonthBounds(a.year, a.month, b.month);
    } else if b.month < a.month {
      MonthBounds(a.year, b.month, a.month);
    }
  }

  /** The following calendar day (`setDate(getDate() + 1)`, rolling over months and years). */
  function Next(d: Date): (r: Date)
    requires ValidDate(d)
    ensures ValidDate(r)
    ensures DayNumber(r) == DayNumber(d) + 1
  {
    if d.day < DaysInMonth(d.year, d.month) then
      Date(d.year, d.month, d.day + 1)
    else if d.month < 12 then
      MonthStep(d.year, d.month);
      Date(d.year, d.month + 1, 1)
    else
      MonthStep(d.year, 12);
      YearStep(d.year);
      Date(d.year + 1, 1, 1)
  }

  // ---------------------------------------------------------------------------
  // Weekdays
  // ---------------------------------------------------------------------------

  datatype Weekday = Sunday | Monday | Tuesday | Wednesday | Thursday | Friday | Saturday

  /** `getDay()` numbering: 0 is Sunday. */
  function WeekdayFromIndex(i: int): Weekday
    requires 0 <= i < 7
  {
    if i == 0 then Sunday else if i == 1 then Monday else if i == 2 then Tuesday
    else if i == 3 then Wednesday else if i == 4 then Thursday else if i == 5 then Friday
    else Saturday
  }

  function WeekdayIndex(w: Weekday): (i: int)
    ensures 0 <= i < 7 && WeekdayFromIndex(i) == w
  {
    match w
    case Sunday => 0
    case Monday => 1
    case Tuesday => 2
    case Wednesday => 3
    case Thursday => 4
    case Friday => 5
    case Saturday => 6
  }

  /** `date.getDay()`: 1 January of year 1 was a Monday. */
  function WeekdayOf(d: Date): Weekday
    requires ValidDate(d)
  {
    WeekdayFromIndex((DayNumber(d) + 1) % 7)
  }

  /** The weekday advances by one from a date to the next, wrapping after Saturday. */
  lemma NextWeekday(d: Date)
    requires ValidDate(d)
    ensures WeekdayIndex(WeekdayOf(Next(d))) == (WeekdayIndex(WeekdayOf(d)) + 1) % 7
  {
    WeekdayAfter(d, Next(d));
  }

  lemma WeekdayAfter(a: Date, b: Date)
    requires ValidDate(a) && ValidDate(b)
    requires DayNumber(b) == DayNumber(a) + 1
    ensures WeekdayIndex(WeekdayOf(b)) == (WeekdayIndex(WeekdayOf(a)) + 1) % 7
  {
    IndexStep(DayNumber(a) + 1);
  }

  lemma IndexStep(n: int)
    ensures WeekdayIndex(WeekdayFromIndex((n + 1) % 7)) == (WeekdayIndex(WeekdayFromIndex(n % 7)) + 1) % 7
  {
    var i, j := n % 7, (n + 1) % 7;
    WeekdayIndexRoundTrip(i);
    WeekdayIndexRoundTrip(j);
    assert j == (i + 1) % 7;
  }

  lemma WeekdayIndexRoundTrip(i: int)
    requires 0 <= i < 7
    ensures WeekdayIndex(WeekdayFromIndex(i)) == i
  {
  }

  /** Weekdays repeat with period seven. */
  lemma WeekdayPeriodic(a: Date, b: Date)
    requires ValidDate(a) && ValidDate(b)
    requires DayNumber(b) == DayNumber(a) + 7
    ensures WeekdayOf(a) == WeekdayOf(b)
  {
    var n := DayNumber(a) + 1;
    assert (n + 7) % 7 == n % 7;
  }

  /** A known date: 5 May 2024 was a Sunday. */
  lemma WeekdayExample()
    ensures ValidDate(Date(2024, 5, 5)) && WeekdayOf(Date(2024, 5, 5)) == Sunday
  {
    assert DaysBeforeYear(2024) == 738885;
    assert DayNumber(Date(2024, 5, 5)) == 739010;
  }

  /** The names `getGreekWeekday` gives, in `getDay()` order. */
  function GreekName(w: Weekday): string {
    match w
    case Sunday => "Κυριακή"
    case Monday => "Δευτέρα"
    case Tuesday => "Τρίτη"
    case Wednesday => "Τετάρτη"
    case Thursday => "Πέμπτη"
    case Friday => "Παρασκευή"
    case Saturday => "Σάββατο"
  }

  // ---------------------------------------------------------------------------
  // Textual forms
  // ---------------------------------------------------------------------------

  /** `String(n).padStart(2, '0')`. */
  function PadTwo(n: nat): (r: string)
    ensures AllDigits(r) && ParseDigits(r) == n
    ensures n < 100 ==> |r| == 2
  {
    if n < 10 then
      assert ("0" + NatToString(n))[..1] == "0";
      "0" + NatToString(n)
    else NatToString(n)
  }

  /** A padded two-digit numeral spells the tens digit, then the units digit. */
  lemma PadTwoDigits(n: nat)
    requires n < 100
    ensures PadTwo(n) == [DigitChar(n / 10), DigitChar(n % 10)]
  {
    if n >= 10 {
      assert NatToString(n / 10) == [DigitChar(n / 10)];
    }
  }

  /** Padded two-digit numerals compare as strings the way their values compare. */
  lemma PadTwoOrder(m: nat, n: nat)
    requires m < 100 && n < 100
    ensures StrLt(PadTwo(m), PadTwo(n)) <==> m < n
    ensures PadTwo(m) == PadTwo(n) <==> m == n
  {
    PadTwoDigits(m);
    PadTwoDigits(n);
    var a, b := PadTwo(m), PadTwo(n);
    assert a[1..] == [a[1]] && b[1..] == [b[1]];
    assert [a[1]][1..] == [] && [b[1]][1..] == [];
    assert !StrLt([], []);
    assert StrLt([a[1]], [b[1]]) <==> a[1] < b[1];
    assert StrLt(a, b) <==> a[0] < b[0] || (a[0] == b[0] && a[1] < b[1]);
  }

  /** The `DD/MM/YYYY` form the application prints (`formatDate`); the year is not padded. */
  function FormatDmy(d: Date): string
    requires ValidDate(d)
  {
    PadTwo(d.day) + "/" + PadTwo(d.month) + "/" + NatToString(d.year)
  }

  /** The ISO `YYYY-MM-DD` form the application builds for a date (the year is not padded). */
  function IsoString(d: Date): string
    requires ValidDate(d)
  {
    NatToString(d.year) + "-" + PadTwo(d.month) + "-" + PadTwo(d.day)
  }

  /** `s.split(sep)`: the pieces between occurrences of `sep`; joining them back gives `s`. */
  function Split(s: string, sep: char): (parts: seq<string>)
    ensures |parts| >= 1
    ensures forall i :: 0 <= i < |parts| ==> sep !in parts[i]
    ensures Join(parts, sep) == s
  {
    if |s| == 0 then [""]
    else if s[0] == sep then
      var rest := Split(s[1..], sep);
      assert s == [sep] + s[1..];
      [""] + rest
    else
      var rest := Split(s[1..], sep);
      var parts := [[s[0]] + rest[0]] + rest[1..];
      assert parts[1..] == rest[1..];
      assert rest == [rest[0]] + rest[1..];
      JoinCons(rest[0], rest[1..], sep);
      JoinCons([s[0]] + rest[0], rest[1..], sep);
      assert s == [s[0]] + s[1..];
      parts
  }

  function Join(parts: seq<string>, sep: char): string
    requires |parts| >= 1
  {
    if |parts| == 1 then parts[0] else parts[0] + [sep] + Join(parts[1..], sep)
  }

  lemma JoinCons(head: string, tail: seq<string>, sep: char)
    ensures Join([head] + tail, sep) == head + (if |tail| == 0 then [] else [sep] + Join(tail, sep))
  {
    assert ([head] + tail)[1..] == tail;
  }

  /** A string without the separator splits into itself alone. */
  lemma {:induction false} SplitNoSeparator(a: string, sep: char)
    requires sep !in a
    ensures Split(a, sep) == [a]
  {
    if |a| > 0 {
      SplitNoSeparator(a[1..], sep);
      assert [a[0]] + a[1..] == a;
    }
  }

  /** Splitting at the first separator: a separator-free prefix becomes the first piece. */
  lemma {:induction false} SplitAfterPrefix(a: string, b: string, sep: char)
    requires sep !in a
    ensures Split(a + [sep] + b, sep) == [a] + Split(b, sep)
    ensures Split(a, sep) == [a]
  {
    SplitNoSeparator(a, sep);
    var t := a + [sep] + b;
    if |a| == 0 {
      assert t == [sep] + b;
      assert t[1..] == b;
    } else {
      assert t[0] == a[0];
      assert t[1..] == a[1..] + [sep] + b;
      SplitAfterPrefix(a[1..], b, sep);
      var rest := Split(t[1..], sep);
      assert rest[0] == a[1..] && rest[1..] == Split(b, sep);
      assert [a[0]] + a[1..] == a;
    }
  }

  /** `Number(s)` for the strings the date pattern `[\d\/]+` can yield between slashes:
      a run of decimal digits, where the empty string counts as zero. Anything else is `NaN`. */
  function NumberOf(s: string): Option<nat> {
    if AllDigits(s) then Some(ParseDigits(s)) else None
  }

  /** `new Date(y, m - 1, d)` for the components `dateFrom.split('/').map(Number)` yields:
      years 0 to 99 mean 1900 to 1999; components that are `NaN` or missing give no date.
      Out-of-range months and days, which `Date` would roll into neighbouring months,
      also give no date. */
  function ParseDmy(s: string): (r: Option<Date>)
    ensures r.Some? ==> ValidDate(r.value)
  {
    var parts := Split(s, '/');
    if |parts| < 3 then None
    else
      match (NumberOf(parts[0]), NumberOf(parts[1]), NumberOf(parts[2]))
      case (Some(d), Some(m), Some(y)) =>
        var year := if y <= 99 then 1900 + y else y;
        var date := Date(year, m, d);
        if ValidDate(date) then Some(date) else None
      case _ => None
  }

  /** Reading back a printed `DD/MM/YYYY` date gives the date, for years from 100 on. */
  lemma ParseFormatDmy(d: Date)
    requires ValidDate(d) && d.year >= 100
    ensures ParseDmy(FormatDmy(d)) == Some(d)
  {
    var dd, mm, yy := PadTwo(d.day), PadTwo(d.month), NatToString(d.year);
    assert '/' !in dd && '/' !in mm && '/' !in yy by {
      assert AllDigits(dd) && AllDigits(mm) && AllDigits(yy);
    }
    assert FormatDmy(d) == dd + ['/'] + (mm + ['/'] + yy);
    SplitAfterPrefix(dd, mm + ['/'] + yy, '/');
    SplitAfterPrefix(mm, yy, '/');
    SplitAfterPrefix(yy, [], '/');
  }

  /** `new Date('YYYY-MM-DD')` for a well-formed ISO date string; anything else is `NaN`. */
  function ParseIso(s: string): (r: Option<Date>)
    ensures r.Some? ==> ValidDate(r.value)
  {
    if |s| == 10 && s[4] == '-' && s[7] == '-'
       && AllDigits(s[..4]) && AllDigits(s[5..7]) && AllDigits(s[8..])
    then
      var date := Date(ParseDigits(s[..4]), ParseDigits(s[5..7]), ParseDigits(s[8..]));
      if ValidDate(date) then Some(date) else None
    else None
  }

  /** Reading back an ISO date string gives the date, for four-digit years. */
  lemma ParseIsoString(d: Date)
    requires ValidDate(d) && 1000 <= d.year <= 9999
    ensures ParseIso(IsoString(d)) == Some(d)
  {
    NatToStringFourDigits(d.year);
    var s := IsoString(d);
    assert s[..4] == NatToString(d.year);
    assert s[5..7] == PadTwo(d.month);
    assert s[8..] == PadTwo(d.day);
  }

  /** For four-digit years, ISO strings sort as text exactly as the dates sort in time:
      the plain `.sort()` of ISO strings is chronological. */
  lemma IsoOrderIsChronological(a: Date, b: Date)
    requires ValidDate(a) && ValidDate(b)
    requires 1000 <= a.year <= 9999 && 1000 <= b.year <= 9999
    ensures StrLt(IsoString(a), IsoString(b)) <==> DayNumber(a) < DayNumber(b)
  {
    NatToStringFourDigits(a.year);
    NatToStringFourDigits(b.year);
    var ya, yb := NatToString(a.year), NatToString(b.year);
    var ra, rb := MonthDaySuffix(a), MonthDaySuffix(b);
    IsoStringParts(a);
    IsoStringParts(b);
    StrLtConcat(ya, ra, yb, rb);
    NumeralOrder(a.year, b.year);
    assert ya == yb <==> a.year == b.year by {
      if ya == yb {
        NatToStringInjective(a.year, b.year);
      }
    }
    SuffixOrder(a, b);
    DayNumberOrder(a, b);
  }

  /** The `-MM-DD` part of an ISO date string. */
  function MonthDaySuffix(d: Date): string
    requires ValidDate(d)
  {
    "-" + PadTwo(d.month) + "-" + PadTwo(d.day)
  }

  lemma IsoStringParts(d: Date)
    requires ValidDate(d)
    ensures IsoString(d) == NatToString(d.year) + MonthDaySuffix(d)
  {
    var y, m, n := NatToString(d.year), PadTwo(d.month), PadTwo(d.day);
    assert y + "-" + m + "-" + n == y + ("-" + m + "-" + n);
  }

  lemma SuffixParts(d: Date)
    requires ValidDate(d)
    ensures MonthDaySuffix(d) == ("-" + PadTwo(d.month)) + ("-" + PadTwo(d.day))
  {
  }

  /** The `-MM-DD` parts compare as text as month and day compare. */
  lemma SuffixOrder(a: Date, b: Date)
    requires ValidDate(a) && ValidDate(b)
    ensures StrLt(MonthDaySuffix(a), MonthDaySuffix(b)) <==>
      a.month < b.month || (a.month == b.month && a.day < b.day)
  {
    var ma, mb := "-" + PadTwo(a.month), "-" + PadTwo(b.month);
    var da, db := "-" + PadTwo(a.day), "-" + PadTwo(b.day);
    SuffixParts(a);
    SuffixParts(b);
    StrLtIrreflexive("-");
    PadTwoOrder(a.month, b.month);
    PadTwoOrder(a.day, b.day);
    assert StrLt(ma, mb) <==> a.month < b.month by {
      StrLtConcat("-", PadTwo(a.month), "-", PadTwo(b.month));
    }
    assert StrLt(da, db) <==> a.day < b.day by {
      StrLtConcat("-", PadTwo(a.day), "-", PadTwo(b.day));
    }
    assert ma == mb <==> a.month == b.month by {
      assert ma[1..] == PadTwo(a.month) && mb[1..] == PadTwo(b.month);
    }
    StrLtConcat(ma, da, mb, db);
  }
}

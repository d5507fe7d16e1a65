/**
 * The Greek public-holiday calendar: eight holidays on fixed month/day pairs, Orthodox
 * Easter by the Meeus Julian algorithm moved thirteen days onto the Gregorian calendar,
 * and five holidays that move with Easter.
 */
module Holidays {
  import opened Calendar
  import opened Lists
  import opened Sorting

  /** JavaScript's `%`: the remainder of division truncated toward zero, which takes
      the sign of the dividend. */
  function JsRem(a: int, b: int): (r: int)
    requires b > 0
    ensures a >= 0 ==> 0 <= r < b
    ensures a < 0 ==> -b < r <= 0
  {
    if a >= 0 then a % b else -((-a) % b)
  }

  datatype FixedHoliday = FixedHoliday(month: int, day: int, name: string)

  /** The holidays that fall on the same month and day every year. */
  const FixedHolidays: seq<FixedHoliday> := [
    FixedHoliday(1, 1, "Πρωτοχρονιά"),
    FixedHoliday(1, 6, "Θεοφάνεια"),
    FixedHoliday(3, 25, "Ευαγγελισμός / Εθνική Εορτή"),
    FixedHoliday(5, 1, "Πρωτομαγιά"),
    FixedHoliday(8, 15, "Κοίμηση Θεοτόκου"),
    FixedHoliday(10, 28, "Εθνική Εορτή (Όχι)"),
    FixedHoliday(12, 25, "Χριστούγεννα"),
    FixedHoliday(12, 26, "Σύναξη Θεοτόκου")
  ]

  /** Every fixed holiday is a real day of every year, and the list runs in calendar order. */
  lemma FixedHolidaysWellFormed(y: int)
    requires y >= 1
    ensures forall i :: 0 <= i < |FixedHolidays| ==>
      ValidDate(Date(y, FixedHolidays[i].month, FixedHolidays[i].day))
    ensures forall i, j :: 0 <= i < j < |FixedHolidays| ==>
      LexLess(Date(y, FixedHolidays[i].month, FixedHolidays[i].day),
              Date(y, FixedHolidays[j].month, FixedHolidays[j].day))
  {
  }

  // ---------------------------------------------------------------------------
  // Orthodox Easter
  // ---------------------------------------------------------------------------

  /** Meeus's `d = (19 c + 15) % 30` with `c = year % 19`. */
  function MeeusD(y: int): (d: int)
    requires y >= 1
    ensures 0 <= d < 30
  {
    JsRem(19 * JsRem(y, 19) + 15, 30)
  }

  /** The dividend of Meeus's `e`: `2 a + 4 b - d + 34` with `a = year % 4`, `b = year % 7`. */
  function MeeusDividend(y: int): int
    requires y >= 1
  {
    2 * JsRem(y, 4) + 4 * JsRem(y, 7) - MeeusD(y) + 34
  }

  /** Meeus's `e`, taken with JavaScript's remainder. */
  function MeeusE(y: int): int
    requires y >= 1
  {
    JsRem(MeeusDividend(y), 7)
  }

  /** The dividend of `e` is at least 5, so JavaScript's remainder leaves `e` in 0..6. */
  lemma MeeusETerms(y: int)
    requires y >= 1
    ensures MeeusDividend(y) >= 5
    ensures 0 <= MeeusE(y) <= 6
  {
  }

  datatype MonthDay = MonthDay(month: int, day: int)

  /** Easter Sunday of year `y` in the Julian calendar, as month and day. */
  function JulianEaster(y: int): (r: MonthDay)
    requires y >= 1
    ensures r.month == 3 || r.month == 4
    ensures r.month == 3 ==> 22 <= r.day <= 31
    ensures r.month == 4 ==> 1 <= r.day <= 26
  {
    MeeusETerms(y);
    var x := MeeusD(y) + MeeusE(y) + 114;
    MonthDay(x / 31, JsRem(x, 31) + 1)
  }

  /** `calculateOrthodoxEaster(y)`: the Julian Easter date read as a Gregorian date of year
      `y` and then moved thirteen days later. */
  function OrthodoxEaster(y: int): (r: CalendarDate)
    requires y >= 1
    ensures r.year == JsYear(y)
    ensures r.month == 4 || r.month == 5
    ensures r.month == 4 ==> 4 <= r.day
    ensures r.month == 5 ==> r.day <= 9
  {
    var j := JulianEaster(y);
    var base := Date(JsYear(y), j.month, j.day);
    var r := AddDays(base, 13);
    EasterWindow(base, r);
    r
  }

  /** Thirteen days after a date from 22 March to 26 April is a date from 4 April to 9 May. */
  lemma EasterWindow(base: Date, r: Date)
    requires ValidDate(base) && ValidDate(r) && base.year == r.year
    requires (base.month == 3 && 22 <= base.day) || (base.month == 4 && base.day <= 26)
    requires DayNumber(r) == DayNumber(base) + 13
    ensures (r.month == 4 && 4 <= r.day) || (r.month == 5 && r.day <= 9)
  {
    var y := base.year;
    var lo, hi := Date(y, 4, 4), Date(y, 5, 9);
    assert DayNumber(lo) == DayNumber(Date(y, 3, 22)) + 13;
    assert DayNumber(hi) == DayNumber(Date(y, 4, 26)) + 13;
    DayNumberOrder(Date(y, 3, 22), base);
    DayNumberOrder(base, Date(y, 4, 26));
    DayNumberOrder(lo, r);
    DayNumberOrder(r, hi);
  }

  /** Known Orthodox Easter Sundays: 5 May 2024, 20 April 2025 and 12 April 2026. */
  lemma EasterExample2024()
    ensures OrthodoxEaster(2024) == Date(2024, 5, 5)
  {
    assert JulianEaster(2024) == MonthDay(4, 22);
    EasterFromJulian(2024, Date(2024, 5, 5));
  }

  lemma EasterExample2025()
    ensures OrthodoxEaster(2025) == Date(2025, 4, 20)
  {
    assert JulianEaster(2025) == MonthDay(4, 7);
    EasterFromJulian(2025, Date(2025, 4, 20));
  }

  lemma EasterExample2026()
    ensures OrthodoxEaster(2026) == Date(2026, 4, 12)
  {
    assert JulianEaster(2026) == MonthDay(3, 30);
    EasterFromJulian(2026, Date(2026, 4, 12));
  }

  /** Easter is the date of its year thirteen days after the Julian date. */
  lemma EasterFromJulian(y: int, e: Date)
    requires y >= 100 && ValidDate(e) && e.year == y
    requires DayOfYear(e) == DaysBeforeMonth(y, JulianEaster(y).month) + JulianEaster(y).day - 1 + 13
    ensures OrthodoxEaster(y) == e
  {
    DayNumberOrder(OrthodoxEaster(y), e);
  }

  // ---------------------------------------------------------------------------
  // Moving holidays
  // ---------------------------------------------------------------------------

  datatype Holiday = Holiday(date: CalendarDate, name: string)

  /** Distances from Easter Sunday of Clean Monday, Good Friday, Easter Sunday, Easter
      Monday and Whit Monday. */
  const MovingOffsets: seq<int> := [-48, -2, 0, 1, 50]

  const MovingNames: seq<string> := [
    "Καθαρά Δευτέρα",
    "Μεγάλη Παρασκευή",
    "Κυριακή του Πάσχα",
    "Δευτέρα του Πάσχα",
    "Αγίου Πνεύματος"
  ]

  /** `calculateMovingHolidays(y)`: five holidays at fixed distances from Easter, in
      calendar order and all inside Easter's year. */
  function MovingHolidays(y: int): (r: seq<Holiday>)
    requires y >= 1
    ensures |r| == 5
    ensures forall i :: 0 <= i < 5 ==>
      && r[i].date.year == JsYear(y)
      && DayNumber(r[i].date) == DayNumber(OrthodoxEaster(y)) + MovingOffsets[i]
      && r[i].name == MovingNames[i]
  {
    var easter := OrthodoxEaster(y);
    EasterDayOfYear(easter);
    seq(5, i requires 0 <= i < 5 => Holiday(AddDays(easter, MovingOffsets[i]), MovingNames[i]))
  }

  /** Easter lies far enough from both ends of the year for every moving holiday. */
  lemma EasterDayOfYear(e: Date)
    requires ValidDate(e)
    requires (e.month == 4 && 4 <= e.day) || (e.month == 5 && e.day <= 9)
    ensures 48 <= DayOfYear(e) && DayOfYear(e) + 50 < DaysInYear(e.year)
  {
  }

  /** The moving holidays are listed in calendar order. */
  lemma MovingHolidaysAscend(y: int)
    requires y >= 1
    ensures forall i, j :: 0 <= i < j < 5 ==>
      DayNumber(MovingHolidays(y)[i].date) < DayNumber(MovingHolidays(y)[j].date)
  {
  }

  // ---------------------------------------------------------------------------
  // Queries
  // ---------------------------------------------------------------------------

  /** `isGreekPublicHoliday(date)`: the date matches a fixed month/day pair, or matches
      day, month and year of one of the moving holidays computed for its own year. */
  function IsGreekPublicHoliday(d: CalendarDate): bool {
    || Any(FixedHolidays, (h: FixedHoliday) => h.month == d.month && h.day == d.day)
    || Any(MovingHolidays(d.year), SameDate(d))
  }

  /** The test `isGreekPublicHoliday` applies to each moving holiday: same day, month and
      year as `d`. */
  function SameDate(d: CalendarDate): Holiday -> bool {
    (h: Holiday) => h.date.day == d.day && h.date.month == d.month && h.date.year == d.year
  }

  /** The fixed month/day pairs. */
  predicate IsFixedPair(month: int, day: int) {
    exists i :: 0 <= i < |FixedHolidays| && FixedHolidays[i].month == month && FixedHolidays[i].day == day
  }

  /** A date is a public holiday exactly when its month and day are a fixed pair, or it
      is at one of the five Easter distances from its own year's Easter. Easter is computed
      in the 1900s for the years 1 to 99, so for them only the fixed pairs count. */
  lemma IsGreekPublicHolidayIff(d: CalendarDate)
    ensures IsGreekPublicHoliday(d) <==>
      || IsFixedPair(d.month, d.day)
      || (d.year >= 100 && DayNumber(d) - DayNumber(OrthodoxEaster(d.year)) in MovingOffsets)
  {
    MovingMatchIff(d);
  }

  /** `d` matches a moving holiday of its own year exactly when it lies at one of the
      Easter distances from that year's Easter, which needs a year from 100 on. */
  lemma MovingMatchIff(d: CalendarDate)
    ensures Any(MovingHolidays(d.year), SameDate(d)) <==>
      d.year >= 100 && DayNumber(d) - DayNumber(OrthodoxEaster(d.year)) in MovingOffsets
  {
    var ms := MovingHolidays(d.year);
    var e := DayNumber(OrthodoxEaster(d.year));
    if d.year >= 100 && DayNumber(d) - e in MovingOffsets {
      var i :| 0 <= i < 5 && MovingOffsets[i] == DayNumber(d) - e;
      DayNumberOrder(ms[i].date, d);
      assert SameDate(d)(ms[i]);
    }
    forall i | 0 <= i < 5 && SameDate(d)(ms[i])
      ensures d.year >= 100 && DayNumber(d) - e in MovingOffsets
    {
      assert ms[i].date == d;
    }
  }

  /** Each fixed pair is a holiday in every year. */
  lemma FixedHolidayEveryYear(y: int, i: int)
    requires y >= 1 && 0 <= i < |FixedHolidays|
    ensures ValidDate(Date(y, FixedHolidays[i].month, FixedHolidays[i].day))
    ensures IsGreekPublicHoliday(Date(y, FixedHolidays[i].month, FixedHolidays[i].day))
  {
    FixedHolidaysWellFormed(y);
    var d: CalendarDate := Date(y, FixedHolidays[i].month, FixedHolidays[i].day);
    IsGreekPublicHolidayIff(d);
  }

  /** Each moving holiday of a year from 100 on is a holiday. */
  lemma MovingHolidayIsHoliday(y: int, i: int)
    requires y >= 100 && 0 <= i < 5
    ensures IsGreekPublicHoliday(MovingHolidays(y)[i].date)
  {
    var d := MovingHolidays(y)[i].date;
    IsGreekPublicHolidayIff(d);
    assert DayNumber(d) - DayNumber(OrthodoxEaster(y)) == MovingOffsets[i];
  }

  datatype HolidayKind = Fixed | Moving

  datatype PublicHoliday = PublicHoliday(date: CalendarDate, name: string, kind: HolidayKind)

  /** `a.date - b.date < 0`: the comparator `getPublicHolidays` sorts with. */
  predicate Earlier(a: PublicHoliday, b: PublicHoliday) {
    DayNumber(a.date) < DayNumber(b.date)
  }

  /** The fixed holidays dated in `new Date(y, month - 1, day)`'s year, in list order. */
  function DatedFixedHolidays(y: int): (r: seq<PublicHoliday>)
    requires y >= 1
    ensures |r| == |FixedHolidays|
    ensures forall i :: 0 <= i < |r| ==>
      r[i] == PublicHoliday(Date(JsYear(y), FixedHolidays[i].month, FixedHolidays[i].day),
                            FixedHolidays[i].name, Fixed)
  {
    FixedHolidaysWellFormed(JsYear(y));
    seq(|FixedHolidays|, i requires 0 <= i < |FixedHolidays| =>
      PublicHoliday(Date(JsYear(y), FixedHolidays[i].month, FixedHolidays[i].day),
                    FixedHolidays[i].name, Fixed))
  }

  /** `getPublicHolidays(y)`: the fixed holidays of the year, sorted by date; the moving
      holidays are not included. */
  function PublicHolidays(y: int): (r: seq<PublicHoliday>)
    requires y >= 1
  {
    Sort(DatedFixedHolidays(y), Earlier)
  }

  /** The display list is exactly the eight fixed holidays of the year, in ascending date
      order, none of them a moving holiday. */
  lemma PublicHolidaysAreFixed(y: int)
    requires y >= 1
    ensures PublicHolidays(y) == DatedFixedHolidays(y)
    ensures |PublicHolidays(y)| == 8
    ensures forall i, j :: 0 <= i < j < 8 ==>
      DayNumber(PublicHolidays(y)[i].date) < DayNumber(PublicHolidays(y)[j].date)
    ensures forall i :: 0 <= i < 8 ==> PublicHolidays(y)[i].kind == Fixed
  {
    var xs := DatedFixedHolidays(y);
    FixedHolidaysWellFormed(JsYear(y));
    forall i, j | 0 <= i < j < |xs|
      ensures DayNumber(xs[i].date) < DayNumber(xs[j].date)
    {
      DayNumberOrder(xs[i].date, xs[j].date);
    }
    SortOfSorted(xs, Earlier);
  }
}

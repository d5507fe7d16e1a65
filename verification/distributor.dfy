/**
 * Session scheduling for one therapist over a referral period: the weekdays the therapist
 * is rostered on, the eligible dates of the period (rostered weekday, not a public
 * holiday, not a closure day), and the spread of the session count over those dates.
 * Also the expansion of the resulting plan into one template row per session.
 */
module Distributor {
  import opened Wrappers
  import opened Text
  import opened Lists
  import opened Calendar
  import opened Holidays
  import opened Roster

  // ---------------------------------------------------------------------------
  // Working days
  // ---------------------------------------------------------------------------

  /** `therapistSchedule[day] || []`. */
  function DayList(schedule: Schedule, day: string): seq<Therapist> {
    if day in schedule then schedule[day] else []
  }

  /** `getTherapistWorkingDays(name)`: the weekdays, Monday to Friday in that order, whose
      list holds an entry with the name; none when there is no schedule. */
  function WorkingDays(schedule: Option<Schedule>, name: string): (r: seq<string>)
    ensures IsSubsequence(r, Weekdays)
    ensures forall d :: d in r <==>
      && d in Weekdays && schedule.Some?
      && exists k :: 0 <= k < |DayList(schedule.value, d)| && DayList(schedule.value, d)[k].name == name
  {
    if schedule.None? then []
    else
      var works := (d: string) => HasName(DayList(schedule.value, d), name);
      var r := Filter(Weekdays, works);
      forall d ensures d in r <==> d in Weekdays && works(d) {
        FilterMember(Weekdays, works, d);
      }
      r
  }

  // ---------------------------------------------------------------------------
  // Eligible dates
  // ---------------------------------------------------------------------------

  /** The test the period walk applies to each date: its Greek weekday name is a working
      day, it is not a public holiday, and its `YYYY-MM-DD` form is not a closure day. */
  predicate Eligible(d: CalendarDate, workingDays: seq<string>, closures: seq<string>) {
    && GreekName(WeekdayOf(d)) in workingDays
    && !IsGreekPublicHoliday(d)
    && IsoString(d) !in closures
  }

  /** The dates from `cur` to `end` inclusive that pass `ok`, walking one day at a time. */
  function DatesWhere(cur: CalendarDate, end: CalendarDate, ok: CalendarDate -> bool)
    : (r: seq<CalendarDate>)
    ensures forall i :: 0 <= i < |r| ==> DayNumber(cur) <= DayNumber(r[i]) <= DayNumber(end) && ok(r[i])
    ensures forall i, j :: 0 <= i < j < |r| ==> DayNumber(r[i]) < DayNumber(r[j])
    decreases DayNumber(end) - DayNumber(cur)
  {
    if DayNumber(cur) > DayNumber(end) then []
    else
      var rest := DatesWhere(Next(cur), end, ok);
      if ok(cur) then [cur] + rest else rest
  }

  /** Every date of the period that passes the test is collected. */
  lemma {:induction false} DatesWhereComplete(cur: CalendarDate, end: CalendarDate,
                                              ok: CalendarDate -> bool, d: CalendarDate)
    requires DayNumber(cur) <= DayNumber(d) <= DayNumber(end) && ok(d)
    ensures d in DatesWhere(cur, end, ok)
    decreases DayNumber(end) - DayNumber(cur)
  {
    if DayNumber(d) == DayNumber(cur) {
      DayNumberOrder(d, cur);
    } else {
      DatesWhereComplete(Next(cur), end, ok, d);
    }
  }

  /** The loop of `distributeSessionsInMonth` that collects the eligible dates of the period. */
  function EligibleDates(start: CalendarDate, end: CalendarDate, workingDays: seq<string>,
                         closures: seq<string>): seq<CalendarDate>
  {
    DatesWhere(start, end, (d: CalendarDate) => Eligible(d, workingDays, closures))
  }

  /** A date is collected exactly when it lies in the period and is eligible; the dates
      are collected in strictly ascending order. */
  lemma EligibleDatesIff(start: CalendarDate, end: CalendarDate, workingDays: seq<string>,
                         closures: seq<string>, d: CalendarDate)
    ensures d in EligibleDates(start, end, workingDays, closures) <==>
      DayNumber(start) <= DayNumber(d) <= DayNumber(end) && Eligible(d, workingDays, closures)
    ensures var r := EligibleDates(start, end, workingDays, closures);
      forall i, j :: 0 <= i < j < |r| ==> DayNumber(r[i]) < DayNumber(r[j])
  {
    var ok := (d: CalendarDate) => Eligible(d, workingDays, closures);
    if DayNumber(start) <= DayNumber(d) <= DayNumber(end) && ok(d) {
      DatesWhereComplete(start, end, ok, d);
    }
  }

  /** Saturdays and Sundays are never eligible when the working days are weekday names. */
  lemma EligibleIsWeekday(d: CalendarDate, workingDays: seq<string>, closures: seq<string>)
    requires forall k :: 0 <= k < |workingDays| ==> workingDays[k] in Weekdays
    requires Eligible(d, workingDays, closures)
    ensures WeekdayOf(d) != Saturday && WeekdayOf(d) != Sunday
  {
    WeekendNotWorking(WeekdayOf(d));
  }

  /** The Greek names of Saturday and Sunday are not among the working weekdays. */
  lemma WeekendNotWorking(w: Weekday)
    ensures GreekName(w) in Weekdays <==> w != Saturday && w != Sunday
  {
  }

  /** Every element of a subsequence is an element of the sequence. */
  lemma {:induction false} SubsequenceMembers<T>(a: seq<T>, b: seq<T>)
    requires IsSubsequence(a, b)
    ensures forall k :: 0 <= k < |a| ==> a[k] in b
    decreases |b|
  {
    if |a| > 0 {
      if a[0] == b[0] && IsSubsequence(a[1..], b[1..]) {
        SubsequenceMembers(a[1..], b[1..]);
        assert forall k :: 1 <= k < |a| ==> a[k] == a[1..][k - 1];
      } else {
        SubsequenceMembers(a, b[1..]);
      }
    }
  }

  // ---------------------------------------------------------------------------
  // Spreading the sessions
  // ---------------------------------------------------------------------------

  /** A date with the number of sessions held on it. */
  datatype SessionDate = SessionDate(date: CalendarDate, count: int)

  function Min(a: int, b: int): int {
    if a <= b then a else b
  }

  /** `Math.min(i * interval, last)`: a valid index whenever `i` and `interval` are not negative. */
  function StrideIndex(i: nat, interval: nat, last: nat): (k: nat)
    ensures k <= last
  {
    Min(i * interval, last)
  }

  /** The count the round-robin loop leaves on position `j` of `m` dates after handing out
      `extra` sessions one at a time from position 0, on top of one session each. */
  function RoundRobinCount(j: int, extra: nat, m: nat): int
    requires m > 0
  {
    1 + extra / m + (if j < extra % m then 1 else 0)
  }

  /** The session plan for `n` sessions over `dates`: with no dates or no sessions, none;
      with at most one session per date, one session on every `interval`-th date from the
      first; otherwise every date once and the rest round-robin from the first date. */
  function Spread(dates: seq<CalendarDate>, n: int): (r: seq<SessionDate>)
  {
    var m := |dates|;
    if m == 0 || n <= 0 then []
    else if n <= m then
      var interval := m / n;
      seq(n, i requires 0 <= i < n => SessionDate(dates[StrideIndex(i, interval, m - 1)], 1))
    else
      seq(m, j requires 0 <= j < m => SessionDate(dates[j], RoundRobinCount(j, n - m, m)))
  }

  /** The session counts of a plan. */
  function Counts(r: seq<SessionDate>): (cs: seq<int>)
    ensures |cs| == |r| && forall i :: 0 <= i < |r| ==> cs[i] == r[i].count
  {
    seq(|r|, i requires 0 <= i < |r| => r[i].count)
  }

  /** `distributeSessionsInMonth`'s spreading step, as the loops of the source perform it. */
  method SpreadLoop(dates: seq<CalendarDate>, n: int) returns (r: seq<SessionDate>)
    ensures r == Spread(dates, n)
  {
    var m := |dates|;
    if m == 0 || n <= 0 {
      r := [];
    } else if n <= m {
      r := StrideLoop(dates, n);
    } else {
      r := RoundRobinLoop(dates, n);
    }
  }

  /** The loop that places one session on every `interval`-th date. */
  method StrideLoop(dates: seq<CalendarDate>, n: int) returns (r: seq<SessionDate>)
    requires 0 < n <= |dates|
    ensures r == Spread(dates, n)
  {
    var m := |dates|;
    var interval := m / n;
    r := [];
    var i := 0;
    while i < n
      invariant 0 <= i <= n
      invariant |r| == i
      invariant forall k :: 0 <= k < i ==> r[k] == SessionDate(dates[StrideIndex(k, interval, m - 1)], 1)
    {
      r := r + [SessionDate(dates[StrideIndex(i, interval, m - 1)], 1)];
      i := i + 1;
    }
  }

  /** The loops that give every date one session and then hand out the rest one at a
      time, cycling from the first date. */
  method RoundRobinLoop(dates: seq<CalendarDate>, n: int) returns (r: seq<SessionDate>)
    requires 0 < |dates| < n
    ensures r == Spread(dates, n)
  {
    var m := |dates|;
    r := [];
    var k := 0;
    while k < m
      invariant 0 <= k <= m
      invariant |r| == k
      invariant forall j :: 0 <= j < k ==> r[j] == SessionDate(dates[j], 1)
    {
      r := r + [SessionDate(dates[k], 1)];
      k := k + 1;
    }
    var remaining := n - m;
    var index := 0;
    while remaining > 0
      invariant 0 <= remaining <= n - m
      invariant index == (n - m - remaining) % m
      invariant HandedOut(r, dates, n - m - remaining)
    {
      RoundRobinUpdate(r, dates, n - m - remaining);
      r := r[index := r[index].(count := r[index].count + 1)];
      remaining := remaining - 1;
      index := (index + 1) % m;
    }
    assert HandedOut(r, dates, n - m);
  }

  /** The plan after `done` sessions beyond the first round have been handed out. */
  ghost predicate HandedOut(r: seq<SessionDate>, dates: seq<CalendarDate>, done: nat) {
    && |r| == |dates| > 0
    && forall j :: 0 <= j < |dates| ==> r[j] == SessionDate(dates[j], RoundRobinCount(j, done, |dates|))
  }

  /** One more session on the next date in turn keeps the round-robin plan. */
  lemma RoundRobinUpdate(r: seq<SessionDate>, dates: seq<CalendarDate>, done: nat)
    requires HandedOut(r, dates, done)
    ensures var index := done % |dates|;
      HandedOut(r[index := r[index].(count := r[index].count + 1)], dates, done + 1)
    ensures (done + 1) % |dates| == (done % |dates| + 1) % |dates|
  {
    var m := |dates|;
    var index := done % m;
    var r' := r[index := r[index].(count := r[index].count + 1)];
    forall j | 0 <= j < m ensures r'[j] == SessionDate(dates[j], RoundRobinCount(j, done + 1, m)) {
      RoundRobinCountStep(j, done, m);
      assert r[j] == SessionDate(dates[j], RoundRobinCount(j, done, m));
      if j == index {
        assert r'[j] == r[j].(count := r[j].count + 1);
      } else {
        assert r'[j] == r[j];
      }
    }
    RoundRobinStep(done, m);
  }

  /** Handing out one more session adds one to exactly the date whose turn it is. */
  lemma RoundRobinCountStep(j: int, done: nat, m: nat)
    requires 0 <= j < m
    ensures RoundRobinCount(j, done + 1, m) == RoundRobinCount(j, done, m) + (if j == done % m then 1 else 0)
  {
    RoundRobinStep(done, m);
  }

  /** Handing out one more session advances the round-robin position by one, wrapping
      into the next round after the last date. */
  lemma RoundRobinStep(done: nat, m: nat)
    requires m > 0
    ensures done % m == m - 1 ==> (done + 1) / m == done / m + 1 && (done + 1) % m == 0
    ensures done % m < m - 1 ==> (done + 1) / m == done / m && (done + 1) % m == done % m + 1
  {
    var q, r := done / m, done % m;
    if r == m - 1 {
      DivModUnique(done + 1, m, q + 1, 0);
    } else {
      DivModUnique(done + 1, m, q, r + 1);
    }
  }

  /** With at most one session per date, the clamp never fires: session `i` sits on date
      `i * interval`, the positions strictly increase, and the first date is always used. */
  lemma StrideWithoutClamp(dates: seq<CalendarDate>, n: int)
    requires 0 < n <= |dates|
    ensures |Spread(dates, n)| == n
    ensures forall i :: 0 <= i < n ==> i * (|dates| / n) < |dates|
    ensures forall i :: 0 <= i < n ==>
      Spread(dates, n)[i] == SessionDate(dates[i * (|dates| / n)], 1)
    ensures Spread(dates, n)[0].date == dates[0]
  {
    var m := |dates|;
    var interval := m / n;
    assert interval >= 1 && n * interval <= m by {
      assert m == n * interval + m % n;
    }
    forall i | 0 <= i < n ensures i * interval < m {
      MulMono(i, n - 1, interval);
      assert (n - 1) * interval == n * interval - interval;
    }
  }

  lemma MulMono(a: nat, b: nat, c: nat)
    requires a <= b
    ensures a * c <= b * c
  {
  }

  /** The total number of sessions in a plan is the session count asked for, whenever
      there is a date and at least one session. */
  lemma SpreadConserves(dates: seq<CalendarDate>, n: int)
    requires |dates| > 0 && n > 0
    ensures Sum(Counts(Spread(dates, n))) == n
  {
    var m := |dates|;
    var r := Spread(dates, n);
    if n <= m {
      SumConstant(Counts(r), 1);
    } else {
      var e := n - m;
      RoundRobinSum(m, e, m);
      assert Counts(r) == seq(m, j requires 0 <= j < m => RoundRobinCount(j, e, m));
      assert e == m * (e / m) + e % m;
    }
  }

  /** The sum of the first `k` round-robin counts. */
  lemma {:induction false} RoundRobinSum(k: nat, e: nat, m: nat)
    requires 0 < m && k <= m
    ensures Sum(seq(k, j requires 0 <= j < k => RoundRobinCount(j, e, m))) ==
      k * (1 + e / m) + Min(k, e % m)
  {
    var s := seq(k, j requires 0 <= j < k => RoundRobinCount(j, e, m));
    if k > 0 {
      var s' := seq(k - 1, j requires 0 <= j < k - 1 => RoundRobinCount(j, e, m));
      RoundRobinSum(k - 1, e, m);
      assert s == s' + [RoundRobinCount(k - 1, e, m)];
      SumAppend(s', [RoundRobinCount(k - 1, e, m)]);
      assert Sum([RoundRobinCount(k - 1, e, m)]) == RoundRobinCount(k - 1, e, m);
      var q := 1 + e / m;
      assert k * q == (k - 1) * q + q;
      assert Min(k, e % m) == Min(k - 1, e % m) + (if k - 1 < e % m then 1 else 0);
    } else {
      assert s == [];
    }
  }

  /** With more sessions than dates, every date appears once, in input order, and the
      counts differ by at most one with the larger counts first. */
  lemma RoundRobinBalanced(dates: seq<CalendarDate>, n: int)
    requires 0 < |dates| < n
    ensures |Spread(dates, n)| == |dates|
    ensures forall j :: 0 <= j < |dates| ==> Spread(dates, n)[j].date == dates[j]
    ensures forall j :: 0 <= j < |dates| ==> Spread(dates, n)[j].count >= 1
    ensures forall i, j :: 0 <= i < j < |dates| ==>
      Spread(dates, n)[j].count <= Spread(dates, n)[i].count <= Spread(dates, n)[j].count + 1
  {
  }

  /** Every planned date is one of the given dates, and plans over ascending dates are
      ascending. */
  lemma SpreadDates(dates: seq<CalendarDate>, n: int)
    ensures forall i :: 0 <= i < |Spread(dates, n)| ==> Spread(dates, n)[i].date in dates
    ensures (forall i, j :: 0 <= i < j < |dates| ==> DayNumber(dates[i]) < DayNumber(dates[j])) ==>
      forall i, j :: 0 <= i < j < |Spread(dates, n)| ==>
        DayNumber(Spread(dates, n)[i].date) < DayNumber(Spread(dates, n)[j].date)
  {
    var m := |dates|;
    if 0 < n <= m {
      StrideWithoutClamp(dates, n);
      var interval := m / n;
      forall i, j | 0 <= i < j < n ensures i * interval < j * interval {
        assert j * interval == i * interval + (j - i) * interval;
        MulMono(1, j - i, interval);
      }
    }
  }

  // ---------------------------------------------------------------------------
  // distributeSessionsInMonth
  // ---------------------------------------------------------------------------

  /** The dates `distributeSessionsInMonth` spreads sessions over: none without a working
      day; otherwise the eligible dates between the period's `DD/MM/YYYY` bounds. A bound
      that does not read as a date leaves no eligible dates. */
  function PeriodDates(schedule: Option<Schedule>, closures: seq<string>, name: string,
                       dateFrom: string, dateTo: string): seq<CalendarDate>
  {
    var workingDays := WorkingDays(schedule, name);
    if |workingDays| == 0 then []
    else
      match (ParseDmy(dateFrom), ParseDmy(dateTo))
      case (Some(start), Some(end)) => EligibleDates(start, end, workingDays, closures)
      case _ => []
  }

  /** `distributeSessionsInMonth(name, n, from, to)`. */
  function DistributeSessionsInMonth(schedule: Option<Schedule>, closures: seq<string>,
                                     name: string, n: int, dateFrom: string, dateTo: string)
    : seq<SessionDate>
  {
    Spread(PeriodDates(schedule, closures, name, dateFrom, dateTo), n)
  }

  /** Both `DD/MM/YYYY` bounds read as dates and `d` lies between them, inclusive. */
  predicate InPeriod(d: CalendarDate, dateFrom: string, dateTo: string) {
    match (ParseDmy(dateFrom), ParseDmy(dateTo))
    case (Some(start), Some(end)) => DayNumber(start) <= DayNumber(d) <= DayNumber(end)
    case _ => false
  }

  /** The period's dates are exactly the eligible dates between its bounds, for a
      therapist with a working day, in strictly ascending order. */
  lemma PeriodDatesIff(schedule: Option<Schedule>, closures: seq<string>, name: string,
                       dateFrom: string, dateTo: string, d: CalendarDate)
    ensures var ds := PeriodDates(schedule, closures, name, dateFrom, dateTo);
      var workingDays := WorkingDays(schedule, name);
      && (d in ds <==>
            && |workingDays| > 0 && InPeriod(d, dateFrom, dateTo)
            && Eligible(d, workingDays, closures))
      && (forall i, j :: 0 <= i < j < |ds| ==> DayNumber(ds[i]) < DayNumber(ds[j]))
  {
    PeriodMember(schedule, closures, name, dateFrom, dateTo, d);
    PeriodDatesAscend(schedule, closures, name, dateFrom, dateTo);
  }

  lemma PeriodMember(schedule: Option<Schedule>, closures: seq<string>, name: string,
                     dateFrom: string, dateTo: string, d: CalendarDate)
    ensures d in PeriodDates(schedule, closures, name, dateFrom, dateTo) <==>
      && |WorkingDays(schedule, name)| > 0 && InPeriod(d, dateFrom, dateTo)
      && Eligible(d, WorkingDays(schedule, name), closures)
  {
    var workingDays := WorkingDays(schedule, name);
    var ds := PeriodDates(schedule, closures, name, dateFrom, dateTo);
    if |workingDays| == 0 {
      assert ds == [];
    } else {
      match (ParseDmy(dateFrom), ParseDmy(dateTo))
      case (Some(start), Some(end)) =>
        assert ds == EligibleDates(start, end, workingDays, closures);
        assert InPeriod(d, dateFrom, dateTo) <==> DayNumber(start) <= DayNumber(d) <= DayNumber(end);
        EligibleDatesIff(start, end, workingDays, closures, d);
      case _ =>
        assert ds == [] && !InPeriod(d, dateFrom, dateTo);
    }
  }

  /** Every planned date is an eligible date of the period — inside the bounds, on a
      weekday the therapist is rostered on, not a public holiday, not a closure day — and
      the planned dates strictly ascend. */
  lemma DistributedDatesSound(schedule: Option<Schedule>, closures: seq<string>,
                              name: string, n: int, dateFrom: string, dateTo: string)
    ensures var r := DistributeSessionsInMonth(schedule, closures, name, n, dateFrom, dateTo);
      && (forall i :: 0 <= i < |r| ==>
            && InPeriod(r[i].date, dateFrom, dateTo)
            && Eligible(r[i].date, WorkingDays(schedule, name), closures))
      && (forall i, j :: 0 <= i < j < |r| ==> DayNumber(r[i].date) < DayNumber(r[j].date))
  {
    var ds := PeriodDates(schedule, closures, name, dateFrom, dateTo);
    var r := Spread(ds, n);
    PeriodDatesAscend(schedule, closures, name, dateFrom, dateTo);
    SpreadDates(ds, n);
    forall i | 0 <= i < |r|
      ensures InPeriod(r[i].date, dateFrom, dateTo)
      ensures Eligible(r[i].date, WorkingDays(schedule, name), closures)
    {
      PeriodDateSound(schedule, closures, name, dateFrom, dateTo, r[i].date);
    }
  }

  lemma PeriodDatesAscend(schedule: Option<Schedule>, closures: seq<string>, name: string,
                          dateFrom: string, dateTo: string)
    ensures var ds := PeriodDates(schedule, closures, name, dateFrom, dateTo);
      forall i, j :: 0 <= i < j < |ds| ==> DayNumber(ds[i]) < DayNumber(ds[j])
  {
    var workingDays := WorkingDays(schedule, name);
    if |workingDays| > 0 {
      match (ParseDmy(dateFrom), ParseDmy(dateTo))
      case (Some(start), Some(end)) =>
        EligibleDatesIff(start, end, workingDays, closures, start);
      case _ =>
    }
  }

  lemma PeriodDateSound(schedule: Option<Schedule>, closures: seq<string>, name: string,
                        dateFrom: string, dateTo: string, d: CalendarDate)
    requires d in PeriodDates(schedule, closures, name, dateFrom, dateTo)
    ensures InPeriod(d, dateFrom, dateTo)
    ensures Eligible(d, WorkingDays(schedule, name), closures)
  {
    PeriodMember(schedule, closures, name, dateFrom, dateTo, d);
  }

  /** The plan is empty exactly when there is no working day, no eligible date or no
      session to hold; otherwise its counts add up to the session count. */
  lemma DistributedCountConserved(schedule: Option<Schedule>, closures: seq<string>,
                                  name: string, n: int, dateFrom: string, dateTo: string)
    ensures var r := DistributeSessionsInMonth(schedule, closures, name, n, dateFrom, dateTo);
      var ds := PeriodDates(schedule, closures, name, dateFrom, dateTo);
      && (r == [] <==> |WorkingDays(schedule, name)| == 0 || |ds| == 0 || n <= 0)
      && (r != [] ==> Sum(Counts(r)) == n)
  {
    var ds := PeriodDates(schedule, closures, name, dateFrom, dateTo);
    if |ds| > 0 && n > 0 {
      SpreadConserves(ds, n);
      assert |Spread(ds, n)| > 0;
    }
  }

  // ---------------------------------------------------------------------------
  // Template rows
  // ---------------------------------------------------------------------------

  /** What the period screen computes for one therapist. */
  datatype TherapistPlan = TherapistPlan(therapy: string, therapist: string, sessionCount: int,
                                         sessionDates: seq<SessionDate>)

  /** One row of the generated document: one session. */
  datatype SessionRow = SessionRow(therapy: string, therapist: string, date: string)

  /** `Array.from({ length: count }, ...)`: a non-positive length gives no rows. */
  function Repeat(row: SessionRow, count: int): (r: seq<SessionRow>)
    ensures |r| == if count > 0 then count else 0
    ensures forall i :: 0 <= i < |r| ==> r[i] == row
  {
    if count <= 0 then [] else seq(count, _ => row)
  }

  /** The number of rows a list of dated counts expands into. */
  function RowTotal(ds: seq<SessionDate>): int {
    if |ds| == 0 then 0 else (if ds[0].count > 0 then ds[0].count else 0) + RowTotal(ds[1..])
  }

  /** The rows of one therapist: `count` copies for every planned date, in plan order. */
  function PlanRows(p: TherapistPlan): seq<SessionRow> {
    DateRows(p.therapy, p.therapist, p.sessionDates)
  }

  /** The rows one planned date contributes: `count` copies dated `formatDate(date)`. */
  function DateGroups(therapy: string, therapist: string, ds: seq<SessionDate>): (gs: seq<seq<SessionRow>>)
    ensures |gs| == |ds|
    ensures forall k :: 0 <= k < |ds| ==>
      gs[k] == Repeat(SessionRow(therapy, therapist, FormatDmy(ds[k].date)), ds[k].count)
  {
    if |ds| == 0 then []
    else [Repeat(SessionRow(therapy, therapist, FormatDmy(ds[0].date)), ds[0].count)]
         + DateGroups(therapy, therapist, ds[1..])
  }

  /** `sessionDates.flatMap(...)`: each planned date's rows in turn, in plan order. */
  function DateRows(therapy: string, therapist: string, ds: seq<SessionDate>): (r: seq<SessionRow>)
    ensures |r| == RowTotal(ds)
    ensures forall i :: 0 <= i < |r| ==> r[i].therapy == therapy && r[i].therapist == therapist
    ensures LaidOut(r, DateGroups(therapy, therapist, ds))
  {
    if |ds| == 0 then []
    else
      var head := Repeat(SessionRow(therapy, therapist, FormatDmy(ds[0].date)), ds[0].count);
      var rest := DateRows(therapy, therapist, ds[1..]);
      RowsAppend(head, rest, therapy, therapist);
      var gs := DateGroups(therapy, therapist, ds);
      assert gs[0] == head && gs[1..] == DateGroups(therapy, therapist, ds[1..]);
      LaidOutCons(rest, gs);
      head + rest
  }

  /** Rows that all belong to one therapist and therapy still do when concatenated. */
  lemma RowsAppend(a: seq<SessionRow>, b: seq<SessionRow>, therapy: string, therapist: string)
    requires forall i :: 0 <= i < |a| ==> a[i].therapy == therapy && a[i].therapist == therapist
    requires forall i :: 0 <= i < |b| ==> b[i].therapy == therapy && b[i].therapist == therapist
    ensures forall i :: 0 <= i < |a + b| ==> (a + b)[i].therapy == therapy && (a + b)[i].therapist == therapist
  {
    forall i | 0 <= i < |a + b| ensures (a + b)[i].therapy == therapy && (a + b)[i].therapist == therapist {
      if i >= |a| {
        assert (a + b)[i] == b[i - |a|];
      }
    }
  }

  /** The rows of each plan, plan by plan. */
  function PlanGroups(ps: seq<TherapistPlan>): (gs: seq<seq<SessionRow>>)
    ensures |gs| == |ps|
    ensures forall k :: 0 <= k < |ps| ==> gs[k] == PlanRows(ps[k])
  {
    if |ps| == 0 then [] else [PlanRows(ps[0])] + PlanGroups(ps[1..])
  }

  /** `sessionsList`: the rows of every therapist in turn. */
  function SessionsList(ps: seq<TherapistPlan>): (r: seq<SessionRow>)
    ensures LaidOut(r, PlanGroups(ps))
  {
    if |ps| == 0 then []
    else
      var rest := SessionsList(ps[1..]);
      LaidOutCons(rest, PlanGroups(ps));
      PlanRows(ps[0]) + rest
  }

  /** The total row count over all plans. */
  function PlansRowTotal(ps: seq<TherapistPlan>): int {
    if |ps| == 0 then 0 else RowTotal(ps[0].sessionDates) + PlansRowTotal(ps[1..])
  }

  /** The document lists exactly as many rows as the plans hold sessions. */
  lemma {:induction false} SessionsListLength(ps: seq<TherapistPlan>)
    ensures |SessionsList(ps)| == PlansRowTotal(ps)
  {
    if |ps| > 0 {
      SessionsListLength(ps[1..]);
    }
  }

  /** With positive counts, the row count is the sum of the counts. */
  lemma {:induction false} RowTotalOfPositive(ds: seq<SessionDate>)
    requires forall i :: 0 <= i < |ds| ==> ds[i].count > 0
    ensures RowTotal(ds) == Sum(Counts(ds))
  {
    if |ds| > 0 {
      RowTotalOfPositive(ds[1..]);
      assert Counts(ds) == [ds[0].count] + Counts(ds[1..]);
    }
  }

  /** A distributed plan expands into exactly the session count of rows, for a positive
      count over a period with eligible dates. */
  lemma PlanRowsConserve(dates: seq<CalendarDate>, n: int, therapy: string, therapist: string)
    requires |dates| > 0 && n > 0
    ensures |PlanRows(TherapistPlan(therapy, therapist, n, Spread(dates, n)))| == n
  {
    var r := Spread(dates, n);
    if n > |dates| {
      RoundRobinBalanced(dates, n);
    }
    RowTotalOfPositive(r);
    SpreadConserves(dates, n);
  }
}

/**
 * The list of ad-hoc closure days: ISO `YYYY-MM-DD` strings, kept sorted by the default
 * string sort and free of repeats, plus the `DD/MM/YYYY` form the screen shows.
 */
module NonWorkingDays {
  import opened Wrappers
  import opened Text
  import opened Lists
  import opened Sorting
  import opened Calendar

  /** String `<` is a strict total order, so the default `.sort()` orders strings fully. */
  lemma StrLtIsTotalOrder()
    ensures StrictTotalOrder(StrLt)
  {
    forall x: string ensures !StrLt(x, x) {
      StrLtIrreflexive(x);
    }
    forall x: string, y: string, z: string | StrLt(x, y) && StrLt(y, z) ensures StrLt(x, z) {
      StrLtTransitive(x, y, z);
    }
    forall x: string, y: string, z: string | !StrLt(x, y) && !StrLt(y, z) ensures !StrLt(x, z) {
      StrLtTotal(x, y);
      StrLtTotal(y, z);
      if StrLt(y, x) && StrLt(z, y) {
        StrLtTransitive(z, y, x);
        StrLtAsymmetric(z, x);
      } else if StrLt(y, x) {
        StrLtAsymmetric(y, x);
      } else if StrLt(z, y) {
        StrLtAsymmetric(z, y);
      }
    }
    forall x: string, y: string | x != y ensures StrLt(x, y) || StrLt(y, x) {
      StrLtTotal(x, y);
    }
  }

  /** Sorted by string order and without repeats: each string is below every later one. */
  predicate StrictlyAscending(xs: seq<string>) {
    forall i, j :: 0 <= i < j < |xs| ==> StrLt(xs[i], xs[j])
  }

  /** A sorted list without repeats is strictly ascending. */
  lemma SortedDistinctAscending(xs: seq<string>)
    requires SortedBy(xs, StrLt) && Distinct(xs)
    ensures StrictlyAscending(xs)
  {
    forall i, j | 0 <= i < j < |xs| ensures StrLt(xs[i], xs[j]) {
      StrLtTotal(xs[i], xs[j]);
    }
  }

  datatype AddDateError = NoDateChosen | AlreadyListed

  /** `handleAddCustomDate()`: an empty choice is rejected, then a date already listed;
      otherwise the date joins the list and the list is sorted. */
  function AddCustomDate(days: seq<string>, date: string): (r: Result<seq<string>, AddDateError>)
    ensures r == Err(NoDateChosen) <==> date == ""
    ensures r == Err(AlreadyListed) <==> date != "" && date in days
    ensures r.Ok? ==> multiset(r.value) == multiset(days) + multiset{date}
    ensures r.Ok? ==> SortedBy(r.value, StrLt)
  {
    if date == "" then Err(NoDateChosen)
    else if date in days then Err(AlreadyListed)
    else
      StrLtIsTotalOrder();
      Ok(Sort(days + [date], StrLt))
  }

  /** Adding to a strictly ascending list yields a strictly ascending list one longer,
      holding exactly the old dates and the new one. */
  lemma AddCustomDateKeepsAscending(days: seq<string>, date: string)
    requires StrictlyAscending(days)
    requires AddCustomDate(days, date).Ok?
    ensures StrictlyAscending(AddCustomDate(days, date).value)
    ensures |AddCustomDate(days, date).value| == |days| + 1
    ensures forall x :: x in AddCustomDate(days, date).value <==> x in days || x == date
  {
    var r := AddCustomDate(days, date).value;
    assert Distinct(days) by {
      forall i, j | 0 <= i < j < |days| ensures days[i] != days[j] {
        StrLtIrreflexive(days[i]);
      }
    }
    DistinctMultiset(days);
    forall x ensures multiset(r)[x] <= 1 {
      if x == date {
        assert multiset(days)[x] == 0;
      }
    }
    DistinctMultiset(r);
    SortedDistinctAscending(r);
    assert |r| == |multiset(r)| == |multiset(days)| + 1 == |days| + 1;
    forall x ensures x in r <==> x in days || x == date {
      assert x in r <==> x in multiset(r);
      assert x in days <==> x in multiset(days);
    }
  }

  /** An already sorted list with the new date in place is exactly what adding returns. */
  lemma AddCustomDateIsTheSortedList(days: seq<string>, date: string, expected: seq<string>)
    requires AddCustomDate(days, date).Ok?
    requires SortedBy(expected, StrLt) && multiset(expected) == multiset(days) + multiset{date}
    ensures AddCustomDate(days, date).value == expected
  {
    StrLtIsTotalOrder();
    SortCharacterized(days + [date], expected, StrLt);
  }

  /** Each date reads as an ISO date, and no date is earlier than one before it. */
  ghost predicate Chronological(xs: seq<string>) {
    && (forall i :: 0 <= i < |xs| ==> ParseIso(xs[i]).Some?)
    && (forall i, j :: 0 <= i < j < |xs| ==>
          DayNumber(ParseIso(xs[i]).value) <= DayNumber(ParseIso(xs[j]).value))
  }

  /** When every listed string is a well-formed ISO date of a four-digit year, the sorted
      list is in chronological order. */
  lemma AddCustomDateChronological(days: seq<string>, date: string)
    requires AddCustomDate(days, date).Ok?
    requires forall i :: 0 <= i < |days| ==> IsIsoDate(days[i])
    requires IsIsoDate(date)
    ensures Chronological(AddCustomDate(days, date).value)
  {
    var r := AddCustomDate(days, date).value;
    assert multiset(r) == multiset(days + [date]);
    forall k | 0 <= k < |r| ensures IsIsoDate(r[k]) {
      assert r[k] in multiset(days + [date]);
      assert r[k] in days + [date];
    }
    SortedIsoChronological(r);
  }

  /** A string-sorted list of ISO dates of four-digit years is chronological. */
  lemma SortedIsoChronological(r: seq<string>)
    requires forall k :: 0 <= k < |r| ==> IsIsoDate(r[k])
    requires SortedBy(r, StrLt)
    ensures Chronological(r)
  {
    forall i | 0 <= i < |r| ensures ParseIso(r[i]).Some? {
      IsoPairOrdered(r[i], r[i]);
    }
    forall i, j | 0 <= i < j < |r|
      ensures DayNumber(ParseIso(r[i]).value) <= DayNumber(ParseIso(r[j]).value)
    {
      IsoPairOrdered(r[i], r[j]);
    }
  }

  /** Two ISO dates in string order are in chronological order. */
  lemma IsoPairOrdered(s: string, t: string)
    requires IsIsoDate(s) && IsIsoDate(t)
    ensures ParseIso(s).Some? && ParseIso(t).Some?
    ensures !StrLt(t, s) ==> DayNumber(ParseIso(s).value) <= DayNumber(ParseIso(t).value)
  {
    var a: Date :| ValidDate(a) && 1000 <= a.year <= 9999 && s == IsoString(a);
    var b: Date :| ValidDate(b) && 1000 <= b.year <= 9999 && t == IsoString(b);
    ParseIsoString(a);
    ParseIsoString(b);
    IsoOrderIsChronological(b, a);
  }

  /** The strings the date picker produces: the ISO form of a date with a four-digit year. */
  ghost predicate IsIsoDate(s: string) {
    exists d: Date :: ValidDate(d) && 1000 <= d.year <= 9999 && s == IsoString(d)
  }

  /** `handleRemoveCustomDate(d)`: every occurrence of `d` goes, everything else stays in
      order, and a list without `d` is returned unchanged. */
  function RemoveCustomDate(days: seq<string>, date: string): (r: seq<string>)
    ensures date !in r
    ensures IsSubsequence(r, days)
    ensures forall x :: x != date ==> multiset(r)[x] == multiset(days)[x]
    ensures date !in days ==> r == days
  {
    var keep := (x: string) => x != date;
    var r := Filter(days, keep);
    forall x ensures multiset(r)[x] == if keep(x) then multiset(days)[x] else 0 {
      FilterCount(days, keep, x);
    }
    FilterAll(days, keep);
    r
  }

  /** `formatDate(date)` on this screen: zero-padded `DD/MM/YYYY`, which reads back as the
      same date. */
  function FormatDate(d: CalendarDate): (r: string)
    ensures |r| >= 6 && r[2] == '/' && r[5] == '/'
    ensures AllDigits(r[..2]) && AllDigits(r[3..5])
    ensures d.year >= 100 ==> ParseDmy(r) == Some(d)
  {
    var r := FormatDmy(d);
    assert r[..2] == PadTwo(d.day) && r[3..5] == PadTwo(d.month);
    assert d.year >= 100 ==> ParseDmy(r) == Some(d) by {
      if d.year >= 100 {
        ParseFormatDmy(d);
      }
    }
    r
  }
}

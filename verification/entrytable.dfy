/**
 * The table of client records: each row is coloured and labelled by the days left until
 * its opinion ends, and the rows can be sorted by a column, ascending or descending.
 */
module EntryTable {
  import opened Wrappers
  import opened Text
  import opened Sorting
  import opened Calendar
  import opened Records
  import opened NonWorkingDays

  // ---------------------------------------------------------------------------
  // Days until expiry
  // ---------------------------------------------------------------------------

  /** `Math.ceil((new Date(endingDate) - new Date()) / day)`: the whole days from today to
      the record's ending date, or `None` (`NaN`) when the date does not read. The ending
      date is midnight of its day and the current time lies within today, so the ceiling
      is the difference of the day numbers. */
  function DaysUntil(r: Record, today: CalendarDate): (d: Option<int>)
    ensures d.Some? <==> ParseIso(Field(r, "endingDate")).Some?
    ensures d.Some? ==> d.value == DayNumber(ParseIso(Field(r, "endingDate")).value) - DayNumber(today)
  {
    match ParseIso(Field(r, "endingDate"))
    case None => None
    case Some(end) => Some(DayNumber(end) - DayNumber(today))
  }

  /** The colour classes of a row. */
  datatype RowClass = Expired | ExpiringCritical | ExpiringSoon | Plain

  /** `getRowClass(endingDate)`: expired before today, critical within five days, soon
      within ten; an unreadable date compares false everywhere and gets no class. */
  function GetRowClass(days: Option<int>): (c: RowClass)
    ensures c == Expired <==> days.Some? && days.value < 0
    ensures c == ExpiringCritical <==> days.Some? && 0 <= days.value <= 5
    ensures c == ExpiringSoon <==> days.Some? && 5 < days.value <= 10
    ensures c == Plain <==> days.None? || days.value > 10
  {
    match days
    case None => Plain
    case Some(d) =>
      if d < 0 then Expired
      else if d <= 5 then ExpiringCritical
      else if d <= 10 then ExpiringSoon
      else Plain
  }

  /** How urgent a class is, most urgent highest. */
  function Urgency(c: RowClass): nat {
    match c
    case Expired => 3
    case ExpiringCritical => 2
    case ExpiringSoon => 1
    case Plain => 0
  }

  /** A row never becomes less urgent as its ending date comes closer. */
  lemma RowClassMonotone(a: int, b: int)
    requires a <= b
    ensures Urgency(GetRowClass(Some(a))) >= Urgency(GetRowClass(Some(b)))
  {
  }

  /** A row is coloured exactly when its record is in the alert list. */
  lemma ColouredIffDue(r: Record, today: CalendarDate)
    ensures GetRowClass(DaysUntil(r, today)) != Plain <==> DueForAlert(r, today)
  {
  }

  /** `getDaysUntilExpiry(endingDate)`: the label of the status column. */
  function ExpiryText(days: Option<int>): (s: string)
    ensures |s| > 0
    ensures days.Some? && days.value < 0 ==> s[0] == 'Έ'
    ensures days.Some? && 0 <= days.value <= 1 ==> s[0] == 'Λ'
    ensures days.Some? && days.value >= 2 ==> IsDigit(s[0])
    ensures days.None? ==> s[0] == 'N'
  {
    match days
    case None => "NaN" + " ημέρες απομένουν"
    case Some(d) =>
      if d < 0 then "Έληξε πριν " + NatToString(-d) + " ημέρες"
      else if d == 0 then "Λήγει σήμερα"
      else if d == 1 then "Λήγει αύριο"
      else NatToString(d) + " ημέρες απομένουν"
  }

  /** Equal texts with a common prefix and suffix have equal middles. */
  lemma MiddleEqual(p: string, x: string, y: string, q: string)
    requires p + x + q == p + y + q
    ensures x == y
  {
    assert |x| == |y|;
    assert x == (p + x + q)[|p|..|p| + |x|];
    assert y == (p + y + q)[|p|..|p| + |y|];
  }

  /** Different day counts get different labels, and the label of an unreadable date is
      unlike every count's. */
  lemma ExpiryTextInjective(a: Option<int>, b: Option<int>)
    requires ExpiryText(a) == ExpiryText(b)
    ensures a == b
  {
    if a.Some? && b.Some? {
      var x, y := a.value, b.value;
      if x < 0 && y < 0 {
        MiddleEqual("Έληξε πριν ", NatToString(-x), NatToString(-y), " ημέρες");
        NatToStringInjective(-x, -y);
      } else if x >= 2 && y >= 2 {
        assert "" + NatToString(x) == NatToString(x) && "" + NatToString(y) == NatToString(y);
        MiddleEqual("", NatToString(x), NatToString(y), " ημέρες απομένουν");
        NatToStringInjective(x, y);
      }
    }
  }

  // ---------------------------------------------------------------------------
  // Sorting
  // ---------------------------------------------------------------------------

  datatype Direction = Asc | Desc

  datatype SortConfig = SortConfig(key: string, direction: Direction)

  /** The table opens sorted by name, ascending. */
  const InitialSort: SortConfig := SortConfig("name", Asc)

  /** `handleSort(key)`: a click on the column already sorted ascending turns it
      descending; any other click sorts that column ascending. */
  function HandleSort(c: SortConfig, key: string): (r: SortConfig)
    ensures r.key == key
    ensures r.direction == Desc <==> c.key == key && c.direction == Asc
  {
    if c.key == key && c.direction == Asc then SortConfig(key, Desc) else SortConfig(key, Asc)
  }

  /** Two clicks on the sorted column bring back the order it had; two clicks on another
      column sort it descending. */
  lemma HandleSortTwice(c: SortConfig, key: string)
    ensures c.key == key ==> HandleSort(HandleSort(c, key), key) == c
    ensures c.key != key ==> HandleSort(HandleSort(c, key), key) == SortConfig(key, Desc)
  {
  }

  /** Numbers with `NaN` placed below every number. Comparing with `NaN` is false both
      ways in the source, which leaves the order of such rows to the engine; placing them
      first is one order it may produce. */
  predicate OptLt(a: Option<int>, b: Option<int>) {
    match (a, b)
    case (None, Some(_)) => true
    case (Some(x), Some(y)) => x < y
    case _ => false
  }

  lemma OptLtIsTotalOrder()
    ensures StrictTotalOrder(OptLt)
  {
  }

  /** The time value of a date field, `None` when it does not read as a date. */
  function DateValue(r: Record, field: string): (v: Option<int>)
    ensures v.Some? <==> ParseIso(Field(r, field)).Some?
  {
    match ParseIso(Field(r, field))
    case None => None
    case Some(d) => Some(DayNumber(d))
  }

  /** The "strictly before" relation of the sort comparator, for a column and direction.
      `nameKey` stands for `formatName(entry).toLowerCase()`; `today` is the current day.
      A column the comparator does not know compares every pair equal. */
  function Before(c: SortConfig, nameKey: Record -> string, today: CalendarDate): (Record, Record) -> bool
  {
    (a: Record, b: Record) =>
      var asc := c.direction == Asc;
      if c.key == "name" then
        if asc then StrLt(nameKey(a), nameKey(b)) else StrLt(nameKey(b), nameKey(a))
      else if c.key == "startingDate" || c.key == "endingDate" then
        var va, vb := DateValue(a, c.key), DateValue(b, c.key);
        if asc then OptLt(va, vb) else OptLt(vb, va)
      else if c.key == "status" then
        var va, vb := DaysUntil(a, today), DaysUntil(b, today);
        if asc then OptLt(va, vb) else OptLt(vb, va)
      else false
  }

  /** The columns the comparator knows. */
  predicate KnownColumn(key: string) {
    key == "name" || key == "startingDate" || key == "endingDate" || key == "status"
  }

  /** Every column's comparator is consistent. */
  lemma BeforeIsWeakOrder(c: SortConfig, nameKey: Record -> string, today: CalendarDate)
    ensures StrictWeakOrder(Before(c, nameKey, today))
  {
    if c.key == "name" {
      NameOrderIsWeak(c, nameKey, today);
    } else if c.key == "startingDate" || c.key == "endingDate" {
      DateOrderIsWeak(c, nameKey, today);
    } else if c.key == "status" {
      StatusOrderIsWeak(c, nameKey, today);
    }
  }

  lemma NameOrderIsWeak(c: SortConfig, nameKey: Record -> string, today: CalendarDate)
    requires c.key == "name"
    ensures StrictWeakOrder(Before(c, nameKey, today))
  {
    var lt := Before(c, nameKey, today);
    StrLtIsTotalOrder();
    ByKeyIsWeakOrder(nameKey, StrLt);
    var f := (a: Record, b: Record) => StrLt(nameKey(a), nameKey(b));
    var g := (a: Record, b: Record) => StrLt(nameKey(b), nameKey(a));
    assert forall a, b :: lt(a, b) == (if c.direction == Asc then f(a, b) else g(a, b));
  }

  lemma DateOrderIsWeak(c: SortConfig, nameKey: Record -> string, today: CalendarDate)
    requires c.key == "startingDate" || c.key == "endingDate"
    ensures StrictWeakOrder(Before(c, nameKey, today))
  {
    var lt := Before(c, nameKey, today);
    assert c.key != "name";
    OptLtIsTotalOrder();
    var key := (r: Record) => DateValue(r, c.key);
    ByKeyIsWeakOrder(key, OptLt);
    var f := (a: Record, b: Record) => OptLt(key(a), key(b));
    var g := (a: Record, b: Record) => OptLt(key(b), key(a));
    assert forall a, b :: lt(a, b) == (if c.direction == Asc then f(a, b) else g(a, b));
  }

  lemma StatusOrderIsWeak(c: SortConfig, nameKey: Record -> string, today: CalendarDate)
    requires c.key == "status"
    ensures StrictWeakOrder(Before(c, nameKey, today))
  {
    var lt := Before(c, nameKey, today);
    assert c.key != "name" && c.key != "startingDate" && c.key != "endingDate";
    OptLtIsTotalOrder();
    var key := (r: Record) => DaysUntil(r, today);
    ByKeyIsWeakOrder(key, OptLt);
    var f := (a: Record, b: Record) => OptLt(key(a), key(b));
    var g := (a: Record, b: Record) => OptLt(key(b), key(a));
    assert forall a, b :: lt(a, b) == (if c.direction == Asc then f(a, b) else g(a, b));
  }

  /** `sortedEntries`: the records rearranged so that no row is strictly before a row
      above it, in the chosen column and direction; an unknown column keeps the input
      order. */
  function SortEntries(entries: seq<Record>, c: SortConfig, nameKey: Record -> string, today: CalendarDate)
    : (r: seq<Record>)
    ensures multiset(r) == multiset(entries)
    ensures SortedBy(r, Before(c, nameKey, today))
    ensures !KnownColumn(c.key) ==> r == entries
  {
    if |entries| == 0 then entries
    else
      BeforeIsWeakOrder(c, nameKey, today);
      if !KnownColumn(c.key) then
        SortUnordered(entries, Before(c, nameKey, today));
        Sort(entries, Before(c, nameKey, today))
      else
        Sort(entries, Before(c, nameKey, today))
  }

  /** Sorting by status gives the same rows in the same order as sorting by ending date:
      the days left differ from the ending date by the same amount for every row. */
  lemma StatusSortIsEndingDateSort(entries: seq<Record>, d: Direction, nameKey: Record -> string, today: CalendarDate)
    ensures SortEntries(entries, SortConfig("status", d), nameKey, today)
         == SortEntries(entries, SortConfig("endingDate", d), nameKey, today)
  {
    var s := Before(SortConfig("status", d), nameKey, today);
    var e := Before(SortConfig("endingDate", d), nameKey, today);
    forall a, b ensures s(a, b) == e(a, b) {
      var da, db := DaysUntil(a, today), DaysUntil(b, today);
      var ea, eb := DateValue(a, "endingDate"), DateValue(b, "endingDate");
      assert da.Some? ==> da.value == ea.value - DayNumber(today);
      assert db.Some? ==> db.value == eb.value - DayNumber(today);
      assert "status" != "name" && "status" != "startingDate" && "status" != "endingDate";
      assert "endingDate" != "name";
      if d == Asc {
        assert s(a, b) == OptLt(da, db);
        assert e(a, b) == OptLt(ea, eb);
      } else {
        assert s(a, b) == OptLt(db, da);
        assert e(a, b) == OptLt(eb, ea);
      }
    }
    SortCongruent(entries, s, e);
  }

  /** Sorted by ending date ascending, every record with a readable date sits above every
      record with a later one. */
  lemma EndingDateAscending(entries: seq<Record>, nameKey: Record -> string, today: CalendarDate, i: nat, j: nat)
    requires var r := SortEntries(entries, SortConfig("endingDate", Asc), nameKey, today);
      && i < |r| && j < |r|
      && ParseIso(Field(r[i], "endingDate")).Some? && ParseIso(Field(r[j], "endingDate")).Some?
      && DayNumber(ParseIso(Field(r[i], "endingDate")).value) < DayNumber(ParseIso(Field(r[j], "endingDate")).value)
    ensures i < j
  {
    var r := SortEntries(entries, SortConfig("endingDate", Asc), nameKey, today);
    var lt := Before(SortConfig("endingDate", Asc), nameKey, today);
    assert DateValue(r[i], "endingDate") == Some(DayNumber(ParseIso(Field(r[i], "endingDate")).value));
    assert DateValue(r[j], "endingDate") == Some(DayNumber(ParseIso(Field(r[j], "endingDate")).value));
    assert "endingDate" != "name" && "endingDate" != "startingDate";
    assert lt(r[i], r[j]) == OptLt(DateValue(r[i], "endingDate"), DateValue(r[j], "endingDate"));
  }
}

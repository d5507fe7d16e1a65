/**
 * The client records kept by the application: each is a JSON object of string fields,
 * and the list is edited by id — delete, replace on edit, append on add — and scanned
 * for records whose opinion expires within ten days.
 */
module Records {
  import opened Wrappers
  import opened Lists
  import opened Calendar

  /** A stored record: field name to value. */
  type Record = map<string, string>

  /** `record.key || ''`: the field's value, or empty when absent. */
  function Field(r: Record, key: string): string {
    if key in r then r[key] else ""
  }

  /** The record's `id`, absent when the record has none (`undefined` in the source). */
  function IdOf(r: Record): Option<string> {
    if "id" in r then Some(r["id"]) else None
  }

  /** The filter `handleDeleteEntry` applies: the record has a different id. */
  function OtherId(id: string): Record -> bool {
    (r: Record) => IdOf(r) != Some(id)
  }

  /** `handleDeleteEntry(id)`: every record with that id goes; the rest stay in order. */
  function DeleteEntry(entries: seq<Record>, id: string): (r: seq<Record>)
    ensures forall i :: 0 <= i < |r| ==> IdOf(r[i]) != Some(id)
    ensures IsSubsequence(r, entries)
  {
    Filter(entries, OtherId(id))
  }

  /** Deleting keeps every record with another id exactly as often as it occurred, and a
      list without the id is returned unchanged. */
  lemma DeleteEntryKeepsOthers(entries: seq<Record>, id: string, x: Record)
    ensures multiset(DeleteEntry(entries, id))[x] == if IdOf(x) == Some(id) then 0 else multiset(entries)[x]
    ensures (forall i :: 0 <= i < |entries| ==> IdOf(entries[i]) != Some(id)) ==> DeleteEntry(entries, id) == entries
  {
    FilterCount(entries, OtherId(id), x);
    FilterAll(entries, OtherId(id));
  }

  /** `{ ...data, id }`: the form data carrying the given id (none when it is absent). */
  function WithId(data: Record, id: Option<string>): (r: Record)
    ensures IdOf(r) == id
    ensures forall k :: k != "id" ==> (k in r <==> k in data) && (k in r ==> r[k] == data[k])
  {
    match id
    case Some(v) => data["id" := v]
    case None => data - {"id"}
  }

  /** `handleSaveEntry(data)` while editing `editing`: each record whose id equals the edited
      record's (an absent id matches an absent id) becomes the form data with that id. */
  function EditEntry(entries: seq<Record>, editing: Record, data: Record): (r: seq<Record>)
    ensures |r| == |entries|
    ensures forall i :: 0 <= i < |r| ==>
      r[i] == if IdOf(entries[i]) == IdOf(editing) then WithId(data, IdOf(editing)) else entries[i]
  {
    seq(|entries|, i requires 0 <= i < |entries| =>
      if IdOf(entries[i]) == IdOf(editing) then WithId(data, IdOf(editing)) else entries[i])
  }

  /** `handleSaveEntry(data)` when adding: the form data with a fresh id goes at the end. */
  function AddEntry(entries: seq<Record>, data: Record, freshId: string): (r: seq<Record>)
    ensures |r| == |entries| + 1 && r[..|entries|] == entries
    ensures IdOf(r[|entries|]) == Some(freshId)
  {
    entries + [WithId(data, Some(freshId))]
  }

  /** `handleSaveEntry(data)`: edits when a record is being edited, adds otherwise. The
      fresh id (the current time in milliseconds, as text) is a parameter. */
  function SaveEntry(entries: seq<Record>, editing: Option<Record>, data: Record, freshId: string)
    : (r: seq<Record>)
    ensures editing.None? ==>
      && |r| == |entries| + 1 && r[..|entries|] == entries
      && IdOf(r[|entries|]) == Some(freshId)
      && forall k :: k != "id" ==> (k in r[|entries|] <==> k in data) && (k in data ==> r[|entries|][k] == data[k])
    ensures editing.Some? ==>
      && |r| == |entries|
      && forall i :: 0 <= i < |r| ==>
           if IdOf(entries[i]) == IdOf(editing.value) then
             && IdOf(r[i]) == IdOf(editing.value)
             && forall k :: k != "id" ==> (k in r[i] <==> k in data) && (k in data ==> r[i][k] == data[k])
           else r[i] == entries[i]
  {
    match editing
    case Some(e) => EditEntry(entries, e, data)
    case None => AddEntry(entries, data, freshId)
  }

  /** Ids are unique in the list. */
  predicate UniqueIds(entries: seq<Record>) {
    forall i, j :: 0 <= i < j < |entries| && IdOf(entries[i]).Some? ==> IdOf(entries[i]) != IdOf(entries[j])
  }

  /** Editing a record of a list with unique ids replaces that record alone, keeps its id,
      and keeps the ids unique. */
  lemma EditReplacesOne(entries: seq<Record>, k: nat, data: Record)
    requires UniqueIds(entries) && k < |entries| && IdOf(entries[k]).Some?
    ensures var r := SaveEntry(entries, Some(entries[k]), data, "");
      && r[k] == WithId(data, IdOf(entries[k]))
      && (forall i :: 0 <= i < |r| && i != k ==> r[i] == entries[i])
      && UniqueIds(r)
  {
    var r := SaveEntry(entries, Some(entries[k]), data, "");
    forall i | 0 <= i < |r| && i != k ensures r[i] == entries[i] {
      if i < k {
        assert IdOf(entries[i]).Some? ==> IdOf(entries[i]) != IdOf(entries[k]);
      } else {
        assert IdOf(entries[k]) != IdOf(entries[i]);
      }
    }
    forall i | 0 <= i < |r| ensures IdOf(r[i]) == IdOf(entries[i]) {
    }
  }

  /** Adding a record under an id not yet used and then deleting that id gives back the
      original list. */
  lemma AddThenDelete(entries: seq<Record>, data: Record, freshId: string)
    requires forall i :: 0 <= i < |entries| ==> IdOf(entries[i]) != Some(freshId)
    ensures DeleteEntry(SaveEntry(entries, None, data, freshId), freshId) == entries
  {
    var added := WithId(data, Some(freshId));
    FilterAppend(entries, [added], OtherId(freshId));
    FilterAll(entries, OtherId(freshId));
    assert Filter([added], OtherId(freshId)) == [];
  }

  // ---------------------------------------------------------------------------
  // The alert list
  // ---------------------------------------------------------------------------

  /** A record's opinion ends no later than ten days after today. A record whose ending
      date does not read as a date is not included (the comparison with an invalid date
      is false). */
  predicate DueForAlert(r: Record, today: CalendarDate) {
    var end := ParseIso(Field(r, "endingDate"));
    end.Some? && DayNumber(end.value) <= DayNumber(today) + 10
  }

  datatype AlertOutcome =
    | NoEmailConfig
    | NothingToSend
    | ConfirmSend(entries: seq<Record>)

  /** `handleSendAlert()`: without an e-mail configuration nothing happens; otherwise the
      records due for an alert are collected, and an empty collection is reported. */
  function SendAlert(hasConfig: bool, entries: seq<Record>, today: CalendarDate): (r: AlertOutcome)
    ensures r == NoEmailConfig <==> !hasConfig
    ensures r == NothingToSend <==>
      hasConfig && forall i :: 0 <= i < |entries| ==> !DueForAlert(entries[i], today)
    ensures r.ConfirmSend? ==>
      && |r.entries| > 0
      && IsSubsequence(r.entries, entries)
      && (forall i :: 0 <= i < |r.entries| ==> DueForAlert(r.entries[i], today))
      && forall x :: multiset(r.entries)[x] == if DueForAlert(x, today) then multiset(entries)[x] else 0
  {
    if !hasConfig then NoEmailConfig
    else
      var due := Filter(entries, (e: Record) => DueForAlert(e, today));
      if |due| == 0 then
        assert forall i :: 0 <= i < |entries| ==> !DueForAlert(entries[i], today) by {
          forall i | 0 <= i < |entries| ensures !DueForAlert(entries[i], today) {
            FilterMember(entries, (e: Record) => DueForAlert(e, today), entries[i]);
          }
        }
        NothingToSend
      else
        assert DueForAlert(due[0], today);
        FilterMember(entries, (e: Record) => DueForAlert(e, today), due[0]);
        forall x ensures multiset(due)[x] == if DueForAlert(x, today) then multiset(entries)[x] else 0 {
          FilterCount(entries, (e: Record) => DueForAlert(e, today), x);
        }
        ConfirmSend(due)
  }

  /** Every due record is in the alert list, expired ones included. */
  lemma AlertListComplete(entries: seq<Record>, today: CalendarDate, i: nat)
    requires i < |entries| && DueForAlert(entries[i], today)
    ensures SendAlert(true, entries, today).ConfirmSend?
    ensures entries[i] in SendAlert(true, entries, today).entries
  {
    FilterMember(entries, (e: Record) => DueForAlert(e, today), entries[i]);
  }

  /** A record whose opinion already ended is always due. */
  lemma ExpiredIsDue(r: Record, today: CalendarDate)
    requires ParseIso(Field(r, "endingDate")).Some?
    requires DayNumber(ParseIso(Field(r, "endingDate")).value) < DayNumber(today)
    ensures DueForAlert(r, today)
  {
  }
}

/**
 * The therapist roster: the list of therapists and the weekly schedule that maps each
 * working weekday's Greek name to the therapists on duty that day. Older saved data
 * stores a therapist as a bare name; newer data stores a name and a therapy type.
 */
module Roster {
  import opened Wrappers
  import opened Text
  import opened Lists

  datatype Therapist =
    | NameOnly(name: string)
    | Typed(name: string, therapyType: string)

  /** Weekday name to the therapists rostered on it. */
  type Schedule = map<string, seq<Therapist>>

  /** The five working weekdays, Monday to Friday, by their Greek names. */
  const Weekdays: seq<string> := ["Δευτέρα", "Τρίτη", "Τετάρτη", "Πέμπτη", "Παρασκευή"]

  /** No two therapists in the list share a name. */
  predicate NamesUnique(ts: seq<Therapist>) {
    forall i, j :: 0 <= i < j < |ts| ==> ts[i].name != ts[j].name
  }

  /** `handleAddTherapist(day, t)`: `t` joins the end of that day's list, even when it is
      already there; every other day is left as it was. */
  function AddTherapist(s: Schedule, day: string, t: Therapist): (r: Schedule)
    requires day in s
    ensures r.Keys == s.Keys
    ensures |r[day]| == |s[day]| + 1 && r[day][..|s[day]|] == s[day] && r[day][|s[day]|] == t
    ensures forall d :: d in s && d != day ==> r[d] == s[d]
  {
    s[day := s[day] + [t]]
  }

  /** `xs.filter((_, i) => i !== index)`: drops the element at `index` when there is one. */
  function DropIndex<T>(xs: seq<T>, index: int): (r: seq<T>)
    ensures 0 <= index < |xs| ==> r == xs[..index] + xs[index + 1..]
    ensures !(0 <= index < |xs|) ==> r == xs
  {
    if |xs| == 0 then []
    else
      var rest := DropIndex(xs[1..], index - 1);
      if index == 0 then
        rest
      else
        assert xs == [xs[0]] + xs[1..];
        [xs[0]] + rest
  }

  /** `handleRemoveTherapist(day, index)`: removes exactly the therapist at that position of
      that day, and changes nothing when the position is out of range. */
  function RemoveTherapist(s: Schedule, day: string, index: int): (r: Schedule)
    requires day in s
    ensures r.Keys == s.Keys
    ensures 0 <= index < |s[day]| ==> r[day] == s[day][..index] + s[day][index + 1..]
    ensures !(0 <= index < |s[day]|) ==> r == s
    ensures forall d :: d in s && d != day ==> r[d] == s[d]
  {
    s[day := DropIndex(s[day], index)]
  }

  /** The predicate `handleDeleteTherapist` filters with: the entry has another name. */
  function NotNamed(name: string): Therapist -> bool {
    (t: Therapist) => t.name != name
  }

  datatype Roster = Roster(therapists: seq<Therapist>, schedule: Schedule)

  /** `handleDeleteTherapist(t)`: every entry with `t`'s name leaves the therapist list and
      every weekday's list; the schedule is rebuilt with exactly the five weekdays. */
  function DeleteTherapist(therapists: seq<Therapist>, s: Schedule, name: string): (r: Roster)
    requires forall i :: 0 <= i < |Weekdays| ==> Weekdays[i] in s
    ensures forall i :: 0 <= i < |r.therapists| ==> r.therapists[i].name != name
    ensures IsSubsequence(r.therapists, therapists)
    ensures r.schedule.Keys == set i | 0 <= i < |Weekdays| :: Weekdays[i]
    ensures forall d :: d in r.schedule ==>
      && (forall k :: 0 <= k < |r.schedule[d]| ==> r.schedule[d][k].name != name)
      && IsSubsequence(r.schedule[d], s[d])
  {
    var keep := NotNamed(name);
    var schedule := map d | d in Weekdays :: Filter(s[d], keep);
    assert schedule.Keys == set i | 0 <= i < |Weekdays| :: Weekdays[i] by {
      forall d | d in schedule.Keys ensures exists i :: 0 <= i < |Weekdays| && Weekdays[i] == d {
        var i :| 0 <= i < |Weekdays| && Weekdays[i] == d;
      }
    }
    Roster(Filter(therapists, keep), schedule)
  }

  /** Deleting keeps every differently named entry, as often as it occurred, and keeps
      none of the deleted name. */
  lemma DeleteTherapistKeepsOthers(therapists: seq<Therapist>, s: Schedule, name: string, t: Therapist)
    requires forall i :: 0 <= i < |Weekdays| ==> Weekdays[i] in s
    ensures multiset(DeleteTherapist(therapists, s, name).therapists)[t] ==
      if t.name == name then 0 else multiset(therapists)[t]
    ensures forall i :: 0 <= i < |Weekdays| ==>
      multiset(DeleteTherapist(therapists, s, name).schedule[Weekdays[i]])[t] ==
        if t.name == name then 0 else multiset(s[Weekdays[i]])[t]
  {
    FilterCount(therapists, NotNamed(name), t);
    forall i | 0 <= i < |Weekdays|
      ensures multiset(DeleteTherapist(therapists, s, name).schedule[Weekdays[i]])[t] ==
        if t.name == name then 0 else multiset(s[Weekdays[i]])[t]
    {
      FilterCount(s[Weekdays[i]], NotNamed(name), t);
    }
  }

  datatype AddTherapistError = BlankName | MissingType | AlreadyExists

  /** Whether some entry of the list carries the name. */
  function HasName(ts: seq<Therapist>, name: string): (b: bool)
    ensures b <==> exists i :: 0 <= i < |ts| && ts[i].name == name
  {
    Any(ts, (t: Therapist) => t.name == name)
  }

  /** `handleAddNewTherapist()`: rejects a blank name, then a missing therapy type, then a
      name (after trimming) already in the list; otherwise appends the trimmed name with
      its type. */
  function AddNewTherapist(ts: seq<Therapist>, nameInput: string, therapyType: string)
    : (r: Result<seq<Therapist>, AddTherapistError>)
    ensures r == Err(BlankName) <==> IsBlank(nameInput)
    ensures r == Err(MissingType) <==> !IsBlank(nameInput) && therapyType == ""
    ensures r == Err(AlreadyExists) <==>
      && !IsBlank(nameInput) && therapyType != ""
      && exists i :: 0 <= i < |ts| && ts[i].name == Trim(nameInput)
    ensures r.Ok? ==>
      && r.value == ts + [Typed(Trim(nameInput), therapyType)]
      && Trim(nameInput) != []
      && forall i :: 0 <= i < |ts| ==> ts[i].name != Trim(nameInput)
  {
    if IsBlank(nameInput) then Err(BlankName)
    else if therapyType == "" then Err(MissingType)
    else if HasName(ts, Trim(nameInput)) then Err(AlreadyExists)
    else Ok(ts + [Typed(Trim(nameInput), therapyType)])
  }

  /** Adding a therapist keeps the names in the list unique. */
  lemma AddNewTherapistKeepsNamesUnique(ts: seq<Therapist>, nameInput: string, therapyType: string)
    requires NamesUnique(ts)
    ensures AddNewTherapist(ts, nameInput, therapyType).Ok? ==>
      NamesUnique(AddNewTherapist(ts, nameInput, therapyType).value)
  {
  }
}

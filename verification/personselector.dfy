/**
 * The person picker of the certificate screen: a search box narrows the client records
 * to those whose "last first" name contains the typed text, ignoring case.
 */
module PersonSelector {
  import opened Text
  import opened Lists
  import opened Records

  /** A name field as a template literal prints it: a missing field prints `undefined`. */
  function NameText(r: Record, key: string): string {
    if key in r then r[key] else "undefined"
  }

  /** `${entry.lastName} ${entry.firstName}`. */
  function FullName(r: Record): (s: string)
    ensures var last := NameText(r, "lastName");
      && |s| == |last| + 1 + |NameText(r, "firstName")|
      && s[..|last|] == last
      && s[|last|] == ' '
      && s[|last| + 1..] == NameText(r, "firstName")
  {
    NameText(r, "lastName") + " " + NameText(r, "firstName")
  }

  /** Whether a record's full name, lower-cased, contains the lower-cased term. The
      lower-casing `toLowerCase` is a parameter. */
  function Matches(term: string, lower: string -> string): Record -> bool {
    (r: Record) => Contains(lower(FullName(r)), lower(term))
  }

  /** `filteredEntries`: the matching records, in the order they were given. */
  function FilterPersons(entries: seq<Record>, term: string, lower: string -> string): (r: seq<Record>)
    ensures IsSubsequence(r, entries)
    ensures forall x :: x in r <==> x in entries && Contains(lower(FullName(x)), lower(term))
    ensures forall x ::
              multiset(r)[x] == if Contains(lower(FullName(x)), lower(term)) then multiset(entries)[x] else 0
  {
    var r := Filter(entries, Matches(term, lower));
    forall x ensures x in r <==> x in entries && Contains(lower(FullName(x)), lower(term)) {
      FilterMember(entries, Matches(term, lower), x);
    }
    forall x ensures multiset(r)[x] ==
      if Contains(lower(FullName(x)), lower(term)) then multiset(entries)[x] else 0
    {
      FilterCount(entries, Matches(term, lower), x);
    }
    r
  }

  /** With an empty search box every record is listed. */
  lemma EmptyTermListsAll(entries: seq<Record>, lower: string -> string)
    requires lower("") == ""
    ensures FilterPersons(entries, "", lower) == entries
  {
    forall i | 0 <= i < |entries| ensures Matches("", lower)(entries[i]) {
      ContainsEmpty(lower(FullName(entries[i])));
    }
    FilterAll(entries, Matches("", lower));
  }

  /** Typing more narrows the list: searching for a longer term filters the result of
      searching for any part of it. */
  lemma LongerTermNarrows(entries: seq<Record>, short: string, long: string, lower: string -> string)
    requires Contains(lower(long), lower(short))
    ensures FilterPersons(entries, long, lower) == Filter(FilterPersons(entries, short, lower), Matches(long, lower))
  {
    forall x | Matches(long, lower)(x) ensures Matches(short, lower)(x) {
      ContainsTransitive(lower(FullName(x)), lower(long), lower(short));
    }
    FilterNarrow(entries, Matches(short, lower), Matches(long, lower));
  }

  /** Searching twice with the same term changes nothing. */
  lemma SearchIdempotent(entries: seq<Record>, term: string, lower: string -> string)
    ensures FilterPersons(FilterPersons(entries, term, lower), term, lower) == FilterPersons(entries, term, lower)
  {
    FilterIdempotent(entries, Matches(term, lower));
  }
}

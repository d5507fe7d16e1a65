/**
 * The add/edit form for a client record: loading the form from a record, editing one
 * field, the live total of the five session counts, and the checks run on submit.
 */
module EntryForm {
  import opened Wrappers
  import opened Text
  import opened Lists
  import opened Calendar
  import opened Records

  /** The seventeen fields of the form, in the order the form declares them. */
  const FormFields: seq<string> := [
    "firstName", "lastName", "startingDate", "endingDate", "childAmka", "parentAmka",
    "phone", "opinionCode", "opinionValue", "taxisUsername", "taxisPassword",
    "logo", "ergo", "psycho", "mp", "eid", "comments"]

  /** The five session-count fields: speech, occupational, psychological, special
      education and the last special category, as the form labels them. */
  const SessionFields: seq<string> := ["logo", "ergo", "psycho", "mp", "eid"]

  /** The form state when it opens: each form field from the record being edited (empty
      when absent), or every field empty for a new record. Other keys of the record are
      not carried into the form. */
  function LoadForm(entry: Option<Record>): (r: Record)
    ensures r.Keys == set i | 0 <= i < |FormFields| :: FormFields[i]
    ensures forall k :: k in r ==> r[k] == (if entry.Some? then Field(entry.value, k) else "")
  {
    map k | k in FormFields :: if entry.Some? then Field(entry.value, k) else ""
  }

  /** Loading the form from a form it produced changes nothing: every form field already
      holds text. */
  lemma LoadFormIdempotent(entry: Option<Record>)
    ensures LoadForm(Some(LoadForm(entry))) == LoadForm(entry)
  {
  }

  /** `handleInputChange`: the named field takes the typed value; nothing else changes. */
  function InputChange(form: Record, name: string, value: string): (r: Record)
    ensures r.Keys == form.Keys + {name}
    ensures Field(r, name) == value
    ensures forall k :: k != name ==> Field(r, k) == Field(form, k)
  {
    form[name := value]
  }

  // ---------------------------------------------------------------------------
  // The session total
  // ---------------------------------------------------------------------------

  /** `parseInt(x) || 0`: the number `parseInt` reads (without a radix), or 0 for `NaN`. */
  function SessionValue(s: string): int {
    ParseIntAuto(s).GetOr(0)
  }

  /** A count typed as a plain numeral counts as its value. */
  lemma SessionValueOfNumeral(n: nat)
    ensures SessionValue(NatToString(n)) == n
  {
    ParseIntReadsNumeral(n, []);
    assert NatToString(n) + [] == NatToString(n);
  }

  /** Text that is not a number counts as 0, and a `0x` prefix is read as hexadecimal. */
  lemma SessionValueExamples()
    ensures SessionValue("") == 0
    ensures SessionValue("0x1A") == 26
  {
    ParseIntAutoHex();
    assert TrimStart("") == "";
    assert SignAndBody("") == (1, "");
    assert LeadingDigits("", 10) == "";
    assert ParseIntAuto("") == None;
  }

  /** The five counts as `parseInt` reads them. */
  function SessionValues(form: Record): (r: seq<int>)
    ensures |r| == |SessionFields|
    ensures forall i :: 0 <= i < |r| ==> r[i] == SessionValue(Field(form, SessionFields[i]))
  {
    seq(|SessionFields|, i requires 0 <= i < |SessionFields| => SessionValue(Field(form, SessionFields[i])))
  }

  /** What the total cell shows: the positive sum, or a dash. */
  datatype SumDisplay = Total(n: int) | Dash

  /** `calculateSum()`: the sum of the five counts when it is positive, a dash otherwise. */
  function CalculateSum(form: Record): (r: SumDisplay)
    ensures r.Total? <==> Sum(SessionValues(form)) > 0
    ensures r.Total? ==> r.n == Sum(SessionValues(form))
  {
    var sum := Sum(SessionValues(form));
    if sum > 0 then Total(sum) else Dash
  }

  /** The sum of counts none of which is negative is positive exactly when one of them is. */
  lemma {:induction false} SumPositive(xs: seq<int>)
    requires forall i :: 0 <= i < |xs| ==> xs[i] >= 0
    ensures Sum(xs) >= 0
    ensures Sum(xs) > 0 <==> exists i :: 0 <= i < |xs| && xs[i] > 0
  {
    if |xs| > 0 {
      SumPositive(xs[1..]);
      assert forall i :: 1 <= i < |xs| ==> xs[i] == xs[1..][i - 1];
      if Sum(xs[1..]) > 0 {
        var j :| 0 <= j < |xs[1..]| && xs[1..][j] > 0;
        assert xs[j + 1] > 0;
      }
    }
  }

  /** When every count is typed as a numeral, the total is the sum of those numbers, and
      the dash shows exactly when they are all zero. */
  lemma CalculateSumOfNumerals(form: Record, ns: seq<nat>)
    requires |ns| == |SessionFields|
    requires forall i :: 0 <= i < |ns| ==> Field(form, SessionFields[i]) == NatToString(ns[i])
    ensures SessionValues(form) == ns
    ensures CalculateSum(form) == Dash <==> forall i :: 0 <= i < |ns| ==> ns[i] == 0
    ensures CalculateSum(form).Total? ==> CalculateSum(form).n == Sum(ns)
  {
    SessionValuesOfNumerals(form, ns);
    var vs: seq<int> := ns;
    SumPositive(vs);
  }

  lemma SessionValuesOfNumerals(form: Record, ns: seq<nat>)
    requires |ns| == |SessionFields|
    requires forall i :: 0 <= i < |ns| ==> Field(form, SessionFields[i]) == NatToString(ns[i])
    ensures SessionValues(form) == ns
  {
    var vs := SessionValues(form);
    forall i | 0 <= i < |ns| ensures vs[i] == ns[i] {
      SessionValueOfNumeral(ns[i]);
    }
  }

  // ---------------------------------------------------------------------------
  // Submitting
  // ---------------------------------------------------------------------------

  datatype FormError = MissingName | MissingDates | MissingPhone | MissingSessions | StartAfterEnd

  /** `new Date(start) > new Date(end)`: both read as dates and the start is the later
      day. A date that does not read makes the comparison false. */
  predicate StartsAfterEnd(start: string, end: string) {
    var s := ParseIso(start);
    var e := ParseIso(end);
    s.Some? && e.Some? && DayNumber(s.value) > DayNumber(e.value)
  }

  /** Some session-count field is blank. */
  predicate SessionsMissing(form: Record) {
    exists i :: 0 <= i < |SessionFields| && IsBlank(Field(form, SessionFields[i]))
  }

  /** Both names and both dates are filled in: the first two checks pass. */
  predicate NamesAndDatesGiven(form: Record) {
    && !IsBlank(Field(form, "firstName")) && !IsBlank(Field(form, "lastName"))
    && Field(form, "startingDate") != "" && Field(form, "endingDate") != ""
  }

  /** `handleSubmit`: the checks in the order the form runs them, each error raised
      exactly when every earlier check passes and its own fails; a form that passes them
      all is saved as it stands. */
  function HandleSubmit(form: Record): (r: Result<Record, FormError>)
    ensures r == Err(MissingName) <==> IsBlank(Field(form, "firstName")) || IsBlank(Field(form, "lastName"))
    ensures r == Err(MissingDates) <==>
      && !IsBlank(Field(form, "firstName")) && !IsBlank(Field(form, "lastName"))
      && (Field(form, "startingDate") == "" || Field(form, "endingDate") == "")
    ensures r == Err(MissingPhone) <==> NamesAndDatesGiven(form) && IsBlank(Field(form, "phone"))
    ensures r == Err(MissingSessions) <==>
      && NamesAndDatesGiven(form) && !IsBlank(Field(form, "phone"))
      && SessionsMissing(form)
    ensures r == Err(StartAfterEnd) <==>
      && NamesAndDatesGiven(form) && !IsBlank(Field(form, "phone"))
      && !SessionsMissing(form)
      && StartsAfterEnd(Field(form, "startingDate"), Field(form, "endingDate"))
    ensures r.Ok? <==>
      && NamesAndDatesGiven(form)
      && !IsBlank(Field(form, "phone"))
      && !SessionsMissing(form)
      && !StartsAfterEnd(Field(form, "startingDate"), Field(form, "endingDate"))
    ensures r.Ok? ==> r.value == form
  {
    if IsBlank(Field(form, "firstName")) || IsBlank(Field(form, "lastName")) then Err(MissingName)
    else if Field(form, "startingDate") == "" || Field(form, "endingDate") == "" then Err(MissingDates)
    else if IsBlank(Field(form, "phone")) then Err(MissingPhone)
    else if SessionsMissing(form) then Err(MissingSessions)
    else if StartsAfterEnd(Field(form, "startingDate"), Field(form, "endingDate")) then Err(StartAfterEnd)
    else Ok(form)
  }

  /** An accepted form whose dates both read as dates starts no later than it ends; a
      start on the same day as the end is accepted. */
  lemma AcceptedDatesOrdered(form: Record)
    requires HandleSubmit(form).Ok?
    requires ParseIso(Field(form, "startingDate")).Some? && ParseIso(Field(form, "endingDate")).Some?
    ensures DayNumber(ParseIso(Field(form, "startingDate")).value)
      <= DayNumber(ParseIso(Field(form, "endingDate")).value)
  {
  }

  /** The date check passes dates that do not read as dates at all. */
  lemma UnreadableDatesPass(start: string, end: string)
    requires ParseIso(start).None?
    ensures !StartsAfterEnd(start, end) && !StartsAfterEnd(end, start)
  {
  }

  /** A count of zero is present, not blank: a form with every count `0` is accepted
      when its other fields are filled in, and its total shows a dash. */
  lemma ZeroCountsAccepted(form: Record)
    requires forall i :: 0 <= i < |SessionFields| ==> Field(form, SessionFields[i]) == "0"
    ensures !SessionsMissing(form)
    ensures CalculateSum(form) == Dash
  {
    var zeros: seq<nat> := [0, 0, 0, 0, 0];
    assert NatToString(0) == "0";
    CalculateSumOfNumerals(form, zeros);
  }
}

/**
 * The e-mail notification settings form: the sender account, its password, the mail
 * service and the address alerts go to. Saving checks that the fields are filled in and
 * that both addresses have the shape `local@domain.tld`.
 */
module EmailConfig {
  import opened Wrappers
  import opened Text

  // ---------------------------------------------------------------------------
  // Address shape
  // ---------------------------------------------------------------------------

  /** A character of the class `[^\s@]`. */
  predicate Plain(c: char) {
    !IsSpace(c) && c != '@'
  }

  predicate AllPlain(s: string) {
    forall k :: 0 <= k < |s| ==> Plain(s[k])
  }

  /** The pattern `^[^\s@]+@[^\s@]+\.[^\s@]+$`: a non-empty run of plain characters, an
      `@`, a non-empty plain run, a dot, and a non-empty plain run to the end. The dot may
      be any dot of the domain that is neither its first nor its last character. */
  ghost predicate MatchesPattern(s: string) {
    exists i, j :: 0 < i && i + 1 < j && j + 1 < |s|
      && s[i] == '@' && s[j] == '.'
      && AllPlain(s[..i]) && AllPlain(s[i + 1..j]) && AllPlain(s[j + 1..])
  }

  /** The position of the first occurrence of `c` in `s`. */
  function IndexOf(s: string, c: char): (r: Option<nat>)
    ensures r.None? <==> c !in s
    ensures r.Some? ==> r.value < |s| && s[r.value] == c && c !in s[..r.value]
  {
    if |s| == 0 then None
    else if s[0] == c then Some(0)
    else
      match IndexOf(s[1..], c)
      case None => None
      case Some(k) =>
        assert s[..k + 1] == [s[0]] + s[1..][..k];
        Some(k + 1)
  }

  /** A dot strictly inside the domain part. */
  predicate HasInnerDot(d: string) {
    exists k :: 0 < k < |d| - 1 && d[k] == '.'
  }

  /** `isValidEmail(email)`: no white space, one `@` with something before it, and a dot
      strictly inside what follows it. */
  function IsValidEmail(s: string): bool {
    && (forall k :: 0 <= k < |s| ==> !IsSpace(s[k]))
    && match IndexOf(s, '@')
       case None => false
       case Some(at) => at > 0 && '@' !in s[at + 1..] && HasInnerDot(s[at + 1..])
  }

  /** The address check accepts exactly the strings the pattern matches. */
  lemma IsValidEmailIff(s: string)
    ensures IsValidEmail(s) <==> MatchesPattern(s)
  {
    if IsValidEmail(s) {
      ValidEmailMatches(s);
    }
    if MatchesPattern(s) {
      MatchingEmailValid(s);
    }
  }

  /** An accepted address matches the pattern, split at its `@` and a dot inside the domain. */
  lemma ValidEmailMatches(s: string)
    requires IsValidEmail(s)
    ensures MatchesPattern(s)
  {
    var at := IndexOf(s, '@').value;
    var d := s[at + 1..];
    var k :| 0 < k < |d| - 1 && d[k] == '.';
    var j := at + 1 + k;
    assert s[j] == '.';
    assert AllPlain(s[..at]);
    var mid, tail := s[at + 1..j], s[j + 1..];
    assert AllPlain(mid) by {
      forall m | 0 <= m < |mid| ensures Plain(mid[m]) {
        assert mid[m] == d[m];
      }
    }
    assert AllPlain(tail) by {
      forall m | 0 <= m < |tail| ensures Plain(tail[m]) {
        assert tail[m] == d[k + 1 + m];
      }
    }
  }

  /** A string matching the pattern passes the address check. */
  lemma MatchingEmailValid(s: string)
    requires MatchesPattern(s)
    ensures IsValidEmail(s)
  {
    var i, j :| 0 < i && i + 1 < j && j + 1 < |s|
      && s[i] == '@' && s[j] == '.'
      && AllPlain(s[..i]) && AllPlain(s[i + 1..j]) && AllPlain(s[j + 1..]);
    PatternCharacters(s, i, j);
    assert '@' in s;
    var at := IndexOf(s, '@').value;
    assert at == i;
    var d := s[i + 1..];
    assert d[j - i - 1] == '.';
    assert '@' !in d by {
      forall m | 0 <= m < |d| ensures d[m] != '@' {
        assert d[m] == s[i + 1 + m];
      }
    }
  }

  /** In a string split as the pattern asks, no character is white space and the only
      `@` is the one at the split. */
  lemma PatternCharacters(s: string, i: nat, j: nat)
    requires i < j < |s| && s[i] == '@' && s[j] == '.'
    requires AllPlain(s[..i]) && AllPlain(s[i + 1..j]) && AllPlain(s[j + 1..])
    ensures forall m :: 0 <= m < |s| ==> !IsSpace(s[m]) && (m != i ==> s[m] != '@')
  {
    forall m | 0 <= m < |s| ensures !IsSpace(s[m]) && (m != i ==> s[m] != '@') {
      if m < i {
        assert s[m] == s[..i][m];
      } else if i < m < j {
        assert s[m] == s[i + 1..j][m - i - 1];
      } else if j < m {
        assert s[m] == s[j + 1..][m - j - 1];
      }
    }
  }

  /** An accepted address has no white space and exactly one `@`, with a dot after it. */
  lemma ValidEmailOneAt(s: string)
    requires IsValidEmail(s)
    ensures forall k :: 0 <= k < |s| ==> !IsSpace(s[k])
    ensures exists i :: 0 < i < |s| && s[i] == '@'
    ensures forall i, j :: 0 <= i < |s| && 0 <= j < |s| && s[i] == '@' && s[j] == '@' ==> i == j
  {
    var at := IndexOf(s, '@').value;
    assert forall i :: 0 <= i < |s| && s[i] == '@' ==> i == at;
  }

  /** Examples: a plain address passes; two `@`, a missing local part, a dot at the end
      of the domain, and a space all fail. */
  lemma IsValidEmailExamples()
    ensures IsValidEmail("a@b.gr")
    ensures !IsValidEmail("a@b@c.gr")
    ensures !IsValidEmail("@b.gr")
    ensures !IsValidEmail("a@b.")
    ensures !IsValidEmail("a b@c.gr")
  {
    PlainAddressAccepted();
    TwoAtsRejected();
    NoLocalPartRejected();
    TrailingDotRejected();
    SpaceRejected();
  }

  lemma PlainAddressAccepted()
    ensures IsValidEmail("a@b.gr")
  {
    assert IndexOf("a@b.gr", '@') == Some(1);
    assert "a@b.gr"[2..] == "b.gr" && "b.gr"[1] == '.';
  }

  lemma TwoAtsRejected()
    ensures !IsValidEmail("a@b@c.gr")
  {
    assert IndexOf("a@b@c.gr", '@') == Some(1);
    assert "a@b@c.gr"[2..][1] == '@';
  }

  lemma NoLocalPartRejected()
    ensures !IsValidEmail("@b.gr")
  {
    assert IndexOf("@b.gr", '@') == Some(0);
  }

  lemma TrailingDotRejected()
    ensures !IsValidEmail("a@b.")
  {
    assert IndexOf("a@b.", '@') == Some(1);
    assert "a@b."[2..] == "b.";
  }

  lemma SpaceRejected()
    ensures !IsValidEmail("a b@c.gr")
  {
    assert IsSpace("a b@c.gr"[1]);
  }

  // ---------------------------------------------------------------------------
  // The form
  // ---------------------------------------------------------------------------

  datatype Settings = Settings(user: string, password: string, service: string, notifyEmail: string)

  /** The form before any saved settings arrive. */
  const EmptySettings: Settings := Settings("", "", "gmail", "")

  datatype FormState = FormState(form: Settings, isEditing: bool)

  /** Saved settings arriving replace the form; without them the form stays. */
  function LoadConfig(st: FormState, config: Option<Settings>): (r: FormState)
    ensures r.isEditing == st.isEditing
    ensures r.form == config.GetOr(st.form)
  {
    match config
    case Some(c) => FormState(c, st.isEditing)
    case None => st
  }

  datatype SaveError = MissingField | InvalidAddress

  /** `handleSave()`: the user, password and notification address must be filled in,
      then both addresses must have the address shape. On success the form's settings are
      handed on for saving and editing ends; on failure nothing changes. The service and
      the password are never checked beyond that. */
  function HandleSave(st: FormState): (r: (Result<Settings, SaveError>, FormState))
    ensures r.0 == Err(MissingField) <==> st.form.user == "" || st.form.password == "" || st.form.notifyEmail == ""
    ensures r.0 == Err(InvalidAddress) <==>
      && st.form.user != "" && st.form.password != "" && st.form.notifyEmail != ""
      && !(MatchesPattern(st.form.user) && MatchesPattern(st.form.notifyEmail))
    ensures r.0.Ok? ==> r.0.value == st.form && r.1 == FormState(st.form, false)
    ensures r.0.Err? ==> r.1 == st
  {
    IsValidEmailIff(st.form.user);
    IsValidEmailIff(st.form.notifyEmail);
    var f := st.form;
    if f.user == "" || f.password == "" || f.notifyEmail == "" then (Err(MissingField), st)
    else if !IsValidEmail(f.user) || !IsValidEmail(f.notifyEmail) then (Err(InvalidAddress), st)
    else (Ok(f), FormState(f, false))
  }

  /** `handleCancel()`: editing ends and the form goes back to the saved settings, when
      there are any. */
  function HandleCancel(st: FormState, config: Option<Settings>): (r: FormState)
    ensures !r.isEditing
    ensures config.Some? ==> r.form == config.value
    ensures config.None? ==> r.form == st.form
  {
    FormState(config.GetOr(st.form), false)
  }

  /** `handleInputChange` for the four fields. */
  function InputChange(f: Settings, name: string, value: string): (r: Settings)
    ensures name == "user" ==> r == f.(user := value)
    ensures name == "password" ==> r == f.(password := value)
    ensures name == "service" ==> r == f.(service := value)
    ensures name == "notifyEmail" ==> r == f.(notifyEmail := value)
    ensures name !in {"user", "password", "service", "notifyEmail"} ==> r == f
  {
    if name == "user" then f.(user := value)
    else if name == "password" then f.(password := value)
    else if name == "service" then f.(service := value)
    else if name == "notifyEmail" then f.(notifyEmail := value)
    else f
  }

  /** Whatever was typed, cancelling with saved settings brings them back unchanged. */
  lemma CancelDiscardsEdits(st: FormState, config: Settings, name: string, value: string)
    ensures HandleCancel(FormState(InputChange(st.form, name, value), true), Some(config))
      == FormState(config, false)
  {
  }

  /** Saved settings always hold two well-formed addresses and a password; saving them
      again succeeds with the same settings. */
  lemma SavedSettingsResave(st: FormState)
    requires HandleSave(st).0.Ok?
    ensures var s := HandleSave(st).0.value;
      && MatchesPattern(s.user) && MatchesPattern(s.notifyEmail) && s.password != ""
      && HandleSave(FormState(s, true)).0 == Ok(s)
  {
  }
}

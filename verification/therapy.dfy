/**
 * Post-processing of the text read from a therapy referral document: the canonical
 * therapy names, the per-type session totals, and the binding of each referral
 * (a session count with a validity period) to the therapy name that follows it.
 */
module Therapy {
  import opened Wrappers
  import opened Text
  import opened Lists
  import opened Sorting
  import opened Roster
  import opened Distributor

  // ---------------------------------------------------------------------------
  // normalizeTherapyType
  // ---------------------------------------------------------------------------

  /** The four therapy kinds the application knows, in the order they are recognised. */
  datatype Category = Speech | Occupational | Behavioural | SpecialPhysio

  /** Recognition priority: a lower rank is tried first. */
  function Rank(c: Category): nat {
    match c
    case Speech => 0
    case Occupational => 1
    case Behavioural => 2
    case SpecialPhysio => 3
  }

  /** The display name each kind is normalised to. */
  function CanonicalName(c: Category): string {
    match c
    case Speech => "Λογοθεραπεία"
    case Occupational => "Εργοθεραπεία"
    case Behavioural => "Θεραπεία Συμπεριφοράς"
    case SpecialPhysio => "Ειδική Αγωγή - Φυσικοθεραπεία"
  }

  /** The accent-stripping map applied after upper-casing: each accented Greek vowel,
      capital or small, becomes the plain capital; all other characters stay. */
  function StripAccentChar(c: char): char {
    if c == 'Ά' || c == 'ά' then 'Α'
    else if c == 'Έ' || c == 'έ' then 'Ε'
    else if c == 'Ή' || c == 'ή' then 'Η'
    else if c == 'Ί' || c == 'ί' then 'Ι'
    else if c == 'Ό' || c == 'ό' then 'Ο'
    else if c == 'Ύ' || c == 'ύ' then 'Υ'
    else if c == 'Ώ' || c == 'ώ' then 'Ω'
    else c
  }

  /** The accent-stripped, upper-cased form the name is matched against. */
  function TherapyKey(t: string): (k: string)
    ensures |k| == |t|
    ensures forall i :: 0 <= i < |t| ==> k[i] == StripAccentChar(UpperChar(t[i]))
  {
    var u := Upper(t);
    seq(|u|, i requires 0 <= i < |u| => StripAccentChar(u[i]))
  }

  /** Whether the key names the kind, by the substrings the source looks for. */
  predicate Mentions(k: string, c: Category) {
    match c
    case Speech => Contains(k, "ΛΟΓΟΘΕΡΑΠΕΙ") || Contains(k, "ΛΟΓΟΘΕΡΑΠΙ")
    case Occupational => Contains(k, "ΕΡΓΟΘΕΡΑΠΕΙ") || Contains(k, "ΕΡΓΟΘΕΡΑΠΙ")
    case Behavioural => Contains(k, "ΣΥΜΠΕΡΙΦΟΡΑΣ") || Contains(k, "ΣΥΜΠΕΡΙΦΟΡΑ")
    case SpecialPhysio => Contains(k, "ΕΙΔΙΚΗ") && Contains(k, "ΦΥΣΙΚΟΘΕΡΑΠΕΙΑ")
  }

  /** The kind chosen for a key: the mentioned kind of lowest rank, if any. */
  predicate ChosenFor(k: string, c: Category) {
    Mentions(k, c) && forall c' :: Rank(c') < Rank(c) ==> !Mentions(k, c')
  }

  /** A key that mentions no kind at all. */
  predicate Unrecognised(k: string) {
    forall c :: !Mentions(k, c)
  }

  /** `normalizeTherapyType(type)`: the canonical name of the first kind the key mentions,
      in the order speech, occupational, behavioural, special education; a name that
      mentions none is returned as given. */
  function NormalizeTherapyType(t: string): (r: string)
    ensures forall c :: ChosenFor(TherapyKey(t), c) ==> r == CanonicalName(c)
    ensures Unrecognised(TherapyKey(t)) ==> r == t
  {
    var k := TherapyKey(t);
    if Mentions(k, Speech) then CanonicalName(Speech)
    else if Mentions(k, Occupational) then CanonicalName(Occupational)
    else if Mentions(k, Behavioural) then CanonicalName(Behavioural)
    else if Mentions(k, SpecialPhysio) then CanonicalName(SpecialPhysio)
    else t
  }

  /** Some kind is always chosen for a key that mentions one. */
  lemma ChosenExists(k: string)
    requires !Unrecognised(k)
    ensures exists c :: ChosenFor(k, c)
  {
    if Mentions(k, Speech) {
      assert ChosenFor(k, Speech);
    } else if Mentions(k, Occupational) {
      assert ChosenFor(k, Occupational);
    } else if Mentions(k, Behavioural) {
      assert ChosenFor(k, Behavioural);
    } else {
      assert ChosenFor(k, SpecialPhysio);
    }
  }

  /** The key of a concatenation is the concatenation of the keys. */
  lemma TherapyKeyAppend(a: string, b: string)
    ensures TherapyKey(a + b) == TherapyKey(a) + TherapyKey(b)
  {
  }

  /** The keys of the four canonical names. */
  lemma SpeechKey()
    ensures TherapyKey(CanonicalName(Speech)) == "ΛΟΓΟΘΕΡΑΠΕΙΑ"
  {
  }

  lemma OccupationalKey()
    ensures TherapyKey(CanonicalName(Occupational)) == "ΕΡΓΟΘΕΡΑΠΕΙΑ"
  {
  }

  lemma BehaviouralKey()
    ensures TherapyKey(CanonicalName(Behavioural)) == "ΘΕΡΑΠΕΙΑ " + "ΣΥΜΠΕΡΙΦΟΡΑΣ"
  {
    TherapyKeyAppend("Θεραπεία ", "Συμπεριφοράς");
    assert CanonicalName(Behavioural) == "Θεραπεία " + "Συμπεριφοράς";
    TherapeiaKey();
    SymperiforasKey();
  }

  lemma TherapeiaKey()
    ensures TherapyKey("Θεραπεία ") == "ΘΕΡΑΠΕΙΑ "
  {
  }

  lemma SymperiforasKey()
    ensures TherapyKey("Συμπεριφοράς") == "ΣΥΜΠΕΡΙΦΟΡΑΣ"
  {
  }

  lemma SpecialPhysioKey()
    ensures TherapyKey(CanonicalName(SpecialPhysio)) == "ΕΙΔΙΚΗ ΑΓΩΓΗ - " + "ΦΥΣΙΚΟΘΕΡΑΠΕΙΑ"
  {
    TherapyKeyAppend("Ειδική Αγωγή - ", "Φυσικοθεραπεία");
    assert CanonicalName(SpecialPhysio) == "Ειδική Αγωγή - " + "Φυσικοθεραπεία";
    SpecialEducationKey();
    PhysiotherapyKey();
  }

  lemma SpecialEducationKey()
    ensures TherapyKey("Ειδική Αγωγή - ") == "ΕΙΔΙΚΗ ΑΓΩΓΗ - "
  {
    TherapyKeyAppend("Ειδική ", "Αγωγή - ");
    assert TherapyKey("Ειδική ") == "ΕΙΔΙΚΗ ";
    assert TherapyKey("Αγωγή - ") == "ΑΓΩΓΗ - ";
  }

  lemma PhysiotherapyKey()
    ensures TherapyKey("Φυσικοθεραπεία") == "ΦΥΣΙΚΟΘΕΡΑΠΕΙΑ"
  {
  }

  /** Each canonical name is recognised as its own kind. */
  lemma CanonicalChosen(c: Category)
    ensures ChosenFor(TherapyKey(CanonicalName(c)), c)
  {
    match c
    case Speech => SpeechChosen();
    case Occupational => OccupationalChosen();
    case Behavioural => BehaviouralChosen();
    case SpecialPhysio => SpecialPhysioChosen();
  }

  lemma SpeechChosen()
    ensures ChosenFor(TherapyKey(CanonicalName(Speech)), Speech)
  {
    SpeechKey();
    assert StartsWith("ΛΟΓΟΘΕΡΑΠΕΙΑ", "ΛΟΓΟΘΕΡΑΠΕΙ");
  }

  lemma OccupationalChosen()
    ensures ChosenFor(TherapyKey(CanonicalName(Occupational)), Occupational)
  {
    OccupationalKey();
    var k := "ΕΡΓΟΘΕΡΑΠΕΙΑ";
    assert StartsWith(k, "ΕΡΓΟΘΕΡΑΠΕΙ") && 'Λ' !in k;
    OccupationalByChars(k);
  }

  lemma OccupationalByChars(k: string)
    requires StartsWith(k, "ΕΡΓΟΘΕΡΑΠΕΙ") && 'Λ' !in k
    ensures ChosenFor(k, Occupational)
  {
    NotMentionedByChars(k);
  }

  lemma BehaviouralChosen()
    ensures ChosenFor(TherapyKey(CanonicalName(Behavioural)), Behavioural)
  {
    BehaviouralKey();
    BehaviouralKeyChosen();
  }

  /** The key both spellings of behavioural therapy share is recognised as such. */
  lemma BehaviouralKeyChosen()
    ensures ChosenFor("ΘΕΡΑΠΕΙΑ " + "ΣΥΜΠΕΡΙΦΟΡΑΣ", Behavioural)
  {
    assert 'Λ' !in "ΘΕΡΑΠΕΙΑ " && 'Γ' !in "ΘΕΡΑΠΕΙΑ ";
    BehaviouralByChars("ΘΕΡΑΠΕΙΑ ", "ΣΥΜΠΕΡΙΦΟΡΑΣ");
  }

  /** A head without `Λ` or `Γ` followed by `ΣΥΜΠΕΡΙΦΟΡΑΣ` is recognised as behavioural
      therapy and as nothing of higher priority. */
  lemma BehaviouralByChars(head: string, tail: string)
    requires tail == "ΣΥΜΠΕΡΙΦΟΡΑΣ" && 'Λ' !in head && 'Γ' !in head
    ensures ChosenFor(head + tail, Behavioural)
  {
    var k := head + tail;
    assert k[|head|..|head| + |tail|] == tail;
    assert OccursAt(k, tail, |head|);
    ContainsIff(k, tail);
    BehaviourChars();
    assert 'Λ' !in k && 'Γ' !in k;
    NotMentionedByChars(k);
  }

  lemma BehaviourChars()
    ensures 'Λ' !in "ΣΥΜΠΕΡΙΦΟΡΑΣ" && 'Γ' !in "ΣΥΜΠΕΡΙΦΟΡΑΣ"
  {
  }

  lemma SpecialPhysioChosen()
    ensures ChosenFor(TherapyKey(CanonicalName(SpecialPhysio)), SpecialPhysio)
  {
    SpecialPhysioKey();
    SpecialEducationHead("ΕΙΔΙΚΗ ΑΓΩΓΗ - ");
    PhysiotherapyChars();
    SpecialPhysioByChars("ΕΙΔΙΚΗ ΑΓΩΓΗ - ", "ΦΥΣΙΚΟΘΕΡΑΠΕΙΑ");
  }

  /** The two special-education heads start with `ΕΙΔΙΚΗ` and lack `Λ`, `Μ` and `Ρ`. */
  lemma SpecialEducationHead(head: string)
    requires head == "ΕΙΔΙΚΗ ΑΓΩΓΗ - " || head == "ΕΙΔΙΚΗ ΑΓΩΓΗ/"
    ensures StartsWith(head, "ΕΙΔΙΚΗ") && 'Λ' !in head && 'Μ' !in head && 'Ρ' !in head
  {
  }

  lemma PhysiotherapyChars()
    ensures 'Λ' !in "ΦΥΣΙΚΟΘΕΡΑΠΕΙΑ" && 'Μ' !in "ΦΥΣΙΚΟΘΕΡΑΠΕΙΑ" && 'Γ' !in "ΦΥΣΙΚΟΘΕΡΑΠΕΙΑ"
  {
  }

  /** A special-education head (no `Λ`, `Μ` or `Ρ`) followed by `ΦΥΣΙΚΟΘΕΡΑΠΕΙΑ` is
      recognised as special education and as nothing of higher priority. */
  lemma SpecialPhysioByChars(head: string, tail: string)
    requires StartsWith(head, "ΕΙΔΙΚΗ") && 'Λ' !in head && 'Μ' !in head && 'Ρ' !in head
    requires tail == "ΦΥΣΙΚΟΘΕΡΑΠΕΙΑ" && 'Λ' !in tail && 'Μ' !in tail && 'Γ' !in tail
    ensures ChosenFor(head + tail, SpecialPhysio)
  {
    var k := head + tail;
    assert StartsWith(k, "ΕΙΔΙΚΗ") by {
      assert k[..6] == head[..6];
    }
    assert OccursAt(k, tail, |head|);
    ContainsIff(k, tail);
    assert 'Λ' !in k && 'Μ' !in k;
    NotMentionedByChars(k);
    SplitNotOccupational(head, tail);
  }

  /** A key without the letter each pattern needs does not mention that kind. */
  lemma NotMentionedByChars(k: string)
    ensures 'Λ' !in k ==> !Mentions(k, Speech)
    ensures 'Γ' !in k ==> !Mentions(k, Occupational)
    ensures 'Μ' !in k ==> !Mentions(k, Behavioural)
  {
    if 'Λ' !in k {
      NotContainsChar(k, "ΛΟΓΟΘΕΡΑΠΕΙ", 0);
      NotContainsChar(k, "ΛΟΓΟΘΕΡΑΠΙ", 0);
    }
    if 'Γ' !in k {
      NotContainsChar(k, "ΕΡΓΟΘΕΡΑΠΕΙ", 2);
      NotContainsChar(k, "ΕΡΓΟΘΕΡΑΠΙ", 2);
    }
    if 'Μ' !in k {
      NotContainsChar(k, "ΣΥΜΠΕΡΙΦΟΡΑΣ", 2);
      NotContainsChar(k, "ΣΥΜΠΕΡΙΦΟΡΑ", 2);
    }
  }

  /** A key made of a part without `Ρ` followed by a part without `Γ` cannot hold the
      occupational-therapy patterns, whose `Ρ` comes right before their `Γ`. */
  lemma SplitNotOccupational(a: string, b: string)
    requires 'Ρ' !in a && 'Γ' !in b
    ensures !Mentions(a + b, Occupational)
  {
    NotContainsAcross(a, b, "ΕΡΓΟΘΕΡΑΠΕΙ", 1, 2);
    NotContainsAcross(a, b, "ΕΡΓΟΘΕΡΑΠΙ", 1, 2);
  }

  /** Each canonical name normalises to itself. */
  lemma NormalizeFixedPoint(c: Category)
    ensures NormalizeTherapyType(CanonicalName(c)) == CanonicalName(c)
  {
    CanonicalChosen(c);
  }

  /** Normalisation yields a canonical name or the input itself. */
  lemma NormalizeRange(t: string)
    ensures NormalizeTherapyType(t) == t ||
      exists c :: ChosenFor(TherapyKey(t), c) && NormalizeTherapyType(t) == CanonicalName(c)
  {
    if !Unrecognised(TherapyKey(t)) {
      ChosenExists(TherapyKey(t));
    }
  }

  /** Normalising twice is normalising once. */
  lemma NormalizeIdempotent(t: string)
    ensures NormalizeTherapyType(NormalizeTherapyType(t)) == NormalizeTherapyType(t)
  {
    NormalizeRange(t);
    if NormalizeTherapyType(t) != t {
      var c :| NormalizeTherapyType(t) == CanonicalName(c);
      NormalizeFixedPoint(c);
    }
  }

  /** A name normalises to a kind's canonical name exactly when that kind is the first one
      its key mentions. */
  lemma NormalizeIff(t: string, c: Category)
    ensures NormalizeTherapyType(t) == CanonicalName(c) <==> ChosenFor(TherapyKey(t), c)
  {
    var k := TherapyKey(t);
    if NormalizeTherapyType(t) == CanonicalName(c) {
      if Unrecognised(k) {
        CanonicalChosen(c);
        assert false;
      }
      ChosenExists(k);
      var c' :| ChosenFor(k, c');
      assert CanonicalName(c') == CanonicalName(c);
    }
  }

  /** Upper/lower case and accents do not matter: names with the same key that mention a
      kind normalise alike. */
  lemma NormalizeIgnoresCaseAndAccents(a: string, b: string)
    requires TherapyKey(a) == TherapyKey(b) && !Unrecognised(TherapyKey(a))
    ensures NormalizeTherapyType(a) == NormalizeTherapyType(b)
  {
    ChosenExists(TherapyKey(a));
  }

  /** The four therapy names the session totals are searched under, in search order. */
  const SessionTypes: seq<string> :=
    ["ΕΙΔΙΚΗ ΑΓΩΓΗ/ΦΥΣΙΚΟΘΕΡΑΠΕΙΑ", "ΛΟΓΟΘΕΡΑΠΕΙΑ", "ΕΡΓΟΘΕΡΑΠΕΙΑ", "ΘΕΡΑΠΕΙΑ ΣΥΜΠΕΡΙΦΟΡΑΣ"]

  /** The kind each searched name stands for. */
  const SessionKinds: seq<Category> := [SpecialPhysio, Speech, Occupational, Behavioural]

  /** Each searched name normalises to the canonical name of its kind. */
  lemma SessionTypesNormalize(i: nat)
    requires i < |SessionTypes|
    ensures NormalizeTherapyType(SessionTypes[i]) == CanonicalName(SessionKinds[i])
  {
    if i == 0 {
      SpecialPhysioSessionType();
    } else if i == 1 {
      SpeechSessionType();
    } else if i == 2 {
      OccupationalSessionType();
    } else {
      BehaviouralSessionType();
    }
  }

  lemma SpecialPhysioSessionType()
    ensures ChosenFor(TherapyKey("ΕΙΔΙΚΗ ΑΓΩΓΗ/ΦΥΣΙΚΟΘΕΡΑΠΕΙΑ"), SpecialPhysio)
  {
    SpecialPhysioSessionKey();
    SpecialEducationHead("ΕΙΔΙΚΗ ΑΓΩΓΗ/");
    PhysiotherapyChars();
    SpecialPhysioByChars("ΕΙΔΙΚΗ ΑΓΩΓΗ/", "ΦΥΣΙΚΟΘΕΡΑΠΕΙΑ");
  }

  lemma SpecialPhysioSessionKey()
    ensures TherapyKey("ΕΙΔΙΚΗ ΑΓΩΓΗ/ΦΥΣΙΚΟΘΕΡΑΠΕΙΑ") == "ΕΙΔΙΚΗ ΑΓΩΓΗ/" + "ΦΥΣΙΚΟΘΕΡΑΠΕΙΑ"
  {
    var head, tail := "ΕΙΔΙΚΗ ΑΓΩΓΗ/", "ΦΥΣΙΚΟΘΕΡΑΠΕΙΑ";
    assert "ΕΙΔΙΚΗ ΑΓΩΓΗ/ΦΥΣΙΚΟΘΕΡΑΠΕΙΑ" == head + tail;
    TherapyKeyAppend(head, tail);
    SlashHeadFixed();
    PhysiotherapyFixed();
  }

  lemma SpeechSessionType()
    ensures ChosenFor(TherapyKey("ΛΟΓΟΘΕΡΑΠΕΙΑ"), Speech)
  {
    assert TherapyKey("ΛΟΓΟΘΕΡΑΠΕΙΑ") == "ΛΟΓΟΘΕΡΑΠΕΙΑ";
    assert StartsWith("ΛΟΓΟΘΕΡΑΠΕΙΑ", "ΛΟΓΟΘΕΡΑΠΕΙ");
  }

  lemma OccupationalSessionType()
    ensures ChosenFor(TherapyKey("ΕΡΓΟΘΕΡΑΠΕΙΑ"), Occupational)
  {
    var k := "ΕΡΓΟΘΕΡΑΠΕΙΑ";
    assert TherapyKey(k) == k;
    assert StartsWith(k, "ΕΡΓΟΘΕΡΑΠΕΙ") && 'Λ' !in k;
    OccupationalByChars(k);
  }

  lemma BehaviouralSessionType()
    ensures ChosenFor(TherapyKey("ΘΕΡΑΠΕΙΑ ΣΥΜΠΕΡΙΦΟΡΑΣ"), Behavioural)
  {
    BehaviouralSessionKey();
    BehaviouralKeyChosen();
  }

  lemma BehaviouralSessionKey()
    ensures TherapyKey("ΘΕΡΑΠΕΙΑ ΣΥΜΠΕΡΙΦΟΡΑΣ") == "ΘΕΡΑΠΕΙΑ " + "ΣΥΜΠΕΡΙΦΟΡΑΣ"
  {
    var head, tail := "ΘΕΡΑΠΕΙΑ ", "ΣΥΜΠΕΡΙΦΟΡΑΣ";
    assert "ΘΕΡΑΠΕΙΑ ΣΥΜΠΕΡΙΦΟΡΑΣ" == head + tail;
    TherapyKeyAppend(head, tail);
    TherapyHeadFixed();
    BehaviourFixed();
  }

  /** The pieces of the searched names are already in key form. */
  lemma SlashHeadFixed()
    ensures TherapyKey("ΕΙΔΙΚΗ ΑΓΩΓΗ/") == "ΕΙΔΙΚΗ ΑΓΩΓΗ/"
  {
  }

  lemma PhysiotherapyFixed()
    ensures TherapyKey("ΦΥΣΙΚΟΘΕΡΑΠΕΙΑ") == "ΦΥΣΙΚΟΘΕΡΑΠΕΙΑ"
  {
  }

  lemma TherapyHeadFixed()
    ensures TherapyKey("ΘΕΡΑΠΕΙΑ ") == "ΘΕΡΑΠΕΙΑ "
  {
  }

  lemma BehaviourFixed()
    ensures TherapyKey("ΣΥΜΠΕΡΙΦΟΡΑΣ") == "ΣΥΜΠΕΡΙΦΟΡΑΣ"
  {
  }

  // ---------------------------------------------------------------------------
  // Session totals
  // ---------------------------------------------------------------------------

  /** One per-type session total: a normalised therapy name and a positive count. */
  datatype Session = Session(therapyType: string, count: int)

  /** The digit strings captured after one searched name's total, in text order. */
  datatype TypeMatches = TypeMatches(therapyType: string, captures: seq<string>)

  /** `parseInt(d, 10) > 0`; a capture that does not read as a number fails the test. */
  predicate Kept(d: string) {
    ParseIntDecimal(d).Some? && ParseIntDecimal(d).value > 0
  }

  /** The totals pushed for one searched name: one per capture that reads as a positive
      number, with that number, in capture order. */
  function SessionsOf(therapyType: string, captures: seq<string>): (r: seq<Session>)
    ensures |r| == |Filter(captures, Kept)|
    ensures forall i :: 0 <= i < |r| ==>
      && r[i].therapyType == NormalizeTherapyType(therapyType)
      && Some(r[i].count) == ParseIntDecimal(Filter(captures, Kept)[i])
      && r[i].count > 0
  {
    if |captures| == 0 then []
    else
      var rest := SessionsOf(therapyType, captures[1..]);
      var d := captures[0];
      if Kept(d) then
        assert Filter(captures, Kept) == [d] + Filter(captures[1..], Kept);
        [Session(NormalizeTherapyType(therapyType), ParseIntDecimal(d).value)] + rest
      else
        assert Filter(captures, Kept) == Filter(captures[1..], Kept);
        rest
  }

  /** The totals of each searched name, in search order. */
  function SessionGroups(found: seq<TypeMatches>): (gs: seq<seq<Session>>)
    ensures |gs| == |found|
    ensures forall j :: 0 <= j < |found| ==> gs[j] == SessionsOf(found[j].therapyType, found[j].captures)
  {
    if |found| == 0 then []
    else [SessionsOf(found[0].therapyType, found[0].captures)] + SessionGroups(found[1..])
  }

  /** The session totals of a document: the totals of each searched name in turn, laid
      end to end in search order, every one of them positive. */
  function ExtractSessions(found: seq<TypeMatches>): (r: seq<Session>)
    ensures LaidOut(r, SessionGroups(found))
    ensures forall i :: 0 <= i < |r| ==> r[i].count > 0
  {
    var gs := SessionGroups(found);
    FlattenLaidOut(gs);
    GroupedSessionsPositive(gs, Flatten(gs));
    Flatten(gs)
  }

  lemma GroupedSessionsPositive(gs: seq<seq<Session>>, r: seq<Session>)
    requires forall j, k :: 0 <= j < |gs| && 0 <= k < |gs[j]| ==> gs[j][k].count > 0
    requires forall i :: 0 <= i < |r| ==> FromGroup(r, gs, i)
    ensures forall i :: 0 <= i < |r| ==> r[i].count > 0
  {
    forall i | 0 <= i < |r| ensures r[i].count > 0 {
      assert FromGroup(r, gs, i);
    }
  }

  /** The number of captures kept over a list of searched names. */
  function KeptTotal(fs: seq<TypeMatches>): nat {
    if |fs| == 0 then 0 else |Filter(fs[0].captures, Kept)| + KeptTotal(fs[1..])
  }

  /** There are as many session totals as captures kept over all searched names. */
  lemma {:induction false} ExtractSessionsCount(found: seq<TypeMatches>)
    ensures |ExtractSessions(found)| == KeptTotal(found)
  {
    var gs := SessionGroups(found);
    assert |ExtractSessions(found)| == Place(gs, |gs|);
    if |found| > 0 {
      ExtractSessionsCount(found[1..]);
      PlaceShift(gs, |gs|);
      assert |ExtractSessions(found[1..])| == Place(gs[1..], |gs| - 1);
    }
  }

  /** Every kept capture of every searched name has its total among the document's
      totals, with the normalised name and the capture's value, after the totals of all
      earlier names. */
  lemma KeptCaptureListed(found: seq<TypeMatches>, j: nat, k: nat)
    requires j < |found| && k < |Filter(found[j].captures, Kept)|
    ensures var r := ExtractSessions(found);
      var p := Place(SessionGroups(found), j) + k;
      && p < |r|
      && r[p].therapyType == NormalizeTherapyType(found[j].therapyType)
      && Some(r[p].count) == ParseIntDecimal(Filter(found[j].captures, Kept)[k])
  {
    SessionOfKeptCapture(found[j].therapyType, found[j].captures, k);
    GroupTotalPlaced(found, j, k);
  }

  /** The `k`-th total of the `j`-th searched name sits at its place in the totals. */
  lemma GroupTotalPlaced(found: seq<TypeMatches>, j: nat, k: nat)
    requires j < |found| && k < |SessionsOf(found[j].therapyType, found[j].captures)|
    ensures Place(SessionGroups(found), j) + k < |ExtractSessions(found)|
    ensures ExtractSessions(found)[Place(SessionGroups(found), j) + k]
         == SessionsOf(found[j].therapyType, found[j].captures)[k]
  {
    var gs := SessionGroups(found);
    assert gs[j] == SessionsOf(found[j].therapyType, found[j].captures);
    LaidOutAt(ExtractSessions(found), gs, j, k);
  }

  /** The total pushed for the `k`-th kept capture of one searched name. */
  lemma SessionOfKeptCapture(therapyType: string, captures: seq<string>, k: nat)
    requires k < |Filter(captures, Kept)|
    ensures k < |SessionsOf(therapyType, captures)|
    ensures SessionsOf(therapyType, captures)[k].therapyType == NormalizeTherapyType(therapyType)
    ensures Some(SessionsOf(therapyType, captures)[k].count) == ParseIntDecimal(Filter(captures, Kept)[k])
  {
  }

  /** Every session total is the total of some kept capture of some searched name. */
  lemma ListedFromKeptCapture(found: seq<TypeMatches>, i: nat)
    requires i < |ExtractSessions(found)|
    ensures exists j, k ::
              && 0 <= j < |found| && 0 <= k < |Filter(found[j].captures, Kept)|
              && ExtractSessions(found)[i].therapyType == NormalizeTherapyType(found[j].therapyType)
              && Some(ExtractSessions(found)[i].count) == ParseIntDecimal(Filter(found[j].captures, Kept)[k])
  {
    var r, gs := ExtractSessions(found), SessionGroups(found);
    assert FromGroup(r, gs, i);
    var j, k :| 0 <= j < |gs| && 0 <= k < |gs[j]| && i == Place(gs, j) + k && r[i] == gs[j][k];
    assert gs[j] == SessionsOf(found[j].therapyType, found[j].captures);
  }

  /** A capture of decimal digits is kept exactly when its value is positive. */
  lemma KeptDigits(d: string)
    requires |d| > 0 && AllDigits(d)
    ensures ParseIntDecimal(d) == Some(ParseDigits(d))
    ensures Kept(d) <==> ParseDigits(d) > 0
  {
    assert d + "" == d;
    ParseIntDecimalOfDigitsThen(d, "");
  }

  /** One of the four canonical names. */
  predicate IsCanonical(t: string) {
    exists c :: t == CanonicalName(c)
  }

  /** Each searched name normalises to a canonical name. */
  lemma SessionTypeCanonical(j: nat)
    requires j < |SessionTypes|
    ensures IsCanonical(NormalizeTherapyType(SessionTypes[j]))
  {
    SessionTypesNormalize(j);
  }

  /** Searching under the four fixed names yields only canonical therapy names. */
  lemma SearchedSessionsCanonical(found: seq<TypeMatches>)
    requires |found| == |SessionTypes|
    requires forall j :: 0 <= j < |found| ==> found[j].therapyType == SessionTypes[j]
    ensures forall i :: 0 <= i < |ExtractSessions(found)| ==> IsCanonical(ExtractSessions(found)[i].therapyType)
  {
    var r := ExtractSessions(found);
    forall i | 0 <= i < |r|
      ensures IsCanonical(r[i].therapyType)
    {
      ListedFromKeptCapture(found, i);
      var j, k :| 0 <= j < |found| && 0 <= k < |Filter(found[j].captures, Kept)|
        && r[i].therapyType == NormalizeTherapyType(found[j].therapyType)
        && Some(r[i].count) == ParseIntDecimal(Filter(found[j].captures, Kept)[k]);
      SessionTypeCanonical(j);
    }
  }

  // ---------------------------------------------------------------------------
  // Referral merge
  // ---------------------------------------------------------------------------

  /** A referral: a number of sessions and the validity period, as written. */
  datatype Referral = Referral(number: int, dateFrom: string, dateTo: string)

  /** A located match: a referral or a therapy name, with its offset in the text. */
  datatype Item =
    | RefItem(position: int, referral: Referral)
    | NameItem(position: int, name: string)

  /** A referral bound to a normalised therapy name. */
  datatype TherapyRef = TherapyRef(therapy: string, referral: Referral)

  /** `ΑΓΩΓΗ ΛΟΓΟΥ - ΛΟΓΟΘΕΡΑΠΕΙΑ` is the same therapy as `ΛΟΓΟΘΕΡΑΠΕΙΑ`. */
  function FoldName(name: string): string {
    if Contains(name, "ΑΓΩΓΗ ΛΟΓΟΥ") then "ΛΟΓΟΘΕΡΑΠΕΙΑ" else name
  }

  /** A name token mentioning `ΑΓΩΓΗ ΛΟΓΟΥ` ends up as speech therapy. */
  lemma FoldNameIsSpeech(name: string)
    requires Contains(name, "ΑΓΩΓΗ ΛΟΓΟΥ")
    ensures NormalizeTherapyType(FoldName(name)) == CanonicalName(Speech)
  {
    SpeechSessionType();
  }

  /** Orders items by text offset, as the comparator `a.position - b.position` does. */
  function ByPosition(a: Item, b: Item): bool {
    a.position < b.position
  }

  lemma ByPositionIsWeakOrder()
    ensures StrictWeakOrder(ByPosition)
  {
  }

  /** The located matches in one sequence ordered by offset: referrals are listed before
      names, and the stable sort keeps that order among equal offsets. */
  function Items(refs: seq<(int, Referral)>, names: seq<(int, string)>): (r: seq<Item>)
    ensures multiset(r) ==
      multiset(seq(|refs|, i requires 0 <= i < |refs| => RefItem(refs[i].0, refs[i].1))) +
      multiset(seq(|names|, i requires 0 <= i < |names| => NameItem(names[i].0, FoldName(names[i].1))))
    ensures forall i, j :: 0 <= i < j < |r| ==> r[i].position <= r[j].position
  {
    var rs := seq(|refs|, i requires 0 <= i < |refs| => RefItem(refs[i].0, refs[i].1));
    var ns := seq(|names|, i requires 0 <= i < |names| => NameItem(names[i].0, FoldName(names[i].1)));
    ByPositionIsWeakOrder();
    Sort(rs + ns, ByPosition)
  }

  /** Binds every pending referral to one therapy name. */
  function Attach(pending: seq<Referral>, therapy: string): (r: seq<TherapyRef>)
    ensures |r| == |pending|
    ensures forall i :: 0 <= i < |r| ==> r[i] == TherapyRef(therapy, pending[i])
  {
    seq(|pending|, i requires 0 <= i < |pending| => TherapyRef(therapy, pending[i]))
  }

  /** The scan over the sorted items: referrals wait in `pending`; a therapy name takes all
      of them, in order, and empties the buffer. */
  function Merge(items: seq<Item>, pending: seq<Referral>): seq<TherapyRef>
    decreases |items|
  {
    if |items| == 0 then []
    else
      match items[0]
      case RefItem(_, referral) => Merge(items[1..], pending + [referral])
      case NameItem(_, name) => Attach(pending, NormalizeTherapyType(name)) + Merge(items[1..], [])
  }

  /** The first therapy name among the items, if any. */
  function FirstName(items: seq<Item>): (r: Option<string>)
    ensures r.None? <==> forall i :: 0 <= i < |items| ==> items[i].RefItem?
    ensures r.Some? ==>
      (exists i :: 0 <= i < |items| && items[i] == NameItem(items[i].position, r.value) &&
                   (forall j :: 0 <= j < i ==> items[j].RefItem?))
  {
    if |items| == 0 then None
    else if items[0].NameItem? then Some(items[0].name)
    else
      var r := FirstName(items[1..]);
      assert forall i :: 1 <= i < |items| ==> items[i] == items[1..][i - 1];
      if r.Some? then
        var i :| 0 <= i < |items[1..]| && items[1..][i] == NameItem(items[1..][i].position, r.value) &&
          (forall j :: 0 <= j < i ==> items[1..][j].RefItem?);
        assert items[i + 1] == NameItem(items[i + 1].position, r.value);
        r
      else
        r
  }

  /** The intended binding, stated per referral: each referral, in order, goes to the first
      therapy name after it; a referral with no later name is left out. */
  function Bound(items: seq<Item>): seq<TherapyRef>
    decreases |items|
  {
    if |items| == 0 then [] else BindOne(items[0], items[1..]) + Bound(items[1..])
  }

  /** What one item contributes to the binding, given the items after it: a referral goes
      to the first later therapy name, if any; a name contributes nothing itself. */
  function BindOne(item: Item, later: seq<Item>): seq<TherapyRef> {
    match item
    case NameItem(_, _) => []
    case RefItem(_, referral) =>
      match FirstName(later)
      case Some(name) => [TherapyRef(NormalizeTherapyType(name), referral)]
      case None => []
  }

  /** The referrals still waiting, bound to the next name if one comes. */
  function Flush(pending: seq<Referral>, next: Option<string>): seq<TherapyRef> {
    match next
    case Some(name) => Attach(pending, NormalizeTherapyType(name))
    case None => []
  }

  /** The scan equals the per-referral binding, with the buffer going to the next name. */
  lemma {:induction false} MergeBindsForward(items: seq<Item>, pending: seq<Referral>)
    ensures Merge(items, pending) == Flush(pending, FirstName(items)) + Bound(items)
    decreases |items|
  {
    if |items| > 0 {
      if items[0].RefItem? {
        var referral := items[0].referral;
        MergeBindsForward(items[1..], pending + [referral]);
        if FirstName(items[1..]).Some? {
          var therapy := NormalizeTherapyType(FirstName(items[1..]).value);
          assert Attach(pending + [referral], therapy) ==
            Attach(pending, therapy) + [TherapyRef(therapy, referral)];
        }
      } else {
        MergeBindsForward(items[1..], []);
      }
    }
  }

  /** `extractTherapyData`'s referral list: every referral bound to the first therapy name
      after it, in referral order, with its number and dates as found. */
  lemma ExtractReferralsBindForward(items: seq<Item>)
    ensures Merge(items, []) == Bound(items)
  {
    MergeBindsForward(items, []);
  }

  /** Referrals after the last therapy name are dropped. */
  lemma {:induction false} TrailingReferralsDropped(items: seq<Item>, tail: seq<Item>)
    requires forall i :: 0 <= i < |tail| ==> tail[i].RefItem?
    ensures Bound(items + tail) == Bound(items)
    ensures Bound(tail) == []
    decreases |items|
  {
    ReferralsAloneUnbound(tail);
    if |items| > 0 {
      TrailingReferralsDropped(items[1..], tail);
      BoundOfAppend(items, tail);
      if items[0].RefItem? {
        FirstNameAppend(items[1..], tail);
      }
      BindOneSameName(items[0], items[1..] + tail, items[1..]);
    } else {
      assert items + tail == tail;
    }
  }

  /** Binding a list with more items after it: the first item's part, then the rest's. */
  lemma BoundOfAppend(items: seq<Item>, tail: seq<Item>)
    requires |items| > 0
    ensures Bound(items + tail) == BindOne(items[0], items[1..] + tail) + Bound(items[1..] + tail)
  {
    assert (items + tail)[0] == items[0];
    assert (items + tail)[1..] == items[1..] + tail;
  }

  /** An item binds alike before any two lists whose first therapy name is the same. */
  lemma BindOneSameName(item: Item, a: seq<Item>, b: seq<Item>)
    requires item.RefItem? ==> FirstName(a) == FirstName(b)
    ensures BindOne(item, a) == BindOne(item, b)
  {
  }

  /** Referrals with no name after them bind to nothing. */
  lemma {:induction false} ReferralsAloneUnbound(tail: seq<Item>)
    requires forall i :: 0 <= i < |tail| ==> tail[i].RefItem?
    ensures Bound(tail) == []
    decreases |tail|
  {
    if |tail| > 0 {
      assert forall i :: 0 <= i < |tail[1..]| ==> tail[1..][i] == tail[i + 1];
      assert FirstName(tail[1..]).None?;
      ReferralsAloneUnbound(tail[1..]);
    }
  }

  /** Appending referrals does not change the first name, when there is one. */
  lemma {:induction false} FirstNameAppend(items: seq<Item>, tail: seq<Item>)
    requires forall i :: 0 <= i < |tail| ==> tail[i].RefItem?
    ensures FirstName(items + tail) == FirstName(items)
    decreases |items|
  {
    if |items| > 0 {
      FirstNameAppend(items[1..], tail);
      assert (items + tail)[1..] == items[1..] + tail;
    } else {
      assert items + tail == tail;
    }
  }

  /** The document layout: a referral before one therapy name and another before a second
      name are bound each to the name right after it. */
  lemma ReferralExample(r1: Referral, n1: string, r2: Referral, n2: string)
    ensures Merge([RefItem(0, r1), NameItem(60, n1), RefItem(90, r2), NameItem(150, n2)], [])
      == [TherapyRef(NormalizeTherapyType(n1), r1), TherapyRef(NormalizeTherapyType(n2), r2)]
  {
    var second := [RefItem(90, r2), NameItem(150, n2)];
    assert Merge(second, []) == [TherapyRef(NormalizeTherapyType(n2), r2)] by {
      MergeReferralThenName(90, r2, 150, n2, []);
      assert second + [] == second;
    }
    MergeReferralThenName(0, r1, 60, n1, second);
    assert [RefItem(0, r1), NameItem(60, n1)] + second ==
      [RefItem(0, r1), NameItem(60, n1), RefItem(90, r2), NameItem(150, n2)];
  }

  /** A referral followed directly by a name binds to that name, with an empty buffer. */
  lemma MergeReferralThenName(p: int, referral: Referral, q: int, name: string, rest: seq<Item>)
    ensures Merge([RefItem(p, referral), NameItem(q, name)] + rest, []) ==
      [TherapyRef(NormalizeTherapyType(name), referral)] + Merge(rest, [])
  {
    var items := [RefItem(p, referral), NameItem(q, name)] + rest;
    assert items[0] == RefItem(p, referral);
    assert items[1..][0] == NameItem(q, name);
    assert items[1..][1..] == rest;
    assert [] + [referral] == [referral];
  }

  // ---------------------------------------------------------------------------
  // The extracted document
  // ---------------------------------------------------------------------------

  /** What `extractTherapyData` returns. */
  datatype TherapyData = TherapyData(sessions: seq<Session>, therapies: seq<TherapyRef>,
                                     amka: string, fullName: string)

  /** `extractTherapyData(text)`, over the matches already located in the text: the
      optional identity capture (AMKA digits and full name), the total captures under each
      searched name, and the referral and therapy-name matches with their offsets. */
  function ExtractTherapyData(identity: Option<(string, string)>, found: seq<TypeMatches>,
                              refs: seq<(int, Referral)>, names: seq<(int, string)>): (r: TherapyData)
    ensures r.therapies == Bound(Items(refs, names))
    ensures identity.None? ==> r.amka == "" && r.fullName == ""
    ensures identity.Some? ==> r.amka == Trim(identity.value.0) && r.fullName == Trim(identity.value.1)
    ensures LaidOut(r.sessions, SessionGroups(found))
    ensures |r.sessions| == KeptTotal(found)
    ensures forall i :: 0 <= i < |r.sessions| ==> r.sessions[i].count > 0
  {
    ExtractSessionsCount(found);
    ExtractReferralsBindForward(Items(refs, names));
    var (amka, fullName) := match identity case Some((a, n)) => (Trim(a), Trim(n)) case None => ("", "");
    TherapyData(ExtractSessions(found), Merge(Items(refs, names), []), amka, fullName)
  }

  // ---------------------------------------------------------------------------
  // Periods and handlePeriodClick
  // ---------------------------------------------------------------------------

  /** `${dateFrom}-${dateTo}`: the key referrals are grouped by. */
  function PeriodKey(t: TherapyRef): string {
    t.referral.dateFrom + "-" + t.referral.dateTo
  }

  /** The test `handlePeriodClick` filters the referrals with: the referral's period is `id`. */
  function OfPeriod(id: string): TherapyRef -> bool {
    (t: TherapyRef) => PeriodKey(t) == id
  }

  /** A validity period offered for selection, with the therapies prescribed for it. */
  datatype Period = Period(dateFrom: string, dateTo: string, therapies: seq<string>, id: string)

  /** Some referral has the given key. */
  predicate HasKey(ts: seq<TherapyRef>, key: string) {
    exists i :: 0 <= i < |ts| && PeriodKey(ts[i]) == key
  }

  /** The position of the first referral with the given key. */
  function FirstWithKey(ts: seq<TherapyRef>, key: string): (j: nat)
    requires HasKey(ts, key)
    ensures j < |ts| && PeriodKey(ts[j]) == key
    ensures forall i :: 0 <= i < j ==> PeriodKey(ts[i]) != key
  {
    if PeriodKey(ts[0]) == key then 0
    else
      assert HasKey(ts[1..], key) by {
        var i :| 0 <= i < |ts| && PeriodKey(ts[i]) == key;
        assert ts[1..][i - 1] == ts[i];
      }
      1 + FirstWithKey(ts[1..], key)
  }

  /** The therapy names of the referrals with the given key, in order. */
  function TherapiesWithKey(ts: seq<TherapyRef>, key: string): (r: seq<string>)
    ensures forall x :: x in r <==> exists i :: 0 <= i < |ts| && PeriodKey(ts[i]) == key && ts[i].therapy == x
  {
    if |ts| == 0 then []
    else
      var rest := TherapiesWithKey(ts[1..], key);
      assert forall i :: 1 <= i < |ts| ==> ts[i] == ts[1..][i - 1];
      if PeriodKey(ts[0]) == key then [ts[0].therapy] + rest else rest
  }

  /** The period entry for one key: the first such referral's dates, and the therapy names
      under the key without repeats, in the order each is first pushed. */
  function PeriodOf(ts: seq<TherapyRef>, key: string): (p: Period)
    requires HasKey(ts, key)
    ensures p.id == key
    ensures p.dateFrom + "-" + p.dateTo == key
    ensures Distinct(p.therapies)
    ensures forall x :: x in p.therapies <==>
      exists i :: 0 <= i < |ts| && PeriodKey(ts[i]) == key && ts[i].therapy == x
    ensures forall x :: x in p.therapies <==> x in TherapiesWithKey(ts, key)
    ensures forall a, b :: 0 <= a < b < |p.therapies| ==>
      FirstIndex(TherapiesWithKey(ts, key), p.therapies[a]) < FirstIndex(TherapiesWithKey(ts, key), p.therapies[b])
  {
    var t := ts[FirstWithKey(ts, key)];
    var names := TherapiesWithKey(ts, key);
    var therapies := Dedupe(names);
    assert forall x :: x in therapies <==> x in names;
    DedupeFirstOrder(names);
    Period(t.referral.dateFrom, t.referral.dateTo, therapies, key)
  }

  /** The ids of a list of periods. */
  function PeriodIds(ps: seq<Period>): (ids: seq<string>)
    ensures |ids| == |ps| && forall k :: 0 <= k < |ps| ==> ids[k] == ps[k].id
  {
    seq(|ps|, k requires 0 <= k < |ps| => ps[k].id)
  }

  /** The key of every referral, in order. */
  function AllKeys(ts: seq<TherapyRef>): (ks: seq<string>)
    ensures |ks| == |ts| && forall i :: 0 <= i < |ts| ==> ks[i] == PeriodKey(ts[i])
  {
    seq(|ts|, i requires 0 <= i < |ts| => PeriodKey(ts[i]))
  }

  /** The first referral with a key is the first occurrence of the key among all keys. */
  lemma FirstWithKeyIsFirstIndex(ts: seq<TherapyRef>, key: string)
    requires HasKey(ts, key)
    ensures key in AllKeys(ts) && FirstWithKey(ts, key) == FirstIndex(AllKeys(ts), key)
  {
    var ks := AllKeys(ts);
    assert ks[FirstWithKey(ts, key)] == key;
  }

  /** The distinct period keys of the referrals, in order of first appearance: the order
      `Object.values` gives the object filled key by key, since a key always holds `-` and
      so is never an array index, which objects would list first. */
  function PeriodKeys(ts: seq<TherapyRef>): (keys: seq<string>)
    ensures Distinct(keys)
    ensures forall k :: 0 <= k < |keys| ==> HasKey(ts, keys[k])
    ensures forall i :: 0 <= i < |ts| ==> PeriodKey(ts[i]) in keys
    ensures forall a, b :: 0 <= a < b < |keys| ==> FirstWithKey(ts, keys[a]) < FirstWithKey(ts, keys[b])
  {
    var allKeys := AllKeys(ts);
    var keys := Dedupe(allKeys);
    forall k | 0 <= k < |keys| ensures HasKey(ts, keys[k]) {
      var i :| 0 <= i < |allKeys| && allKeys[i] == keys[k];
    }
    forall i | 0 <= i < |ts| ensures PeriodKey(ts[i]) in keys {
      assert allKeys[i] in keys;
    }
    DedupeFirstOrder(allKeys);
    forall k | 0 <= k < |keys| ensures FirstWithKey(ts, keys[k]) == FirstIndex(allKeys, keys[k]) {
      FirstWithKeyIsFirstIndex(ts, keys[k]);
    }
    keys
  }

  /** One period entry per key, in the keys' order. */
  function PeriodsFor(ts: seq<TherapyRef>, keys: seq<string>): (r: seq<Period>)
    requires forall k :: 0 <= k < |keys| ==> HasKey(ts, keys[k])
    ensures |r| == |keys|
    ensures forall k :: 0 <= k < |keys| ==> r[k] == PeriodOf(ts, keys[k]) && r[k].id == keys[k]
    ensures PeriodIds(r) == keys
  {
    var r := seq(|keys|, k requires 0 <= k < |keys| => PeriodOf(ts, keys[k]));
    assert PeriodIds(r) == keys;
    r
  }

  /** `groupedPeriods`: one entry per distinct key, in order of first appearance. */
  function GroupPeriods(ts: seq<TherapyRef>): (r: seq<Period>)
    ensures Distinct(PeriodIds(r))
    ensures forall k :: 0 <= k < |r| ==> HasKey(ts, r[k].id) && r[k] == PeriodOf(ts, r[k].id)
    ensures forall i :: 0 <= i < |ts| ==> PeriodKey(ts[i]) in PeriodIds(r)
    ensures forall a, b :: 0 <= a < b < |r| ==> FirstWithKey(ts, r[a].id) < FirstWithKey(ts, r[b].id)
  {
    var keys := PeriodKeys(ts);
    PeriodsFor(ts, keys)
  }

  /** What the period screen shows per therapy: the summed session count and the
      referrals it came from. */
  datatype TherapyInfo = TherapyInfo(count: int, sessions: seq<Referral>)

  /** The `therapyInfo` object, built referral by referral as `forEach` does. */
  function TherapyInfoOf(ts: seq<TherapyRef>): map<string, TherapyInfo>
    decreases |ts|
  {
    if |ts| == 0 then map[]
    else
      var m := TherapyInfoOf(ts[..|ts| - 1]);
      var t := ts[|ts| - 1];
      var before := if t.therapy in m then m[t.therapy] else TherapyInfo(0, []);
      m[t.therapy := TherapyInfo(before.count + t.referral.number, before.sessions + [t.referral])]
  }

  /** The referrals bound to one therapy, in order. */
  function ReferralsFor(ts: seq<TherapyRef>, therapy: string): (r: seq<Referral>)
    ensures |r| <= |ts|
  {
    if |ts| == 0 then []
    else
      var rest := ReferralsFor(ts[..|ts| - 1], therapy);
      if ts[|ts| - 1].therapy == therapy then rest + [ts[|ts| - 1].referral] else rest
  }

  /** The session numbers of a list of referrals. */
  function Numbers(rs: seq<Referral>): (ns: seq<int>)
    ensures |ns| == |rs|
    ensures forall i :: 0 <= i < |rs| ==> ns[i] == rs[i].number
  {
    seq(|rs|, i requires 0 <= i < |rs| => rs[i].number)
  }

  /** `therapyInfo` has an entry exactly for the therapies present; each entry lists that
      therapy's referrals in order, and its count is the sum of their numbers. */
  lemma {:induction false} TherapyInfoSums(ts: seq<TherapyRef>, therapy: string)
    ensures therapy in TherapyInfoOf(ts) <==> exists i :: 0 <= i < |ts| && ts[i].therapy == therapy
    ensures therapy in TherapyInfoOf(ts) ==>
      && TherapyInfoOf(ts)[therapy].sessions == ReferralsFor(ts, therapy)
      && TherapyInfoOf(ts)[therapy].count == Sum(Numbers(ReferralsFor(ts, therapy)))
    decreases |ts|
  {
    if |ts| > 0 {
      var init := ts[..|ts| - 1];
      var t := ts[|ts| - 1];
      TherapyInfoSums(init, therapy);
      assert forall i :: 0 <= i < |init| ==> ts[i] == init[i];
      if t.therapy == therapy {
        var rs := ReferralsFor(init, therapy);
        assert Numbers(rs + [t.referral]) == Numbers(rs) + [t.referral.number];
        SumAppend(Numbers(rs), [t.referral.number]);
        if therapy !in TherapyInfoOf(init) {
          assert rs == [] by {
            ReferralsForAbsent(init, therapy);
          }
        }
      }
    }
  }

  /** A therapy with no referral has none listed. */
  lemma {:induction false} ReferralsForAbsent(ts: seq<TherapyRef>, therapy: string)
    requires forall i :: 0 <= i < |ts| ==> ts[i].therapy != therapy
    ensures ReferralsFor(ts, therapy) == []
    decreases |ts|
  {
    if |ts| > 0 {
      ReferralsForAbsent(ts[..|ts| - 1], therapy);
    }
  }

  /** `selectedTherapists[index] || 'Δεν επιλέχθηκε'`. */
  function TherapistAt(selected: map<int, string>, index: int): (name: string)
    ensures name != ""
    ensures index in selected && selected[index] != "" ==> name == selected[index]
  {
    if index in selected && selected[index] != "" then selected[index] else "Δεν επιλέχθηκε"
  }

  /** JavaScript's `a || b` on strings. */
  function OrElse(a: string, b: string): string {
    if a != "" then a else b
  }

  /** The selected person's stored fields the summary copies; absent ones are empty. */
  datatype PersonFields = PersonFields(parentFullName: string, parentAmka: string, opinionCode: string)

  /** The data the summary screen starts from. */
  datatype FinalInfo = FinalInfo(
    receiptNumber: string, parentName: string, parentAmka: string, opinionNumber: string,
    studentName: string, studentAmka: string, periodStart: string, periodEnd: string,
    therapyInfo: map<string, TherapyInfo>, therapists: seq<TherapistPlan>)

  /** One therapist plan per session total: the therapist chosen for its position, and the
      total spread over the period's eligible dates for that therapist. */
  function TherapistPlans(sessions: seq<Session>, selected: map<int, string>,
                          schedule: Option<Schedule>, closures: seq<string>, period: Period)
    : (ps: seq<TherapistPlan>)
    ensures |ps| == |sessions|
    ensures forall i :: 0 <= i < |ps| ==>
      && ps[i].therapy == sessions[i].therapyType
      && ps[i].sessionCount == sessions[i].count
      && ps[i].therapist == TherapistAt(selected, i)
      && ps[i].sessionDates == DistributeSessionsInMonth(schedule, closures, ps[i].therapist,
                                                         sessions[i].count, period.dateFrom, period.dateTo)
  {
    seq(|sessions|, i requires 0 <= i < |sessions| =>
      var name := TherapistAt(selected, i);
      TherapistPlan(sessions[i].therapyType, name, sessions[i].count,
                    DistributeSessionsInMonth(schedule, closures, name, sessions[i].count,
                                              period.dateFrom, period.dateTo)))
  }

  /** `handlePeriodClick(period)`: the referrals of the chosen period summed per therapy,
      one distributed plan per session total, and the identity fields, where a confirmed
      AMKA takes precedence over the one read from the document. */
  function HandlePeriodClick(data: TherapyData, period: Period, selected: map<int, string>,
                             schedule: Option<Schedule>, closures: seq<string>,
                             person: PersonFields, confirmedAmka: string): (r: FinalInfo)
    ensures r.studentAmka == (if confirmedAmka != "" then confirmedAmka else data.amka)
    ensures r.periodStart == period.dateFrom && r.periodEnd == period.dateTo
    ensures forall therapy :: therapy in r.therapyInfo <==>
      exists i :: 0 <= i < |data.therapies| && data.therapies[i].therapy == therapy &&
        PeriodKey(data.therapies[i]) == period.id
    ensures forall therapy :: therapy in r.therapyInfo ==>
      var rs := ReferralsFor(Filter(data.therapies, OfPeriod(period.id)), therapy);
      r.therapyInfo[therapy].sessions == rs && r.therapyInfo[therapy].count == Sum(Numbers(rs))
    ensures |r.therapists| == |data.sessions|
    ensures forall i :: 0 <= i < |r.therapists| ==>
      && r.therapists[i].therapy == data.sessions[i].therapyType
      && r.therapists[i].sessionCount == data.sessions[i].count
      && r.therapists[i].therapist == TherapistAt(selected, i)
      && r.therapists[i].sessionDates == DistributeSessionsInMonth(schedule, closures, TherapistAt(selected, i),
                                                                   data.sessions[i].count, period.dateFrom, period.dateTo)
    ensures r.receiptNumber == ""
    ensures r.parentName == person.parentFullName && r.parentAmka == person.parentAmka
    ensures r.opinionNumber == person.opinionCode && r.studentName == data.fullName
  {
    var forPeriod := Filter(data.therapies, OfPeriod(period.id));
    var info := TherapyInfoOf(forPeriod);
    forall therapy ensures therapy in info <==>
      exists i :: 0 <= i < |data.therapies| && data.therapies[i].therapy == therapy &&
        PeriodKey(data.therapies[i]) == period.id
    {
      TherapyInfoSums(forPeriod, therapy);
      PeriodFilterMembers(data.therapies, period.id, therapy);
    }
    forall therapy | therapy in info
      ensures info[therapy].sessions == ReferralsFor(forPeriod, therapy)
      ensures info[therapy].count == Sum(Numbers(ReferralsFor(forPeriod, therapy)))
    {
      TherapyInfoSums(forPeriod, therapy);
    }
    FinalInfo("", OrElse(person.parentFullName, ""), OrElse(person.parentAmka, ""),
              OrElse(person.opinionCode, ""), OrElse(data.fullName, ""),
              OrElse(confirmedAmka, OrElse(data.amka, "")), period.dateFrom, period.dateTo,
              info, TherapistPlans(data.sessions, selected, schedule, closures, period))
  }

  /** A therapy occurs among the period's referrals exactly when some referral of that
      period carries it. */
  lemma PeriodFilterMembers(ts: seq<TherapyRef>, id: string, therapy: string)
    ensures var f := Filter(ts, OfPeriod(id));
      (exists i :: 0 <= i < |f| && f[i].therapy == therapy) <==>
      (exists i :: 0 <= i < |ts| && ts[i].therapy == therapy && PeriodKey(ts[i]) == id)
  {
    var p := OfPeriod(id);
    var f := Filter(ts, p);
    if exists i :: 0 <= i < |ts| && ts[i].therapy == therapy && PeriodKey(ts[i]) == id {
      var i :| 0 <= i < |ts| && ts[i].therapy == therapy && PeriodKey(ts[i]) == id;
      FilterMember(ts, p, ts[i]);
      var j :| 0 <= j < |f| && f[j] == ts[i];
    }
    if exists i :: 0 <= i < |f| && f[i].therapy == therapy {
      var i :| 0 <= i < |f| && f[i].therapy == therapy;
      FilterMember(ts, p, f[i]);
      var j :| 0 <= j < |ts| && ts[j] == f[i];
    }
  }

  /** Every session total with a therapist who has eligible dates in the period turns into
      exactly that many document rows; one whose therapist has none turns into no rows. */
  lemma PeriodPlanRows(data: TherapyData, period: Period, selected: map<int, string>,
                       schedule: Option<Schedule>, closures: seq<string>, i: nat)
    requires forall k :: 0 <= k < |data.sessions| ==> data.sessions[k].count > 0
    requires i < |data.sessions|
    ensures var p := TherapistPlans(data.sessions, selected, schedule, closures, period)[i];
      |PlanRows(p)| ==
        if PeriodDates(schedule, closures, p.therapist, period.dateFrom, period.dateTo) == [] then 0
        else data.sessions[i].count
  {
    var p := TherapistPlans(data.sessions, selected, schedule, closures, period)[i];
    var ds := PeriodDates(schedule, closures, p.therapist, period.dateFrom, period.dateTo);
    if ds != [] {
      PlanRowsConserve(ds, data.sessions[i].count, p.therapy, p.therapist);
    }
  }
}

/**
 * Reconciling the AMKA (the national health-insurance number) read from a referral
 * document with the one stored for the selected child: conflict detection, the choice
 * between the two numbers, and the optional update of the stored number.
 */
module Amka {
  import opened Wrappers
  import opened Therapy

  /** The two numbers in conflict and the document data waiting on the choice. */
  datatype ConflictData = ConflictData(pdfAmka: string, personAmka: string, therapyData: TherapyData)

  /** Which dialog, if any, is open. */
  datatype Screen =
    | NoDialog
    | Choosing(conflict: ConflictData)
    | ConfirmingUpdate(conflict: ConflictData, pending: string)

  /** The uploader's state: the open dialog, the data carried forward, the AMKA confirmed in
      a dialog (empty when none), and the AMKA stored for the selected child. */
  datatype State = State(screen: Screen, extracted: Option<TherapyData>, confirmedAmka: string,
                         storedAmka: string)

  /** A conflict: both numbers present and different. */
  predicate HasConflict(pdfAmka: string, personAmka: string) {
    pdfAmka != "" && personAmka != "" && pdfAmka != personAmka
  }

  /** `handleContinue` after a successful read: a conflict opens the choice dialog and
      carries nothing yet; otherwise the document's data is carried forward as read. */
  function OnExtracted(s: State, data: TherapyData): (r: State)
    ensures r.storedAmka == s.storedAmka && r.confirmedAmka == s.confirmedAmka
    ensures r.screen.Choosing? <==> HasConflict(data.amka, s.storedAmka)
    ensures r.screen.Choosing? ==>
      r.screen.conflict == ConflictData(data.amka, s.storedAmka, data) && r.extracted == s.extracted
    ensures !r.screen.Choosing? ==> r.screen == NoDialog && r.extracted == Some(data)
  {
    if HasConflict(data.amka, s.storedAmka) then
      s.(screen := Choosing(ConflictData(data.amka, s.storedAmka, data)))
    else
      s.(screen := NoDialog, extracted := Some(data))
  }

  /** `proceedWithAmka(chosen)`: the waiting data goes forward with the chosen AMKA, which
      also becomes the confirmed one; all dialogs close. */
  function Proceed(s: State, c: ConflictData, chosen: string): (r: State)
    ensures r.screen == NoDialog
    ensures r.extracted == Some(c.therapyData.(amka := chosen))
    ensures r.confirmedAmka == chosen && r.storedAmka == s.storedAmka
  {
    State(NoDialog, Some(c.therapyData.(amka := chosen)), chosen, s.storedAmka)
  }

  /** `handleAmkaChoice(chosen)`: choosing the document's number asks whether to store it;
      any other choice proceeds with it at once. Outside the choice dialog nothing happens. */
  function OnChoice(s: State, chosen: string): (r: State)
    ensures !s.screen.Choosing? ==> r == s
    ensures s.screen.Choosing? && chosen == s.screen.conflict.pdfAmka ==>
      r == s.(screen := ConfirmingUpdate(s.screen.conflict, chosen))
    ensures s.screen.Choosing? && chosen != s.screen.conflict.pdfAmka ==>
      r == Proceed(s, s.screen.conflict, chosen)
  {
    match s.screen
    case Choosing(c) =>
      if chosen == c.pdfAmka then s.(screen := ConfirmingUpdate(c, chosen))
      else Proceed(s, c, chosen)
    case _ => s
  }

  /** `handleUpdateAmkaConfirmation(yes)`: the stored number changes only on "yes" and only
      when an update handler is present; either way the document's number goes forward. */
  function OnConfirmation(s: State, yes: bool, canUpdate: bool): (r: State)
    ensures !s.screen.ConfirmingUpdate? ==> r == s
    ensures s.screen.ConfirmingUpdate? ==>
      var pending := s.screen.pending;
      && r.screen == NoDialog
      && r.extracted == Some(s.screen.conflict.therapyData.(amka := pending))
      && r.confirmedAmka == pending
      && r.storedAmka == (if yes && canUpdate then pending else s.storedAmka)
  {
    match s.screen
    case ConfirmingUpdate(c, pending) =>
      var stored := if yes && canUpdate then pending else s.storedAmka;
      Proceed(s.(storedAmka := stored), c, pending)
    case _ => s
  }

  /** The AMKA the summary uses: `confirmedAmka || extractedTherapyData.amka || ''`. */
  function StudentAmka(s: State): string
    requires s.extracted.Some?
  {
    OrElse(s.confirmedAmka, OrElse(s.extracted.value.amka, ""))
  }

  /** Keeping the stored number: the conflict dialog proceeds with it directly, leaves the
      store alone, and the summary shows it. */
  lemma ChooseStoredProceeds(s: State, data: TherapyData)
    requires HasConflict(data.amka, s.storedAmka)
    ensures var r := OnChoice(OnExtracted(s, data), s.storedAmka);
      && r.screen == NoDialog && r.storedAmka == s.storedAmka
      && r.extracted == Some(data.(amka := s.storedAmka))
      && StudentAmka(r) == s.storedAmka
  {
  }

  /** Taking the document's number: whatever the answer to the update question, the data
      goes forward with the document's number and the summary shows it; only "yes" (with
      an update handler) changes the store. */
  lemma ChoosePdfCarriesPdf(s: State, data: TherapyData, yes: bool, canUpdate: bool)
    requires HasConflict(data.amka, s.storedAmka)
    ensures var asked := OnChoice(OnExtracted(s, data), data.amka);
      var r := OnConfirmation(asked, yes, canUpdate);
      && asked.screen.ConfirmingUpdate? && asked.extracted == s.extracted
      && r.screen == NoDialog
      && r.extracted == Some(data)
      && StudentAmka(r) == data.amka
      && r.storedAmka == (if yes && canUpdate then data.amka else s.storedAmka)
  {
    assert data.(amka := data.amka) == data;
  }

  /** The answer to the update question never changes what is carried forward. */
  lemma ConfirmationAnswerIrrelevant(s: State, canUpdate: bool)
    ensures OnConfirmation(s, true, canUpdate).extracted == OnConfirmation(s, false, canUpdate).extracted
    ensures OnConfirmation(s, true, canUpdate).confirmedAmka == OnConfirmation(s, false, canUpdate).confirmedAmka
  {
  }

  /** Without a conflict the document's data goes forward as read, even with an empty
      AMKA; the summary then shows a previously confirmed number if there is one. */
  lemma NoConflictCarriesDocument(s: State, data: TherapyData)
    requires !HasConflict(data.amka, s.storedAmka)
    ensures var r := OnExtracted(s, data);
      && r.extracted == Some(data) && r.storedAmka == s.storedAmka
      && StudentAmka(r) == (if s.confirmedAmka != "" then s.confirmedAmka else data.amka)
  {
  }
}

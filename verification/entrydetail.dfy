/**
 * The detail view of one client record, where one section at a time is edited: opening
 * a section copies that section's fields into a draft, and saving lays the draft over
 * the record.
 */
module EntryDetail {
  import opened Wrappers
  import opened Records
  import opened EntryForm

  /** The fields each editable section covers; `None` for a name that is not a section. */
  function SectionFields(section: string): (r: Option<seq<string>>)
    ensures r.Some? ==> |r.value| > 0 && "id" !in r.value
  {
    if section == "amka" then Some(["childAmka", "parentAmka"])
    else if section == "contact" then Some(["phone"])
    else if section == "opinion" then Some(["opinionCode", "opinionValue"])
    else if section == "taxis" then Some(["taxisUsername", "taxisPassword"])
    else if section == "sessions" then Some(["logo", "ergo", "psycho", "mp", "eid"])
    else None
  }

  /** The section being edited (none when closed) and the draft of its fields. */
  datatype EditState = EditState(section: Option<string>, draft: Record)

  /** The state when the view opens, and after a cancel or a save. */
  const Closed: EditState := EditState(None, map[])

  /** `handleEditSection(section)`: the section opens with a draft holding each of its
      fields from the record (empty when absent); a name that is not a section still
      becomes the open section but leaves the draft as it was. */
  function EditSection(st: EditState, entry: Record, section: string): (r: EditState)
    ensures r.section == Some(section)
    ensures SectionFields(section).None? ==> r.draft == st.draft
    ensures SectionFields(section).Some? ==>
      && r.draft.Keys == (set i | 0 <= i < |SectionFields(section).value| :: SectionFields(section).value[i])
      && forall k :: k in r.draft ==> r.draft[k] == Field(entry, k)
  {
    match SectionFields(section)
    case None => EditState(Some(section), st.draft)
    case Some(fields) => EditState(Some(section), map k | k in fields :: Field(entry, k))
  }

  /** `handleInputChange`: one draft field takes the typed value. */
  function DraftChange(st: EditState, name: string, value: string): (r: EditState)
    ensures r.section == st.section
    ensures r.draft.Keys == st.draft.Keys + {name} && r.draft[name] == value
    ensures forall k :: k in st.draft && k != name ==> r.draft[k] == st.draft[k]
  {
    EditState(st.section, st.draft[name := value])
  }

  /** `handleCancelEdit()`: the section closes and the draft is thrown away. */
  function CancelEdit(st: EditState): (r: EditState)
    ensures r.section.None? && |r.draft| == 0
  {
    Closed
  }

  /** `{ ...entry, ...draft }`: the draft's fields win, every other field of the record
      stays. */
  function Overlay(entry: Record, draft: Record): (r: Record)
    ensures r.Keys == entry.Keys + draft.Keys
    ensures forall k :: k in draft ==> r[k] == draft[k]
    ensures forall k :: k in entry && k !in draft ==> r[k] == entry[k]
  {
    entry + draft
  }

  /** `handleSaveEdit()`: the record with the draft laid over it is handed on for saving,
      and the section closes. */
  function SaveEdit(st: EditState, entry: Record): (r: (Record, EditState))
    ensures r.0.Keys == entry.Keys + st.draft.Keys
    ensures forall k :: k in st.draft ==> r.0[k] == st.draft[k]
    ensures forall k :: k in entry && k !in st.draft ==> r.0[k] == entry[k]
    ensures r.1.section.None? && |r.1.draft| == 0
  {
    (Overlay(entry, st.draft), Closed)
  }

  /** Opening a section and saving it without typing changes no field the record had,
      and adds only the section's missing fields, as empty text. */
  lemma SaveUnchangedSection(st: EditState, entry: Record, section: string)
    requires SectionFields(section).Some?
    ensures var saved := SaveEdit(EditSection(st, entry, section), entry).0;
      && (forall k :: k in entry ==> k in saved && saved[k] == entry[k])
      && (forall k :: k in saved && k !in entry ==> k in SectionFields(section).value && saved[k] == "")
  {
  }

  /** Saving an edited section changes only that section's fields; the record keeps its
      id, so saving it back replaces it in place. */
  lemma SaveTouchesOnlySection(st: EditState, entry: Record, section: string, name: string, value: string)
    requires SectionFields(section).Some?
    requires name in SectionFields(section).value
    ensures var editing := EditSection(st, entry, section);
      var saved := SaveEdit(DraftChange(editing, name, value), entry).0;
      && Field(saved, name) == value
      && (forall k :: k !in SectionFields(section).value ==> Field(saved, k) == Field(entry, k))
      && IdOf(saved) == IdOf(entry)
  {
    var editing := EditSection(st, entry, section);
    var saved := SaveEdit(DraftChange(editing, name, value), entry).0;
    forall k | k !in SectionFields(section).value ensures Field(saved, k) == Field(entry, k) {
      assert k !in editing.draft;
    }
    assert "id" !in SectionFields(section).value;
  }

  /** `calculateSum(editData)` while the session section is open gives the total the saved
      record will show: every count field is in the draft, so the record's own counts no
      longer matter. */
  lemma SessionDraftSumIsSavedSum(st: EditState, entry: Record)
    requires forall i :: 0 <= i < |SessionFields| ==> SessionFields[i] in st.draft
    ensures CalculateSum(SaveEdit(st, entry).0) == CalculateSum(st.draft)
  {
    var saved := SaveEdit(st, entry).0;
    assert SessionValues(saved) == SessionValues(st.draft) by {
      forall i | 0 <= i < |SessionFields|
        ensures Field(saved, SessionFields[i]) == Field(st.draft, SessionFields[i])
      {
      }
    }
  }

  /** Opening the session section yields a draft holding every count field. */
  lemma SessionSectionDraftComplete(st: EditState, entry: Record)
    ensures forall i :: 0 <= i < |SessionFields| ==>
      SessionFields[i] in EditSection(st, entry, "sessions").draft
  {
    assert SectionFields("sessions").value == SessionFields;
  }
}

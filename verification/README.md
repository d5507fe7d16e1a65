# NMAD therapy records — a Dafny model of the application logic

NMAD is a desktop application for a therapy centre. It keeps client records: a child's
name, the period of the official opinion that grants therapy sessions, ID numbers and
per-therapy session counts. It warns when an opinion is about to expire. It also turns
an uploaded referral PDF into a monthly attendance certificate. This project models that
logic as pure Dafny functions over immutable data and proves what each part promises:

- **Public holidays**: the eight fixed Greek holidays and Orthodox Easter, computed with
  Meeus's Julian formula plus 13 days. The five Easter-relative holidays, the holiday
  test, and the display list of a year (`Holidays`, on the calendar of `Calendar`).
- **Therapist roster and closure days**: adding, removing and deleting therapists in the
  weekday roster (`Roster`). The sorted, duplicate-free list of extra closure days
  (`NonWorkingDays`).
- **Session distribution**: the weekdays a therapist works, and the eligible dates of a
  referral period. A session count is spread over those dates with a fixed stride, or
  round-robin when there are more sessions than dates. The plan is then expanded into
  one document row per session (`Distributor`).
- **Referral-document post-processing**: normalising therapy names, and keeping positive
  session totals. Referrals are bound to the therapy name that follows them in the text.
  Referrals are grouped by validity period, and the per-period summary is built
  (`Therapy`).
- **ID-number (AMKA) reconciliation**: what happens when the document's number and the
  stored number differ (`Amka`).
- **Client records**: delete, add and edit by id, and the ten-day expiry alert list
  (`Records`). The add/edit form's validation and session total (`EntryForm`), and the
  section-wise editor of the detail view (`EntryDetail`). The table's row colours,
  status labels and column sorting (`EntryTable`). The e-mail settings form and its
  address check (`EmailConfig`), and the name search of the certificate screen
  (`PersonSelector`).

`Wrappers`, `Text`, `Lists` and `Sorting` model the JavaScript primitives the code relies
on:
- `trim`, `includes` and `parseInt`, with and without a radix;
- `toUpperCase` on the characters therapy names use, and string `<`;
- `filter`, `some`, summing, `[...new Set(xs)]`;
- a stable `Array.prototype.sort` with a comparator.

## Model

| member | source | states |
|---|---|---|
| Holidays.FixedHolidaysWellFormed | src/renderer/utils/holidays.js:3-12 | each of the eight fixed month/day pairs is a real date in every year, and the list runs in calendar order |
| Holidays.JsRem | src/renderer/utils/holidays.js:16-20 | JavaScript's `%` keeps the dividend's sign: a non-negative dividend leaves 0..b-1, a negative one -(b-1)..0 |
| Holidays.MeeusD | src/renderer/utils/holidays.js:18-19 | `d = (19c + 15) % 30` lies in 0..29 |
| Holidays.MeeusETerms | src/renderer/utils/holidays.js:20 | the dividend of `e` is at least 5, so `e` lies in 0..6 even with JavaScript's remainder |
| Holidays.JulianEaster | src/renderer/utils/holidays.js:21-22 | the Julian Easter is in March or April, between 22 March and 26 April |
| Holidays.EasterWindow | src/renderer/utils/holidays.js:24-26 | thirteen days after a date from 22 March to 26 April is a date from 4 April to 9 May |
| Holidays.OrthodoxEaster | src/renderer/utils/holidays.js:15-29 | Easter falls in April or May, between 4 April and 9 May, in the year `new Date` reads |
| Holidays.EasterFromJulian | src/renderer/utils/holidays.js:24-28 | Easter is exactly the date of its year 13 days after the Julian date |
| Holidays.EasterExample2024 | src/renderer/utils/holidays.js:15-29 | Orthodox Easter 2024 is 5 May |
| Holidays.EasterExample2025 | src/renderer/utils/holidays.js:15-29 | Orthodox Easter 2025 is 20 April |
| Holidays.EasterExample2026 | src/renderer/utils/holidays.js:15-29 | Orthodox Easter 2026 is 12 April |
| Holidays.MovingHolidays | src/renderer/utils/holidays.js:32-54 | exactly five holidays, at Easter -48, -2, 0, +1 and +50 days, with their names, all in Easter's year |
| Holidays.EasterDayOfYear | src/renderer/utils/holidays.js:35-45 | Easter is at least 48 days into its year and more than 50 days before its end, so no moving holiday leaves the year |
| Holidays.MovingHolidaysAscend | src/renderer/utils/holidays.js:47-53 | the five moving holidays are listed in strictly ascending date order |
| Holidays.IsGreekPublicHoliday | src/renderer/utils/holidays.js:57-74 | the holiday test as the code runs it; what it decides is stated by its partner `IsGreekPublicHolidayIff` |
| Holidays.IsGreekPublicHolidayIff | src/renderer/utils/holidays.js:57-74 | a date is a holiday iff its month/day is a fixed pair or, from the year 100 on, it lies at one of the five Easter distances from its own year's Easter |
| Holidays.FixedHolidayEveryYear | src/renderer/utils/holidays.js:62-65 | each fixed pair is a holiday in every year |
| Holidays.MovingHolidayIsHoliday | src/renderer/utils/holidays.js:67-73 | every moving holiday of a year is recognised as a holiday |
| Holidays.DatedFixedHolidays | src/renderer/utils/holidays.js:84-91 | the eight fixed holidays dated in the requested year, with their names, marked fixed |
| Holidays.PublicHolidays | src/renderer/utils/holidays.js:77-109 | the display list sorted by date; its partner `PublicHolidaysAreFixed` proves it is exactly the eight fixed holidays in ascending order |
| Holidays.PublicHolidaysAreFixed | src/renderer/utils/holidays.js:77-109 | the display list is exactly the eight fixed holidays of the year in strictly ascending date order, with no moving holiday |
| Roster.AddTherapist | src/renderer/components/TherapistSchedule.jsx:10-16 | the therapist is appended to that day's list, duplicates allowed; the other days and the set of days are unchanged |
| Roster.DropIndex | src/renderer/components/TherapistSchedule.jsx:21 | drops exactly the element at an in-range index; out of range, the list is unchanged |
| Roster.RemoveTherapist | src/renderer/components/TherapistSchedule.jsx:18-24 | removes exactly that position of that day; out of range it changes nothing; other days are untouched |
| Roster.DeleteTherapist | src/renderer/components/TherapistSchedule.jsx:26-46 | no entry with the name is left in the therapist list or in any weekday; what remains keeps its order; the schedule has exactly the five weekdays |
| Roster.DeleteTherapistKeepsOthers | src/renderer/components/TherapistSchedule.jsx:31-44 | every differently named entry survives as often as it occurred, in the list and in each weekday |
| Roster.HasName | src/renderer/components/TherapistSchedule.jsx:59-61 | true iff some entry carries the name |
| Roster.AddNewTherapist | src/renderer/components/TherapistSchedule.jsx:48-77 | rejects, in order, a blank name, a missing type and an existing trimmed name, each iff its condition; otherwise appends the trimmed name with its type |
| Roster.AddNewTherapistKeepsNamesUnique | src/renderer/components/TherapistSchedule.jsx:59-73 | unique names stay unique after an add |
| NonWorkingDays.StrLtIsTotalOrder | src/renderer/components/NonWorkingDays.jsx:32 | the default string sort orders strings totally, so `.sort()` has one result |
| NonWorkingDays.AddCustomDate | src/renderer/components/NonWorkingDays.jsx:20-35 | an empty choice is rejected, then a listed date; otherwise the result holds the old dates plus the new one, sorted |
| NonWorkingDays.AddCustomDateKeepsAscending | src/renderer/components/NonWorkingDays.jsx:27-33 | a strictly ascending list stays strictly ascending, grows by one, and holds exactly the old dates and the new one |
| NonWorkingDays.AddCustomDateIsTheSortedList | src/renderer/components/NonWorkingDays.jsx:32 | the result is the one sorted arrangement of the old dates and the new one |
| NonWorkingDays.AddCustomDateChronological | src/renderer/components/NonWorkingDays.jsx:32 | for ISO dates of four-digit years, the string-sorted list is in chronological order |
| NonWorkingDays.SortedIsoChronological | src/renderer/components/NonWorkingDays.jsx:32 | any string-sorted list of such ISO dates is chronological |
| NonWorkingDays.IsoPairOrdered | src/renderer/components/NonWorkingDays.jsx:32 | two such ISO dates in string order are in date order |
| Calendar.IsoOrderIsChronological | src/renderer/components/NonWorkingDays.jsx:32 | for four-digit years, ISO strings compare as text exactly as the dates compare in time |
| NonWorkingDays.RemoveCustomDate | src/renderer/components/NonWorkingDays.jsx:37-40 | every occurrence goes, every other date keeps its count and order, and a missing date changes nothing |
| NonWorkingDays.FormatDate | src/renderer/components/NonWorkingDays.jsx:8-13 | zero-padded `DD/MM/YYYY` that reads back as the same date |
| Calendar.FormatDmy | src/renderer/components/FileUploader.jsx:431-436 | zero-padded `DD/MM/YYYY`; its partner `ParseFormatDmy` proves the text reads back as the same date |
| Calendar.ParseIso | src/renderer/App.jsx:169 | `new Date(text)` on `YYYY-MM-DD` text: every date it reads is a real date; its partner `ParseIsoString` proves a date's ISO text reads back as that date |
| Calendar.ParseFormatDmy | src/renderer/components/FileUploader.jsx:126-130 | reading a printed `DD/MM/YYYY` date back with `split('/')` and `new Date` gives the date |
| Calendar.Next | src/renderer/components/FileUploader.jsx:152 | `setDate(getDate() + 1)` gives the next calendar day, one day number later |
| Calendar.NextWeekday | src/renderer/components/FileUploader.jsx:93-96 | the weekday advances by one, wrapping after Saturday, as the walk moves to the next day |
| Distributor.WorkingDays | src/renderer/components/FileUploader.jsx:100-118 | the weekdays, Monday to Friday in order, whose list holds the therapist's name (a bare name or a named entry); none without a schedule |
| Distributor.DatesWhere | src/renderer/components/FileUploader.jsx:133-153 | the day-by-day walk collects only dates of the period that pass the test, in strictly ascending order |
| Distributor.DatesWhereComplete | src/renderer/components/FileUploader.jsx:136-153 | every date of the period that passes the test is collected |
| Distributor.EligibleDatesIff | src/renderer/components/FileUploader.jsx:136-153 | a date is collected iff it lies in the period, on a working weekday, is not a holiday and is not a closure day |
| Distributor.EligibleIsWeekday | src/renderer/components/FileUploader.jsx:149 | an eligible date is never a Saturday or Sunday |
| Distributor.WeekendNotWorking | src/renderer/components/FileUploader.jsx:94-104 | the Greek names of Saturday and Sunday are not among the five working weekdays |
| Distributor.StrideIndex | src/renderer/components/FileUploader.jsx:163 | the clamped index never passes the last date |
| Distributor.Spread | src/renderer/components/FileUploader.jsx:155-186 | the closed form of the two spreading loops; `SpreadLoop` proves the loops compute it, and `SpreadConserves` and `RoundRobinBalanced` state its sum and balance |
| Distributor.SpreadLoop | src/renderer/components/FileUploader.jsx:155-186 | the source's loops compute the declared spread |
| Distributor.StrideLoop | src/renderer/components/FileUploader.jsx:158-165 | the stride loop places one session on every `interval`-th date, as declared |
| Distributor.RoundRobinLoop | src/renderer/components/FileUploader.jsx:166-183 | the one-each-then-round-robin loops compute the declared counts |
| Distributor.RoundRobinUpdate | src/renderer/components/FileUploader.jsx:178-182 | handing one more session to the next date in turn keeps the round-robin shape |
| Distributor.StrideWithoutClamp | src/renderer/components/FileUploader.jsx:158-165 | with no more sessions than dates there are exactly n entries of count 1 at indices `i*floor(m/n)`, the clamp never fires, and the first date is chosen |
| Distributor.SpreadConserves | src/renderer/components/FileUploader.jsx:157-184 | with dates and a positive count, the counts sum to exactly the session count |
| Distributor.RoundRobinBalanced | src/renderer/components/FileUploader.jsx:166-183 | with more sessions than dates, every date appears once in order with count at least 1, counts differ by at most one, and the larger counts come first |
| Distributor.SpreadDates | src/renderer/components/FileUploader.jsx:156-184 | every planned date is a given date, and plans over ascending dates list strictly ascending dates |
| Distributor.PeriodDates | src/renderer/components/FileUploader.jsx:121-153 | the period's dates for one therapist, none without a working day or readable bounds; its partner `PeriodDatesIff` proves which dates these are |
| Distributor.DistributeSessionsInMonth | src/renderer/components/FileUploader.jsx:121-187 | the period's dates with the session count spread over them; `DistributedDatesSound` and `DistributedCountConserved` state which dates it plans and that the counts add up |
| Distributor.PeriodDatesIff | src/renderer/components/FileUploader.jsx:121-153 | the period's dates are exactly the eligible dates between its bounds, strictly ascending, for a therapist with a working day |
| Distributor.DistributedDatesSound | src/renderer/components/FileUploader.jsx:121-187 | every planned date lies inside the period, on a rostered weekday, and is neither a holiday nor a closure day |
| Distributor.DistributedCountConserved | src/renderer/components/FileUploader.jsx:123-183 | the plan is empty iff there is no working day, no eligible date or no positive count; otherwise the counts sum to the session count |
| Distributor.Repeat | src/renderer/components/FileUploader.jsx:445 | `Array.from({length: count})` gives `count` copies, none for a non-positive count |
| Distributor.DateRows | src/renderer/components/FileUploader.jsx:444-450 | each planned date's `count` rows, dated `formatDate(date)`, one date after another in plan order, and nothing else; as many rows as the positive counts add up to; every row carries the therapy and therapist |
| Lists.LaidOutCons | src/renderer/components/FileUploader.jsx:439-451 | one group's elements in front of a layout of the other groups lay out all the groups |
| Distributor.SessionsList | src/renderer/components/FileUploader.jsx:439-451 | the rows of each plan, one plan after another, and nothing else |
| Distributor.SessionsListLength | src/renderer/components/FileUploader.jsx:439-451 | the document lists exactly as many rows as all plans hold sessions |
| Distributor.RowTotalOfPositive | src/renderer/components/FileUploader.jsx:444-450 | with positive counts, the row count is the sum of the counts |
| Distributor.PlanRowsConserve | src/renderer/components/FileUploader.jsx:439-451 | a distributed plan expands into exactly the session count of rows |
| Therapy.TherapyKey | src/renderer/components/FileUploader.jsx:69-73 | the matched form keeps the length and maps each character through upper-casing, then accent stripping |
| Therapy.NormalizeTherapyType | src/renderer/components/FileUploader.jsx:68-90 | returns the canonical name of the first kind, in priority order, whose substrings the key contains; an unrecognised name comes back unchanged |
| Therapy.ChosenExists | src/renderer/components/FileUploader.jsx:76-87 | some kind is chosen for every key that mentions one |
| Therapy.CanonicalChosen | src/renderer/components/FileUploader.jsx:76-87 | each canonical name is recognised as its own kind |
| Therapy.NormalizeFixedPoint | src/renderer/components/FileUploader.jsx:68-90 | each canonical name normalises to itself |
| Therapy.NormalizeRange | src/renderer/components/FileUploader.jsx:68-90 | the result is one of the four canonical names or the input itself |
| Therapy.NormalizeIdempotent | src/renderer/components/FileUploader.jsx:68-90 | normalising twice is normalising once |
| Therapy.NormalizeIff | src/renderer/components/FileUploader.jsx:76-87 | a name normalises to a kind's canonical name iff that kind is the first one its key mentions |
| Therapy.NormalizeIgnoresCaseAndAccents | src/renderer/components/FileUploader.jsx:69-73 | names with the same key normalise alike when they mention a kind |
| Therapy.SessionTypesNormalize | src/renderer/components/FileUploader.jsx:209-214 | each of the four searched names normalises to the canonical name of its kind |
| Therapy.SessionsOf | src/renderer/components/FileUploader.jsx:224-230 | one total per capture that reads as a positive number, in text order, with that number and the normalised name |
| Lists.FlattenLaidOut | src/renderer/components/FileUploader.jsx:216-231 | pushing each group's elements in turn lays the groups out: each element at its group's place, nothing else, as many as all groups hold |
| Therapy.ExtractSessions | src/renderer/components/FileUploader.jsx:216-231 | the totals of each searched name laid end to end in search order: each name's totals sit after all earlier names' totals, and nothing else is listed; every total is positive |
| Therapy.ExtractSessionsCount | src/renderer/components/FileUploader.jsx:216-231 | exactly one total per kept capture over all searched names |
| Therapy.KeptCaptureListed | src/renderer/components/FileUploader.jsx:224-230 | every kept capture is listed, at its name's place, with that capture's number and the normalised searched name |
| Therapy.ListedFromKeptCapture | src/renderer/components/FileUploader.jsx:224-230 | every listed total comes from some kept capture of some searched name, with its number and normalised name |
| Therapy.KeptDigits | src/renderer/components/FileUploader.jsx:226-227 | a digit capture is kept iff its decimal value is positive |
| Therapy.SearchedSessionsCanonical | src/renderer/components/FileUploader.jsx:209-231 | searching under the four fixed names yields only canonical therapy names |
| Therapy.FoldNameIsSpeech | src/renderer/components/FileUploader.jsx:262-264 | a name mentioning `ΑΓΩΓΗ ΛΟΓΟΥ` ends up as speech therapy |
| Therapy.ByPositionIsWeakOrder | src/renderer/components/FileUploader.jsx:277 | the comparator `a.position - b.position` is consistent |
| Therapy.Items | src/renderer/components/FileUploader.jsx:244-277 | the located referrals and names, all kept, sorted by text offset |
| Therapy.Attach | src/renderer/components/FileUploader.jsx:288-295 | each pending referral, in order, is bound to the name with its number and dates unchanged |
| Therapy.FirstName | src/renderer/components/FileUploader.jsx:282-299 | the first therapy name among the items, none iff there are only referrals |
| Therapy.Merge | src/renderer/components/FileUploader.jsx:280-299 | the pending-buffer loop; its partner `MergeBindsForward` proves it equals the per-referral binding |
| Therapy.MergeBindsForward | src/renderer/components/FileUploader.jsx:280-299 | the pending-buffer scan equals the per-referral binding: each referral goes, in order, to the first later therapy name |
| Therapy.ExtractReferralsBindForward | src/renderer/components/FileUploader.jsx:276-299 | starting with an empty buffer, the scan binds each referral to the first later therapy name |
| Therapy.TrailingReferralsDropped | src/renderer/components/FileUploader.jsx:282-299 | referrals after the last therapy name produce nothing |
| Therapy.FirstNameAppend | src/renderer/components/FileUploader.jsx:282-299 | trailing referrals do not change the first name |
| Therapy.ReferralExample | src/renderer/components/FileUploader.jsx:276-299 | in the document layout, each of two referrals is bound to the normalised therapy name that follows it |
| Therapy.ExtractTherapyData | src/renderer/components/FileUploader.jsx:189-302 | the referral list is the forward binding of the sorted items; AMKA and name are the trimmed captures or empty; the session totals are the searched names' totals laid end to end, one per kept capture, all positive |
| Therapy.FirstWithKey | src/renderer/components/FileUploader.jsx:719-728 | the position of the first referral with the key |
| Therapy.TherapiesWithKey | src/renderer/components/FileUploader.jsx:729 | the therapy names of exactly the referrals with the key |
| Therapy.PeriodOf | src/renderer/components/FileUploader.jsx:719-736 | a period's id is its key and its dates spell the key; it lists each therapy pushed under that key once, ordered by where each is first pushed |
| Therapy.PeriodIds | src/renderer/components/FileUploader.jsx:726 | the ids of the periods, position by position |
| Lists.DedupeFirstOrder | src/renderer/components/FileUploader.jsx:719-733 | keeping each value once, where it first occurs, keeps the values in first-occurrence order, as `Object.values` of an object filled key by key does |
| Therapy.PeriodKeys | src/renderer/components/FileUploader.jsx:719-733 | each referral's key once, only keys some referral has, ordered by where each key first appears |
| Therapy.GroupPeriods | src/renderer/components/FileUploader.jsx:717-736 | one period per distinct key, ids never repeat, every referral's key has a period, periods ordered by where their key first appears |
| Therapy.ReferralsFor | src/renderer/components/FileUploader.jsx:754-758 | the referrals of one therapy, never more than all referrals |
| Therapy.Numbers | src/renderer/components/FileUploader.jsx:753 | the session numbers of the referrals, in order |
| Therapy.TherapyInfoOf | src/renderer/components/FileUploader.jsx:745-759 | the `therapyInfo` object built referral by referral; its partner `TherapyInfoSums` proves its keys, lists and sums |
| Therapy.TherapyInfoSums | src/renderer/components/FileUploader.jsx:745-759 | a therapy has an entry iff some referral names it; the entry lists its referrals in order and its count is their sum |
| Therapy.ReferralsForAbsent | src/renderer/components/FileUploader.jsx:746-759 | a therapy with no referral has none listed |
| Therapy.TherapistAt | src/renderer/components/FileUploader.jsx:763 | the selected therapist, or the placeholder when none is chosen; never empty |
| Therapy.TherapistPlans | src/renderer/components/FileUploader.jsx:762-780 | one plan per session total, with its therapy, the chosen therapist, its count and the spread over the period |
| Therapy.HandlePeriodClick | src/renderer/components/FileUploader.jsx:738-793 | therapy entries exist exactly for the period's therapies, each listing that therapy's referrals of the period in order and counting their sum; one plan per session total with its therapy, count, chosen therapist and distributed dates; receipt empty; parent, opinion and student fields copied; the confirmed AMKA wins over the document's; the period bounds copied |
| Therapy.PeriodFilterMembers | src/renderer/components/FileUploader.jsx:740-742 | a therapy is among the period's referrals iff some referral with that key names it |
| Therapy.PeriodPlanRows | src/renderer/components/FileUploader.jsx:762-780 | each plan expands into exactly its session count of rows when the period has eligible dates, and none otherwise |
| Amka.OnExtracted | src/renderer/components/FileUploader.jsx:322-340 | the choice dialog opens iff both numbers are present and differ; otherwise the data goes forward as read |
| Amka.Proceed | src/renderer/components/FileUploader.jsx:365-377 | the waiting data goes forward with the chosen number, which becomes the confirmed one; the store is untouched |
| Amka.OnChoice | src/renderer/components/FileUploader.jsx:352-363 | choosing the document's number asks about storing it; any other choice proceeds at once |
| Amka.OnConfirmation | src/renderer/components/FileUploader.jsx:379-389 | the stored number changes only on "yes" with an update handler; the document's number goes forward either way |
| Amka.ChooseStoredProceeds | src/renderer/components/FileUploader.jsx:359-362 | keeping the stored number proceeds with it directly and leaves the store unchanged |
| Amka.ChoosePdfCarriesPdf | src/renderer/components/FileUploader.jsx:354-389 | taking the document's number carries it forward whatever the answer |
| Amka.ConfirmationAnswerIrrelevant | src/renderer/components/FileUploader.jsx:385-386 | the answer never changes what is carried forward |
| Amka.NoConflictCarriesDocument | src/renderer/components/FileUploader.jsx:331-334 | without a conflict the document's data, even an empty number, goes forward |
| Records.DeleteEntry | src/renderer/App.jsx:113-116 | no record with the id is left, and the rest keep their order |
| Records.DeleteEntryKeepsOthers | src/renderer/App.jsx:114 | every record with another id keeps its count; a list without the id is unchanged |
| Records.WithId | src/renderer/App.jsx:124-131 | the form data carries the given id and is otherwise unchanged |
| Records.SaveEntry | src/renderer/App.jsx:118-137 | adding appends one record with the fresh id and the form's other fields and keeps the rest; editing keeps the length, gives each record with the edited id the form's fields under that id, and leaves the others |
| Records.EditEntry | src/renderer/App.jsx:121-125 | same length; records whose id matches the edited one become the form data with that id; the others are unchanged |
| Records.AddEntry | src/renderer/App.jsx:127-132 | exactly one record, with the fresh id, is appended after the unchanged list |
| Records.EditReplacesOne | src/renderer/App.jsx:121-125 | with unique ids, editing replaces exactly the edited record, keeps its id, and keeps the ids unique |
| Records.AddThenDelete | src/renderer/App.jsx:113-132 | adding under an unused id and then deleting that id restores the list |
| Records.SendAlert | src/renderer/App.jsx:157-181 | no configuration stops at once; an empty alert list iff no record is due; otherwise the due records in order, each as often as it occurs |
| Records.AlertListComplete | src/renderer/App.jsx:168-171 | every due record is in the alert list |
| Records.ExpiredIsDue | src/renderer/App.jsx:170 | a record that already expired is due |
| EntryForm.LoadForm | src/renderer/components/EntryModal.jsx:24-66 | the form holds exactly the seventeen fields, from the record or empty |
| EntryForm.LoadFormIdempotent | src/renderer/components/EntryModal.jsx:24-45 | loading from a loaded form changes nothing |
| EntryForm.InputChange | src/renderer/components/EntryModal.jsx:68-74 | only the named field changes |
| EntryForm.SessionValueOfNumeral | src/renderer/components/EntryModal.jsx:77-81 | a count typed as a numeral counts as its value |
| EntryForm.SessionValueExamples | src/renderer/components/EntryModal.jsx:77-81 | empty text counts as 0, and `0x1A` counts as 26 |
| EntryForm.SessionValues | src/renderer/components/EntryModal.jsx:77-81 | the five counts as `parseInt(x) \|\| 0` reads them |
| EntryForm.CalculateSum | src/renderer/components/EntryModal.jsx:76-85 | shows the total iff it is positive, a dash otherwise |
| EntryForm.SumPositive | src/renderer/components/EntryModal.jsx:83-84 | a total of non-negative counts is positive iff one count is |
| EntryForm.CalculateSumOfNumerals | src/renderer/components/EntryModal.jsx:76-85 | with numerals typed, the total is their sum and the dash shows iff all are zero |
| EntryForm.HandleSubmit | src/renderer/components/EntryModal.jsx:87-117 | first failing check decides the error: each of blank name, missing date, blank phone, blank session count and start after end is returned iff every earlier check passes and its own fails; the form is saved unchanged iff every check passes |
| EntryForm.AcceptedDatesOrdered | src/renderer/components/EntryModal.jsx:111-114 | an accepted form with readable dates starts no later than it ends |
| EntryForm.UnreadableDatesPass | src/renderer/components/EntryModal.jsx:111 | a date that does not read never triggers the order check |
| EntryForm.ZeroCountsAccepted | src/renderer/components/EntryModal.jsx:76-109 | counts of `0` are not blank, and their total shows a dash |
| EntryDetail.SectionFields | src/renderer/components/EntryDetailModal.jsx:18-51 | each of the five sections names its non-empty field list, none including the id |
| EntryDetail.EditSection | src/renderer/components/EntryDetailModal.jsx:16-52 | the section opens with exactly its fields from the record; an unknown name opens but keeps the draft |
| EntryDetail.DraftChange | src/renderer/components/EntryDetailModal.jsx:66-72 | only the named draft field changes |
| EntryDetail.CancelEdit | src/renderer/components/EntryDetailModal.jsx:54-57 | closes the section with an empty draft |
| EntryDetail.Overlay | src/renderer/components/EntryDetailModal.jsx:60 | the draft's fields win and every other field stays |
| EntryDetail.SaveEdit | src/renderer/components/EntryDetailModal.jsx:59-64 | the saved record has the record's fields and the draft's; the draft's values win, every other field keeps its value; the section closes with an empty draft |
| EntryDetail.SaveUnchangedSection | src/renderer/components/EntryDetailModal.jsx:16-64 | saving an untouched section keeps every field and adds only missing section fields, as empty text |
| EntryDetail.SaveTouchesOnlySection | src/renderer/components/EntryDetailModal.jsx:16-72 | an edit changes only fields of its section and keeps the id |
| EntryDetail.SessionDraftSumIsSavedSum | src/renderer/components/EntryDetailModal.jsx:74-83 | with all count fields in the draft, the total of the saved record is the draft's total |
| EntryDetail.SessionSectionDraftComplete | src/renderer/components/EntryDetailModal.jsx:42-49 | opening the sessions section puts all five count fields in the draft |
| EntryTable.DaysUntil | src/renderer/components/EntryTable.jsx:27-31 | the day difference between the ending date and today, none for an unreadable date |
| EntryTable.GetRowClass | src/renderer/components/EntryTable.jsx:11-25 | exactly one class: expired below 0, critical 0..5, soon 6..10, none above 10 or unreadable |
| EntryTable.RowClassMonotone | src/renderer/components/EntryTable.jsx:17-24 | fewer days left never gives a less urgent class |
| EntryTable.ColouredIffDue | src/renderer/components/EntryTable.jsx:11-25 | a row is coloured iff its record is in the alert list |
| EntryTable.ExpiryText | src/renderer/components/EntryTable.jsx:27-42 | the four label forms, told apart by their first character |
| EntryTable.ExpiryTextInjective | src/renderer/components/EntryTable.jsx:33-41 | different day counts get different labels |
| EntryTable.HandleSort | src/renderer/components/EntryTable.jsx:86-92 | descending iff the same column is clicked while ascending; otherwise ascending |
| EntryTable.HandleSortTwice | src/renderer/components/EntryTable.jsx:86-92 | two clicks on the sorted column restore its state; on another column they sort it descending |
| EntryTable.OptLtIsTotalOrder | src/renderer/components/EntryTable.jsx:74-79 | the date and day comparisons are consistent |
| EntryTable.DateValue | src/renderer/components/EntryTable.jsx:57-63 | a date field's value, none iff it does not read |
| EntryTable.BeforeIsWeakOrder | src/renderer/components/EntryTable.jsx:48-82 | every column's comparator, in both directions, is consistent |
| EntryTable.SortEntries | src/renderer/components/EntryTable.jsx:44-84 | a permutation of the records, ordered by the column in the direction; an unknown column keeps the input order |
| EntryTable.StatusSortIsEndingDateSort | src/renderer/components/EntryTable.jsx:57-70 | sorting by status gives the same order as sorting by ending date |
| EntryTable.EndingDateAscending | src/renderer/components/EntryTable.jsx:61-79 | sorted ascending by ending date, an earlier date is always above a later one |
| EmailConfig.IsValidEmail | src/renderer/components/EmailConfig.jsx:50-52 | the address test done by index; its partner `IsValidEmailIff` proves it accepts exactly what `^[^\s@]+@[^\s@]+\.[^\s@]+$` matches |
| EmailConfig.IsValidEmailIff | src/renderer/components/EmailConfig.jsx:50-52 | the check accepts exactly `x@y.z` with x, y, z non-empty and free of white space and `@` |
| EmailConfig.ValidEmailOneAt | src/renderer/components/EmailConfig.jsx:50-52 | an accepted address has no white space and exactly one `@` |
| EmailConfig.IsValidEmailExamples | src/renderer/components/EmailConfig.jsx:50-52 | `a@b.gr` passes; two `@`, no local part, a trailing dot and a space fail |
| EmailConfig.IndexOf | src/renderer/components/EmailConfig.jsx:51 | the first position of the character, none iff absent |
| EmailConfig.LoadConfig | src/renderer/components/EmailConfig.jsx:14-18 | arriving settings replace the form |
| EmailConfig.HandleSave | src/renderer/components/EmailConfig.jsx:28-41 | a missing field iff one is empty; a bad address iff, with all filled, an address does not match; on success the form is saved and editing ends; on failure nothing changes |
| EmailConfig.HandleCancel | src/renderer/components/EmailConfig.jsx:43-48 | editing ends and the form returns to the saved settings when there are any |
| EmailConfig.InputChange | src/renderer/components/EmailConfig.jsx:20-26 | only the named field changes |
| EmailConfig.CancelDiscardsEdits | src/renderer/components/EmailConfig.jsx:43-48 | whatever was typed, cancel brings the saved settings back |
| EmailConfig.SavedSettingsResave | src/renderer/components/EmailConfig.jsx:28-41 | saved settings hold two valid addresses and a password, and saving them again succeeds |
| PersonSelector.FullName | src/renderer/components/PersonSelector.jsx:7 | the last-name text is a prefix, a space follows it, and the first-name text is the rest, with `undefined` for a missing field |
| PersonSelector.FilterPersons | src/renderer/components/PersonSelector.jsx:6-9 | keeps records in order; a record is kept iff its lower-cased full name contains the lower-cased term, and as often as it occurs |
| PersonSelector.EmptyTermListsAll | src/renderer/components/PersonSelector.jsx:6-9 | an empty search lists every record |
| PersonSelector.LongerTermNarrows | src/renderer/components/PersonSelector.jsx:6-9 | a longer term filters the result of any term it contains |
| PersonSelector.SearchIdempotent | src/renderer/components/PersonSelector.jsx:6-9 | searching the result again with the same term changes nothing |

## Left out

- JavaScript `Date` is modelled at day granularity on the proleptic Gregorian calendar. Milliseconds, time zones and daylight saving are left out. So is the roll-over of out-of-range months and days, for which `Calendar.ParseDmy` returns no date. Years before 1 are not modelled.
- Holidays.OrthodoxEaster: the +13-day Julian-to-Gregorian shift is right only for 1900–2099. The model computes what the code computes for every year; the 13 days are not corrected outside that range. For years 0–99, `new Date` reads the year as 19xx, so only fixed holidays match, as in the code.
- The regular expressions of the PDF text are not modelled. These are the AMKA/name pattern, the session-total pattern, and the referral and therapy-name patterns. Their matches are inputs: the captures per searched name, and position-tagged referral and name lists. PDF text extraction runs in the main process and is not part of this model.
- Therapy.TherapyKey: `toUpperCase` is modelled character by character on ASCII and Greek letters, accented ones included. The multi-character expansions of `ΐ` and `ΰ` are left out, and other scripts are left unchanged.
- PersonSelector.FilterPersons: `toLowerCase` is a parameter, because lower-casing Greek depends on context (final sigma). The empty-search property assumes it maps the empty string to itself.
- EntryTable.SortEntries: the name key `formatName(entry).toLowerCase()` is a parameter. `utils/formatName.mjs` is not part of this model.
- EntryTable.SortEntries: the source compares an unreadable date as `NaN`, which makes its comparator inconsistent. The engine's order is then implementation-defined; the model places such rows first when ascending and last when descending. Stability is not stated as a property.
- EntryTable.DaysUntil: today is a parameter. The ceiling of the millisecond difference is taken as the difference of day numbers, which ignores the time-zone offset of `new Date('YYYY-MM-DD')`.
- Records.SendAlert: today is a parameter. `new Date(endingDate)` is modelled by `Calendar.ParseIso`, which accepts only `YYYY-MM-DD`; other formats the engine would accept read as no date.
- EntryForm.SessionValues: `parseInt` is exact on unbounded integers. Values beyond 2^53 lose precision in JavaScript, which is not modelled.
- Text.StrLt compares code points, while JavaScript compares UTF-16 code units. They differ only outside the Basic Multilingual Plane.
- The main process is not part of this model: IPC, JSON storage, the per-minute alert scheduler and its time-zone handling, and the SMTP mailer. Word document generation is left out too, except the expansion of plans into rows. UI state, `alert`/`confirm` dialogs and rendering are left out as well.
- Amka.OnConfirmation: updating the stored number is asynchronous and may fail. The model treats it as done, and the confirmed number persists across uploads as in the code.
- Amka.NoConflictCarriesDocument: follows the code, which carries the document's number forward even when it is empty.
- Therapy.ExtractTherapyData: therapy names in the referral list are the normalised display names the code produces (`Λογοθεραπεία`), not the upper-case forms in the document.

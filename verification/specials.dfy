/** The specials screen: the special rows, the create/edit dialog (nullable text columns
    shown as ""), the active switch, and the day and period lines on each card. */
module Specials {
  import opened Wrappers
  import opened Store
  import Text

  /** A `specials` row. */
  datatype Special = Special(
    id: Id,
    title: string,
    titleArabic: Option<string>,
    description: Option<string>,
    descriptionArabic: Option<string>,
    imageUrl: Option<string>,
    startDate: Option<string>,
    endDate: Option<string>,
    dayOfWeek: Option<string>,
    isActive: Option<bool>,
    createdAt: Option<int>)

  /** The dialog's form data. */
  datatype SpecialDraft = SpecialDraft(
    title: string,
    titleArabic: string,
    description: string,
    descriptionArabic: string,
    imageUrl: string,
    startDate: string,
    endDate: string,
    dayOfWeek: string,
    isActive: Option<bool>)

  /** The empty form, which `resetForm` restores: every text "", active. */
  const DefaultDraft := SpecialDraft("", "", "", "", "", "", "", "", Some(true))

  /** `s || ''` on a nullable string. */
  function OrEmpty(o: Option<string>): string {
    if o.Some? then o.value else ""
  }

  /** A nullable string that renders: present and not empty. */
  predicate Present(o: Option<string>) { o.Some? && o.value != "" }

  /** `handleEdit`: nullable texts become "", the active flag is copied as stored. */
  function Prefill(s: Special): SpecialDraft {
    SpecialDraft(s.title, OrEmpty(s.titleArabic), OrEmpty(s.description), OrEmpty(s.descriptionArabic),
                 OrEmpty(s.imageUrl), OrEmpty(s.startDate), OrEmpty(s.endDate), OrEmpty(s.dayOfWeek), s.isActive)
  }

  /** The columns a create (`insert([formData])`) or an update (`update(formData)`) writes:
      all nine, with "" written as "" and not as null. */
  function ApplyDraft(s: Special, d: SpecialDraft): (r: Special)
    ensures Prefill(r) == d
    ensures r.id == s.id && r.createdAt == s.createdAt
    ensures Present(r.dayOfWeek) <==> d.dayOfWeek != ""
    ensures PeriodLine(r).Some? <==> d.startDate != "" && d.endDate != ""
    ensures PeriodLine(r).Some? ==> PeriodLine(r).value == "Period: " + d.startDate + " to " + d.endDate
  {
    s.(title := d.title, titleArabic := Some(d.titleArabic), description := Some(d.description),
       descriptionArabic := Some(d.descriptionArabic), imageUrl := Some(d.imageUrl),
       startDate := Some(d.startDate), endDate := Some(d.endDate), dayOfWeek := Some(d.dayOfWeek),
       isActive := d.isActive)
  }

  /** Saving a special untouched turns its null texts into "" and changes nothing else; what
      the card shows is the same before and after, and a second untouched save is a no-op. */
  lemma UntouchedEdit(s: Special)
    ensures var r := ApplyDraft(s, Prefill(s));
            r.title == s.title && r.isActive == s.isActive
            && (Present(r.dayOfWeek) <==> Present(s.dayOfWeek))
            && (Present(r.description) <==> Present(s.description))
            && PeriodLine(r) == PeriodLine(s) && DayLine(r) == DayLine(s)
            && ApplyDraft(r, Prefill(r)) == r
  {
  }

  /** `handleSubmit` followed by the store's answer. */
  function Commit(t: map<Id, Special>, f: FormState<SpecialDraft>, freshId: Id, now: Option<int>, net: Outcome)
    : (w: Written<Special>)
    ensures f.editing.None? && w.outcome.Ok? ==> freshId in w.table && Prefill(w.table[freshId]) == f.draft
    ensures f.editing.None? ==> (w.outcome.Ok? <==> net.Ok? && freshId !in t)
    ensures f.editing.None? && w.outcome.Ok? ==> w.table.Keys == t.Keys + {freshId}
    ensures f.editing.Some? ==> w.table.Keys == t.Keys && w.outcome == net
    ensures f.editing.Some? && f.editing.value in t && net.Ok? ==>
              Prefill(w.table[f.editing.value]) == f.draft
              && w.table[f.editing.value].createdAt == t[f.editing.value].createdAt
    ensures forall k :: k in t && Some(k) != f.editing ==> k in w.table && w.table[k] == t[k]
    ensures net.Fail? ==> w.table == t && w.outcome.Fail?
  {
    match Submission(f)
    case Create(d) =>
      var blank := Special(freshId, "", None, None, None, None, None, None, None, None, now);
      InsertRow(t, freshId, ApplyDraft(blank, d), net)
    case Update(id, d) => UpdateById(t, id, (r: Special) => ApplyDraft(r, d), net)
  }

  /** A failed save keeps the dialog and the draft; a successful one returns the form to the
      empty, active draft. */
  lemma SaveSettles(f: FormState<SpecialDraft>)
    ensures Settle(f, DefaultDraft, Fail) == f
    ensures var g := Settle(f, DefaultDraft, Ok);
            g.draft.isActive == Some(true) && g.editing.None? && !g.open
            && g.draft.title == "" && g.draft.titleArabic == "" && g.draft.description == ""
            && g.draft.descriptionArabic == "" && g.draft.imageUrl == "" && g.draft.startDate == ""
            && g.draft.endDate == "" && g.draft.dayOfWeek == ""
    ensures Submission(Settle(f, DefaultDraft, Ok)).Create?
  {
  }

  /** `toggleActiveMutation`: the switch writes the state it is switched to. */
  function ToggleActive(t: map<Id, Special>, id: Id, value: bool, net: Outcome): (w: Written<Special>)
    ensures w.table.Keys == t.Keys && w.outcome == net
    ensures forall k :: k in t && k != id ==> w.table[k] == t[k]
    ensures id in t && net.Ok? ==> w.table[id] == t[id].(isActive := Some(value))
    ensures id in t && net.Fail? ==> w.table[id] == t[id]
  {
    UpdateById(t, id, (r: Special) => r.(isActive := Some(value)), net)
  }

  /** "Day: Monday": the stored day with its first letter upper-cased, only when a day is
      set. */
  function DayLine(s: Special): (line: Option<string>)
    ensures line.Some? <==> Present(s.dayOfWeek)
    ensures line.Some? ==> line.value == "Day: " + Text.Capitalize(s.dayOfWeek.value)
  {
    if Present(s.dayOfWeek) then Some("Day: " + Text.Capitalize(s.dayOfWeek.value)) else None
  }

  /** "Period: start to end", only when both dates are set. */
  function PeriodLine(s: Special): (line: Option<string>)
    ensures line.Some? <==> Present(s.startDate) && Present(s.endDate)
  {
    if Present(s.startDate) && Present(s.endDate)
    then Some("Period: " + s.startDate.value + " to " + s.endDate.value)
    else None
  }

  /** A choice in the day select: the value stored and the text shown. */
  datatype DayOption = DayOption(value: string, caption: string)

  const DayOptions: seq<DayOption> := [
    DayOption("", "No specific day"), DayOption("monday", "Monday"), DayOption("tuesday", "Tuesday"),
    DayOption("wednesday", "Wednesday"), DayOption("thursday", "Thursday"), DayOption("friday", "Friday"),
    DayOption("saturday", "Saturday"), DayOption("sunday", "Sunday")]

  /** A day picked in the select comes back on the card as "Day: " followed by the caption
      the select showed for it; "No specific day" leaves the day line out. */
  lemma PickedDayShowsItsCaption(s: Special, d: SpecialDraft, i: nat)
    requires i < |DayOptions| && d.dayOfWeek == DayOptions[i].value
    ensures i == 0 ==> DayLine(ApplyDraft(s, d)).None?
    ensures i > 0 ==> DayLine(ApplyDraft(s, d)) == Some("Day: " + DayOptions[i].caption)
  {
    if i > 0 {
      CaptionIsCapitalized(i);
    }
  }

  /** Each day's caption is its value with the first letter upper-cased. */
  lemma CaptionIsCapitalized(i: nat)
    requires 1 <= i < |DayOptions|
    ensures DayOptions[i].value != "" && Text.Capitalize(DayOptions[i].value) == DayOptions[i].caption
  {
  }
}

/** The hosted data store, seen from one admin session: each table is a finite map from row
    id to row, and every request either goes through (`Ok`) or comes back with an error
    (`Fail`).  Also the form state every resource manager keeps around its create/edit dialog. */
module Store {
  import opened Wrappers

  type Id = string

  /** Whether the store accepted a request. */
  datatype Outcome = Ok | Fail

  /** The table after a write, and what the caller was told. */
  datatype Written<R> = Written(table: map<Id, R>, outcome: Outcome)

  /** `.insert([row])` under a fresh id; a taken id is a key violation and changes nothing. */
  function InsertRow<R>(t: map<Id, R>, id: Id, row: R, net: Outcome): (w: Written<R>)
    ensures w.outcome.Ok? <==> net.Ok? && id !in t
    ensures w.outcome.Fail? ==> w.table == t
    ensures w.outcome.Ok? ==> w.table.Keys == t.Keys + {id} && w.table[id] == row
    ensures forall k :: k in t ==> k in w.table && w.table[k] == t[k]
  {
    if net.Fail? || id in t then Written(t, Fail) else Written(t[id := row], Ok)
  }

  /** `.update(patch).eq('id', id)`: the matching row, if any, gets `patch`; no matching row
      is not an error, it just changes nothing. */
  function UpdateById<R>(t: map<Id, R>, id: Id, patch: R -> R, net: Outcome): (w: Written<R>)
    ensures w.outcome == net
    ensures w.table.Keys == t.Keys
    ensures forall k :: k in t && k != id ==> w.table[k] == t[k]
    ensures id in t ==> w.table[id] == (if net.Ok? then patch(t[id]) else t[id])
  {
    if net.Ok? && id in t then Written(t[id := patch(t[id])], Ok) else Written(t, net)
  }

  /** `.delete().eq('id', id)`. */
  function DeleteById<R>(t: map<Id, R>, id: Id, net: Outcome): (w: Written<R>)
    ensures w.outcome == net
    ensures net.Ok? ==> w.table.Keys == t.Keys - {id}
    ensures net.Fail? ==> w.table == t
    ensures forall k :: k in w.table ==> k in t && w.table[k] == t[k]
  {
    if net.Ok? then Written(map k | k in t && k != id :: t[k], Ok) else Written(t, net)
  }

  /** Deleting an id twice is the same as deleting it once, and leaves every other row alone. */
  lemma DeleteIdempotent<R>(t: map<Id, R>, id: Id)
    ensures DeleteById(DeleteById(t, id, Ok).table, id, Ok) == DeleteById(t, id, Ok)
    ensures forall k :: k in t && k != id ==> k in DeleteById(t, id, Ok).table
  {
    var once := DeleteById(t, id, Ok).table;
    var twice := DeleteById(once, id, Ok).table;
    assert twice.Keys == once.Keys;
  }

  /** What a submit asks of the store: a new row, or an update of the row being edited. */
  datatype Mutation<D> = Create(draft: D) | Update(id: Id, draft: D)

  /** The state around a create/edit dialog: the draft, the row being edited, and whether the
      dialog is open. */
  datatype FormState<D> = FormState(draft: D, editing: Option<Id>, open: bool)

  /** `resetForm`: the default draft, nothing being edited, dialog closed. */
  function ResetForm<D>(defaults: D): (f: FormState<D>)
    ensures f.draft == defaults && f.editing.None? && !f.open
  {
    FormState(defaults, None, false)
  }

  /** `handleEdit`: prefill the draft from the row and remember which id is edited. */
  function EditForm<D>(id: Id, prefill: D): (f: FormState<D>)
    ensures f.editing == Some(id) && f.draft == prefill && f.open
  {
    FormState(prefill, Some(id), true)
  }

  /** `handleSubmit`: an update of the edited id when editing, an insert otherwise; the draft
      is sent as it stands. */
  function Submission<D>(f: FormState<D>): (m: Mutation<D>)
    ensures m.draft == f.draft
    ensures m.Update? <==> f.editing.Some?
    ensures m.Update? ==> m.id == f.editing.value
  {
    match f.editing
    case Some(id) => Update(id, f.draft)
    case None => Create(f.draft)
  }

  /** Saving an edit untouched asks for an update of that row with the values it was opened
      with; saving the reset form asks for a create of the defaults. */
  lemma SubmitAfterEditOrReset<D>(id: Id, prefill: D, defaults: D)
    ensures Submission(EditForm(id, prefill)) == Update(id, prefill)
    ensures Submission(ResetForm(defaults)) == Create(defaults)
    ensures EditForm(id, prefill).open && !ResetForm(defaults).open
  {
  }

  /** The dialog's own open and close (`onOpenChange={setDialogOpen}`): the bare "Add"
      trigger opens it, and the close button, Escape or a click outside close it.  Neither
      touches the draft or the edited id, so the dialog keeps asking for the same thing. */
  function SetOpen<D>(f: FormState<D>, open: bool): (g: FormState<D>)
    ensures g.open == open
    ensures Submission(g) == Submission(f)
  {
    f.(open := open)
  }

  /** As written: open a row for editing, dismiss the dialog, then press "Add".  The dialog
      that opens still asks for an update of the row edited before, not for a new row. */
  lemma AddAfterDismissedEditAsWritten<D>(id: Id, prefill: D)
    ensures var f := SetOpen(SetOpen(EditForm(id, prefill), false), true);
            f.open && Submission(f) == Update(id, prefill)
  {
  }

  /** "Add" as evidently intended: the dialog opens on the empty form, whatever was edited
      or dismissed before, so it always asks for a new row. */
  function OpenAdd<D>(f: FormState<D>, defaults: D): (g: FormState<D>)
    ensures g.open && g.editing.None? && g.draft == defaults
    ensures Submission(g) == Create(defaults)
  {
    FormState(defaults, None, true)
  }

  /** With that "Add", a dismissed edit no longer leaks into the next create. */
  lemma AddAfterDismissedEdit<D>(id: Id, prefill: D, defaults: D)
    ensures Submission(OpenAdd(SetOpen(EditForm(id, prefill), false), defaults)) == Create(defaults)
  {
  }

  /** After a create or update: success resets the form; failure keeps the draft, the edited
      id and the open dialog exactly as they were, so nothing typed is lost. */
  function Settle<D>(f: FormState<D>, defaults: D, outcome: Outcome): (g: FormState<D>)
    ensures outcome.Fail? ==> g == f
    ensures outcome.Ok? ==> g == ResetForm(defaults)
  {
    if outcome.Ok? then ResetForm(defaults) else f
  }

  /** A failed submit followed by a successful one of the same form asks the store for the
      same thing both times: the draft survives the failure intact. */
  lemma RetryAfterFailure<D>(f: FormState<D>, defaults: D)
    ensures Submission(Settle(f, defaults, Fail)) == Submission(f)
    ensures Settle(Settle(f, defaults, Fail), defaults, Ok) == ResetForm(defaults)
  {
  }
}

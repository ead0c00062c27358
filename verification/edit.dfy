/**
 The in-place edit mode of the task list: which task, if any, is shown as an
 edit form, and the text in that form.
 */
module Edit {
  import opened Wrappers
  import opened Tasks

  /** `(editTaskId, editTitle, editDescription)`; `editTaskId == None` means
      the list is only being viewed. */
  datatype EditState = EditState(editTaskId: Option<Id>, editTitle: string, editDescription: string)

  /** The state on mount and after a cancel. */
  const NotEditing := EditState(None, "", "")

  /** The list renders `t` as an edit form exactly when its id is the one
      being edited. */
  predicate IsEditing(s: EditState, t: Task) {
    s.editTaskId == Some(t.id)
  }

  /** `startEdit(task)`: edit `t`, with the form prefilled from it. */
  function StartEdit(s: EditState, t: Task): (s': EditState)
    ensures forall u :: IsEditing(s', u) <==> u.id == t.id
    ensures s'.editTitle == t.title && s'.editDescription == t.description
  {
    EditState(Some(t.id), t.title, t.description)
  }

  /** `cancelEdit()`: leave edit mode and clear the form. */
  function CancelEdit(s: EditState): (s': EditState)
    ensures forall t :: !IsEditing(s', t)
    ensures s'.editTitle == "" && s'.editDescription == ""
  {
    NotEditing
  }

  /** What a saved edit does to the state: only the edited id is cleared, the
      form text stays as it was. */
  function EndEdit(s: EditState): (s': EditState)
    ensures forall t :: !IsEditing(s', t)
    ensures s'.editTitle == s.editTitle && s'.editDescription == s.editDescription
  {
    s.(editTaskId := None)
  }

  /** Starting an edit does not depend on what was being edited before. */
  lemma StartEditForgetsPrevious(s1: EditState, s2: EditState, t: Task)
    ensures StartEdit(s1, t) == StartEdit(s2, t)
  {
  }

  /** Cancelling is idempotent and changes nothing from the mount state. From
      any state where no task is shown as an edit form (for instance after a
      save) it still shows none; the hidden form text is reset all the same. */
  lemma CancelEditIdempotent(s: EditState)
    ensures CancelEdit(CancelEdit(s)) == CancelEdit(s)
    ensures CancelEdit(NotEditing) == NotEditing
    ensures (forall t :: !IsEditing(s, t)) ==> forall t :: IsEditing(CancelEdit(s), t) == IsEditing(s, t)
  {
  }

  /** Starting and then cancelling an edit returns to the mount state. */
  lemma StartThenCancel(s: EditState, t: Task)
    ensures CancelEdit(StartEdit(s, t)) == NotEditing
  {
  }

  /** The step a fulfilled save runs acts on the state at that moment: after a
      cancel while the request was pending it leaves the mount state, after
      starting an edit of another task it keeps that task's text but shows no
      edit form. */
  lemma EndEditAfterPendingActions(s: EditState, u: Task)
    ensures EndEdit(CancelEdit(s)) == NotEditing
    ensures EndEdit(StartEdit(s, u)) == EditState(None, u.title, u.description)
  {
  }

  /** No two tasks in the list carry the same id. */
  predicate UniqueIds(tasks: seq<Task>) {
    forall i, j :: 0 <= i < |tasks| && 0 <= j < |tasks| && tasks[i].id == tasks[j].id ==> i == j
  }

  /** When ids are unique, at most one task of the list is shown as an edit form. */
  lemma AtMostOneEditing(tasks: seq<Task>, s: EditState, i: int, j: int)
    requires UniqueIds(tasks)
    requires 0 <= i < |tasks| && 0 <= j < |tasks|
    requires IsEditing(s, tasks[i]) && IsEditing(s, tasks[j])
    ensures i == j
  {
  }
}

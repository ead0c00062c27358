/**
 The write handlers of the task screen, reduced to what they decide: whether a
 request is sent, what it carries, and how the local form state changes. The
 network call itself is not modelled; `fulfilled` says whether the request
 succeeded, that is whether the awaited promise was fulfilled. axios rejects
 on a failed connection and on a non-2xx response alike, and the statements
 after the `await` only run when it was fulfilled.
 */
module Handlers {
  import opened Wrappers
  import opened Text
  import opened Tasks
  import opened Edit

  /** The "Add New Task" form: `(title, description)`. */
  datatype Form = Form(title: string, description: string)

  /** One handler run: the request sent (`None`: nothing sent) and the state after. */
  datatype Step<S> = Step(request: Option<Request>, next: S)

  /** `handleCreateTask`: a blank title sends nothing and keeps the form;
      otherwise a POST with the trimmed text and `completed: false` is sent and,
      once it succeeds, the form is cleared. */
  function CreateTask(form: Form, fulfilled: bool): (s: Step<Form>)
    ensures s.request.None? <==> Blank(form.title)
    ensures s.request.None? ==> s.next == form
    ensures s.request.Some? ==>
      && s.request.value.Post?
      && s.request.value.body.title == Some(Trim(form.title))
      && s.request.value.body.description == Some(Trim(form.description))
      && s.request.value.body.completed == Some(false)
    ensures s.request.Some? ==> s.next == (if fulfilled then Form("", "") else form)
  {
    if Blank(form.title) then Step(None, form)
    else
      var body := Fields(Some(Trim(form.title)), Some(Trim(form.description)), Some(false));
      Step(Some(Post(body)), if fulfilled then Form("", "") else form)
  }

  /** A title that is sent is never blank and carries no outer white space. */
  lemma CreatedTitleIsNormalised(form: Form, fulfilled: bool)
    requires CreateTask(form, fulfilled).request.Some?
    ensures var t := CreateTask(form, fulfilled).request.value.body.title.value;
      t != "" && !IsSpace(t[0]) && !IsSpace(t[|t| - 1]) && Trim(t) == t
  {
    TrimIdempotent(form.title);
  }

  /** Submitting the already-trimmed text sends the same request. */
  lemma CreateIgnoresOuterSpace(form: Form, fulfilled: bool)
    ensures CreateTask(Form(Trim(form.title), Trim(form.description)), fulfilled).request
         == CreateTask(form, fulfilled).request
  {
    var f' := Form(Trim(form.title), Trim(form.description));
    TrimIdempotent(form.title);
    TrimIdempotent(form.description);
    assert Blank(f'.title) == Blank(form.title);
  }

  /** `handleUpdateTask(taskId)`: a blank edit title sends nothing and keeps the
      edit state; otherwise a PUT naming exactly the trimmed title and
      description is sent and, once it succeeds, the edit mode is left while
      the form text is kept. */
  function UpdateTask(s: EditState, taskId: Id, fulfilled: bool): (r: Step<EditState>)
    ensures r.request.None? <==> Blank(s.editTitle)
    ensures r.request.None? ==> r.next == s
    ensures r.request.Some? ==>
      && r.request.value == Put(taskId, Fields(Some(Trim(s.editTitle)), Some(Trim(s.editDescription)), None))
    ensures r.request.Some? && fulfilled ==>
      (forall t :: !IsEditing(r.next, t)) && r.next.editTitle == s.editTitle && r.next.editDescription == s.editDescription
    ensures !fulfilled ==> r.next == s
  {
    if Blank(s.editTitle) then Step(None, s)
    else
      var body := Fields(Some(Trim(s.editTitle)), Some(Trim(s.editDescription)), None);
      Step(Some(Put(taskId, body)), if fulfilled then EndEdit(s) else s)
  }

  /** Editing a task and saving it unchanged sends that task's own text,
      trimmed, and the backend's partial update keeps its id and completion. */
  lemma EditThenSave(s: EditState, t: Task)
    requires !Blank(t.title)
    ensures var r := UpdateTask(StartEdit(s, t), t.id, true);
      && r.request == Some(Put(t.id, Fields(Some(Trim(t.title)), Some(Trim(t.description)), None)))
      && r.next == EditState(None, t.title, t.description)
      && Apply(t, r.request.value.body) == t.(title := Trim(t.title), description := Trim(t.description))
  {
  }

  /** `handleToggleComplete(taskId, currentStatus)`: a PUT whose body names
      only `completed`, set to the opposite of the current status. */
  function ToggleComplete(taskId: Id, currentStatus: bool): (r: Request)
    ensures r.Put? && r.target == taskId
    ensures r.body.title.None? && r.body.description.None?
    ensures r.body.completed.Some? && r.body.completed.value != currentStatus
  {
    Put(taskId, Fields(None, None, Some(!currentStatus)))
  }

  /** The toggle button passes the task's own status, so the update flips
      exactly that flag; toggling twice restores the task. */
  lemma ToggleFlipsOnlyCompleted(t: Task)
    ensures Apply(t, ToggleComplete(t.id, t.completed).body) == t.(completed := !t.completed)
    ensures var u := Apply(t, ToggleComplete(t.id, t.completed).body);
      Apply(u, ToggleComplete(u.id, u.completed).body) == t
  {
  }

  /** `handleDeleteTask(taskId)`: a DELETE for the task, only when the user
      confirms the dialog. */
  function DeleteTask(taskId: Id, confirmed: bool): (r: Option<Request>)
    ensures r.Some? <==> confirmed
    ensures r.Some? ==> r.value.Delete? && r.value.target == taskId
  {
    if confirmed then Some(Delete(taskId)) else None
  }
}

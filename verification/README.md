# Task list screen: filter, statistics, payloads and edit mode

A Dafny model of the logic inside the single React component of a to-do
client (`src/App.jsx`). The component keeps a snapshot of tasks fetched from
a REST backend. Every render derives from that snapshot a filtered and
searched list and a statistics card. Its handlers turn form input into
POST/PUT/DELETE requests, and it runs a small edit mode that shows one task
at a time as an edit form.

Modules:

- `Wrappers` (`wrappers.dfy`): `Option`, which stands for `null` and absent fields.
- `Text` (`text.dfy`): `trim`, ASCII `toLowerCase` and `includes`.
- `Tasks` (`tasks.dfy`): the `Task` record, request bodies (`Fields`), the
  `Request` datatype and `Apply`, the backend's partial-update reading of a PUT
  body.
- `View` (`view.dfy`): the `tasks.filter` callback and the derived list.
- `Stats` (`stats.dfy`): the completed count, the pending count and progress.
- `Edit` (`edit.dfy`): the edit state `(editTaskId, editTitle, editDescription)`
  and its transitions.
- `Handlers` (`handlers.dfy`): `handleCreateTask`, `handleUpdateTask`,
  `handleToggleComplete` and `handleDeleteTask`. Each is reduced to the request
  it sends (`None` when it sends nothing) and the local state afterwards.

Inputs the component gets from its environment become parameters:

- `fulfilled`: whether the request succeeded, that is whether the awaited
  promise was fulfilled. axios rejects both when no response arrives and when
  a non-2xx response arrives. The statements after an `await` run only when
  the promise was fulfilled.
- `confirmed`: the answer to `window.confirm`.

`Apply` is not code of the screen. It is the partial-update behaviour of the
backend that the toggle and update handlers rely on. Fields a body names
replace the stored ones. Fields it omits are kept.

The filter is kept as the string the screen stores. The buttons set `all`,
`active` or `completed`, and any other value shows every task, as the callback
does.

Three facts about the code that the model keeps:

- The update handler always sends both title and description. It does not send
  only the changed fields.
- The update handler does not check that `taskId` is the id being edited. Only
  the rendering (line 318) ties the Save button to the edited task.
- The title's minimum length of 3 is only an HTML attribute. The handlers
  reject only a blank title.

## Model

| member | source | states |
|---|---|---|
| Text.Trim | src/App.jsx:52-53 | `trim` keeps no white space at either end, never lengthens, and yields the empty string exactly when the input is all white space |
| Text.TrimRemovesOnlyOuterSpace | src/App.jsx:43 | the trimmed text is a contiguous part of the input with only white space before and after it |
| Text.TrimIdempotent | src/App.jsx:76-77 | trimming an already-trimmed text changes nothing |
| Text.ToLower | src/App.jsx:129-131 | lower-casing keeps the length and maps each character on its own |
| Text.ToLowerIdempotent | src/App.jsx:129-131 | the lower-cased text has no upper-case ASCII letter, and lower-casing it again changes nothing |
| Text.Contains | src/App.jsx:130-131 | `includes` holds exactly when the needle occurs at some position of the text |
| Text.EmptyOccursEverywhere | src/App.jsx:128-131 | the empty search text occurs in every string, so the search step matters only for non-empty text |
| View.Keep | src/App.jsx:122-135 | the callback keeps a task exactly when `active` implies open, `completed` implies done, and a non-empty search matches the title or description |
| View.FilteredTasks | src/App.jsx:122-135 | the view is no longer than the snapshot, holds only snapshot tasks the callback keeps, and holds every task the callback keeps |
| View.ViewIsOrderedSelection | src/App.jsx:122-135 | the view is the snapshot read at strictly increasing positions, and a position is read exactly when its task is kept |
| View.FilterSoundness | src/App.jsx:124-125 | with `active` every shown task is open; with `completed` every shown task is done |
| View.SearchSoundness | src/App.jsx:128-131 | with non-empty search text every shown task contains the lower-cased text in its lower-cased title or description |
| View.SearchIgnoresCase | src/App.jsx:129 | searching the lower-cased text matches the same tasks as the original text |
| View.UnfilteredViewIsSnapshot | src/App.jsx:122-135 | with a filter other than `active`/`completed` and empty search text the view equals the snapshot |
| View.ActiveScenario | src/App.jsx:124 | for the snapshot [open "Buy milk", done "Pay bills"], the `active` view is just "Buy milk" |
| Stats.CountCompleted | src/App.jsx:139 | the completed count is at most the total, is 0 exactly when no task is done, and equals the total exactly when every task is done |
| Stats.Progress | src/App.jsx:183 | progress is 0 for an empty list, at most 100, and within half a point of the exact percentage, ties rounded up |
| Stats.ProgressIsNearestPercent | src/App.jsx:183 | any whole number within half a point of the exact percentage (ties up) is the progress shown |
| Stats.ComputeStatistics | src/App.jsx:138-183 | total is the snapshot length; completed is the length of the `completed` view and pending that of the `active` view (line 139's filter); pending is never negative and completed plus pending is the total; progress is the half-up rounded percentage of completed over total, lies in 0..100 and is 0 for an empty list |
| Stats.ProgressExtremes | src/App.jsx:183 | progress is 100 when every task of a non-empty list is done, and 0 when none is |
| Stats.CountsMatchViews | src/App.jsx:138-140 | the completed and pending counts are the sizes of the `completed` and `active` views with empty search text |
| Stats.StatisticsScenario | src/App.jsx:138-140 | for one done task out of two, the card shows total 2, pending 1, completed 1, progress 50 |
| Stats.DivisionIsUnique | src/App.jsx:183 | the integer quotient is the only q with q*m <= n < q*m + m; this pins the rounding |
| Handlers.CreateTask | src/App.jsx:43-61 | nothing is sent exactly when the title is blank, and the form is then kept; otherwise a POST is sent with the trimmed title and description and `completed: false`, and the form is cleared once the POST succeeds |
| Handlers.CreatedTitleIsNormalised | src/App.jsx:43-52 | a title that is sent is non-empty, has no white space at either end, and is its own trim |
| Handlers.CreateIgnoresOuterSpace | src/App.jsx:50-56 | submitting the already-trimmed title and description sends the same request |
| Handlers.UpdateTask | src/App.jsx:66-81 | nothing is sent exactly when the edit title is blank, and the state is then kept; otherwise a PUT to the task names exactly the trimmed title and description, and once it succeeds no task is in edit mode while the form text is kept |
| Handlers.EditThenSave | src/App.jsx:74-81 | starting an edit and saving it unchanged sends the task's own trimmed text, ends edit mode with the text kept, and the partial update keeps the task's id and completion |
| Handlers.ToggleComplete | src/App.jsx:87-92 | the toggle is a PUT to the task whose body names only `completed`, set to the opposite of the current status |
| Handlers.ToggleFlipsOnlyCompleted | src/App.jsx:355 | toggling with the task's own status flips only its `completed` flag, and toggling twice restores the task |
| Handlers.DeleteTask | src/App.jsx:97-101 | a DELETE for the task is sent exactly when the user confirms |
| Edit.StartEdit | src/App.jsx:108-112 | after `startEdit(t)` the tasks in edit mode are exactly those with `t`'s id, and the form holds `t`'s title and description |
| Edit.CancelEdit | src/App.jsx:115-119 | after `cancelEdit` no task is in edit mode and the form is empty |
| Edit.EndEdit | src/App.jsx:81 | after a successful save no task is in edit mode, and the form text is unchanged |
| Edit.EndEditAfterPendingActions | src/App.jsx:81 | the clearing step of a save acts on the state when the PUT succeeds: after a cancel it leaves `(null, "", "")`, after starting an edit of another task it leaves `(null, that title, that description)` |
| Edit.StartEditForgetsPrevious | src/App.jsx:108-112 | the state after `startEdit(t)` does not depend on the state before |
| Edit.CancelEditIdempotent | src/App.jsx:115-119 | cancelling twice is cancelling once; cancelling from the mount state `(null, "", "")` changes nothing; from any state where no task is in edit mode (such as after a save) cancelling still leaves none in edit mode, though it resets the form text |
| Edit.StartThenCancel | src/App.jsx:108-119 | starting and then cancelling an edit returns to the mount state `(null, "", "")` |
| Edit.AtMostOneEditing | src/App.jsx:318 | when snapshot ids are unique, at most one task is rendered as an edit form |

## Left out

- Fetching, the re-fetch after each write, mount loading, the `loading` flag, `alert`, `console.log` and `window.confirm`: these are I/O and UI side effects. The confirm answer is a parameter of `DeleteTask`.
- Handlers.UpdateTask: runs the handler as one step across the `await` at line 74. It does not model a Cancel or an Edit click while the PUT is pending. In the screen, the clearing step at line 81 (`EndEdit`) acts on the state at the time the PUT succeeds, so the form text left behind is then that state's text, not the text at the time of the click. `Edit.EndEditAfterPendingActions` states the two resulting states.
- Overlapping refreshes, where the last response wins: this is concurrency and is not modelled.
- Rendering, CSS classes, the empty-state messages and date formatting of `createdAt`: these are presentation only. `createdAt` is carried as an uninterpreted string.
- The `onChange` setters of the form fields and of the search box: each only stores the typed text. The model takes the resulting text as input.
- The HTML `minLength="3"` on the title input: the browser enforces it, not the handler.
- `src/services/api.js` is not part of this model. It is a set of thin HTTP wrappers that the screen does not call. Its `toggleComplete` puts to a `/toggle` sub-route and ignores `currentStatus`. The screen's toggle, modelled here, instead sends `{completed: !currentStatus}` through the ordinary update route.
- Text.ToLower: lower-cases only ASCII letters. JavaScript's `toLowerCase` applies full Unicode case mapping, which is out of reach without Unicode tables.
- Stats.Progress: computes `(200*c + t) / (2*t)` on exact integers. `Math.round` works on the floating-point value of `c / t * 100`, which can round differently when that value lies within floating-point error of a half.
- Tasks.Apply: this is the backend's partial-update behaviour, assumed rather than taken from the screen's code. It is used only to state what the toggle and update payloads do to a task.

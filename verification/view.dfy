/**
 The derived task list: the snapshot filtered by the status buttons and by the
 search box, recomputed on every render.
 */
module View {
  import opened Text
  import opened Tasks

  /** The filter values the callback tests. The filter is kept as the string
      it is in the screen: the buttons also set "all", and any value other
      than these two shows all tasks. */
  const FilterActive := "active"
  const FilterCompleted := "completed"

  /** The search text occurs in the task's title or description, ignoring
      the case of ASCII letters. */
  predicate MatchesSearch(search: string, t: Task) {
    var q := ToLower(search);
    Contains(ToLower(t.title), q) || Contains(ToLower(t.description), q)
  }

  /** The callback given to `tasks.filter`, with its early returns. */
  function Keep(filter: string, search: string, t: Task): (b: bool)
    ensures b <==>
      && (filter == FilterActive ==> !t.completed)
      && (filter == FilterCompleted ==> t.completed)
      && (search != "" ==> MatchesSearch(search, t))
  {
    if filter == FilterActive && t.completed then false
    else if filter == FilterCompleted && !t.completed then false
    else if search != "" then
      var searchLower := ToLower(search);
      Contains(ToLower(t.title), searchLower) || Contains(ToLower(t.description), searchLower)
    else true
  }

  /** `filteredTasks`: the tasks the callback keeps, in snapshot order. */
  function FilteredTasks(tasks: seq<Task>, filter: string, search: string): (r: seq<Task>)
    ensures |r| <= |tasks|
    ensures forall k :: 0 <= k < |r| ==> r[k] in tasks && Keep(filter, search, r[k])
    ensures forall i :: 0 <= i < |tasks| && Keep(filter, search, tasks[i]) ==> tasks[i] in r
  {
    if tasks == [] then []
    else
      var rest := FilteredTasks(tasks[1..], filter, search);
      assert forall i :: 1 <= i < |tasks| ==> tasks[i] == tasks[1..][i - 1];
      if Keep(filter, search, tasks[0]) then [tasks[0]] + rest else rest
  }

  /** `ys` is `xs` read at the strictly increasing positions `idx`. */
  ghost predicate ReadAt(xs: seq<Task>, ys: seq<Task>, idx: seq<nat>) {
    && |idx| == |ys|
    && (forall k :: 0 <= k < |idx| ==> idx[k] < |xs| && ys[k] == xs[idx[k]])
    && (forall k, l :: 0 <= k < l < |idx| ==> idx[k] < idx[l])
  }

  /** Every position moved one place to the right; a proof aid for
      `ViewIsOrderedSelection`. */
  ghost function Shift(idx: seq<nat>): (r: seq<nat>)
    ensures |r| == |idx|
    ensures forall k :: 0 <= k < |idx| ==> r[k] == idx[k] + 1
  {
    seq(|idx|, k requires 0 <= k < |idx| => idx[k] + 1)
  }

  /** Reading positions of `xs` is reading the shifted positions of `[x] + xs`,
      whether or not `x` itself is read too. */
  lemma ReadAtPrepend(x: Task, xs: seq<Task>, ys: seq<Task>, idx: seq<nat>)
    requires ReadAt(xs, ys, idx)
    ensures ReadAt([x] + xs, ys, Shift(idx))
    ensures ReadAt([x] + xs, [x] + ys, [0] + Shift(idx))
    ensures forall i :: 1 <= i <= |xs| ==> (i in Shift(idx) <==> (i - 1) in idx)
    ensures 0 !in Shift(idx)
  {
    var sh := Shift(idx);
    forall i | 1 <= i <= |xs| ensures i in sh <==> (i - 1) in idx {
      if i in sh {
        var k :| 0 <= k < |sh| && sh[k] == i;
        assert idx[k] == i - 1;
      }
      if (i - 1) in idx {
        var k :| 0 <= k < |idx| && idx[k] == i - 1;
        assert sh[k] == i;
      }
    }
  }

  /** The view is the order-preserving subsequence of the snapshot made of
      exactly the positions whose task the callback keeps. */
  lemma {:induction false} ViewIsOrderedSelection(tasks: seq<Task>, filter: string, search: string)
    returns (idx: seq<nat>)
    ensures ReadAt(tasks, FilteredTasks(tasks, filter, search), idx)
    ensures forall i :: 0 <= i < |tasks| ==> (i in idx <==> Keep(filter, search, tasks[i]))
  {
    if tasks == [] {
      idx := [];
    } else {
      var x, xs := tasks[0], tasks[1..];
      assert tasks == [x] + xs;
      var rest := FilteredTasks(xs, filter, search);
      var idx' := ViewIsOrderedSelection(xs, filter, search);
      ReadAtPrepend(x, xs, rest, idx');
      var keep := Keep(filter, search, x);
      if keep {
        assert FilteredTasks(tasks, filter, search) == [x] + rest;
        idx := [0] + Shift(idx');
      } else {
        assert FilteredTasks(tasks, filter, search) == rest;
        idx := Shift(idx');
      }
      forall i | 0 <= i < |tasks| ensures i in idx <==> Keep(filter, search, tasks[i]) {
        if i > 0 {
          assert tasks[i] == xs[i - 1];
        }
      }
    }
  }

  /** With the `active` filter only open tasks are shown, with `completed`
      only finished ones. */
  lemma FilterSoundness(tasks: seq<Task>, search: string)
    ensures forall t :: t in FilteredTasks(tasks, FilterActive, search) ==> !t.completed
    ensures forall t :: t in FilteredTasks(tasks, FilterCompleted, search) ==> t.completed
  {
  }

  /** With a non-empty search every shown task contains the lower-cased
      search text in its lower-cased title or description. */
  lemma SearchSoundness(tasks: seq<Task>, filter: string, search: string)
    requires search != ""
    ensures forall t :: t in FilteredTasks(tasks, filter, search) ==>
      Contains(ToLower(t.title), ToLower(search)) || Contains(ToLower(t.description), ToLower(search))
  {
  }

  /** The search ignores letter case: searching the lower-cased text finds
      the same tasks. */
  lemma SearchIgnoresCase(search: string, t: Task)
    ensures MatchesSearch(ToLower(search), t) == MatchesSearch(search, t)
  {
    ToLowerIdempotent(search);
  }

  /** With no status filter and an empty search the view is the snapshot. */
  lemma {:induction false} UnfilteredViewIsSnapshot(tasks: seq<Task>, filter: string)
    requires filter != FilterActive && filter != FilterCompleted
    ensures FilteredTasks(tasks, filter, "") == tasks
  {
    if tasks != [] {
      UnfilteredViewIsSnapshot(tasks[1..], filter);
      assert [tasks[0]] + tasks[1..] == tasks;
    }
  }

  /** The sample snapshot: the `active` view holds only the open task. */
  lemma ActiveScenario()
    ensures var milk := Task("1", "Buy milk", "", false, "");
            var bills := Task("2", "Pay bills", "", true, "");
            FilteredTasks([milk, bills], FilterActive, "") == [milk]
  {
  }
}

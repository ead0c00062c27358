/**
 The statistics card: total, completed and pending counts and the progress
 percentage.
 */
module Stats {
  import opened Tasks
  import opened View

  /** `tasks.filter(task => task.completed).length`. */
  function CountCompleted(tasks: seq<Task>): (c: nat)
    ensures c <= |tasks|
    ensures c == 0 <==> forall i :: 0 <= i < |tasks| ==> !tasks[i].completed
    ensures c == |tasks| <==> forall i :: 0 <= i < |tasks| ==> tasks[i].completed
  {
    if tasks == [] then 0
    else
      var rest := CountCompleted(tasks[1..]);
      assert forall i :: 1 <= i < |tasks| ==> tasks[i] == tasks[1..][i - 1];
      (if tasks[0].completed then 1 else 0) + rest
  }

  /** `Math.round(completed / total * 100)`, with halves rounded up as
      `Math.round` does, computed on integers; 0 for an empty list. */
  function Progress(completed: nat, total: nat): (p: nat)
    ensures total == 0 ==> p == 0
    ensures total > 0 ==> 200 * completed - total < 2 * p * total <= 200 * completed + total
    ensures completed <= total ==> p <= 100
  {
    if total == 0 then 0 else (200 * completed + total) / (2 * total)
  }

  /** Progress is the only whole number within half a point of the exact
      percentage, ties going up. */
  lemma ProgressIsNearestPercent(completed: nat, total: nat, q: int)
    requires total > 0
    requires 200 * completed - total < 2 * q * total <= 200 * completed + total
    ensures q == Progress(completed, total)
  {
    var m := 2 * total;
    assert q * m <= 200 * completed + total < q * m + m;
    DivisionIsUnique(200 * completed + total, m, q);
  }

  /** The quotient is the only `q` with `q * m <= n < q * m + m`. */
  lemma DivisionIsUnique(n: int, m: int, q: int)
    requires m > 0
    requires q * m <= n < q * m + m
    ensures n / m == q
  {
    var q0, r0 := n / m, n % m;
    assert n == q0 * m + r0 && 0 <= r0 < m;
    var d := q - q0;
    assert d * m == q * m - q0 * m;
    MultipleBounds(d, m);
  }

  /** A non-zero multiple of a positive `m` is at least `m` away from zero. */
  lemma MultipleBounds(d: int, m: int)
    requires m > 0
    ensures d >= 1 ==> d * m >= m
    ensures d <= -1 ==> d * m <= -m
  {
    if d >= 1 {
      assert d * m == (d - 1) * m + m;
    } else if d <= -1 {
      assert d * m == -((-d - 1) * m) - m;
    }
  }

  /** The four numbers on the card. */
  datatype Statistics = Statistics(total: nat, completed: nat, pending: nat, progress: nat)

  /** The card: `completed` is the length of the list the `completed`
      filter shows, `pending` the rest, and `progress` the rounded percentage. */
  function ComputeStatistics(tasks: seq<Task>): (s: Statistics)
    ensures s.total == |tasks|
    ensures s.completed == |FilteredTasks(tasks, FilterCompleted, "")|
    ensures s.pending == |FilteredTasks(tasks, FilterActive, "")|
    ensures s.completed <= s.total
    ensures s.pending + s.completed == s.total
    ensures s.progress == Progress(s.completed, s.total)
    // The last three follow from Progress's contract; restated for readers.
    ensures s.total > 0 ==>
      200 * s.completed - s.total < 2 * s.progress * s.total <= 200 * s.completed + s.total
    ensures s.progress <= 100
    ensures s.total == 0 ==> s.progress == 0
  {
    CountsMatchViews(tasks);
    var total := |tasks|;
    var completed := CountCompleted(tasks);
    Statistics(total, completed, total - completed, Progress(completed, total))
  }

  /** Progress is 100 when every task is done and 0 when none is. */
  lemma ProgressExtremes(tasks: seq<Task>)
    ensures (forall i :: 0 <= i < |tasks| ==> tasks[i].completed) && tasks != []
      ==> ComputeStatistics(tasks).progress == 100
    ensures (forall i :: 0 <= i < |tasks| ==> !tasks[i].completed)
      ==> ComputeStatistics(tasks).progress == 0
  {
    var t := |tasks|;
    if t > 0 {
      DivisionIsUnique(200 * t + t, 2 * t, 100);
      DivisionIsUnique(t, 2 * t, 0);
    }
  }

  /** The completed and pending counts are the sizes of the `completed` and
      `active` views with an empty search. */
  lemma {:induction false} CountsMatchViews(tasks: seq<Task>)
    ensures CountCompleted(tasks) == |FilteredTasks(tasks, FilterCompleted, "")|
    ensures |tasks| - CountCompleted(tasks) == |FilteredTasks(tasks, FilterActive, "")|
  {
    if tasks != [] {
      CountsMatchViews(tasks[1..]);
    }
  }

  /** The sample snapshot: one of two tasks done gives 50%. */
  lemma StatisticsScenario()
    ensures var milk := Task("1", "Buy milk", "", false, "");
            var bills := Task("2", "Pay bills", "", true, "");
            ComputeStatistics([milk, bills]) == Statistics(2, 1, 1, 50)
  {
    var milk := Task("1", "Buy milk", "", false, "");
    var bills := Task("2", "Pay bills", "", true, "");
    assert [milk, bills][1..] == [bills];
    assert [bills][1..] == [];
  }
}

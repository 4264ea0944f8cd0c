/** The statistics cards: counts over the whole store and the completion percentage. */
module TaskStats {
  import opened Tasks
  import MainView

  datatype Stats = Stats(
    totalTasks: int,
    completedTasks: int,
    activeTasks: int,
    highPriorityTasks: int,
    completionPercentage: int)

  /**
   * `Math.round((completed / total) * 100)` in exact arithmetic: the integer
   * nearest to 100 * completed / total, halves rounded up.
   */
  function CompletionPercentage(completed: nat, total: nat): (p: int)
    requires 0 < total && completed <= total
    ensures 2 * total * p <= 200 * completed + total < 2 * total * p + 2 * total
    ensures 0 <= p <= 100
    ensures completed == total ==> p == 100
    ensures completed == 0 ==> p == 0
  {
    var p := (200 * completed + total) / (2 * total);
    PercentageBounds(completed, total, p);
    p
  }

  /** A quotient is below `k` when the dividend is below `k` whole divisors. */
  lemma QuotientBelow(a: int, b: int, k: int)
    requires 0 < b && a < b * k
    ensures a / b < k
  {
    var q := a / b;
    assert b * q <= a;
    assert b * (k - q) == b * k - b * q;
  }

  /** A quotient is at least `k` when the dividend holds `k` whole divisors. */
  lemma QuotientAtLeast(a: int, b: int, k: int)
    requires 0 < b && b * k <= a
    ensures k <= a / b
  {
    var q := a / b;
    assert a < b * q + b;
    assert b * (q + 1 - k) == b * q + b - b * k;
  }

  lemma PercentageBounds(completed: nat, total: nat, p: int)
    requires 0 < total && completed <= total
    requires p == (200 * completed + total) / (2 * total)
    ensures 2 * total * p <= 200 * completed + total < 2 * total * p + 2 * total
    ensures 0 <= p <= 100
    ensures completed == total ==> p == 100
    ensures completed == 0 ==> p == 0
  {
    var a, b := 200 * completed + total, 2 * total;
    QuotientBelow(a, b, 101);
    QuotientAtLeast(a, b, 0);
    if completed == total {
      QuotientAtLeast(a, b, 100);
    }
    if completed == 0 {
      QuotientBelow(a, b, 1);
    }
  }

  /** `totalTasks`, `completedTasks`, `activeTasks`, `highPriorityTasks` and `completionPercentage`. */
  function ComputeStats(tasks: seq<Task>): (r: Stats)
    ensures r.totalTasks == |tasks|
    ensures r.completedTasks == |MainView.GetFilteredTasks(tasks, "completed")|
    ensures r.activeTasks == |MainView.GetFilteredTasks(tasks, "active")|
    ensures r.completedTasks + r.activeTasks == r.totalTasks
    ensures r.highPriorityTasks == |Select(tasks, HighAndActive)|
    ensures 0 <= r.highPriorityTasks <= r.activeTasks
    ensures tasks != [] ==> r.completionPercentage == CompletionPercentage(r.completedTasks, r.totalTasks)
    ensures tasks == [] ==> r.completionPercentage == 0
    ensures 0 <= r.completionPercentage <= 100
  {
    var total := |tasks|;
    var completed := |Select(tasks, IsCompleted)|;
    var active := total - completed;
    var high := |Select(tasks, HighAndActive)|;
    SelectComplement(tasks, NotCompleted, IsCompleted);
    SelectImplied(tasks, HighAndActive, NotCompleted);
    Stats(total, completed, active, high, if total > 0 then CompletionPercentage(completed, total) else 0)
  }

  /** The percentage is 100 when every task is completed and 0 when none is. */
  lemma CompletionExtremes(tasks: seq<Task>)
    ensures tasks != [] && (forall i :: 0 <= i < |tasks| ==> tasks[i].completed) ==> ComputeStats(tasks).completionPercentage == 100
    ensures (forall i :: 0 <= i < |tasks| ==> !tasks[i].completed) ==> ComputeStats(tasks).completionPercentage == 0
  {
    if forall i :: 0 <= i < |tasks| ==> tasks[i].completed {
      SelectAllMatching(tasks, IsCompleted);
    }
    if forall i :: 0 <= i < |tasks| ==> !tasks[i].completed {
      SelectNoneMatching(tasks, IsCompleted);
    }
  }
}

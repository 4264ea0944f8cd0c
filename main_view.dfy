/** The filter engine of the main page: `getFilteredTasks` switches over the filter key. */
module MainView {
  import opened Wrappers
  import opened Tasks

  /** The criterion a filter key selects with; None for 'all' and every key the switch does not name. */
  function CriterionFor(filter: string): (r: Option<Criterion>)
    ensures r.Some? <==> IsKnownFilter(filter)
  {
    match filter
    case "active" => Some(NotCompleted)
    case "completed" => Some(IsCompleted)
    case "high" => Some(PriorityIs(High))
    case "medium" => Some(PriorityIs(Medium))
    case "low" => Some(PriorityIs(Low))
    case _ => None
  }

  predicate IsKnownFilter(filter: string) {
    filter in {"active", "completed", "high", "medium", "low"}
  }

  /**
   * `getFilteredTasks()`: the tasks a filter key shows, as a subsequence of
   * the store; 'active' and 'completed' split by completion, the priority keys
   * split by priority whatever the completion, any other key shows everything.
   */
  function GetFilteredTasks(tasks: seq<Task>, filter: string): (r: seq<Task>)
    ensures SubsequenceOf(r, tasks) && |r| <= |tasks|
    ensures filter == "active" ==> IsExactSelection(r, tasks, NotCompleted)
    ensures filter == "completed" ==> IsExactSelection(r, tasks, IsCompleted)
    ensures filter == "high" ==> IsExactSelection(r, tasks, PriorityIs(High))
    ensures filter == "medium" ==> IsExactSelection(r, tasks, PriorityIs(Medium))
    ensures filter == "low" ==> IsExactSelection(r, tasks, PriorityIs(Low))
    ensures !IsKnownFilter(filter) ==> r == tasks
  {
    match CriterionFor(filter)
    case Some(c) => SelectExact(tasks, c); Select(tasks, c)
    case None => SubsequenceRefl(tasks); tasks
  }

  /** 'active' and 'completed' partition the store: disjoint, with lengths and multisets adding up to it. */
  lemma ActiveCompletedPartition(tasks: seq<Task>)
    ensures var active, done := GetFilteredTasks(tasks, "active"), GetFilteredTasks(tasks, "completed");
      && |active| + |done| == |tasks|
      && multiset(active) + multiset(done) == multiset(tasks)
      && (forall t :: !(t in active && t in done))
  {
    SelectComplement(tasks, NotCompleted, IsCompleted);
    forall t ensures !(t in Select(tasks, NotCompleted) && t in Select(tasks, IsCompleted)) {
      SelectMembership(tasks, NotCompleted, t);
      SelectMembership(tasks, IsCompleted, t);
    }
  }

  /**
   * A priority key keeps a task exactly when it has that priority, whether it
   * is completed or not.
   */
  lemma PriorityFilterIgnoresCompletion(tasks: seq<Task>, filter: string, t: Task)
    requires filter in {"high", "medium", "low"}
    ensures var p := if filter == "high" then High else if filter == "medium" then Medium else Low;
      t in GetFilteredTasks(tasks, filter) <==> t in tasks && t.priority == p
  {
    var p := if filter == "high" then High else if filter == "medium" then Medium else Low;
    assert CriterionFor(filter) == Some(PriorityIs(p));
    SelectMembership(tasks, PriorityIs(p), t);
  }

  /** 'active' keeps a task exactly when it occurs in the store and is not completed; 'completed' the converse. */
  lemma CompletionFilterMembership(tasks: seq<Task>, t: Task)
    ensures t in GetFilteredTasks(tasks, "active") <==> t in tasks && !t.completed
    ensures t in GetFilteredTasks(tasks, "completed") <==> t in tasks && t.completed
  {
    SelectMembership(tasks, NotCompleted, t);
    SelectMembership(tasks, IsCompleted, t);
  }
}

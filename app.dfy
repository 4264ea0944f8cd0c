/**
 * The task store of the application root: one list of tasks that `addTask`,
 * `toggleComplete`, `deleteTask` and `editTask` replace through `setTasks`.
 * Each update is a map or filter over the previous list; they are written
 * here as functions over sequences, and the store's methods assign them.
 */
module App {
  import opened Wrappers
  import opened Dates
  import opened Tasks
  import MainView
  import Calendar
  import CountdownTimer

  /** The object the add forms pass: it carries the four draft keys (TaskForm and Calendar always send them). */
  predicate HasDraftKeys(p: Patch) {
    p.title.Some? && p.description.Some? && p.priority.Some? && p.dueDate.Some?
  }

  /**
   * `{ id, ...taskData, completed: false, createdAt }`: the generated id is
   * written before the spread, completion and creation time after it.
   */
  function NewTask(id: string, createdAt: string, data: Patch): (t: Task)
    requires HasDraftKeys(data)
    ensures !t.completed && t.createdAt == createdAt
    ensures t.id == (if data.id.Some? then data.id.value else id)
    ensures t.title == data.title.value && t.description == data.description.value
    ensures t.priority == data.priority.value && t.dueDate == data.dueDate.value
  {
    var base := Task(id, "", "", Medium, None, false, createdAt);
    Spread(base, data).(completed := false, createdAt := createdAt)
  }

  /** `prevTasks.map(task => task.id === id ? { ...task, completed: !task.completed } : task)` */
  function Toggled(s: seq<Task>, id: string): (r: seq<Task>)
    ensures |r| == |s|
    decreases |s|
  {
    if s == [] then []
    else [if s[0].id == id then s[0].(completed := !s[0].completed) else s[0]] + Toggled(s[1..], id)
  }

  /** `prevTasks.filter(task => task.id !== id)` */
  function Removed(s: seq<Task>, id: string): (r: seq<Task>)
    ensures |r| <= |s|
    ensures forall t :: t in r ==> t.id != id
  {
    Select(s, IdIsNot(id))
  }

  /** `prevTasks.map(task => task.id === id ? { ...task, ...data } : task)` */
  function Edited(s: seq<Task>, id: string, data: Patch): (r: seq<Task>)
    ensures |r| == |s|
    decreases |s|
  {
    if s == [] then []
    else [if s[0].id == id then Spread(s[0], data) else s[0]] + Edited(s[1..], id, data)
  }

  /** No two tasks share an id (the store hopes for it; nothing in the source enforces it). */
  predicate UniqueIds(s: seq<Task>) {
    forall i, j :: 0 <= i < j < |s| ==> s[i].id != s[j].id
  }

  /** Toggling flips `completed` on each task with the id and changes nothing else. */
  lemma {:induction false} ToggledAt(s: seq<Task>, id: string, i: int)
    requires 0 <= i < |s|
    ensures |Toggled(s, id)| == |s|
    ensures Toggled(s, id)[i] == if s[i].id == id then s[i].(completed := !s[i].completed) else s[i]
    decreases |s|
  {
    if i > 0 {
      ToggledAt(s[1..], id, i - 1);
    } else if |s| > 1 {
      ToggledAt(s[1..], id, 0);
    }
  }

  /** Toggling the same id twice restores the list. */
  lemma {:induction false} ToggleTwice(s: seq<Task>, id: string)
    ensures Toggled(Toggled(s, id), id) == s
    decreases |s|
  {
    if s != [] {
      ToggleTwice(s[1..], id);
      var t := Toggled(s, id);
      assert t[1..] == Toggled(s[1..], id);
    }
  }

  /** Editing overwrites the fields present in the patch on each task with the id and nothing else. */
  lemma {:induction false} EditedAt(s: seq<Task>, id: string, data: Patch, i: int)
    requires 0 <= i < |s|
    ensures |Edited(s, id, data)| == |s|
    ensures Edited(s, id, data)[i] == if s[i].id == id then Spread(s[i], data) else s[i]
    decreases |s|
  {
    if i > 0 {
      EditedAt(s[1..], id, data, i - 1);
    } else if |s| > 1 {
      EditedAt(s[1..], id, data, 0);
    }
  }

  /**
   * An edit made from a task item's four-field draft keeps every task's id,
   * completion and creation time, and on the matching tasks sets exactly the
   * four draft fields.
   */
  lemma EditWithDraftKeepsIdentity(s: seq<Task>, id: string, d: Draft, i: int)
    requires 0 <= i < |s|
    ensures var e := Edited(s, id, DraftPatch(d));
      && |e| == |s|
      && e[i].id == s[i].id && e[i].completed == s[i].completed && e[i].createdAt == s[i].createdAt
      && (s[i].id == id ==> DraftOf(e[i]) == d)
      && (s[i].id != id ==> e[i] == s[i])
  {
    EditedAt(s, id, DraftPatch(d), i);
  }

  /** Deleting removes exactly the tasks with the id and keeps the others in order. */
  lemma RemovedExact(s: seq<Task>, id: string, t: Task)
    ensures IsExactSelection(Removed(s, id), s, IdIsNot(id))
    ensures t in Removed(s, id) <==> t in s && t.id != id
  {
    SelectExact(s, IdIsNot(id));
    SelectMembership(s, IdIsNot(id), t);
  }

  /** Adding a task whose id is not yet used keeps ids unique. */
  lemma AddKeepsUniqueIds(s: seq<Task>, t: Task)
    requires UniqueIds(s)
    requires forall i :: 0 <= i < |s| ==> s[i].id != t.id
    ensures UniqueIds(s + [t])
  {
  }

  /** Toggling and draft edits keep the sequence of ids, so they keep ids unique. */
  lemma ToggleAndEditKeepIds(s: seq<Task>, id: string, d: Draft)
    ensures |Toggled(s, id)| == |s| && |Edited(s, id, DraftPatch(d))| == |s|
    ensures forall i :: 0 <= i < |s| ==> Toggled(s, id)[i].id == s[i].id && Edited(s, id, DraftPatch(d))[i].id == s[i].id
    ensures UniqueIds(s) ==> UniqueIds(Toggled(s, id)) && UniqueIds(Edited(s, id, DraftPatch(d)))
  {
    if s != [] {
      ToggledAt(s, id, 0);
      EditedAt(s, id, DraftPatch(d), 0);
    }
    forall i | 0 <= i < |s|
      ensures Toggled(s, id)[i].id == s[i].id && Edited(s, id, DraftPatch(d))[i].id == s[i].id
    {
      ToggledAt(s, id, i);
      EditedAt(s, id, DraftPatch(d), i);
    }
  }

  /** Deleting keeps ids unique: the result is a subsequence. */
  lemma {:induction false} RemoveKeepsUniqueIds(s: seq<Task>, id: string)
    requires UniqueIds(s)
    ensures UniqueIds(Removed(s, id))
    decreases |s|
  {
    if s != [] {
      assert UniqueIds(s[1..]) by {
        forall i, j | 0 <= i < j < |s[1..]| ensures s[1..][i].id != s[1..][j].id {
          assert s[1..][i] == s[i + 1] && s[1..][j] == s[j + 1];
        }
      }
      RemoveKeepsUniqueIds(s[1..], id);
      var rest := Removed(s[1..], id);
      if s[0].id != id {
        forall t | t in rest ensures t.id != s[0].id {
          SelectMembership(s[1..], IdIsNot(id), t);
          var k :| 0 <= k < |s[1..]| && s[1..][k] == t;
          assert s[k + 1] == t;
        }
        assert Removed(s, id) == [s[0]] + rest;
        forall i, j | 0 <= i < j < |[s[0]] + rest| ensures ([s[0]] + rest)[i].id != ([s[0]] + rest)[j].id {
          if i == 0 {
            assert ([s[0]] + rest)[j] == rest[j - 1];
            assert rest[j - 1] in rest;
          } else {
            assert ([s[0]] + rest)[i] == rest[i - 1] && ([s[0]] + rest)[j] == rest[j - 1];
          }
        }
      }
    }
  }

  /** After toggling an open task with a unique id, no open task carries its id. */
  lemma ToggledLeavesOpenTasks(s: seq<Task>, i: int)
    requires UniqueIds(s) && 0 <= i < |s| && !s[i].completed
    ensures forall t :: t in Select(Toggled(s, s[i].id), NotCompleted) ==> t.id != s[i].id
  {
    var id := s[i].id;
    var after := Toggled(s, id);
    forall t | t in Select(after, NotCompleted) ensures t.id != id {
      SelectMembership(after, NotCompleted, t);
      var k :| 0 <= k < |after| && after[k] == t;
      ToggledAt(s, id, k);
      if k != i {
        assert s[k].id != s[i].id;
      }
    }
  }

  /** Toggling an active task with a unique id moves it from the 'active' view to the 'completed' view. */
  lemma ToggleMovesToCompleted(s: seq<Task>, i: int, now: int)
    requires UniqueIds(s) && 0 <= i < |s| && !s[i].completed
    ensures var after := Toggled(s, s[i].id);
      && s[i].(completed := true) in MainView.GetFilteredTasks(after, "completed")
      && (forall t :: t in MainView.GetFilteredTasks(after, "active") ==> t.id != s[i].id)
      && CountdownTimer.CountdownFor(s[i].dueDate, true, now).None?
  {
    var after := Toggled(s, s[i].id);
    ToggledAt(s, s[i].id, i);
    SelectMembership(after, IsCompleted, s[i].(completed := true));
    ToggledLeavesOpenTasks(s, i);
    assert MainView.GetFilteredTasks(after, "completed") == Select(after, IsCompleted);
    assert MainView.GetFilteredTasks(after, "active") == Select(after, NotCompleted);
  }

  /** An added task shows at the end of every filter view whose key it matches. */
  lemma AddedTaskInFilterViews(s: seq<Task>, id: string, createdAt: string, data: Patch, filter: string)
    requires HasDraftKeys(data)
    ensures var t := NewTask(id, createdAt, data);
      var c := MainView.CriterionFor(filter);
      && (c.Some? && Matches(t, c.value) ==> MainView.GetFilteredTasks(s + [t], filter) == MainView.GetFilteredTasks(s, filter) + [t])
      && (c.Some? && !Matches(t, c.value) ==> MainView.GetFilteredTasks(s + [t], filter) == MainView.GetFilteredTasks(s, filter))
      && (c.None? ==> MainView.GetFilteredTasks(s + [t], filter) == s + [t])
  {
    var t := NewTask(id, createdAt, data);
    var c := MainView.CriterionFor(filter);
    if c.Some? {
      SelectAppend(s, c.value, t);
    }
  }

  /**
   * The main page's form submits its four fields: the new task carries them,
   * the generated id and creation time, and starts open.
   */
  lemma FormSubmissionCreatesTask(id: string, createdAt: string, d: Draft)
    ensures var t := NewTask(id, createdAt, DraftPatch(d));
      DraftOf(t) == d && t.id == id && !t.completed && t.createdAt == createdAt
  {
  }

  /**
   * A calendar submission on a selected date: the new task is due that day,
   * is listed last under that date, shows as a dot when fewer than three tasks
   * were due already, and leaves every other date's list unchanged.
   */
  lemma CalendarSubmissionListedOnDate(s: seq<Task>, id: string, createdAt: string, form: Draft, date: CalendarDate, other: CalendarDate)
    ensures var t := NewTask(id, createdAt, DraftPatch(form.(dueDate := Some(date))));
      var before := Calendar.GetTasksForDate(s, date);
      && t.dueDate == Some(date)
      && Calendar.GetTasksForDate(s + [t], date) == before + [t]
      && (|before| < 3 ==> t in Calendar.TaskIndicators(before + [t]).dots)
      && (other != date ==> Calendar.GetTasksForDate(s + [t], other) == Calendar.GetTasksForDate(s, other))
  {
    var t := NewTask(id, createdAt, DraftPatch(form.(dueDate := Some(date))));
    var before := Calendar.GetTasksForDate(s, date);
    SelectAppend(s, DueOn(date), t);
    SelectAppend(s, DueOn(other), t);
    if |before| < 3 {
      assert (before + [t])[..|before| + 1] == before + [t];
      assert t == (before + [t])[|before|];
    }
  }

  /**
   * Adding "Pay rent", high priority, due tomorrow: it shows under the 'high'
   * and 'active' filters and in tomorrow's grid cell, as one of the dots when
   * fewer than three tasks were due that day.
   */
  lemma PayRentScenario(s: seq<Task>, id: string, createdAt: string, description: string,
                        tomorrow: CalendarDate, today: CalendarDate, selected: Option<CalendarDate>)
    ensures var t := NewTask(id, createdAt, DraftPatch(Draft("Pay rent", description, High, Some(tomorrow))));
      var cell := Calendar.DayCell(tomorrow.year, tomorrow.month - 1, tomorrow.day, s + [t], today, selected);
      && t.title == "Pay rent" && t.priority == High
      && t in MainView.GetFilteredTasks(s + [t], "high")
      && t in MainView.GetFilteredTasks(s + [t], "active")
      && t in cell.tasks
      && (|Calendar.GetTasksForDate(s, tomorrow)| < 3 ==> t in cell.indicators.dots)
  {
    var d := Draft("Pay rent", description, High, Some(tomorrow));
    var t := NewTask(id, createdAt, DraftPatch(d));
    AddedTaskInFilterViews(s, id, createdAt, DraftPatch(d), "high");
    AddedTaskInFilterViews(s, id, createdAt, DraftPatch(d), "active");
    assert MainView.GetFilteredTasks(s + [t], "high") == MainView.GetFilteredTasks(s, "high") + [t];
    assert MainView.GetFilteredTasks(s + [t], "active") == MainView.GetFilteredTasks(s, "active") + [t];
    CalendarSubmissionListedOnDate(s, id, createdAt, d, tomorrow, tomorrow);
    assert CalendarDate(tomorrow.year, tomorrow.month - 1 + 1, tomorrow.day) == tomorrow;
  }

  /** `const [tasks, setTasks] = useState([])` and the handlers that replace it. */
  class TaskStore {
    var tasks: seq<Task>

    constructor ()
      ensures tasks == []
    {
      tasks := [];
    }

    /** The mount effect: `setTasks(getTasks())`, the loaded list given as a parameter. */
    method Load(loaded: seq<Task>)
      modifies this
      ensures tasks == loaded
    {
      tasks := loaded;
    }

    method AddTask(id: string, createdAt: string, data: Patch)
      requires HasDraftKeys(data)
      modifies this
      ensures tasks == old(tasks) + [NewTask(id, createdAt, data)]
      ensures |tasks| == |old(tasks)| + 1 && tasks[..|old(tasks)|] == old(tasks)
      ensures !tasks[|tasks| - 1].completed && tasks[|tasks| - 1].createdAt == createdAt
    {
      tasks := tasks + [NewTask(id, createdAt, data)];
    }

    method ToggleComplete(id: string)
      modifies this
      ensures tasks == Toggled(old(tasks), id)
      ensures |tasks| == |old(tasks)|
      ensures forall i :: 0 <= i < |tasks| ==>
        tasks[i] == if old(tasks)[i].id == id then old(tasks)[i].(completed := !old(tasks)[i].completed) else old(tasks)[i]
    {
      forall i | 0 <= i < |tasks| ensures Toggled(tasks, id)[i] == if tasks[i].id == id then tasks[i].(completed := !tasks[i].completed) else tasks[i] {
        ToggledAt(tasks, id, i);
      }
      tasks := Toggled(tasks, id);
    }

    /** `deleteTask`, with the answer of `window.confirm` as `confirmed`. */
    method DeleteTask(id: string, confirmed: bool)
      modifies this
      ensures tasks == if confirmed then Removed(old(tasks), id) else old(tasks)
      ensures confirmed ==> forall t :: t in tasks <==> t in old(tasks) && t.id != id
    {
      if confirmed {
        forall t ensures t in Removed(tasks, id) <==> t in tasks && t.id != id {
          SelectMembership(tasks, IdIsNot(id), t);
        }
        tasks := Removed(tasks, id);
      }
    }

    method EditTask(id: string, data: Patch)
      modifies this
      ensures tasks == Edited(old(tasks), id, data)
      ensures |tasks| == |old(tasks)|
      ensures forall i :: 0 <= i < |tasks| ==>
        tasks[i] == if old(tasks)[i].id == id then Spread(old(tasks)[i], data) else old(tasks)[i]
    {
      forall i | 0 <= i < |tasks| ensures Edited(tasks, id, data)[i] == if tasks[i].id == id then Spread(tasks[i], data) else tasks[i] {
        EditedAt(tasks, id, data, i);
      }
      tasks := Edited(tasks, id, data);
    }
  }
}

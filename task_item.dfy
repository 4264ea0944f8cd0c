/** One row of the task list: the overdue flag and the in-place edit form. */
module TaskItem {
  import opened Wrappers
  import opened Dates
  import opened Text
  import opened Tasks
  import CountdownTimer

  /** `isOverdue(task.dueDate)` at time `now`: the due date's midnight UTC is strictly past and the task is open. */
  predicate IsOverdue(task: Task, now: int)
    ensures IsOverdue(task, now) ==> task.dueDate.Some? && !task.completed
  {
    task.dueDate.Some? && Deadline(task.dueDate.value) < now && !task.completed
  }

  /** Once a task is overdue it stays overdue as time passes, until it is completed. */
  lemma OverdueStaysOverdue(task: Task, now: int, later: int)
    requires IsOverdue(task, now) && now <= later
    ensures IsOverdue(task, later)
    ensures CountdownTimer.CountdownFor(task.dueDate, task.completed, later).value.isOverdue
  {
  }

  /**
   * The row's overdue marking agrees with the countdown shown beside it: a
   * task is marked overdue exactly when its countdown is shown and overdue.
   */
  lemma IsOverdueMatchesCountdown(task: Task, now: int)
    ensures IsOverdue(task, now) <==>
      (var r := CountdownTimer.CountdownFor(task.dueDate, task.completed, now); r.Some? && r.value.isOverdue)
    ensures task.dueDate.None? || task.completed ==> !IsOverdue(task, now)
  {
  }

  /** The state of one task row: the `task` prop, `isEditing` and `editData`. */
  class TaskItem {
    var task: Task
    var isEditing: bool
    var editData: Draft

    /** `useState(false)` and `useState({ title, description, priority, dueDate })` of the task. */
    constructor (task: Task)
      ensures this.task == task && !isEditing && editData == DraftOf(task)
    {
      this.task := task;
      isEditing := false;
      editData := DraftOf(task);
    }

    /** A re-render with a new `task` prop: the state initialiser does not run again. */
    method ReceiveTask(t: Task)
      modifies this
      ensures task == t && isEditing == old(isEditing) && editData == old(editData)
    {
      task := t;
    }

    /** `handleEdit` */
    method HandleEdit()
      modifies this
      ensures isEditing && task == old(task) && editData == old(editData)
    {
      isEditing := true;
    }

    /** `handleCancel`: leave editing and reset the form to the task's current four fields. */
    method HandleCancel()
      modifies this
      ensures !isEditing && editData == DraftOf(task) && task == old(task)
    {
      isEditing := false;
      editData := DraftOf(task);
    }

    /**
     * `handleSave`: a blank title is rejected and the row stays as it is;
     * otherwise `onEdit(task.id, editData)` is issued once (returned here) and
     * editing ends. The object passed carries only the four draft keys.
     */
    method HandleSave() returns (edit: Option<(string, Patch)>)
      modifies this
      ensures task == old(task) && editData == old(editData)
      ensures IsBlank(old(editData).title) ==> edit.None? && isEditing == old(isEditing)
      ensures !IsBlank(old(editData).title) ==> edit == Some((task.id, DraftPatch(editData))) && !isEditing
      ensures edit.Some? ==> edit.value.1.id.None? && edit.value.1.completed.None? && edit.value.1.createdAt.None?
    {
      if IsBlank(editData.title) {
        return None;
      }
      edit := Some((task.id, DraftPatch(editData)));
      isEditing := false;
    }

    /** `handleChange`: one input of the edit form. */
    method HandleChange(c: FieldChange)
      modifies this
      ensures editData == ApplyChange(old(editData), c)
      ensures task == old(task) && isEditing == old(isEditing)
    {
      editData := ApplyChange(editData, c);
    }
  }
}

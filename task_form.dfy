/** The add-task form of the main page. */
module TaskForm {
  import opened Wrappers
  import opened Text
  import opened Tasks

  /** `{ title: '', description: '', priority: 'medium', dueDate: '' }` */
  function InitialFormData(): Draft {
    Draft("", "", Medium, None)
  }

  /** The `formData` state of the form. */
  class TaskForm {
    var formData: Draft

    constructor ()
      ensures formData == InitialFormData()
    {
      formData := InitialFormData();
    }

    /**
     * `handleSubmit`: a blank title is rejected and the form keeps its data;
     * otherwise `onAddTask(formData)` is issued once (returned here) and the
     * form returns to its initial data.
     */
    method HandleSubmit() returns (submitted: Option<Patch>)
      modifies this
      ensures IsBlank(old(formData).title) ==> submitted.None? && formData == old(formData)
      ensures !IsBlank(old(formData).title) ==> submitted == Some(DraftPatch(old(formData))) && formData == InitialFormData()
    {
      if IsBlank(formData.title) {
        return None;
      }
      submitted := Some(DraftPatch(formData));
      formData := InitialFormData();
    }

    /** `handleChange`: one input of the form. */
    method HandleChange(c: FieldChange)
      modifies this
      ensures formData == ApplyChange(old(formData), c)
    {
      formData := ApplyChange(formData, c);
    }
  }
}

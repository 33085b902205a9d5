/**
 * The Add Scheduled Task dialog's submit handler: it refuses a blank title or
 * an unselected parent, looks the parent up by title, builds the subtask,
 * hands it on, resets the form and closes. The clock reading used for the id
 * is a parameter.
 */
module AddSubtaskDialog {
  import opened Base
  import opened Strings
  import opened TaskModel
  import TaskStore
  import DailySchedule

  /** The dialog's fields and whether it is open; `taskTitle` is the chosen parent's title. */
  datatype Form = Form(title: string, taskTitle: string, scheduledTime: string, effort: Level, open: bool)

  /** The fields as the dialog starts and as a successful submit leaves them. */
  function DefaultForm(open: bool): Form {
    Form("", "", "09:00", Medium, open)
  }

  /** `tasks.find(t => t.title === title)`: the first task with that title. */
  function FindByTitle(tasks: seq<Task>, title: string): (r: Option<Task>)
    ensures r.Some? <==> exists i :: 0 <= i < |tasks| && tasks[i].title == title
    ensures r.Some? ==> exists i :: (0 <= i < |tasks| && tasks[i] == r.value
      && forall j :: 0 <= j < i ==> tasks[j].title != title)
    ensures r.Some? ==> r.value.title == title
  {
    if |tasks| == 0 then None
    else if tasks[0].title == title then Some(tasks[0])
    else
      var rest := FindByTitle(tasks[1..], title);
      if rest.Some? then
        var i :| 0 <= i < |tasks[1..]| && tasks[1..][i] == rest.value
          && forall j :: 0 <= j < i ==> tasks[1..][j].title != title;
        assert tasks[i + 1] == rest.value;
        rest
      else
        assert forall i :: 1 <= i < |tasks| ==> tasks[i] == tasks[1..][i - 1];
        rest
  }

  /** What a submit hands to `onAddSubtask` (if anything) and the form afterwards. */
  datatype Submission = Submission(emitted: Option<Subtask>, form: Form)

  /**
   * `handleSubmit`: nothing is emitted and nothing changes when the title is
   * blank, no parent is chosen, or no task has the chosen title. Otherwise the
   * subtask's id is the first such task's id, '-', and the clock reading; it
   * has the trimmed title, is open, and copies parent title, time and effort
   * from the form, which returns to its defaults, closed.
   */
  function Submit(tasks: seq<Task>, form: Form, now: int): (r: Submission)
    ensures r.emitted.None? <==>
      IsBlank(form.title) || form.taskTitle == ""
      || forall i :: 0 <= i < |tasks| ==> tasks[i].title != form.taskTitle
    ensures r.emitted.None? ==> r.form == form
    ensures r.emitted.Some? ==> r.form == DefaultForm(false)
    ensures r.emitted.Some? ==>
      var s := r.emitted.value;
      s.id == FindByTitle(tasks, form.taskTitle).value.id + "-" + IntToString(now)
      && s.title == Trim(form.title) && s.title != "" && !s.completed
      && s.taskTitle == form.taskTitle && s.scheduledTime == form.scheduledTime && s.effort == form.effort
  {
    if IsBlank(form.title) || form.taskTitle == "" then Submission(None, form)
    else
      match FindByTitle(tasks, form.taskTitle)
      case None => Submission(None, form)
      case Some(parent) =>
        var s := Subtask(parent.id + "-" + IntToString(now), Trim(form.title), false,
                         form.taskTitle, form.scheduledTime, form.effort);
        Submission(Some(s), DefaultForm(false))
  }

  /**
   * A subtask the dialog emits is never dropped by the store. The dialog
   * looks the parent up in the listing order while the store maps over the
   * tasks as kept, so the chosen parent sits somewhere in the stored list and
   * gets the subtask appended (as does every other task of that title).
   */
  lemma EmittedSubtaskAttached(tasks: seq<Task>, form: Form, now: int)
    requires Submit(TaskStore.SortedTasks(tasks), form, now).emitted.Some?
    ensures var s := Submit(TaskStore.SortedTasks(tasks), form, now).emitted.value;
      TaskStore.AddSubtask(tasks, s) != tasks
      && exists i :: (0 <= i < |tasks| && tasks[i] == FindByTitle(TaskStore.SortedTasks(tasks), form.taskTitle).value
         && TaskStore.AddSubtask(tasks, s)[i].subtasks == tasks[i].subtasks + [s])
  {
    var listed := TaskStore.SortedTasks(tasks);
    var s := Submit(listed, form, now).emitted.value;
    var parent := FindByTitle(listed, form.taskTitle).value;
    assert parent in multiset(listed);
    assert parent in multiset(tasks);
    var i :| 0 <= i < |tasks| && tasks[i] == parent;
    TaskStore.AddSubtaskDropsIff(tasks, s);
  }

  /**
   * Hovering the parent in the task list highlights the emitted subtask in
   * the day's schedule (with the corrected highlight check), whatever
   * characters the parent's id holds.
   */
  lemma EmittedSubtaskHighlighted(tasks: seq<Task>, form: Form, now: int)
    requires Submit(tasks, form, now).emitted.Some?
    requires FindByTitle(tasks, form.taskTitle).value.id != ""
    ensures DailySchedule.IsHighlighted(Some(FindByTitle(tasks, form.taskTitle).value.id),
                                        Submit(tasks, form, now).emitted.value)
  {
    var parent := FindByTitle(tasks, form.taskTitle).value;
    DailySchedule.HighlightsOwnEntry(Submit(tasks, form, now).emitted.value, parent.id, IntToString(now));
  }
}

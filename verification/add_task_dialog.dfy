/**
 * The Add Task dialog's submit handler: it refuses a blank title, otherwise
 * builds a fresh task from the form, hands it on, resets the form to its
 * defaults and closes. The clock reading used for the id is a parameter.
 */
module AddTaskDialog {
  import opened Base
  import opened Strings
  import opened TaskModel
  import opened Ordering
  import TaskStore

  /** The dialog's fields and whether it is open. */
  datatype Form = Form(
    title: string,
    priority: Level,
    dueDate: string,
    isStandaloneTask: bool,
    scheduledTime: string,
    effort: Level,
    repeatPattern: RepeatPattern,
    open: bool)

  /** The fields as the dialog starts and as a successful submit leaves them. */
  function DefaultForm(open: bool): Form {
    Form("", Medium, "2025-11-09", false, "09:00", Medium, NoRepeat, open)
  }

  /** What a submit hands to `onAddTask` (if anything) and the form afterwards. */
  datatype Submission = Submission(emitted: Option<Task>, form: Form)

  /** The task the form describes; `now` is the `Date.now()` reading. */
  function NewTask(form: Form, now: int): Task {
    Task(
      "task-" + IntToString(now),
      Trim(form.title),
      false,
      form.priority,
      form.dueDate,
      [],
      form.isStandaloneTask,
      if form.isStandaloneTask then Some(form.scheduledTime) else None,
      if form.isStandaloneTask then Some(form.effort) else None,
      if form.repeatPattern != NoRepeat then Some(form.repeatPattern) else None)
  }

  /**
   * `handleSubmit`: a title that is empty after trimming changes nothing and
   * emits nothing. Otherwise the emitted task has the trimmed title, is open,
   * has no subtasks and takes priority and due date from the form; time and
   * effort are present exactly for a standalone task; the repeat pattern is
   * absent for "none"; and the form returns to its defaults, closed.
   */
  function Submit(form: Form, now: int): (r: Submission)
    ensures IsBlank(form.title) <==> r.emitted.None?
    ensures r.emitted.None? ==> r.form == form
    ensures r.emitted.Some? ==> r.form == DefaultForm(false)
    ensures r.emitted.Some? ==>
      var t := r.emitted.value;
      t.title == Trim(form.title) && t.title != "" && !t.completed && t.subtasks == []
      && t.priority == form.priority && t.dueDate == form.dueDate
      && t.id == "task-" + IntToString(now)
      && t.isStandaloneTask == form.isStandaloneTask
    ensures r.emitted.Some? ==>
      var t := r.emitted.value;
      (t.scheduledTime.Some? <==> form.isStandaloneTask) && (t.effort.Some? <==> form.isStandaloneTask)
      && (form.isStandaloneTask ==> t.scheduledTime.value == form.scheduledTime && t.effort.value == form.effort)
    ensures r.emitted.Some? ==>
      var t := r.emitted.value;
      (t.repeatPattern.None? <==> form.repeatPattern == NoRepeat)
      && (t.repeatPattern.Some? ==> t.repeatPattern.value == form.repeatPattern)
  {
    if IsBlank(form.title) then Submission(None, form)
    else Submission(Some(NewTask(form, now)), DefaultForm(false))
  }

  /**
   * A submitted task joins the day's timeline exactly when it was marked
   * standalone with a non-empty time: the dialog sets time and effort
   * together, so the timeline's guard reduces to those two.
   */
  lemma SubmittedTaskInTimeline(form: Form, now: int)
    requires !IsBlank(form.title)
    ensures ShowsInTimeline(Submit(form, now).emitted.value)
        <==> form.isStandaloneTask && form.scheduledTime != ""
  {
  }

  /**
   * A submitted task is consistent with the rule that a task is done exactly
   * when it has subtasks and all are done, and once added it is listed after
   * the open tasks and before the completed ones.
   */
  lemma SubmittedTaskListed(tasks: seq<Task>, form: Form, now: int)
    requires !IsBlank(form.title)
    ensures CompletionFollowsSubtasks(Submit(form, now).emitted.value)
    ensures var t := Submit(form, now).emitted.value;
      TaskStore.SortedTasks(TaskStore.AddTask(tasks, t))
      == Select(tasks, IsOpenTask, true) + [t] + Select(tasks, IsOpenTask, false)
  {
    TaskStore.AddedTaskShowsAfterOpenTasks(tasks, Submit(form, now).emitted.value);
  }

  /** After a successful submit the same form can only be submitted again once a title is typed. */
  lemma ResetFormRefuses(form: Form, now: int, later: int)
    requires !IsBlank(form.title)
    ensures Submit(Submit(form, now).form, later) == Submission(None, DefaultForm(false))
  {
    assert Trim("") == "";
  }
}

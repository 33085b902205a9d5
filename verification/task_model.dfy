/** The dashboard's records: `Task`, `Subtask`, their levels, and the user's mood. */
module TaskModel {
  import opened Base

  /** `'low' | 'medium' | 'high'`: a task's priority and an effort estimate alike. */
  datatype Level = Low | Medium | High

  /** The weight every table in the dashboard gives a level: low 1, medium 2, high 3. */
  function Weight(l: Level): int {
    match l
    case Low => 1
    case Medium => 2
    case High => 3
  }

  /** `UserMood`. */
  datatype Mood = Happy | Neutral | Sad

  /** `repeatPattern`'s values; `NoRepeat` is the string 'none'. */
  datatype RepeatPattern = Daily | Weekly | Monthly | NoRepeat

  /** A scheduled sub-item; `taskTitle` names its owner by title, `scheduledTime` is `HH:MM` text. */
  datatype Subtask = Subtask(
    id: string,
    title: string,
    completed: bool,
    taskTitle: string,
    scheduledTime: string,
    effort: Level)

  /**
   * A to-do item. `dueDate` is kept as the `YYYY-MM-DD` text the source stores;
   * an absent optional field is `None`, and an absent `isStandaloneTask` is false.
   */
  datatype Task = Task(
    id: string,
    title: string,
    completed: bool,
    priority: Level,
    dueDate: string,
    subtasks: seq<Subtask>,
    isStandaloneTask: bool,
    scheduledTime: Option<string>,
    effort: Option<Level>,
    repeatPattern: Option<RepeatPattern>)

  predicate IsOpenTask(t: Task) {
    !t.completed
  }

  predicate IsOpenSubtask(s: Subtask) {
    !s.completed
  }

  /**
   * `task.isStandaloneTask && task.scheduledTime && task.effort`: the truthiness
   * test under which a task is also listed in the day's timeline.
   */
  predicate ShowsInTimeline(t: Task) {
    t.isStandaloneTask && t.scheduledTime.Some? && t.scheduledTime.value != "" && t.effort.Some?
  }

  /** The id the timeline gives a standalone task's own entry. */
  function StandaloneId(taskId: string): string {
    "standalone-" + taskId
  }

  /** The synthetic subtask that stands for a standalone task in the timeline. */
  function StandaloneEntry(t: Task): Subtask
    requires ShowsInTimeline(t)
  {
    Subtask(StandaloneId(t.id), t.title, t.completed, t.title, t.scheduledTime.value, t.effort.value)
  }

  predicate AllSubtasksDone(subs: seq<Subtask>) {
    forall j :: 0 <= j < |subs| ==> subs[j].completed
  }

  /** A task's flag is what its subtasks say: done exactly when it has subtasks and all are done. */
  predicate CompletionFollowsSubtasks(t: Task) {
    t.completed == (|t.subtasks| > 0 && AllSubtasksDone(t.subtasks))
  }

  lemma StandaloneIdInjective(a: string, b: string)
    ensures StandaloneId(a) == StandaloneId(b) <==> a == b
  {
    if StandaloneId(a) == StandaloneId(b) {
      assert a == StandaloneId(a)[11..];
    }
  }
}

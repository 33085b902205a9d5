/**
 * The dashboard's task list and its updates: toggling a task (with its
 * subtasks), toggling one subtask or a standalone task's timeline entry,
 * appending a task, attaching a subtask by its owner's title, and the two
 * derived views (the task list with open tasks first, and the timeline of
 * every subtask with open entries first).
 */
module TaskStore {
  import opened Base
  import opened Ordering
  import opened TaskModel

  // ---------------------------------------------------------------------
  // Toggling a task
  // ---------------------------------------------------------------------

  /** Every subtask with its flag set to `c`. */
  function SetSubtaskFlags(subs: seq<Subtask>, c: bool): seq<Subtask> {
    seq(|subs|, j requires 0 <= j < |subs| => subs[j].(completed := c))
  }

  function ToggleOne(t: Task, id: string): Task {
    if t.id == id then
      var c := !t.completed;
      t.(completed := c, subtasks := SetSubtaskFlags(t.subtasks, c))
    else t
  }

  /**
   * Toggling the task(s) with `id`: the flag is negated and every subtask
   * takes the new flag; every other field and every other task stays as it was.
   */
  function ToggleTask(tasks: seq<Task>, id: string): (r: seq<Task>)
    ensures |r| == |tasks|
    ensures forall i :: 0 <= i < |tasks| && tasks[i].id != id ==> r[i] == tasks[i]
    ensures forall i :: 0 <= i < |tasks| && tasks[i].id == id ==>
      && r[i].completed == !tasks[i].completed
      && |r[i].subtasks| == |tasks[i].subtasks|
      && (forall j :: 0 <= j < |r[i].subtasks| ==>
            r[i].subtasks[j] == tasks[i].subtasks[j].(completed := r[i].completed))
      && r[i] == tasks[i].(completed := r[i].completed, subtasks := r[i].subtasks)
  {
    seq(|tasks|, i requires 0 <= i < |tasks| => ToggleOne(tasks[i], id))
  }

  /**
   * Toggling twice gives back each matched task's own flag, but leaves every
   * one of its subtasks equal to that flag rather than to its earlier value.
   */
  lemma ToggleTaskTwice(tasks: seq<Task>, id: string)
    ensures var r := ToggleTask(ToggleTask(tasks, id), id);
      && |r| == |tasks|
      && (forall i :: 0 <= i < |tasks| && tasks[i].id != id ==> r[i] == tasks[i])
      && (forall i :: 0 <= i < |tasks| && tasks[i].id == id ==>
            && r[i].completed == tasks[i].completed
            && |r[i].subtasks| == |tasks[i].subtasks|
            && forall j :: 0 <= j < |r[i].subtasks| ==>
                 r[i].subtasks[j] == tasks[i].subtasks[j].(completed := tasks[i].completed))
  {
  }

  /**
   * A double toggle is the identity exactly when every subtask of a matched
   * task already carried its task's flag.
   */
  lemma ToggleTaskTwiceRestores(tasks: seq<Task>, id: string)
    ensures ToggleTask(ToggleTask(tasks, id), id) == tasks
        <==> forall i, j :: 0 <= i < |tasks| && tasks[i].id == id && 0 <= j < |tasks[i].subtasks| ==>
               tasks[i].subtasks[j].completed == tasks[i].completed
  {
    var r := ToggleTask(ToggleTask(tasks, id), id);
    ToggleTaskTwice(tasks, id);
    if forall i, j :: 0 <= i < |tasks| && tasks[i].id == id && 0 <= j < |tasks[i].subtasks| ==>
         tasks[i].subtasks[j].completed == tasks[i].completed {
      forall i | 0 <= i < |tasks| ensures r[i] == tasks[i] {
        if tasks[i].id == id {
          assert r[i].subtasks == tasks[i].subtasks;
        }
      }
    }
    if r == tasks {
      forall i, j | 0 <= i < |tasks| && tasks[i].id == id && 0 <= j < |tasks[i].subtasks|
        ensures tasks[i].subtasks[j].completed == tasks[i].completed
      {
        assert r[i].subtasks[j] == tasks[i].subtasks[j];
      }
    }
  }

  /**
   * After a task toggle the matched task's flag follows its subtasks, unless
   * it has none and has just been marked done.
   */
  lemma ToggleTaskFollowsSubtasks(tasks: seq<Task>, id: string, i: int)
    requires 0 <= i < |tasks| && tasks[i].id == id
    ensures CompletionFollowsSubtasks(ToggleTask(tasks, id)[i])
        <==> |tasks[i].subtasks| > 0 || tasks[i].completed
  {
    var r := ToggleTask(tasks, id);
    if |tasks[i].subtasks| > 0 {
      assert r[i].subtasks[0].completed == !tasks[i].completed;
    }
  }

  // ---------------------------------------------------------------------
  // Toggling a subtask or a standalone task's timeline entry
  // ---------------------------------------------------------------------

  function FlipSubtask(s: Subtask, sid: string): Subtask {
    if s.id == sid then s.(completed := !s.completed) else s
  }

  function FlipMatching(subs: seq<Subtask>, sid: string): seq<Subtask> {
    seq(|subs|, j requires 0 <= j < |subs| => FlipSubtask(subs[j], sid))
  }

  function ToggleSubtaskIn(t: Task, sid: string): Task {
    if sid == StandaloneId(t.id) then t.(completed := !t.completed)
    else
      var subs := FlipMatching(t.subtasks, sid);
      t.(subtasks := subs, completed := |subs| > 0 && AllSubtasksDone(subs))
  }

  /**
   * Toggling the timeline entry `sid`. The task whose standalone entry it is
   * has its own flag negated and its subtasks kept. Every other task has the
   * subtasks with id `sid` flipped and then its flag recomputed from its
   * subtasks, whether or not it owns one with that id; a task without
   * subtasks therefore ends up open. No other field changes.
   */
  function ToggleSubtask(tasks: seq<Task>, sid: string): (r: seq<Task>)
    ensures |r| == |tasks|
    ensures forall i :: 0 <= i < |tasks| ==>
      r[i] == tasks[i].(completed := r[i].completed, subtasks := r[i].subtasks)
    ensures forall i :: 0 <= i < |tasks| && sid == StandaloneId(tasks[i].id) ==>
      r[i].completed == !tasks[i].completed && r[i].subtasks == tasks[i].subtasks
    ensures forall i :: 0 <= i < |tasks| && sid != StandaloneId(tasks[i].id) ==>
      && CompletionFollowsSubtasks(r[i])
      && (|tasks[i].subtasks| == 0 ==> !r[i].completed)
      && |r[i].subtasks| == |tasks[i].subtasks|
      && forall j :: 0 <= j < |r[i].subtasks| ==>
           r[i].subtasks[j] == (if tasks[i].subtasks[j].id == sid
                                then tasks[i].subtasks[j].(completed := !tasks[i].subtasks[j].completed)
                                else tasks[i].subtasks[j])
  {
    seq(|tasks|, i requires 0 <= i < |tasks| => ToggleSubtaskIn(tasks[i], sid))
  }

  /**
   * When `sid` is no task's standalone entry and every flag already follows
   * its subtasks, toggling the same subtask twice gives back the list.
   */
  lemma ToggleSubtaskTwice(tasks: seq<Task>, sid: string)
    requires forall i :: 0 <= i < |tasks| ==> sid != StandaloneId(tasks[i].id)
    requires forall i :: 0 <= i < |tasks| ==> CompletionFollowsSubtasks(tasks[i])
    ensures ToggleSubtask(ToggleSubtask(tasks, sid), sid) == tasks
  {
    var once := ToggleSubtask(tasks, sid);
    var r := ToggleSubtask(once, sid);
    forall i | 0 <= i < |tasks| ensures r[i] == tasks[i] {
      assert once[i].id == tasks[i].id;
      assert r[i].subtasks == tasks[i].subtasks;
    }
  }

  // ---------------------------------------------------------------------
  // Adding tasks and subtasks
  // ---------------------------------------------------------------------

  /** A new task goes to the end of the list. */
  function AddTask(tasks: seq<Task>, task: Task): (r: seq<Task>)
    ensures |r| == |tasks| + 1 && r[..|tasks|] == tasks && r[|tasks|] == task
  {
    tasks + [task]
  }

  function AttachTo(t: Task, sub: Subtask): Task {
    if t.title == sub.taskTitle then t.(subtasks := t.subtasks + [sub]) else t
  }

  /**
   * A new subtask is appended to every task whose title is its `taskTitle`;
   * every other task is unchanged.
   */
  function AddSubtask(tasks: seq<Task>, sub: Subtask): (r: seq<Task>)
    ensures |r| == |tasks|
    ensures forall i :: 0 <= i < |tasks| && tasks[i].title == sub.taskTitle ==>
      r[i] == tasks[i].(subtasks := tasks[i].subtasks + [sub])
    ensures forall i :: 0 <= i < |tasks| && tasks[i].title != sub.taskTitle ==> r[i] == tasks[i]
  {
    seq(|tasks|, i requires 0 <= i < |tasks| => AttachTo(tasks[i], sub))
  }

  /** A subtask is silently dropped exactly when no task carries its `taskTitle`. */
  lemma AddSubtaskDropsIff(tasks: seq<Task>, sub: Subtask)
    ensures AddSubtask(tasks, sub) == tasks <==> forall i :: 0 <= i < |tasks| ==> tasks[i].title != sub.taskTitle
  {
    var r := AddSubtask(tasks, sub);
    if exists i :: 0 <= i < |tasks| && tasks[i].title == sub.taskTitle {
      var i :| 0 <= i < |tasks| && tasks[i].title == sub.taskTitle;
      assert |r[i].subtasks| == |tasks[i].subtasks| + 1;
    } else {
      assert r == tasks;
    }
  }

  // ---------------------------------------------------------------------
  // Derived views
  // ---------------------------------------------------------------------

  /** The comparator both views sort with: equal flags tie, an open item comes first. */
  function CompletionCompare(a: bool, b: bool): int {
    if a == b then 0 else if a then 1 else -1
  }

  function CompletionKey(completed: bool): Key {
    if completed then [1] else [0]
  }

  /** The comparator lets `a` stay ahead of `b` exactly when the key of `a` is not above that of `b`. */
  lemma CompletionCompareIsKeyOrder(a: bool, b: bool)
    ensures CompletionCompare(a, b) <= 0 <==> LexLe(CompletionKey(a), CompletionKey(b))
  {
  }

  function TaskCompletionKey(t: Task): Key {
    CompletionKey(t.completed)
  }

  function SubtaskCompletionKey(s: Subtask): Key {
    CompletionKey(s.completed)
  }

  /** The task list as shown: the open tasks then the completed ones, each group in list order. */
  function SortedTasks(tasks: seq<Task>): (r: seq<Task>)
    ensures r == Select(tasks, IsOpenTask, true) + Select(tasks, IsOpenTask, false)
    ensures multiset(r) == multiset(tasks)
    ensures SortedBy(r, TaskCompletionKey)
  {
    SortBySortedPermutation(tasks, TaskCompletionKey);
    SortByTwoClasses(tasks, TaskCompletionKey, IsOpenTask);
    SortBy(tasks, TaskCompletionKey)
  }

  /** A newly added open task is shown right after the tasks that were open before it. */
  lemma AddedTaskShowsAfterOpenTasks(tasks: seq<Task>, task: Task)
    requires !task.completed
    ensures SortedTasks(AddTask(tasks, task))
         == Select(tasks, IsOpenTask, true) + [task] + Select(tasks, IsOpenTask, false)
  {
    SelectConcat(tasks, [task], IsOpenTask, true);
    SelectConcat(tasks, [task], IsOpenTask, false);
    assert [task][..0] == [];
  }

  /** The timeline entries one task contributes: its subtasks, then its standalone entry if it has one. */
  function TimelineEntries(t: Task): seq<Subtask> {
    t.subtasks + (if ShowsInTimeline(t) then [StandaloneEntry(t)] else [])
  }

  /** Every task's timeline entries, task by task (`flatMap`). */
  function Timeline(tasks: seq<Task>): seq<Subtask> {
    if |tasks| == 0 then []
    else Timeline(tasks[..|tasks| - 1]) + TimelineEntries(tasks[|tasks| - 1])
  }

  /** The timeline as shown: the open entries then the completed ones, each group in timeline order. */
  function AllSubtasks(tasks: seq<Task>): (r: seq<Subtask>)
    ensures r == Select(Timeline(tasks), IsOpenSubtask, true) + Select(Timeline(tasks), IsOpenSubtask, false)
    ensures multiset(r) == multiset(Timeline(tasks))
    ensures SortedBy(r, SubtaskCompletionKey)
  {
    var all := Timeline(tasks);
    SortBySortedPermutation(all, SubtaskCompletionKey);
    SortByTwoClasses(all, SubtaskCompletionKey, IsOpenSubtask);
    SortBy(all, SubtaskCompletionKey)
  }

  /** The number of owned subtasks across the list. */
  function SubtaskCount(tasks: seq<Task>): nat {
    if |tasks| == 0 then 0 else SubtaskCount(tasks[..|tasks| - 1]) + |tasks[|tasks| - 1].subtasks|
  }

  /**
   * The timeline holds every owned subtask and the standalone entry of every
   * task that qualifies, nothing else, and one entry per owned subtask plus one
   * per qualifying task.
   */
  lemma {:induction false} TimelineContents(tasks: seq<Task>)
    ensures |Timeline(tasks)| == SubtaskCount(tasks) + |Select(tasks, ShowsInTimeline, true)|
    ensures forall i, j :: 0 <= i < |tasks| && 0 <= j < |tasks[i].subtasks| ==>
      tasks[i].subtasks[j] in Timeline(tasks)
    ensures forall i :: 0 <= i < |tasks| && ShowsInTimeline(tasks[i]) ==>
      StandaloneEntry(tasks[i]) in Timeline(tasks)
    ensures forall k :: 0 <= k < |Timeline(tasks)| ==>
      exists i :: 0 <= i < |tasks| && Timeline(tasks)[k] in TimelineEntries(tasks[i])
  {
    if |tasks| > 0 {
      var init := tasks[..|tasks| - 1];
      var last := tasks[|tasks| - 1];
      var tl := Timeline(tasks);
      var front := Timeline(init);
      TimelineContents(init);
      assert tl == front + TimelineEntries(last);
      forall i, j | 0 <= i < |tasks| && 0 <= j < |tasks[i].subtasks|
        ensures tasks[i].subtasks[j] in tl
      {
        if i < |tasks| - 1 {
          assert init[i] == tasks[i];
          assert tasks[i].subtasks[j] in front;
        } else {
          assert tasks[i].subtasks[j] in TimelineEntries(last);
        }
      }
      forall i | 0 <= i < |tasks| && ShowsInTimeline(tasks[i])
        ensures StandaloneEntry(tasks[i]) in tl
      {
        if i < |tasks| - 1 {
          assert init[i] == tasks[i];
          assert StandaloneEntry(tasks[i]) in front;
        } else {
          assert StandaloneEntry(tasks[i]) in TimelineEntries(last);
        }
      }
      forall k | 0 <= k < |tl|
        ensures exists i :: 0 <= i < |tasks| && tl[k] in TimelineEntries(tasks[i])
      {
        if k < |front| {
          var i :| 0 <= i < |init| && front[k] in TimelineEntries(init[i]);
          assert init[i] == tasks[i];
        } else {
          assert tl[k] in TimelineEntries(tasks[|tasks| - 1]);
        }
      }
    }
  }

  /** How many entries of `s` carry `id`. */
  function CountId(s: seq<Subtask>, id: string): nat {
    if |s| == 0 then 0 else CountId(s[..|s| - 1], id) + (if s[|s| - 1].id == id then 1 else 0)
  }

  lemma {:induction false} CountIdConcat(a: seq<Subtask>, b: seq<Subtask>, id: string)
    ensures CountId(a + b, id) == CountId(a, id) + CountId(b, id)
    decreases |b|
  {
    if |b| == 0 {
      assert a + b == a;
    } else {
      assert (a + b)[..|a + b| - 1] == a + b[..|b| - 1];
      CountIdConcat(a, b[..|b| - 1], id);
    }
  }

  lemma {:induction false} CountIdAbsent(s: seq<Subtask>, id: string)
    requires forall j :: 0 <= j < |s| ==> s[j].id != id
    ensures CountId(s, id) == 0
  {
    if |s| > 0 {
      CountIdAbsent(s[..|s| - 1], id);
    }
  }

  /** The tasks with id `x` that have a standalone entry. */
  function QualifiesWithId(x: string): Task -> bool {
    (t: Task) => t.id == x && ShowsInTimeline(t)
  }

  /**
   * When no owned subtask uses the id `standalone-x`, the timeline carries
   * that id once for every qualifying task with id `x`; so with distinct task
   * ids, exactly once for a qualifying task.
   */
  lemma {:induction false} StandaloneEntryCount(tasks: seq<Task>, x: string)
    requires forall i, j :: 0 <= i < |tasks| && 0 <= j < |tasks[i].subtasks| ==>
      tasks[i].subtasks[j].id != StandaloneId(x)
    ensures CountId(Timeline(tasks), StandaloneId(x)) == |Select(tasks, QualifiesWithId(x), true)|
  {
    if |tasks| > 0 {
      var init := tasks[..|tasks| - 1];
      var last := tasks[|tasks| - 1];
      StandaloneEntryCount(init, x);
      CountIdConcat(Timeline(init), TimelineEntries(last), StandaloneId(x));
      CountIdAbsent(last.subtasks, StandaloneId(x));
      if ShowsInTimeline(last) {
        CountIdConcat(last.subtasks, [StandaloneEntry(last)], StandaloneId(x));
        assert [StandaloneEntry(last)][..0] == [];
        StandaloneIdInjective(last.id, x);
      } else {
        assert TimelineEntries(last) == last.subtasks;
      }
    }
  }

  /**
   * Toggling a task's timeline entry acts on the task itself: the tasks with
   * that id get their flag negated and keep their subtasks.
   */
  lemma StandaloneEntryToggles(tasks: seq<Task>, k: int)
    requires 0 <= k < |tasks| && ShowsInTimeline(tasks[k])
    ensures var r := ToggleSubtask(tasks, StandaloneEntry(tasks[k]).id);
      forall i :: 0 <= i < |tasks| && tasks[i].id == tasks[k].id ==>
        r[i].completed == !tasks[i].completed && r[i].subtasks == tasks[i].subtasks
  {
  }
}

/**
 * The stand-alone task hook: a flat list of tasks with numeric ids that can
 * be appended to and whose completion can be flipped by id. Loading the list
 * from the server is not modelled; the clock reading used as the new id is a
 * parameter.
 */
module SimpleTasks {
  datatype SimpleTask = SimpleTask(id: int, title: string, completed: bool)

  /** `addTask`: a new open task with id `now` goes to the end of the list. */
  function AddTask(tasks: seq<SimpleTask>, title: string, now: int): (r: seq<SimpleTask>)
    ensures |r| == |tasks| + 1 && r[..|tasks|] == tasks
    ensures r[|tasks|].id == now && r[|tasks|].title == title && !r[|tasks|].completed
  {
    tasks + [SimpleTask(now, title, false)]
  }

  /** One task after a toggle of `id`. */
  function ToggleOne(t: SimpleTask, id: int): SimpleTask {
    if t.id == id then t.(completed := !t.completed) else t
  }

  /**
   * `toggleTaskCompletion`: every task with the given id has its flag
   * flipped; id and title never change, and every other task is left as it
   * was.
   */
  function ToggleCompletion(tasks: seq<SimpleTask>, id: int): (r: seq<SimpleTask>)
    ensures |r| == |tasks|
    ensures forall i :: 0 <= i < |tasks| ==>
      r[i].id == tasks[i].id && r[i].title == tasks[i].title
      && (r[i].completed <==> (tasks[i].completed != (tasks[i].id == id)))
  {
    seq(|tasks|, i requires 0 <= i < |tasks| => ToggleOne(tasks[i], id))
  }

  /** Toggling the same id twice restores the list. */
  lemma ToggleTwice(tasks: seq<SimpleTask>, id: int)
    ensures ToggleCompletion(ToggleCompletion(tasks, id), id) == tasks
  {
    var r := ToggleCompletion(ToggleCompletion(tasks, id), id);
    forall i | 0 <= i < |tasks| ensures r[i] == tasks[i] {
    }
  }

  /** An id no task has leaves the list unchanged. */
  lemma ToggleUnknown(tasks: seq<SimpleTask>, id: int)
    requires forall i :: 0 <= i < |tasks| ==> tasks[i].id != id
    ensures ToggleCompletion(tasks, id) == tasks
  {
    var r := ToggleCompletion(tasks, id);
    forall i | 0 <= i < |tasks| ensures r[i] == tasks[i] {
    }
  }

  /** Toggles of two ids can be applied in either order. */
  lemma TogglesCommute(tasks: seq<SimpleTask>, a: int, b: int)
    ensures ToggleCompletion(ToggleCompletion(tasks, a), b) == ToggleCompletion(ToggleCompletion(tasks, b), a)
  {
    var x := ToggleCompletion(ToggleCompletion(tasks, a), b);
    var y := ToggleCompletion(ToggleCompletion(tasks, b), a);
    forall i | 0 <= i < |tasks| ensures x[i] == y[i] {
    }
  }

  /** Toggling the id of a task just added with a fresh id completes it and touches nothing else. */
  lemma ToggleAdded(tasks: seq<SimpleTask>, title: string, now: int)
    requires forall i :: 0 <= i < |tasks| ==> tasks[i].id != now
    ensures ToggleCompletion(AddTask(tasks, title, now), now) == tasks + [SimpleTask(now, title, true)]
  {
    var r := ToggleCompletion(AddTask(tasks, title, now), now);
    forall i | 0 <= i < |tasks| ensures r[i] == tasks[i] {
    }
  }
}

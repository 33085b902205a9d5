/**
 * What the calendar shows for a date: the tasks due that day, the month
 * cell's short list with its "+N more", the week card's subtask preview and
 * counts, and the day view's time-sorted subtasks laid out in hourly slots
 * from 8 AM to 8 PM.
 */
module CalendarDay {
  import opened Base
  import opened Strings
  import opened Ordering
  import opened Dates
  import opened TaskModel
  import opened Clock
  import TaskStore

  // ---------------------------------------------------------------------
  // Tasks due on a date
  // ---------------------------------------------------------------------

  function DueOn(dateText: string): Task -> bool {
    (t: Task) => t.dueDate == dateText
  }

  /**
   * `getTasksForDate`: the tasks whose due-date text is the date's
   * `YYYY-MM-DD` text, in list order.
   */
  function TasksForDate(tasks: seq<Task>, date: Date): (r: seq<Task>)
    requires Valid(date)
    ensures |r| <= |tasks|
    ensures forall i :: 0 <= i < |r| ==> r[i].dueDate == IsoString(date)
    ensures forall t :: t in r <==> t in tasks && t.dueDate == IsoString(date)
  {
    var r := Select(tasks, DueOn(IsoString(date)), true);
    forall t ensures t in r <==> t in tasks && t.dueDate == IsoString(date) {
      SelectMembers(tasks, DueOn(IsoString(date)), true, t);
    }
    r
  }

  /**
   * For dates with four-digit years, a task is listed on a date exactly when
   * its due-date text reads as that date.
   */
  lemma TasksForDateByParsing(tasks: seq<Task>, date: Date, t: Task)
    requires Valid(date) && 0 <= date.year <= 9999
    ensures t in TasksForDate(tasks, date) <==> t in tasks && ParseIso(t.dueDate) == Some(date)
  {
    IsoRoundTrip(date, t.dueDate);
  }

  /** No task is listed on two different dates with four-digit years. */
  lemma TasksForDistinctDates(tasks: seq<Task>, a: Date, b: Date, t: Task)
    requires Valid(a) && Valid(b) && 0 <= a.year <= 9999 && 0 <= b.year <= 9999
    ensures t in TasksForDate(tasks, a) && t in TasksForDate(tasks, b) ==> a == b
  {
    if t in TasksForDate(tasks, a) && t in TasksForDate(tasks, b) {
      IsoParsesBack(a);
      IsoParsesBack(b);
    }
  }

  // ---------------------------------------------------------------------
  // Short lists
  // ---------------------------------------------------------------------

  /** The first items of a list, and the "+N more" count when some are left out. */
  datatype Preview<T> = Preview(shown: seq<T>, more: Option<nat>)

  /** `items.slice(0, limit)` with `+{items.length - limit} more` when `items.length > limit`. */
  function PreviewOf<T>(items: seq<T>, limit: nat): (r: Preview<T>)
    ensures |r.shown| <= limit && |r.shown| <= |items| && r.shown == items[..|r.shown|]
    ensures r.more.Some? <==> |items| > limit
    ensures r.more.None? ==> r.shown == items
    ensures r.more.Some? ==> |r.shown| == limit && |r.shown| + r.more.value == |items|
  {
    if |items| > limit then Preview(items[..limit], Some(|items| - limit))
    else Preview(items, None)
  }

  /**
   * A month cell: at most three of the day's tasks, in list order, and
   * "+N more" exactly when there are more than three, N being the rest.
   */
  function MonthCell(tasks: seq<Task>, date: Date): (r: Preview<Task>)
    requires Valid(date)
    ensures |r.shown| == if |TasksForDate(tasks, date)| < 3 then |TasksForDate(tasks, date)| else 3
    ensures r.shown == TasksForDate(tasks, date)[..|r.shown|]
    ensures r.more.Some? <==> |TasksForDate(tasks, date)| > 3
    ensures r.more.Some? ==> r.more.value == |TasksForDate(tasks, date)| - 3
  {
    PreviewOf(TasksForDate(tasks, date), 3)
  }

  /** The week card of a task: its first two subtasks and "+N more" past two. */
  function WeekCardSubtasks(t: Task): (r: Preview<Subtask>)
    ensures |r.shown| == if |t.subtasks| < 2 then |t.subtasks| else 2
    ensures r.shown == t.subtasks[..|r.shown|]
    ensures r.more.Some? <==> |t.subtasks| > 2
    ensures r.more.Some? ==> r.more.value == |t.subtasks| - 2
  {
    PreviewOf(t.subtasks, 2)
  }

  /** "done/total subtasks" on a card: the completed ones out of all. */
  function SubtaskProgress(t: Task): (r: (nat, nat))
    ensures r.0 <= r.1 == |t.subtasks|
    ensures r.0 == r.1 <==> AllSubtasksDone(t.subtasks)
    ensures r.0 + |Select(t.subtasks, IsOpenSubtask, true)| == r.1
  {
    SelectFull(t.subtasks, IsOpenSubtask, false);
    SelectCounts(t.subtasks, IsOpenSubtask, false);
    (|Select(t.subtasks, IsOpenSubtask, false)|, |t.subtasks|)
  }

  // ---------------------------------------------------------------------
  // The day view's entries
  // ---------------------------------------------------------------------

  /** A task's subtasks as the day view lists them, each carrying the task's title. */
  function Relabel(t: Task): seq<Subtask> {
    seq(|t.subtasks|, j requires 0 <= j < |t.subtasks| => t.subtasks[j].(taskTitle := t.title))
  }

  /** The subtasks of all the given tasks, task by task (`flatMap`). */
  function DaySubtasks(tasks: seq<Task>): seq<Subtask> {
    if |tasks| == 0 then [] else DaySubtasks(tasks[..|tasks| - 1]) + Relabel(tasks[|tasks| - 1])
  }

  /**
   * The day's entries are the subtasks of the day's tasks, one entry per
   * subtask, each labelled with its own task's title, and nothing else.
   */
  lemma {:induction false} DaySubtasksContents(tasks: seq<Task>)
    ensures |DaySubtasks(tasks)| == TaskStore.SubtaskCount(tasks)
    ensures forall i, j :: 0 <= i < |tasks| && 0 <= j < |tasks[i].subtasks| ==>
      tasks[i].subtasks[j].(taskTitle := tasks[i].title) in DaySubtasks(tasks)
    ensures forall x :: x in DaySubtasks(tasks) ==>
      exists i, j :: (0 <= i < |tasks| && 0 <= j < |tasks[i].subtasks|
        && x == tasks[i].subtasks[j].(taskTitle := tasks[i].title))
  {
    if |tasks| > 0 {
      var init := tasks[..|tasks| - 1];
      var last := tasks[|tasks| - 1];
      DaySubtasksContents(init);
      var all := DaySubtasks(tasks);
      assert all == DaySubtasks(init) + Relabel(last);
      forall i, j | 0 <= i < |tasks| && 0 <= j < |tasks[i].subtasks|
        ensures tasks[i].subtasks[j].(taskTitle := tasks[i].title) in all
      {
        if i < |tasks| - 1 {
          assert init[i] == tasks[i];
        } else {
          assert Relabel(last)[j] == tasks[i].subtasks[j].(taskTitle := tasks[i].title);
        }
      }
      forall x | x in all
        ensures exists i, j :: (0 <= i < |tasks| && 0 <= j < |tasks[i].subtasks|
          && x == tasks[i].subtasks[j].(taskTitle := tasks[i].title))
      {
        if x in DaySubtasks(init) {
          var i, j :| (0 <= i < |init| && 0 <= j < |init[i].subtasks|
            && x == init[i].subtasks[j].(taskTitle := init[i].title));
          assert init[i] == tasks[i];
        } else {
          var j :| 0 <= j < |Relabel(last)| && Relabel(last)[j] == x;
          assert x == tasks[|tasks| - 1].subtasks[j].(taskTitle := tasks[|tasks| - 1].title);
        }
      }
    }
  }

  /** The day view's order: the scheduled-time text, compared as `localeCompare` does. */
  function TimeKey(x: Subtask): Key {
    TextKey(x.scheduledTime)
  }

  /**
   * The day view's entries for `date`: the subtasks of the tasks due that day,
   * sorted by scheduled time; entries with the same time keep their order.
   */
  function DayEntries(tasks: seq<Task>, date: Date): (r: seq<Subtask>)
    requires Valid(date)
    ensures multiset(r) == multiset(DaySubtasks(TasksForDate(tasks, date)))
    ensures forall i, j :: 0 <= i < j < |r| ==> CompareText(r[i].scheduledTime, r[j].scheduledTime) <= 0
  {
    var all := DaySubtasks(TasksForDate(tasks, date));
    SortBySortedPermutation(all, TimeKey);
    var r := SortBy(all, TimeKey);
    forall i, j | 0 <= i < j < |r| ensures CompareText(r[i].scheduledTime, r[j].scheduledTime) <= 0 {
      CompareTextIsKeyOrder(r[i].scheduledTime, r[j].scheduledTime);
    }
    r
  }

  /** Entries with the same scheduled time appear in the order of the day's tasks and subtasks. */
  lemma DayEntriesStable(tasks: seq<Task>, date: Date, time: string)
    requires Valid(date)
    ensures KeyClass(DayEntries(tasks, date), TimeKey, TextKey(time))
         == KeyClass(DaySubtasks(TasksForDate(tasks, date)), TimeKey, TextKey(time))
  {
    SortByStable(DaySubtasks(TasksForDate(tasks, date)), TimeKey, TextKey(time));
  }

  // ---------------------------------------------------------------------
  // Hourly slots
  // ---------------------------------------------------------------------

  /** `${hour}:00` for the hour read from a time; an unreadable hour is written "NaN". */
  function HourKey(hour: Option<int>): string {
    (match hour
     case None => "NaN"
     case Some(h) => IntToString(h)) + ":00"
  }

  /** Different hours, and NaN, get different keys. */
  lemma HourKeyInjective(a: Option<int>, b: Option<int>)
    requires HourKey(a) == HourKey(b)
    ensures a == b
  {
    var ka, kb := HourKey(a), HourKey(b);
    var ta := ka[..|ka| - 3];
    var tb := kb[..|kb| - 3];
    assert ta == tb;
    if a.Some? {
      IntToStringStart(a.value);
      assert ta == IntToString(a.value);
    }
    if b.Some? {
      IntToStringStart(b.value);
      assert tb == IntToString(b.value);
    }
    if a.Some? && b.Some? {
      IntToStringInjective(a.value, b.value);
    }
  }

  function EntryHourKey(x: Subtask): string {
    HourKey(HourOf(x.scheduledTime))
  }

  function HasKey(key: Subtask -> string, k: string): Subtask -> bool {
    (x: Subtask) => key(x) == k
  }

  /** `groupedByHour[k] || []`. */
  function Bucket(groups: map<string, seq<Subtask>>, k: string): seq<Subtask> {
    if k in groups then groups[k] else []
  }

  /** The `forEach` that pushes each entry onto the list under its key. */
  function GroupByKey(s: seq<Subtask>, key: Subtask -> string): map<string, seq<Subtask>> {
    if |s| == 0 then map[]
    else
      var groups := GroupByKey(s[..|s| - 1], key);
      var k := key(s[|s| - 1]);
      groups[k := Bucket(groups, k) + [s[|s| - 1]]]
  }

  /**
   * Under each key the grouping holds exactly the entries with that key, in
   * their order, and a key is present only when some entry has it.
   */
  lemma {:induction false} GroupByKeySpec(s: seq<Subtask>, key: Subtask -> string, k: string)
    ensures Bucket(GroupByKey(s, key), k) == Select(s, HasKey(key, k), true)
    ensures k in GroupByKey(s, key) <==> Select(s, HasKey(key, k), true) != []
  {
    if |s| > 0 {
      GroupByKeySpec(s[..|s| - 1], key, k);
    }
  }

  /** The slots of the day view: 8 AM to 8 PM. */
  const FirstSlotHour := 8
  const SlotCount := 13

  /** An entry's hour as the day view reads it: `parseInt` of the text before the first ':'. */
  function EntryHour(x: Subtask): Option<int> {
    HourOf(x.scheduledTime)
  }

  function KeyOfHour(hour: Subtask -> Option<int>): Subtask -> string {
    (x: Subtask) => HourKey(hour(x))
  }

  function AtHour(hour: Subtask -> Option<int>, h: int): Subtask -> bool {
    (x: Subtask) => hour(x) == Some(h)
  }

  /** The hourly slots from 8 AM on, each looked up by its `${hour}:00` key, for any reading of the hour. */
  function SlotsBy(entries: seq<Subtask>, hour: Subtask -> Option<int>): (r: seq<seq<Subtask>>)
    ensures |r| == SlotCount
  {
    var groups := GroupByKey(entries, KeyOfHour(hour));
    seq(SlotCount, i => Bucket(groups, HourKey(Some(i + FirstSlotHour))))
  }

  /** The entries the day view shows in each hourly slot, from 8 AM on. */
  function DayTimeline(entries: seq<Subtask>): (r: seq<seq<Subtask>>)
    ensures |r| == SlotCount
  {
    SlotsBy(entries, EntryHour)
  }

  lemma SlotContentsBy(entries: seq<Subtask>, hour: Subtask -> Option<int>, i: int)
    requires 0 <= i < SlotCount
    ensures SlotsBy(entries, hour)[i] == Select(entries, AtHour(hour, i + FirstSlotHour), true)
  {
    var k := HourKey(Some(i + FirstSlotHour));
    GroupByKeySpec(entries, KeyOfHour(hour), k);
    forall j | 0 <= j < |entries|
      ensures HasKey(KeyOfHour(hour), k)(entries[j]) == AtHour(hour, i + FirstSlotHour)(entries[j])
    {
      if HourKey(hour(entries[j])) == k {
        HourKeyInjective(hour(entries[j]), Some(i + FirstSlotHour));
      }
    }
    SelectAgree(entries, HasKey(KeyOfHour(hour), k), AtHour(hour, i + FirstSlotHour), true);
  }

  lemma ShownWhenInRange(entries: seq<Subtask>, hour: Subtask -> Option<int>, x: Subtask)
    requires x in entries
    requires hour(x).Some? && FirstSlotHour <= hour(x).value < FirstSlotHour + SlotCount
    ensures x in SlotsBy(entries, hour)[hour(x).value - FirstSlotHour]
  {
    var i := hour(x).value - FirstSlotHour;
    SlotContentsBy(entries, hour, i);
    SelectMembers(entries, AtHour(hour, i + FirstSlotHour), true, x);
  }

  lemma InRangeWhenShown(entries: seq<Subtask>, hour: Subtask -> Option<int>, x: Subtask, i: int)
    requires 0 <= i < SlotCount && x in SlotsBy(entries, hour)[i]
    ensures hour(x) == Some(i + FirstSlotHour)
  {
    SlotContentsBy(entries, hour, i);
    SelectMembers(entries, AtHour(hour, i + FirstSlotHour), true, x);
  }

  lemma ShownBy(entries: seq<Subtask>, hour: Subtask -> Option<int>, x: Subtask)
    requires x in entries
    ensures (exists i :: 0 <= i < SlotCount && x in SlotsBy(entries, hour)[i])
        <==> hour(x).Some? && FirstSlotHour <= hour(x).value < FirstSlotHour + SlotCount
  {
    if hour(x).Some? && FirstSlotHour <= hour(x).value < FirstSlotHour + SlotCount {
      ShownWhenInRange(entries, hour, x);
    }
    if exists i :: 0 <= i < SlotCount && x in SlotsBy(entries, hour)[i] {
      var i :| 0 <= i < SlotCount && x in SlotsBy(entries, hour)[i];
      InRangeWhenShown(entries, hour, x, i);
    }
  }

  /** Slot `i` lists exactly the entries whose hour reads as `8 + i`, in the day's order. */
  lemma SlotContents(entries: seq<Subtask>, i: int)
    requires 0 <= i < SlotCount
    ensures DayTimeline(entries)[i] == Select(entries, AtHour(EntryHour, i + FirstSlotHour), true)
  {
    SlotContentsBy(entries, EntryHour, i);
  }

  /**
   * An entry appears in the day's timeline exactly when its hour reads as a
   * number from 8 to 20; entries at other hours, or with no readable hour,
   * are not shown.
   */
  lemma ShownInTimeline(entries: seq<Subtask>, x: Subtask)
    requires x in entries
    ensures (exists i :: 0 <= i < SlotCount && x in DayTimeline(entries)[i])
        <==> EntryHour(x).Some? && 8 <= EntryHour(x).value <= 20
  {
    assert DayTimeline(entries) == SlotsBy(entries, EntryHour);
    ShownBy(entries, EntryHour, x);
  }

  /** Appending ":00" is appending ':' and then "00". */
  lemma OnTheHour(x: string)
    ensures x + ":00" == x + ":" + "00"
  {
  }

  /** The label of the slot at hour `h`: `formatTime` of `${h}:00`, a 12-hour reading with AM or PM. */
  lemma SlotLabel(h: int)
    requires FirstSlotHour <= h < FirstSlotHour + SlotCount
    ensures FormatTime(IntToString(h) + ":00")
         == IntToString(DisplayHour(h)) + ":00" + (if h >= 12 then " PM" else " AM")
  {
    FormatTimeOfHour(h, "00");
    OnTheHour(IntToString(h));
    OnTheHour(IntToString(DisplayHour(h)));
  }
}

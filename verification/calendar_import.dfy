/**
 * The server's mapping from calendar events to dashboard tasks: one
 * standalone task per event, in event order, each with a single subtask that
 * mirrors it. Fetching the events, their time zones and the date parsing are
 * outside the model: an event arrives with its start text, the start and end
 * as millisecond time values (None when unreadable), and the local clock
 * reading of the start.
 */
module CalendarImport {
  import opened Base
  import opened Strings
  import opened TaskModel
  import opened Clock

  /** `getHours()` and `getMinutes()` of the event's start. */
  datatype LocalTime = LocalTime(hour: nat, minute: nat)

  /**
   * What the mapping reads from an event. An absent id or summary is the empty
   * string (both are tested for truthiness); `start` is the start's
   * `dateTime` or `date` text.
   */
  datatype Event = Event(
    id: string,
    summary: string,
    start: string,
    startMs: Option<int>,
    endMs: Option<int>,
    startLocal: Option<LocalTime>)

  predicate ValidLocalTime(t: LocalTime) {
    t.hour < 24 && t.minute < 60
  }

  const HalfHourMs := 1800000
  const TwoHoursMs := 7200000

  /**
   * The effort estimate from the event's length: at most half an hour is low,
   * two hours or more is high, anything else, and an unreadable start or end,
   * is medium.
   */
  function EffortOfDuration(startMs: Option<int>, endMs: Option<int>): Level {
    if startMs.None? || endMs.None? then Medium
    else if endMs.value - startMs.value <= HalfHourMs then Low
    else if endMs.value - startMs.value >= TwoHoursMs then High
    else Medium
  }

  /**
   * In whole minutes: 30 or fewer give low, 120 or more give high, and a
   * longer event never gets a lighter estimate than a shorter one.
   */
  lemma EffortByMinutes(start: int, minutes: int, longer: int)
    requires minutes <= longer
    ensures var e := EffortOfDuration(Some(start), Some(start + minutes * 60000));
      (e == Low <==> minutes <= 30) && (e == High <==> minutes >= 120)
    ensures Weight(EffortOfDuration(Some(start), Some(start + minutes * 60000)))
         <= Weight(EffortOfDuration(Some(start), Some(start + longer * 60000)))
  {
  }

  /** `event.id || \`gcal-${index}\``. */
  function IdBase(e: Event, index: nat): string {
    if e.id != "" then e.id else "gcal-" + IntToString(index)
  }

  /** `${hours}:${minutes}` of the local start; an unreadable start reads NaN for both. */
  function ScheduledTimeOf(e: Event): string {
    match e.startLocal
    case None => "NaN:NaN"
    case Some(t) => ClockText(t.hour, t.minute)
  }

  /** `startISO.slice(0, 10)`. */
  function DueDateOf(e: Event): (r: string)
    ensures |r| <= 10 && IsPrefix(r, e.start)
    ensures |e.start| >= 10 ==> |r| == 10
    ensures |e.start| <= 10 ==> r == e.start
  {
    if |e.start| <= 10 then e.start else e.start[..10]
  }

  /**
   * The task for the event at `index`: id `gcal-<idBase>`, the summary or
   * "(No title)", open, medium priority, standalone, no repeat, and one open
   * subtask `<idBase>-0` that carries the same title, time and effort.
   */
  function EventToTask(e: Event, index: nat): (t: Task)
    ensures t.id == "gcal-" + IdBase(e, index)
    ensures t.title == (if e.summary != "" then e.summary else "(No title)") && t.title != ""
    ensures !t.completed && t.priority == Medium && t.isStandaloneTask && t.repeatPattern.None?
    ensures t.dueDate == DueDateOf(e)
    ensures t.scheduledTime == Some(ScheduledTimeOf(e))
    ensures t.effort == Some(EffortOfDuration(e.startMs, e.endMs))
    ensures |t.subtasks| == 1
    ensures t.subtasks[0] == Subtask(IdBase(e, index) + "-0", t.title, false, t.title,
                                     t.scheduledTime.value, t.effort.value)
  {
    var title := if e.summary != "" then e.summary else "(No title)";
    var time := ScheduledTimeOf(e);
    var effort := EffortOfDuration(e.startMs, e.endMs);
    Task("gcal-" + IdBase(e, index), title, false, Medium, DueDateOf(e),
         [Subtask(IdBase(e, index) + "-0", title, false, title, time, effort)],
         true, Some(time), Some(effort), None)
  }

  /** `events.map(...)`: one task per event, in event order. */
  function ImportEvents(events: seq<Event>): (r: seq<Task>)
    ensures |r| == |events|
    ensures forall i :: 0 <= i < |r| ==> r[i] == EventToTask(events[i], i)
  {
    seq(|events|, i requires 0 <= i < |events| => EventToTask(events[i], i))
  }

  /**
   * Every imported task has a standalone entry in the day's timeline, and its
   * completion agrees with its one open subtask.
   */
  lemma ImportedTasksInTimeline(events: seq<Event>, i: int)
    requires 0 <= i < |events|
    ensures ShowsInTimeline(ImportEvents(events)[i])
    ensures CompletionFollowsSubtasks(ImportEvents(events)[i])
  {
    var t := ImportEvents(events)[i];
    if events[i].startLocal.Some? {
      var lt := events[i].startLocal.value;
      assert |Pad2(lt.hour)| >= 2;
    }
  }

  /** The imported time reads back as the event's local start hour. */
  lemma ImportedHour(e: Event, index: nat)
    requires e.startLocal.Some? && ValidLocalTime(e.startLocal.value)
    ensures HourOf(EventToTask(e, index).scheduledTime.value) == Some(e.startLocal.value.hour as int)
  {
    HourOfClockText(e.startLocal.value.hour, e.startLocal.value.minute);
  }

  lemma PrefixCancel(p: string, x: string, y: string)
    requires p + x == p + y
    ensures x == y
  {
    assert x == (p + x)[|p|..] && y == (p + y)[|p|..];
  }

  lemma SuffixCancel(x: string, y: string, q: string)
    requires x + q == y + q
    ensures x == y
  {
    assert |x| == |y|;
    assert x == (x + q)[..|x|] && y == (y + q)[..|y|];
  }

  /** Two different positions spell different fallback id bases. */
  lemma FallbackBasesDistinct(i: nat, j: nat)
    requires i != j
    ensures "gcal-" + IntToString(i) != "gcal-" + IntToString(j)
  {
    if "gcal-" + IntToString(i) == "gcal-" + IntToString(j) {
      PrefixCancel("gcal-", IntToString(i), IntToString(j));
      IntToStringInjective(i, j);
    }
  }

  /** Events without ids of their own get distinct task and subtask ids. */
  lemma ImportedIdsDistinct(events: seq<Event>, i: int, j: int)
    requires 0 <= i < j < |events| && events[i].id == "" && events[j].id == ""
    ensures ImportEvents(events)[i].id != ImportEvents(events)[j].id
    ensures ImportEvents(events)[i].subtasks[0].id != ImportEvents(events)[j].subtasks[0].id
  {
    var x, y := IdBase(events[i], i), IdBase(events[j], j);
    FallbackBasesDistinct(i, j);
    if "gcal-" + x == "gcal-" + y {
      PrefixCancel("gcal-", x, y);
    }
    if x + "-0" == y + "-0" {
      SuffixCancel(x, y, "-0");
    }
  }
}

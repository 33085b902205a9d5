/**
 * The upcoming-tasks panel: a task's total effort class, the mood-dependent
 * ordering of the open tasks (completed tasks go last in list order), the
 * due-date label, and the count of open tasks.
 */
module Upcoming {
  import opened Base
  import opened Strings
  import opened Ordering
  import opened Dates
  import opened TaskModel
  import TaskStore

  // ---------------------------------------------------------------------
  // Total effort
  // ---------------------------------------------------------------------

  /** The subtasks' effort weights added up. */
  function EffortSum(subs: seq<Subtask>): nat {
    if |subs| == 0 then 0 else EffortSum(subs[..|subs| - 1]) + Weight(subs[|subs| - 1].effort) as nat
  }

  /** Every subtask weighs between 1 and 3. */
  lemma {:induction false} EffortSumBounds(subs: seq<Subtask>)
    ensures |subs| <= EffortSum(subs) <= 3 * |subs|
  {
    if |subs| > 0 {
      EffortSumBounds(subs[..|subs| - 1]);
    }
  }

  lemma {:induction false} EffortSumConcat(a: seq<Subtask>, b: seq<Subtask>)
    ensures EffortSum(a + b) == EffortSum(a) + EffortSum(b)
    decreases |b|
  {
    if |b| == 0 {
      assert a + b == a;
    } else {
      assert (a + b)[..|a + b| - 1] == a + b[..|b| - 1];
      EffortSumConcat(a, b[..|b| - 1]);
    }
  }

  /**
   * The effort class of a task: low up to a total of 3, medium up to 6, high
   * above. No subtasks (or one) is low; seven or more is high.
   */
  function TotalEffort(t: Task): (r: Level)
    ensures |t.subtasks| <= 1 ==> r == Low
    ensures |t.subtasks| >= 7 ==> r == High
    ensures |t.subtasks| <= 2 ==> r != High
  {
    var total := EffortSum(t.subtasks);
    EffortSumBounds(t.subtasks);
    if total <= 3 then Low
    else if total <= 6 then Medium
    else High
  }

  /** Attaching a subtask never lowers a task's effort class, and attaching a high-effort one to a task never leaves it low unless it was empty. */
  lemma TotalEffortMonotone(t: Task, s: Subtask)
    ensures Weight(TotalEffort(t)) <= Weight(TotalEffort(t.(subtasks := t.subtasks + [s])))
    ensures |t.subtasks| >= 1 && s.effort == High ==> TotalEffort(t.(subtasks := t.subtasks + [s])) != Low
  {
    EffortSumConcat(t.subtasks, [s]);
    assert [s][..0] == [];
    EffortSumBounds(t.subtasks);
  }

  // ---------------------------------------------------------------------
  // Days until due and the due-date label
  // ---------------------------------------------------------------------

  /** The fixed "today" both the ordering and the label measure from. */
  const Reference := Date(2025, 11, 9)

  /** The day after the reference, the "Tomorrow" the label compares with. */
  lemma ReferenceFacts()
    ensures Valid(Reference) && NextDay(Reference) == Date(2025, 11, 10)
  {
  }

  /** Whole days from `today` to the due date, or None when the due date is not a `YYYY-MM-DD` day. */
  function DueOffsetFrom(today: Date, dueDate: string): Option<int>
    requires Valid(today)
  {
    match ParseIso(dueDate)
    case None => None
    case Some(d) => Some(DayNumber(d) - DayNumber(today))
  }

  /** Milliseconds in a day, the divisor of the panel's day count. */
  const MsPerDay: int := 1000 * 60 * 60 * 24

  /** `Math.ceil(a / b)` for a positive divisor. */
  function CeilDiv(a: int, b: int): (r: int)
    requires b > 0
    ensures (r - 1) * b < a <= r * b
  {
    if a % b == 0 then a / b else a / b + 1
  }

  /** A whole number of days divides evenly, and rounding up leaves it as it is. */
  lemma WholeDays(k: int, m: int)
    requires m > 0
    ensures CeilDiv(k * m, m) == k
  {
    var r := CeilDiv(k * m, m);
    assert (r - 1) * m < k * m <= r * m;
  }

  /**
   * A readable due date and the reference day are both midnights, so the
   * millisecond difference rounded up to whole days is the difference of
   * their day numbers, which is the offset the panel uses.
   */
  lemma DueOffsetIsCeilOfMillis(today: Date, s: string, d: Date)
    requires Valid(today) && ParseIso(s) == Some(d)
    ensures DueOffsetFrom(today, s) == Some(CeilDiv(DayNumber(d) * MsPerDay - DayNumber(today) * MsPerDay, MsPerDay))
  {
    var k := DayNumber(d) - DayNumber(today);
    assert DayNumber(d) * MsPerDay - DayNumber(today) * MsPerDay == k * MsPerDay;
    WholeDays(k, MsPerDay);
  }

  /** The offset of a text already known to parse, without unfolding the parser. */
  lemma DueOffsetOfParsed(today: Date, s: string, d: Date)
    requires Valid(today) && ParseIso(s) == Some(d)
    ensures DueOffsetFrom(today, s) == Some(DayNumber(d) - DayNumber(today))
  {
  }

  /** The due date written `n` days after `today` is read back as offset `n`. */
  lemma DueOffsetOfShiftedDay(today: Date, n: int)
    requires Valid(today) && 0 <= AddDays(today, n).year <= 9999
    ensures DueOffsetFrom(today, IsoString(AddDays(today, n))) == Some(n)
  {
    var d := AddDays(today, n);
    assert DayNumber(d) - DayNumber(today) == n;
    var s := IsoString(d);
    IsoParsesBack(d);
    assert ParseIso(s) == Some(d);
    DueOffsetOfParsed(today, s, d);
  }

  /** What `formatDueDate` shows. */
  datatype DueLabel = Today | Tomorrow | InDays(n: int) | OnDate(month: int, day: int) | InvalidDate

  /**
   * The label of a due date seen from `today`: "Today" for that day,
   * "Tomorrow" for the next, "In N days" for 2 to 7 days ahead, the month and
   * day for any other day (past days included), and "Invalid Date" for
   * unreadable text.
   */
  function FormatDueDateFrom(today: Date, dueDate: string): (r: DueLabel)
    requires Valid(today)
    ensures r == Today <==> DueOffsetFrom(today, dueDate) == Some(0)
    ensures r == Tomorrow <==> DueOffsetFrom(today, dueDate) == Some(1)
    ensures r.InDays? <==> DueOffsetFrom(today, dueDate).Some? && 2 <= DueOffsetFrom(today, dueDate).value <= 7
    ensures r.InDays? ==> r.n == DueOffsetFrom(today, dueDate).value
    ensures r == InvalidDate <==> DueOffsetFrom(today, dueDate) == None
    ensures r.OnDate? ==> r.month == ParseIso(dueDate).value.month && r.day == ParseIso(dueDate).value.day
  {
    match ParseIso(dueDate)
    case None => InvalidDate
    case Some(d) =>
      var days := DayNumber(d) - DayNumber(today);
      if d == today then Today
      else if d == NextDay(today) then Tomorrow
      else if 0 < days <= 7 then
        assert days != 1 by {
          if days == 1 { DayNumberInjective(d, NextDay(today)); }
        }
        InDays(days)
      else
        assert days != 0 && days != 1 by {
          if days == 0 { DayNumberInjective(d, today); }
        }
        OnDate(d.month, d.day)
  }

  /** The label of the day `n` days after `today`. */
  lemma DueLabelOfShiftedDay(today: Date, n: int)
    requires Valid(today) && 0 <= AddDays(today, n).year <= 9999
    ensures var r := FormatDueDateFrom(today, IsoString(AddDays(today, n)));
      && (n == 0 ==> r == Today)
      && (n == 1 ==> r == Tomorrow)
      && (2 <= n <= 7 ==> r == InDays(n))
      && (n < 0 || n > 7 ==> r == OnDate(AddDays(today, n).month, AddDays(today, n).day))
  {
    DueOffsetOfShiftedDay(today, n);
    IsoParsesBack(AddDays(today, n));
  }

  /**
   * The panel's label, measured from the fixed reference date: "Today" is
   * shown for exactly 2025-11-09 and "Tomorrow" for exactly 2025-11-10.
   */
  function FormatDueDate(dueDate: string): (r: DueLabel)
    ensures r == Today <==> ParseIso(dueDate) == Some(Date(2025, 11, 9))
    ensures r == Tomorrow <==> ParseIso(dueDate) == Some(Date(2025, 11, 10))
  {
    ReferenceFacts();
    match ParseIso(dueDate)
    case None => FormatDueDateFrom(Reference, dueDate)
    case Some(d) =>
      assert DayNumber(d) == DayNumber(Reference) ==> d == Reference by {
        if DayNumber(d) == DayNumber(Reference) { DayNumberInjective(d, Reference); }
      }
      assert DayNumber(d) == DayNumber(NextDay(Reference)) ==> d == NextDay(Reference) by {
        if DayNumber(d) == DayNumber(NextDay(Reference)) { DayNumberInjective(d, NextDay(Reference)); }
      }
      FormatDueDateFrom(Reference, dueDate)
  }

  /** `toLocaleDateString('en-US', { month: 'short' })`: the three-letter month name. */
  function MonthAbbreviation(m: int): (r: string)
    ensures |r| == 3 && r[0] != 'I' && r[0] != 'T'
  {
    if m == 1 then "Jan" else if m == 2 then "Feb" else if m == 3 then "Mar"
    else if m == 4 then "Apr" else if m == 5 then "May" else if m == 6 then "Jun"
    else if m == 7 then "Jul" else if m == 8 then "Aug" else if m == 9 then "Sep"
    else if m == 10 then "Oct" else if m == 11 then "Nov" else "Dec"
  }

  /**
   * The text of a label, as `en-US` writes a short month and a numeric day.
   * The fixed words are told apart from every other label's text, and only a
   * day count begins with "In ".
   */
  function LabelText(l: DueLabel): (r: string)
    ensures r == "Today" <==> l == Today
    ensures r == "Tomorrow" <==> l == Tomorrow
    ensures r == "Invalid Date" <==> l == InvalidDate
    ensures l.InDays? <==> |r| >= 3 && r[..3] == "In "
  {
    FixedWords();
    match l
    case Today => "Today"
    case Tomorrow => "Tomorrow"
    case InDays(n) =>
      var r := "In " + IntToString(n) + " days";
      assert r[0] == 'I' && r[2] == ' ' && r[..3] == "In ";
      r
    case OnDate(m, d) =>
      var r := MonthAbbreviation(m) + " " + IntToString(d);
      assert r[0] == MonthAbbreviation(m)[0];
      r
    case InvalidDate => "Invalid Date"
  }

  /** The characters that tell the fixed label words apart. */
  lemma FixedWords()
    ensures |"Today"| == 5 && "Today"[0] == 'T'
    ensures |"Tomorrow"| == 8 && "Tomorrow"[0] == 'T'
    ensures |"Invalid Date"| == 12 && "Invalid Date"[0] == 'I' && "Invalid Date"[2] == 'v'
    ensures "In "[0] == 'I'
  {
  }

  /** "In N days" is what a due date shows exactly when it is N days ahead and N is 2 to 7. */
  lemma InDaysTextIff(today: Date, dueDate: string, n: int)
    requires Valid(today)
    ensures LabelText(FormatDueDateFrom(today, dueDate)) == "In " + IntToString(n) + " days"
        <==> DueOffsetFrom(today, dueDate) == Some(n) && 2 <= n <= 7
  {
    var l := FormatDueDateFrom(today, dueDate);
    var t := "In " + IntToString(n) + " days";
    assert t[..3] == "In ";
    if LabelText(l) == t {
      assert l.InDays?;
      var u := "In " + IntToString(l.n) + " days";
      assert |u| == |t|;
      assert u[3..|u| - 5] == IntToString(l.n);
      assert t[3..|t| - 5] == IntToString(n);
      IntToStringInjective(l.n, n);
    }
  }

  /** The panel's header count: how many tasks are not completed. */
  function ActiveCount(tasks: seq<Task>): (r: nat)
    ensures r <= |tasks|
    ensures r == 0 <==> forall i :: 0 <= i < |tasks| ==> tasks[i].completed
    ensures r == |tasks| <==> forall i :: 0 <= i < |tasks| ==> !tasks[i].completed
  {
    SelectCounts(tasks, IsOpenTask, true);
    SelectCounts(tasks, IsOpenTask, false);
    |Select(tasks, IsOpenTask, true)|
  }

  // ---------------------------------------------------------------------
  // Mood-dependent ordering
  // ---------------------------------------------------------------------

  /** The due offset the comparator uses; an unreadable due date counts as due on the reference day. */
  function DaysUntilDue(t: Task): int {
    ReferenceFacts();
    DueOffsetFrom(Reference, t.dueDate).GetOr(0)
  }

  /** The three numbers the comparator looks at. */
  datatype Fields = Fields(effort: int, priority: int, days: int)

  function FieldsOf(t: Task): Fields {
    Fields(Weight(TotalEffort(t)), Weight(t.priority), DaysUntilDue(t))
  }

  /** Neutral mood's effort preference: medium first, then low, then high. */
  function EffortPreference(w: int): int {
    if w == 2 then -1 else w
  }

  /**
   * The comparator over two open tasks, branch for branch. Two priorities
   * differ exactly when their weights do, so the priority tests compare weights.
   */
  function CompareFields(mood: Mood, a: Fields, b: Fields): int {
    match mood
    case Sad =>
      if a.effort != b.effort then a.effort - b.effort
      else if a.priority != b.priority then b.priority - a.priority
      else a.days - b.days
    case Happy =>
      if a.priority != b.priority then b.priority - a.priority
      else if a.days != b.days then a.days - b.days
      else b.effort - a.effort
    case Neutral =>
      if a.days != b.days then a.days - b.days
      else if a.priority != b.priority then b.priority - a.priority
      else EffortPreference(a.effort) - EffortPreference(b.effort)
  }

  function MoodCompare(mood: Mood, a: Task, b: Task): int {
    CompareFields(mood, FieldsOf(a), FieldsOf(b))
  }

  /**
   * The tuple each mood orders by: sad — effort up, priority down, due date
   * up; happy — priority down, due date up, effort down; neutral — due date
   * up, priority down, effort preference up.
   */
  function FieldsKey(mood: Mood, f: Fields): Key {
    match mood
    case Sad => [f.effort, -f.priority, f.days]
    case Happy => [-f.priority, f.days, -f.effort]
    case Neutral => [f.days, -f.priority, EffortPreference(f.effort)]
  }

  function MoodKey(mood: Mood, t: Task): Key {
    FieldsKey(mood, FieldsOf(t))
  }

  function MoodOrder(mood: Mood): Task -> Key {
    t => MoodKey(mood, t)
  }

  lemma LexLeTriple(x1: int, x2: int, x3: int, y1: int, y2: int, y3: int)
    ensures LexLe([x1, x2, x3], [y1, y2, y3])
        <==> x1 < y1 || (x1 == y1 && (x2 < y2 || (x2 == y2 && x3 <= y3)))
  {
    assert [x1, x2, x3] == [x1] + [x2, x3] && [y1, y2, y3] == [y1] + [y2, y3];
    assert [x2, x3] == [x2] + [x3] && [y2, y3] == [y2] + [y3];
    assert [x3] == [x3] + [] && [y3] == [y3] + [];
    LexLeCons(x1, [x2, x3], y1, [y2, y3]);
    LexLeCons(x2, [x3], y2, [y3]);
    LexLeCons(x3, [], y3, []);
  }

  /** The comparator lets `a` stay ahead of `b` exactly when `a`'s key is not above `b`'s. */
  lemma CompareFieldsIsKeyOrder(mood: Mood, a: Fields, b: Fields)
    ensures CompareFields(mood, a, b) <= 0 <==> LexLe(FieldsKey(mood, a), FieldsKey(mood, b))
  {
    match mood
    case Sad => LexLeTriple(a.effort, -a.priority, a.days, b.effort, -b.priority, b.days);
    case Happy => LexLeTriple(-a.priority, a.days, -a.effort, -b.priority, b.days, -b.effort);
    case Neutral =>
      LexLeTriple(a.days, -a.priority, EffortPreference(a.effort), b.days, -b.priority, EffortPreference(b.effort));
  }

  /** On tasks: the as-written comparator agrees with the mood key order. */
  lemma MoodCompareIsKeyOrder(mood: Mood, a: Task, b: Task)
    ensures MoodCompare(mood, a, b) <= 0 <==> LexLe(MoodKey(mood, a), MoodKey(mood, b))
  {
    CompareFieldsIsKeyOrder(mood, FieldsOf(a), FieldsOf(b));
  }

  /** The panel's order: the open tasks sorted stably by the mood's key, then the completed tasks. */
  function SortByMood(tasks: seq<Task>, mood: Mood): seq<Task> {
    SortBy(Select(tasks, IsOpenTask, true), MoodOrder(mood)) + Select(tasks, IsOpenTask, false)
  }

  /** The open and the completed tasks together are the input. */
  lemma OpenAndDone(tasks: seq<Task>)
    ensures multiset(Select(tasks, IsOpenTask, true)) + multiset(Select(tasks, IsOpenTask, false)) == multiset(tasks)
  {
    var _ := TaskStore.SortedTasks(tasks);
  }

  /** The mood order is a permutation of the input. */
  lemma SortByMoodPermutation(tasks: seq<Task>, mood: Mood)
    ensures multiset(SortByMood(tasks, mood)) == multiset(tasks)
    ensures |SortByMood(tasks, mood)| == |tasks|
  {
    SortBySortedPermutation(Select(tasks, IsOpenTask, true), MoodOrder(mood));
    OpenAndDone(tasks);
    assert |multiset(SortByMood(tasks, mood))| == |SortByMood(tasks, mood)|;
  }

  /**
   * The first `ActiveCount` entries of the mood order are the open tasks and
   * the rest are the completed tasks in list order.
   */
  lemma SortByMoodOpenFirst(tasks: seq<Task>, mood: Mood)
    ensures ActiveCount(tasks) <= |SortByMood(tasks, mood)|
    ensures multiset(SortByMood(tasks, mood)[..ActiveCount(tasks)]) == multiset(Select(tasks, IsOpenTask, true))
    ensures forall i :: 0 <= i < ActiveCount(tasks) ==> !SortByMood(tasks, mood)[i].completed
    ensures SortByMood(tasks, mood)[ActiveCount(tasks)..] == Select(tasks, IsOpenTask, false)
    ensures forall i :: ActiveCount(tasks) <= i < |SortByMood(tasks, mood)| ==> SortByMood(tasks, mood)[i].completed
  {
    var open := Select(tasks, IsOpenTask, true);
    var done := Select(tasks, IsOpenTask, false);
    var sorted := SortBy(open, MoodOrder(mood));
    var r := sorted + done;
    SortBySortedPermutation(open, MoodOrder(mood));
    assert r[..|open|] == sorted && r[|open|..] == done;
    forall i | 0 <= i < |sorted| ensures !r[i].completed {
      assert sorted[i] in multiset(open);
    }
    forall i | |open| <= i < |r| ensures r[i].completed {
      assert r[i] == done[i - |open|];
    }
  }

  /**
   * The open part of the mood order is sorted by the mood key, and tasks with
   * equal keys keep their list order.
   */
  lemma SortByMoodSortedStable(tasks: seq<Task>, mood: Mood)
    ensures ActiveCount(tasks) <= |SortByMood(tasks, mood)|
    ensures SortedBy(SortByMood(tasks, mood)[..ActiveCount(tasks)], MoodOrder(mood))
    ensures forall k :: KeyClass(SortByMood(tasks, mood)[..ActiveCount(tasks)], MoodOrder(mood), k)
                     == KeyClass(Select(tasks, IsOpenTask, true), MoodOrder(mood), k)
  {
    var open := Select(tasks, IsOpenTask, true);
    var sorted := SortBy(open, MoodOrder(mood));
    SortBySortedPermutation(open, MoodOrder(mood));
    assert SortByMood(tasks, mood)[..ActiveCount(tasks)] == sorted;
    forall k ensures KeyClass(sorted, MoodOrder(mood), k) == KeyClass(open, MoodOrder(mood), k) {
      SortByStable(open, MoodOrder(mood), k);
    }
  }
}

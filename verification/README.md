# Daily Tasks Dashboard — task model in Dafny

This project models the in-memory task model of the Daily Tasks Dashboard, a
React dashboard of tasks and their scheduled subtasks, and proves properties
of that model. The dashboard's logic is written inline in its components. The
model lifts it into immutable datatypes and pure functions:

- **Task store** (`TaskStore`, data types in `TaskModel`): toggling a task
  cascades its new flag to all its subtasks. Toggling a subtask flips it, then
  recomputes every task's flag. A `standalone-<id>` entry flips its own task
  directly. Adding a task appends it. Adding a subtask attaches it by title.
  The store has two derived views: the completion-sorted task list, and the
  timeline of all subtasks plus one synthesized entry per standalone task.
- **Upcoming tasks** (`Upcoming`): the effort total and its thresholds, the
  mood-dependent ordering, the due-date label measured from the fixed day
  2025-11-09, and the active-task count.
- **Daily schedule** (`DailySchedule`, `Clock`): hover highlighting, the
  three-key listing order, grouping into morning, afternoon and evening, the
  "all done" banner, and the 12-hour time text.
- **Calendar** (`CalendarNav`, `CalendarDay`, dates in `Dates`):
  - month length and the weekday of the 1st, and the month grid;
  - the Sunday-anchored week, previous/next navigation, and the
    month → week → day drill-down;
  - tasks due on a date, the "+N more" truncation, and the day view's
    sorting and hourly slots 8..20.
- **Dialogs** (`AddTaskDialog`, `AddSubtaskDialog`): the submit handlers.
  They validate the form, build the record and reset the form.
- **Calendar import** (`CalendarImport`): the server's mapping from calendar
  events to standalone tasks.
- **Small panels**: the mood tracker's upsert and average (`MoodTracker`),
  the canned text rewrites (`TextRephrase`), the companion's keyword replies
  (`PlutoAssistant`), and the stand-alone task hook (`SimpleTasks`).

Every `Array.prototype.sort` call in the dashboard uses a comparator that is
lexicographic on a small tuple. `Ordering.SortBy` models these sorts as a
stable insertion sort on an integer-sequence key. Each comparator as written
is a separate function with a lemma `compare(a, b) <= 0 <==> key(a) <= key(b)`.
The sorted results are then proved to be permutations, sorted and stable. The
schedule's listing takes its highlight test as a parameter: the component
lists with the test it writes (`AsWritten`), and the same listing with the
corrected test (`Corrected`) is the one the code evidently intends.

Dates are proleptic Gregorian `(year, month, day)` records with a day number.
Clock readings, ids built from `Date.now()` and today's weekday name are
parameters. JavaScript built-ins on strings are in `Strings`: `trim`,
`includes`, `toLowerCase`, `split`/`join`, `replace`, `padStart`, number to
text, and `parseInt`.

Two consequences of the code:

- Toggling a task twice does not restore its subtasks. Both toggles push the
  task's flag onto every subtask.
- A subtask toggle recomputes the flag of every task, not only the owner's.
  A task without subtasks therefore becomes incomplete after any subtask
  toggle.

## Model

| member | source | states |
|---|---|---|
| TaskModel.StandaloneIdInjective | Daily-Tasks-Dashboard/src/App.tsx:194 | Two tasks' synthesized `standalone-<id>` entry ids are equal exactly when the task ids are equal |
| TaskStore.ToggleTask | Daily-Tasks-Dashboard/src/App.tsx:109-127 | The matched task's flag is negated and every one of its subtasks takes the new flag, with its other fields kept; tasks with other ids are returned unchanged |
| TaskStore.ToggleTaskTwice | Daily-Tasks-Dashboard/src/App.tsx:113-122 | Toggling the same id twice restores each matched task's own flag but leaves every subtask equal to that flag, not to its prior value; other tasks are unchanged |
| TaskStore.ToggleTaskTwiceRestores | Daily-Tasks-Dashboard/src/App.tsx:113-122 | A double toggle gives the original list back exactly when every matched task's subtasks already carried the task's flag |
| TaskStore.ToggleTaskFollowsSubtasks | Daily-Tasks-Dashboard/src/App.tsx:113-122 | After a task toggle, "done iff it has subtasks and all are done" holds for the task exactly when it has subtasks or was done before |
| TaskStore.ToggleSubtask | Daily-Tasks-Dashboard/src/App.tsx:130-159 | For `standalone-<id>` that task's flag is negated and its subtasks are untouched. In every other task exactly the subtasks with the given id flip and nothing else in them changes. Each such task's flag becomes "has subtasks and all done", so a task without subtasks ends up incomplete |
| TaskStore.ToggleSubtaskTwice | Daily-Tasks-Dashboard/src/App.tsx:141-156 | When no task has the id as its standalone id and every flag already follows the subtasks, toggling a subtask id twice restores the list |
| TaskStore.StandaloneEntryToggles | Daily-Tasks-Dashboard/src/App.tsx:134-139 | Toggling a standalone entry's id negates its task's flag and leaves that task's subtasks alone |
| TaskStore.AddTask | Daily-Tasks-Dashboard/src/App.tsx:161-163 | The new task is appended after the unchanged old list |
| TaskStore.AddSubtask | Daily-Tasks-Dashboard/src/App.tsx:165-178 | The subtask is appended to every task whose title equals its `taskTitle`; all other tasks are unchanged |
| TaskStore.AddSubtaskDropsIff | Daily-Tasks-Dashboard/src/App.tsx:165-178 | The list comes back unchanged exactly when no task has the subtask's `taskTitle` |
| TaskStore.CompletionCompareIsKeyOrder | Daily-Tasks-Dashboard/src/App.tsx:181-184 | The completion comparator is non-positive exactly when open-before-done key order holds |
| TaskStore.SortedTasks | Daily-Tasks-Dashboard/src/App.tsx:180-184 | The sorted list is the open tasks in input order followed by the completed tasks in input order: a permutation, sorted by completion |
| TaskStore.AddedTaskShowsAfterOpenTasks | Daily-Tasks-Dashboard/src/App.tsx:161-184 | An open task just added is listed after every open task and before every completed one |
| TaskStore.TimelineContents | Daily-Tasks-Dashboard/src/App.tsx:188-204 | The timeline holds every owned subtask and, for each standalone task with a time and effort, its synthesized entry; nothing else, and its length is the sum of the two counts |
| TaskStore.StandaloneEntryCount | Daily-Tasks-Dashboard/src/App.tsx:192-201 | When no owned subtask uses the id `standalone-x`, the timeline has exactly one entry with that id per qualifying task with id x |
| TaskStore.AllSubtasks | Daily-Tasks-Dashboard/src/App.tsx:186-208 | The subtask view is a permutation of the timeline with open entries first, each group in timeline order |
| Upcoming.EffortSumBounds | Daily-Tasks-Dashboard/src/components/UpcomingTasks.tsx:29-30 | The effort points of n subtasks sum to between n and 3n |
| Upcoming.TotalEffort | Daily-Tasks-Dashboard/src/components/UpcomingTasks.tsx:28-35 | No subtask or one subtask gives low (the empty list included), at most two never give high, and seven or more always give high |
| Upcoming.TotalEffortMonotone | Daily-Tasks-Dashboard/src/components/UpcomingTasks.tsx:28-35 | Adding a subtask never lowers the effort class; adding a high-effort subtask to a non-empty task lifts it above low |
| Upcoming.ReferenceFacts | Daily-Tasks-Dashboard/src/components/UpcomingTasks.tsx:139-140 | The fixed "today" 2025-11-09 is a valid date whose next day is the "tomorrow" 2025-11-10 |
| Upcoming.DueOffsetIsCeilOfMillis | Daily-Tasks-Dashboard/src/components/UpcomingTasks.tsx:149 | For a readable due date, rounding up the millisecond difference of the two midnights divided by a day of milliseconds gives exactly the difference of day numbers, the offset the label tests |
| Upcoming.DueOffsetOfShiftedDay | Daily-Tasks-Dashboard/src/components/UpcomingTasks.tsx:53-57 | The ISO text of the day n days after today reads back as an offset of exactly n |
| Upcoming.FormatDueDateFrom | Daily-Tasks-Dashboard/src/components/UpcomingTasks.tsx:137-155 | "Today" iff the offset is 0, "Tomorrow" iff 1, "In N days" iff 2..7 with N the offset, "Invalid Date" iff unreadable, else the due date's month and day |
| Upcoming.FormatDueDate | Daily-Tasks-Dashboard/src/components/UpcomingTasks.tsx:137-147 | Measured from the fixed reference day, "Today" is shown for exactly 2025-11-09 and "Tomorrow" for exactly 2025-11-10 |
| Upcoming.LabelText | Daily-Tasks-Dashboard/src/components/UpcomingTasks.tsx:137-155 | The texts "Today", "Tomorrow" and "Invalid Date" each come from exactly their own label, and only a day count starts with "In " |
| Upcoming.InDaysTextIff | Daily-Tasks-Dashboard/src/components/UpcomingTasks.tsx:149-152 | "In N days" is shown exactly when the due date is N days ahead with N from 2 to 7 |
| Upcoming.DueLabelOfShiftedDay | Daily-Tasks-Dashboard/src/components/UpcomingTasks.tsx:137-155 | The label of the day n days ahead, case by case in n |
| Upcoming.CompareFieldsIsKeyOrder | Daily-Tasks-Dashboard/src/components/UpcomingTasks.tsx:59-99 | For each mood the comparator is non-positive exactly when the mood's key is in order. Sad: (effort ascending, priority descending, days ascending). Happy: (priority descending, days ascending, effort descending). Otherwise: (days ascending, priority descending, effort preference medium -1, low 1, high 3) |
| Upcoming.MoodCompareIsKeyOrder | Daily-Tasks-Dashboard/src/components/UpcomingTasks.tsx:46-100 | The same agreement on tasks, with effort, priority and days computed from the task |
| Upcoming.OpenAndDone | Daily-Tasks-Dashboard/src/components/UpcomingTasks.tsx:42-43 | The incomplete and completed filters together hold the input's tasks, each exactly as often |
| Upcoming.SortByMoodPermutation | Daily-Tasks-Dashboard/src/components/UpcomingTasks.tsx:38-104 | The mood ordering is a permutation of the input |
| Upcoming.SortByMoodOpenFirst | Daily-Tasks-Dashboard/src/components/UpcomingTasks.tsx:42-109 | The first active-count entries are exactly the incomplete tasks; after them come the completed tasks in input order |
| Upcoming.SortByMoodSortedStable | Daily-Tasks-Dashboard/src/components/UpcomingTasks.tsx:46-100 | The incomplete part is sorted by the mood key, and tasks with equal keys keep their input order |
| Upcoming.ActiveCount | Daily-Tasks-Dashboard/src/components/UpcomingTasks.tsx:109 | The active count is at most the number of tasks; it is 0 exactly when every task is completed and the full count exactly when none is |
| DailySchedule.TaskIdOf | Daily-Tasks-Dashboard/src/components/DailySchedule.tsx:26-28 | The recovered task id has no '-', is a prefix of the entry id, and is either the whole id or followed by '-' |
| DailySchedule.TaskIdOfComposite | Daily-Tasks-Dashboard/src/components/DailySchedule.tsx:26-28 | An id `<t>-<suffix>` with no '-' in t gives back t |
| DailySchedule.TaskIdOfStandaloneEntry | Daily-Tasks-Dashboard/src/components/DailySchedule.tsx:26-28 | Every `standalone-<id>` entry is attributed to the task id "standalone" |
| DailySchedule.IsHighlightedAsWritten | Daily-Tasks-Dashboard/src/components/DailySchedule.tsx:30-33 | The check as written is false when nothing (or the empty id) is hovered, and can only be true for a hovered id without '-' |
| DailySchedule.AsWrittenMissesDialogSubtask | Daily-Tasks-Dashboard/src/components/DailySchedule.tsx:30-33 | Hovering a dialog-created task `task-<stamp>` does not highlight its subtask `task-<stamp>-<later>` as written, but does under the corrected check |
| DailySchedule.IsHighlighted | Daily-Tasks-Dashboard/src/components/DailySchedule.tsx:25-33 | Corrected check: false when nothing is hovered; when true, the entry id is the hovered id followed by '-' |
| DailySchedule.HighlightsOwnEntry | Daily-Tasks-Dashboard/src/components/DailySchedule.tsx:25-33 | Hovering a task highlights every entry whose id is the task's id, '-', and any suffix |
| DailySchedule.HighlightedIsOwnEntry | Daily-Tasks-Dashboard/src/components/DailySchedule.tsx:25-33 | Conversely, a highlighted entry's id is the hovered id, '-', and a suffix |
| DailySchedule.CorrectionAgreesOnPlainIds | Daily-Tasks-Dashboard/src/components/DailySchedule.tsx:30-33 | For a hovered id without '-' the corrected and written checks agree on every entry whose id differs from the hovered id |
| DailySchedule.StandaloneEntryNotHighlighted | Daily-Tasks-Dashboard/src/App.tsx:194 | The corrected test does not highlight a standalone task's own `standalone-<id>` entry when the task is hovered (for ids not beginning with "standalone") |
| DailySchedule.ImportedSubtaskNotHighlighted | Daily-Tasks-Dashboard/server/calendarRoutes.js:95-106 | The corrected test does not highlight an imported task's subtask `<idBase>-0` when the task `gcal-<idBase>` is hovered |
| DailySchedule.CompareEntriesIsKeyOrder | Daily-Tasks-Dashboard/src/components/DailySchedule.tsx:36-53 | The three-step comparator is non-positive exactly when (completed, not highlighted, time text) is in lexicographic order |
| DailySchedule.ScheduleCompareIsKeyOrder | Daily-Tasks-Dashboard/src/components/DailySchedule.tsx:36-53 | The same agreement on entries, for any hovered id and under either highlight test, the written one included |
| DailySchedule.SortedSubtasksOrder | Daily-Tasks-Dashboard/src/components/DailySchedule.tsx:36-53 | Under either highlight test the listing is a permutation, sorted by the key; no open entry follows a completed one; within equal completion no highlighted entry follows a plain one |
| DailySchedule.SortedSubtasksStable | Daily-Tasks-Dashboard/src/components/DailySchedule.tsx:36-53 | Under either highlight test, entries with equal keys keep their input order |
| DailySchedule.ListingMissesHoveredSubtask | Daily-Tasks-Dashboard/src/components/DailySchedule.tsx:30-53 | Hovering `task-<stamp>` with an open entry listed earlier in time and the open subtask `task-<stamp>-<later>`: the component keeps time order, while the corrected listing puts the hovered task's subtask first |
| DailySchedule.ListingAsWritten | Daily-Tasks-Dashboard/src/components/DailySchedule.tsx:30-53 | While a hovered id containing '-' is hovered, the component lists two open entries by time alone |
| DailySchedule.ListingCorrected | Daily-Tasks-Dashboard/src/components/DailySchedule.tsx:36-53 | Under the corrected test a highlighted open entry is listed before an unhighlighted open one |
| DailySchedule.PeriodOfClockText | Daily-Tasks-Dashboard/src/components/DailySchedule.tsx:57-66 | An `HH:MM` entry is Morning before 12, Afternoon before 17, Evening otherwise |
| DailySchedule.AddToGroupsLookup | Daily-Tasks-Dashboard/src/components/DailySchedule.tsx:68-72 | Pushing an entry into a period's group adds it at the end of that period's list and changes no other period's list |
| DailySchedule.AddToGroupsWellFormed | Daily-Tasks-Dashboard/src/components/DailySchedule.tsx:68-72 | Pushing keeps each period present at most once and no group empty |
| DailySchedule.GroupBySpec | Daily-Tasks-Dashboard/src/components/DailySchedule.tsx:56-73 | For any classifier, each period's group is the in-order filter of the input by that period |
| DailySchedule.PeriodSizes | Daily-Tasks-Dashboard/src/components/DailySchedule.tsx:60-66 | The three periods' filters together have as many entries as the input: each entry lands in exactly one period |
| DailySchedule.GroupByPeriodSpec | Daily-Tasks-Dashboard/src/components/DailySchedule.tsx:56-73 | The grouping by hour is well formed. Each period's group is the input's entries of that period, in order. A period has a group exactly when some entry falls in it. The group sizes sum to the input's length |
| DailySchedule.BannerIff | Daily-Tasks-Dashboard/src/components/DailySchedule.tsx:75-76 | The completed count is at most the total; the banner shows exactly when there are entries and all are completed |
| Clock.ClockTextPieces | Daily-Tasks-Dashboard/server/calendarRoutes.js:89-91 | A zero-padded `HH:MM` text splits at ':' into the two padded fields |
| Clock.HourOfClockText | Daily-Tasks-Dashboard/src/components/DailySchedule.tsx:57 | The hour read back from a padded `HH:MM` text is the hour it was built from |
| Clock.TwelveHourClock | Daily-Tasks-Dashboard/src/components/DailySchedule.tsx:82-83 | On 0..23 the shown hour is in 1..12 and, with AM/PM, determines the hour |
| Clock.FormatTime | Daily-Tasks-Dashboard/src/components/DailySchedule.tsx:79-85 | Every time text ends in " AM" or " PM", and in " PM" exactly when the text before the first ':' reads as a number of 12 or more |
| Clock.FormatTimeOfDigits | Daily-Tasks-Dashboard/src/components/DailySchedule.tsx:79-85 | For a digit hour field the text is the 12-hour hour, ':', the minutes copied verbatim, and PM exactly for hours of 12 or more |
| Clock.FormatTimeOfClockText | Daily-Tasks-Dashboard/src/components/MonthCalendar.tsx:136-142 | The same for a padded `HH:MM` built from an hour and a minute |
| Dates.AddDays | Daily-Tasks-Dashboard/src/components/MonthCalendar.tsx:55-56 | Moving n days gives a valid date whose day number is n more |
| Dates.AddDaysInverse | Daily-Tasks-Dashboard/src/components/MonthCalendar.tsx:51-77 | Moving n days and back returns the date; next and previous day undo each other |
| Dates.IsoRoundTrip | Daily-Tasks-Dashboard/src/components/MonthCalendar.tsx:30 | For years 0..9999 a text reads as a date exactly when it is that date's `YYYY-MM-DD` text |
| CalendarNav.Initial | Daily-Tasks-Dashboard/src/components/MonthCalendar.tsx:14-16 | The calendar starts in month view on 2025-11-09 for both dates |
| CalendarNav.NextMonthStart | Daily-Tasks-Dashboard/src/components/MonthCalendar.tsx:65-67 | The next month's 1st is a valid 1st exactly the month's length after this month's 1st, across the year end |
| CalendarNav.PrevMonthStart | Daily-Tasks-Dashboard/src/components/MonthCalendar.tsx:51-53 | The previous month's 1st is a valid 1st whose month's length brings it to this month's 1st |
| CalendarNav.MonthStepsInverse | Daily-Tasks-Dashboard/src/components/MonthCalendar.tsx:51-77 | Stepping a month back then forward, or forward then back, returns to the same 1st |
| CalendarNav.MonthOf | Daily-Tasks-Dashboard/src/components/MonthCalendar.tsx:18-27 | The month's length is that of its last valid day (the next is invalid and follows into the next month's 1st), and the starting weekday is the weekday of the 1st |
| CalendarNav.MonthLength | Daily-Tasks-Dashboard/src/components/MonthCalendar.tsx:18-27 | A month has 28 to 31 days, and 29 exactly for February of a leap year |
| CalendarNav.WeekdayInMonth | Daily-Tasks-Dashboard/src/components/MonthCalendar.tsx:18-27 | A day's weekday is the starting weekday plus day - 1, modulo 7 |
| CalendarNav.MonthGrid | Daily-Tasks-Dashboard/src/components/MonthCalendar.tsx:152-158 | The grid is `startingDayOfWeek` blanks followed by the days 1..daysInMonth |
| CalendarNav.GridColumns | Daily-Tasks-Dashboard/src/components/MonthCalendar.tsx:144-158 | Every day cell sits in the column of its weekday, and each day appears once |
| CalendarNav.StartOfWeek | Daily-Tasks-Dashboard/src/components/MonthCalendar.tsx:107-110 | The week starts on the Sunday on or before the date, that many days earlier |
| CalendarNav.WeekDays | Daily-Tasks-Dashboard/src/components/MonthCalendar.tsx:107-117 | The week is 7 consecutive valid days from that Sunday, the i-th on weekday i |
| CalendarNav.SelectedInWeek | Daily-Tasks-Dashboard/src/components/MonthCalendar.tsx:107-117 | The selected date is the week's entry at its own weekday |
| CalendarNav.StartOfLaterWeek | Daily-Tasks-Dashboard/src/components/MonthCalendar.tsx:68-71 | Moving the selected date by a multiple of 7 days moves the week's Sunday by the same amount |
| CalendarNav.LaterWeekWindow | Daily-Tasks-Dashboard/src/components/MonthCalendar.tsx:107-117 | After such a move each day of the shown week is the old one moved by the same amount |
| CalendarNav.GoToPrevious | Daily-Tasks-Dashboard/src/components/MonthCalendar.tsx:51-63 | Month view moves to the previous month's 1st. Week view moves the selected date 7 days back and day view 1 day back. Everything else is unchanged |
| CalendarNav.GoToNext | Daily-Tasks-Dashboard/src/components/MonthCalendar.tsx:65-77 | Month view moves to the next month's 1st. Week view moves the selected date 7 days on and day view 1 day on. Everything else is unchanged |
| CalendarNav.PreviousNextInverse | Daily-Tasks-Dashboard/src/components/MonthCalendar.tsx:51-77 | In week and day view previous then next (or next then previous) is the identity; in month view it lands on the 1st of the starting month |
| CalendarNav.HandleDateClick | Daily-Tasks-Dashboard/src/components/MonthCalendar.tsx:119-129 | Month view goes to week view and week view goes to day view, both selecting the date; day view changes nothing |
| CalendarNav.TwoClicksReachDay | Daily-Tasks-Dashboard/src/components/MonthCalendar.tsx:119-129 | Any two clicks end in day view; from month view the second click's date is selected |
| CalendarNav.HandleWeekClick | Daily-Tasks-Dashboard/src/components/MonthCalendar.tsx:131-134 | The week button selects the date and switches to week view |
| CalendarNav.PressViewButton | Daily-Tasks-Dashboard/src/components/MonthCalendar.tsx:410-432 | A view button changes only the view mode |
| CalendarDay.TasksForDate | Daily-Tasks-Dashboard/src/components/MonthCalendar.tsx:29-32 | A task is listed exactly when it is in the input and its due date is the date's `YYYY-MM-DD` text |
| CalendarDay.TasksForDateByParsing | Daily-Tasks-Dashboard/src/components/MonthCalendar.tsx:29-32 | For years 0..9999, a task is listed for a date exactly when its due date reads as that date |
| CalendarDay.TasksForDistinctDates | Daily-Tasks-Dashboard/src/components/MonthCalendar.tsx:29-32 | No task is listed under two different dates |
| CalendarDay.PreviewOf | Daily-Tasks-Dashboard/src/components/MonthCalendar.tsx:174-187 | A preview shows the first min(limit, n) items and reports n - limit more exactly when n exceeds the limit |
| CalendarDay.MonthCell | Daily-Tasks-Dashboard/src/components/MonthCalendar.tsx:174-187 | A month cell shows at most 3 of the day's tasks and "+N more" with N = count - 3 exactly when the count exceeds 3 |
| CalendarDay.WeekCardSubtasks | Daily-Tasks-Dashboard/src/components/MonthCalendar.tsx:239-247 | A week card shows the first min(2, count) subtasks, no fewer, and "+N more" with N = count - 2 exactly when there are more than 2 |
| CalendarDay.SubtaskProgress | Daily-Tasks-Dashboard/src/components/MonthCalendar.tsx:226-227 | Done is at most total, done plus the open subtasks is exactly total, and done equals total exactly when all subtasks are done |
| CalendarDay.DaySubtasksContents | Daily-Tasks-Dashboard/src/components/MonthCalendar.tsx:272-277 | The day's entries are every subtask of the day's tasks, relabelled with its task's title, and nothing else |
| CalendarDay.DayEntries | Daily-Tasks-Dashboard/src/components/MonthCalendar.tsx:272-278 | The day view's list is a permutation of those entries in time-text order |
| CalendarDay.DayEntriesStable | Daily-Tasks-Dashboard/src/components/MonthCalendar.tsx:278 | Entries with the same time text keep their order |
| CalendarDay.HourKeyInjective | Daily-Tasks-Dashboard/src/components/MonthCalendar.tsx:283-284 | Different hours (or NaN) give different slot keys |
| CalendarDay.GroupByKeySpec | Daily-Tasks-Dashboard/src/components/MonthCalendar.tsx:281-289 | Each key's bucket is the in-order filter of the entries with that key, and a key is present exactly when its bucket is non-empty |
| CalendarDay.SlotsBy | Daily-Tasks-Dashboard/src/components/MonthCalendar.tsx:292-307 | There are 13 slots, one per hour 8..20; what each holds is stated by `CalendarDay.SlotContentsBy` |
| CalendarDay.SlotContentsBy | Daily-Tasks-Dashboard/src/components/MonthCalendar.tsx:305-307 | Slot i holds, in order, the entries whose hour is 8 + i |
| CalendarDay.ShownWhenInRange | Daily-Tasks-Dashboard/src/components/MonthCalendar.tsx:292-307 | An entry with an hour in 8..20 appears in that hour's slot |
| CalendarDay.InRangeWhenShown | Daily-Tasks-Dashboard/src/components/MonthCalendar.tsx:292-307 | An entry in slot i has hour 8 + i |
| CalendarDay.ShownBy | Daily-Tasks-Dashboard/src/components/MonthCalendar.tsx:292-307 | An entry is shown in some slot exactly when its hour is in 8..20 |
| CalendarDay.DayTimeline | Daily-Tasks-Dashboard/src/components/MonthCalendar.tsx:292-307 | The day view has 13 slots, one per hour 8..20; what each holds is stated by `CalendarDay.SlotContents` |
| CalendarDay.SlotContents | Daily-Tasks-Dashboard/src/components/MonthCalendar.tsx:305-307 | The day view's slot i holds the entries whose time text reads as hour 8 + i |
| CalendarDay.ShownInTimeline | Daily-Tasks-Dashboard/src/components/MonthCalendar.tsx:280-307 | A day entry is rendered exactly when its hour reads as a number in 8..20; the rest are not shown |
| CalendarDay.SlotLabel | Daily-Tasks-Dashboard/src/components/MonthCalendar.tsx:312 | Each slot's label is its 12-hour hour, ":00", and AM or PM |
| AddTaskDialog.Submit | Daily-Tasks-Dashboard/src/components/AddTaskDialog.tsx:25-53 | A whitespace-only title emits nothing and leaves the form. Otherwise the task has id `task-<now>`, the trimmed title, no subtasks and is open. Time and effort are present exactly for a standalone task. The repeat is absent exactly for "none". The form resets to its defaults and closes |
| AddTaskDialog.SubmittedTaskInTimeline | Daily-Tasks-Dashboard/src/components/AddTaskDialog.tsx:37-39 | A submitted task gets a timeline entry exactly when it is standalone with a non-empty time |
| AddTaskDialog.SubmittedTaskListed | Daily-Tasks-Dashboard/src/components/AddTaskDialog.tsx:30-43 | The task's flag follows its (empty) subtasks, and once added it is listed after the open tasks and before the completed ones |
| AddTaskDialog.ResetFormRefuses | Daily-Tasks-Dashboard/src/components/AddTaskDialog.tsx:46-53 | After a successful submit the reset form is refused until a title is typed |
| AddSubtaskDialog.FindByTitle | Daily-Tasks-Dashboard/src/components/AddSubtaskDialog.tsx:32 | A task is found exactly when some task has the title, and it is the first such task |
| AddSubtaskDialog.Submit | Daily-Tasks-Dashboard/src/components/AddSubtaskDialog.tsx:27-51 | Nothing is emitted, and the form stays, exactly when the title is blank, no parent is chosen or no task has the parent title. Otherwise the subtask has id `<parent id>-<now>`, the trimmed title, is open and copies parent title, time and effort; the form resets and closes |
| AddSubtaskDialog.EmittedSubtaskAttached | Daily-Tasks-Dashboard/src/App.tsx:165-178 | With the dialog given the completion-sorted list (App.tsx:224) and the store mapping over the stored list, an emitted subtask is never dropped: the parent the dialog found sits in the stored list and gets the subtask appended |
| AddSubtaskDialog.EmittedSubtaskHighlighted | Daily-Tasks-Dashboard/src/components/AddSubtaskDialog.tsx:35-36 | Hovering the parent highlights the emitted subtask under the corrected check, whatever the parent's id |
| CalendarImport.EffortByMinutes | Daily-Tasks-Dashboard/server/calendarRoutes.js:83-86 | In whole minutes, 30 or fewer give low and 120 or more give high, and a longer event never gets a lighter effort |
| CalendarImport.DueDateOf | Daily-Tasks-Dashboard/server/calendarRoutes.js:80 | The due date is the first 10 characters of the start text, or all of a shorter one |
| CalendarImport.EventToTask | Daily-Tasks-Dashboard/server/calendarRoutes.js:71-114 | The task has id `gcal-<idBase>` and the summary or "(No title)" as title. It is open, medium priority, standalone and without repeat. It has exactly one open subtask `<idBase>-0` with the task's title, time and effort |
| CalendarImport.ImportEvents | Daily-Tasks-Dashboard/server/calendarRoutes.js:71-115 | One task per event, in event order |
| CalendarImport.ImportedTasksInTimeline | Daily-Tasks-Dashboard/server/calendarRoutes.js:94-113 | Every imported task gets a timeline entry, and its flag follows its one open subtask |
| CalendarImport.ImportedHour | Daily-Tasks-Dashboard/server/calendarRoutes.js:89-91 | The imported time reads back as the event's local start hour |
| CalendarImport.FallbackBasesDistinct | Daily-Tasks-Dashboard/server/calendarRoutes.js:72 | Different positions give different fallback id bases |
| CalendarImport.ImportedIdsDistinct | Daily-Tasks-Dashboard/server/calendarRoutes.js:72-106 | Events without ids get pairwise different task ids and subtask ids |
| MoodTracker.FindIndex | Daily-Tasks-Dashboard/src/components/MoodTracker.tsx:24 | The result is -1 when no entry has the key, else the first position with the key |
| MoodTracker.SelectMood | Daily-Tasks-Dashboard/src/components/MoodTracker.tsx:22-36 | An existing key has its first entry replaced in place and the length kept, with every other entry unchanged. A new key is appended after the unchanged list. The parent is told the same choice on both paths |
| MoodTracker.SelectMoodRecorded | Daily-Tasks-Dashboard/src/components/MoodTracker.tsx:24-31 | Afterwards today's first entry holds the chosen mood |
| MoodTracker.SelectMoodTwice | Daily-Tasks-Dashboard/src/components/MoodTracker.tsx:24-31 | A second choice on the same day overwrites the first: same length, same result as choosing only the second |
| MoodTracker.AverageMood | Daily-Tasks-Dashboard/src/components/MoodTracker.tsx:38-40 | No data exactly for an empty list; otherwise the sum of the moods over the count |
| MoodTracker.SelectMoodAverage | Daily-Tasks-Dashboard/src/components/MoodTracker.tsx:22-40 | Replacing shifts the sum by the score difference over the same count; appending adds the score and one to the count |
| TextRephrase.FriendlyText | Daily-Tasks-Dashboard/src/components/TextRephrase.tsx:24 | Greeting, the input with every '.' turned into '!', closing line; the result contains no '.' |
| TextRephrase.FriendlyKeepsOtherText | Daily-Tasks-Dashboard/src/components/TextRephrase.tsx:24 | Without full stops the input appears verbatim between greeting and closing |
| TextRephrase.ProfessionalText | Daily-Tasks-Dashboard/src/components/TextRephrase.tsx:26 | The input verbatim between the salutation and the sign-off, recoverable from its position |
| TextRephrase.ProfessionalInjective | Daily-Tasks-Dashboard/src/components/TextRephrase.tsx:26 | Different inputs never give the same letter |
| TextRephrase.KeptWords | Daily-Tasks-Dashboard/src/components/TextRephrase.tsx:28-29 | The summary keeps the first min(15, n) space-separated words |
| TextRephrase.SummaryText | Daily-Tasks-Dashboard/src/components/TextRephrase.tsx:28-29 | The summary ends in "...", the text before it is a prefix of the input, and it splits back into exactly the kept words |
| TextRephrase.ShortTextSummary | Daily-Tasks-Dashboard/src/components/TextRephrase.tsx:28-29 | With at most 15 words the summary is the input followed by "..." |
| TextRephrase.Rephrase | Daily-Tasks-Dashboard/src/components/TextRephrase.tsx:17-33 | A whitespace-only input leaves the panel unchanged; otherwise the output is the chosen rewrite and the input is kept |
| TextRephrase.LastStyleWins | Daily-Tasks-Dashboard/src/components/TextRephrase.tsx:17-33 | The last style pressed alone decides the output |
| PlutoAssistant.Branch | Daily-Tasks-Dashboard/src/components/PlutoAssistant.tsx:32-46 | One of the six branches always answers |
| PlutoAssistant.Reply | Daily-Tasks-Dashboard/src/components/PlutoAssistant.tsx:32-46 | The reply is one of the six branch texts, never the initial "Woof!" default |
| PlutoAssistant.GroupsSpelledOut | Daily-Tasks-Dashboard/src/components/PlutoAssistant.tsx:34-42 | Each keyword group's test is the disjunction of substring tests the handler writes |
| PlutoAssistant.ReplyIsFirstMatch | Daily-Tasks-Dashboard/src/components/PlutoAssistant.tsx:34-46 | Group k (hello/hi, task/work, tired/stressed, help, good/great/happy) answers exactly when the lower-cased message mentions a word of group k and of no earlier group |
| PlutoAssistant.ReplyFallback | Daily-Tasks-Dashboard/src/components/PlutoAssistant.tsx:44-46 | The fallback answers exactly when no keyword is mentioned |
| PlutoAssistant.SubstringGreets | Daily-Tasks-Dashboard/src/components/PlutoAssistant.tsx:34 | "this task" is greeted, because "hi" occurs inside "this", although it also mentions a task |
| PlutoAssistant.SendMessage | Daily-Tasks-Dashboard/src/components/PlutoAssistant.tsx:23-49 | A blank message changes nothing; otherwise the message as typed is appended as the user's line, the box is cleared, and the reply follows |
| PlutoAssistant.AppendKeepsAnswered | Daily-Tasks-Dashboard/src/components/PlutoAssistant.tsx:27-48 | Appending a user line and its answer keeps every user line paired with its answer |
| PlutoAssistant.SendKeepsAnswered | Daily-Tasks-Dashboard/src/components/PlutoAssistant.tsx:23-49 | Sending keeps the conversation a run of user lines each followed by Pluto's reply to it |
| SimpleTasks.AddTask | src/hooks/useTasks.ts:30-33 | The new open task with the given title and id is appended after the unchanged list |
| SimpleTasks.ToggleCompletion | src/hooks/useTasks.ts:35-41 | Exactly the tasks with the id have their flag flipped; ids and titles never change |
| SimpleTasks.ToggleTwice | src/hooks/useTasks.ts:35-41 | Toggling the same id twice restores the list |
| SimpleTasks.ToggleUnknown | src/hooks/useTasks.ts:37-39 | An id no task has leaves the list unchanged |
| SimpleTasks.TogglesCommute | src/hooks/useTasks.ts:35-41 | Toggles of two ids can be applied in either order |
| SimpleTasks.ToggleAdded | src/hooks/useTasks.ts:30-41 | Toggling a freshly added task's (fresh) id completes it and touches nothing else |

## Left out

- Network, storage and server plumbing: the task fetch effect in `src/hooks/useTasks.ts`, the OAuth client, the token store, the Express bootstrap, and the route handlers around the event mapping. These are I/O and foreign library calls.
- Rendering: JSX, the colour helpers, the mood message, `RightSidebar`, the "is today" styling and the month name. These are presentation only.
- The unused `getSubtasksForDate` helper in `MonthCalendar.tsx`. Nothing calls it.
- Mood wiring between the tracker and the app. The tracker's callback takes a number first while the app passes its mood setter; the ordering is modelled over the app's three moods.
- Time: `Date.now()` ids, the tracker's weekday name and the event's local start time are parameters. `setTimeout` delays are not modelled. The clipboard copy is not modelled.
- PlutoAssistant.SendMessage: the reply is appended at once, while the component appends it 800 ms later (PlutoAssistant.tsx:31-49). The model is exact only when each reply lands before the next send.
- PlutoAssistant.SendKeepsAnswered: the pairing of each user line with its reply holds only when each reply lands before the next send. Two sends within 800 ms leave the conversation as user 1, user 2, reply 1, reply 2.
- Time zone: every date is read as if the local zone were UTC. `new Date('2025-11-09')` (MonthCalendar.tsx:14-16) is UTC midnight, so west of UTC the starting dates are 8 November in local time, the first week shown is 2-8 November, and the local `getDate`/`setDate` arithmetic then runs on the previous civil day. The two lines below say where this matters in the day view and the due-date label.
- CalendarDay.TasksForDate: `toISOString` shifts a local midnight to UTC and can name the previous day. The model uses the date's own `YYYY-MM-DD` text.
- Upcoming.FormatDueDateFrom: the due date and the reference days are all UTC midnights, so "Today", "Tomorrow" and "In N days" come out the same in every zone. Only the fallback month and day text, written by the local-zone `toLocaleDateString` (UpcomingTasks.tsx:154), names the previous day west of UTC; the model gives the due date's own month and day. Only `YYYY-MM-DD` due dates are read.
- CalendarNav.NextMonthStart: `new Date(year, month + 1, 1)` (MonthCalendar.tsx:67) reads a year from 0 to 99 as 1900 plus that year, so a step out of a two-digit year jumps into the 1900s. The model keeps the year as given.
- CalendarNav.PrevMonthStart: the same for `new Date(year, month - 1, 1)` (MonthCalendar.tsx:53): going back from December of year 99 gives 1 November 1999 there, and 1 November of year 99 in the model.
- Upcoming.DaysUntilDue: an unreadable due date makes the comparator return NaN, whose effect on the sort is implementation-defined. The model counts such a task as due on the reference day.
- Ordering.CompareText: `localeCompare` is modelled as code-point order. Locale collation rules are not modelled.
- Strings.ToLower: only ASCII letters are folded. Unicode case mapping is not modelled.
- Strings.ParseInt: the `0x` hexadecimal prefix is not recognised.
- CalendarImport.EffortOfDuration: the duration is integer milliseconds rather than a floating-point hour count. The two agree at the 0.5-hour and 2-hour thresholds because both are exact in binary. Parsing the start and end texts is not modelled: they arrive as millisecond values or None.
- MoodTracker.AverageMood: the average is kept as sum and count. `toFixed(1)` rounding is floating point and is not modelled.
- Floating point elsewhere: the schedule's progress percentage is not modelled.
- Dates.IsoRoundTrip: years outside 0..9999 would need a sign and six digits in ISO text; the round-trip lemmas are stated for four-digit years.
- DailySchedule.GroupByPeriodSpec: the order in which the three period groups are rendered comes from object key insertion. Only the lookup by period is modelled.

## Findings

| source | as written | input that shows it | evidently intended | confidence | as-written member | corrected member |
|---|---|---|---|---|---|---|
| Daily-Tasks-Dashboard/src/components/DailySchedule.tsx:26-33 | The owning task is recovered as the text before the first '-' of the entry id, and compared with the hovered task id | Hovering a task made by the Add Task dialog, id `task-<stamp>`, with a subtask from the Add Scheduled Task dialog, id `task-<stamp>-<later>`: the recovered id is `task`, so the subtask is never highlighted | Highlight an entry when its id is the hovered task's id followed by '-', as the comment "check if a subtask belongs to the hovered task" says | not executed | DailySchedule.AsWrittenMissesDialogSubtask | DailySchedule.IsHighlighted |

The component's listing (`DailySchedule.SortedSubtasks` with `AsWritten`) is modelled as written;
`DailySchedule.ListingMissesHoveredSubtask` shows two entries it keeps in time order although
the corrected listing (`Corrected`) puts the hovered task's subtask first.
`DailySchedule.HighlightsOwnEntry` and `DailySchedule.HighlightedIsOwnEntry` prove that the
corrected check highlights exactly the entries whose id is the hovered task id followed by '-'.
Two kinds of a task's own entries are not of that form and stay unhighlighted: a standalone
task's `standalone-<id>` timeline entry (`DailySchedule.StandaloneEntryNotHighlighted`) and an
imported task's subtask `<idBase>-0` under the task id `gcal-<idBase>`
(`DailySchedule.ImportedSubtaskNotHighlighted`).
`DailySchedule.CorrectionAgreesOnPlainIds` shows it agrees with the written check on the bundled data's plain ids.

/**
 * The calendar's date arithmetic and navigation: the facts it reads off a
 * month, the month grid, the Sunday-anchored week, the previous/next buttons
 * in each view, and the month → week → day drill-down.
 */
module CalendarNav {
  import opened Dates

  /** `ViewMode`: 'month' | 'week' | 'day'. */
  datatype ViewMode = MonthMode | WeekMode | DayMode

  /**
   * The calendar's state: the date whose month the month view shows, the view,
   * and the date the week and day views are about.
   */
  datatype Calendar = Calendar(currentDate: Date, viewMode: ViewMode, selectedDate: Date)

  predicate ValidCalendar(c: Calendar) {
    Valid(c.currentDate) && Valid(c.selectedDate)
  }

  /** The date the calendar opens on, and the one it marks as today. */
  const Today := Date(2025, 11, 9)

  /** The calendar as it opens: the month view of the November 2025 reference day. */
  function Initial(): (c: Calendar)
    ensures ValidCalendar(c) && c.viewMode == MonthMode
    ensures c.currentDate == c.selectedDate == Today
  {
    Calendar(Today, MonthMode, Today)
  }

  // ---------------------------------------------------------------------
  // Month facts and the month grid
  // ---------------------------------------------------------------------

  /** What `getDaysInMonth` returns; `month` is 1..12 here. */
  datatype MonthInfo = MonthInfo(daysInMonth: int, startingDayOfWeek: int, year: int, month: int)

  function FirstOfMonth(y: int, m: int): Date {
    Date(y, m, 1)
  }

  /** `new Date(year, month + 1, 1)`: the first of the following month, December rolling into January. */
  function NextMonthStart(y: int, m: int): (r: Date)
    requires 1 <= m <= 12
    ensures Valid(r) && r.day == 1
    ensures DayNumber(r) == DayNumber(FirstOfMonth(y, m)) + DaysInMonth(y, m)
  {
    if m < 12 then Date(y, m + 1, 1)
    else
      YearStep(y);
      YearLengthIsMonthTotal(y);
      Date(y + 1, 1, 1)
  }

  /** `new Date(year, month - 1, 1)`: the first of the preceding month, January rolling back to December. */
  function PrevMonthStart(y: int, m: int): (r: Date)
    requires 1 <= m <= 12
    ensures Valid(r) && r.day == 1
    ensures DayNumber(r) + DaysInMonth(r.year, r.month) == DayNumber(FirstOfMonth(y, m))
  {
    if m > 1 then Date(y, m - 1, 1)
    else
      YearStep(y - 1);
      YearLengthIsMonthTotal(y - 1);
      Date(y - 1, 12, 1)
  }

  /** Stepping a month back and then forward, or forward and then back, returns to the same first. */
  lemma MonthStepsInverse(y: int, m: int)
    requires 1 <= m <= 12
    ensures NextMonthStart(PrevMonthStart(y, m).year, PrevMonthStart(y, m).month) == FirstOfMonth(y, m)
    ensures PrevMonthStart(NextMonthStart(y, m).year, NextMonthStart(y, m).month) == FirstOfMonth(y, m)
  {
  }

  /**
   * `getDaysInMonth`: the number of days of the date's month (the day before
   * the first of the next month is its last) and the weekday of its first.
   */
  function MonthOf(date: Date): (r: MonthInfo)
    requires Valid(date)
    ensures r.year == date.year && r.month == date.month && 1 <= date.day <= r.daysInMonth
    ensures Valid(FirstOfMonth(r.year, r.month)) && r.startingDayOfWeek == Weekday(FirstOfMonth(r.year, r.month))
    ensures Valid(Date(r.year, r.month, r.daysInMonth)) && !Valid(Date(r.year, r.month, r.daysInMonth + 1))
    ensures NextDay(Date(r.year, r.month, r.daysInMonth)) == NextMonthStart(r.year, r.month)
  {
    MonthInfo(DaysInMonth(date.year, date.month), Weekday(FirstOfMonth(date.year, date.month)), date.year, date.month)
  }

  /** A month has 28 to 31 days, and 29 only as a leap-year February. */
  lemma MonthLength(date: Date)
    requires Valid(date)
    ensures 28 <= MonthOf(date).daysInMonth <= 31
    ensures MonthOf(date).daysInMonth == 29 <==> date.month == 2 && IsLeapYear(date.year)
  {
  }

  /** Days of a month fall on consecutive weekdays counted from the weekday of the first. */
  lemma WeekdayInMonth(date: Date)
    requires Valid(date)
    ensures Weekday(date) == (MonthOf(date).startingDayOfWeek + date.day - 1) % 7
  {
    var first := FirstOfMonth(date.year, date.month);
    assert DayNumber(date) == DayNumber(first) + date.day - 1;
    WeekdayShift(first, date);
  }

  /** A square of the month grid: a leading blank or a day of the month. */
  datatype Cell = Blank | DayCell(day: int)

  /** The month view: one blank per weekday before the first, then the days 1 .. daysInMonth. */
  function MonthGrid(info: MonthInfo): (r: seq<Cell>)
    requires 0 <= info.startingDayOfWeek && 0 <= info.daysInMonth
    ensures |r| == info.startingDayOfWeek + info.daysInMonth
    ensures forall i :: 0 <= i < |r| ==> (r[i].Blank? <==> i < info.startingDayOfWeek)
    ensures forall d :: 1 <= d <= info.daysInMonth ==> r[info.startingDayOfWeek + d - 1] == DayCell(d)
  {
    seq(info.startingDayOfWeek, _ => Blank) + seq(info.daysInMonth, i => DayCell(i + 1))
  }

  /**
   * In the grid of a date's month every day of that month appears once, and
   * under the column of its own weekday (seven columns, Sunday first).
   */
  lemma GridColumns(date: Date, i: int)
    requires Valid(date)
    requires 0 <= i < |MonthGrid(MonthOf(date))|
    ensures var g := MonthGrid(MonthOf(date));
      g[i].DayCell? ==>
        Valid(Date(date.year, date.month, g[i].day))
        && Weekday(Date(date.year, date.month, g[i].day)) == i % 7
    ensures var g := MonthGrid(MonthOf(date));
      forall k :: 0 <= k < |g| && g[k].DayCell? && g[k] == g[i] ==> k == i
  {
    var info := MonthOf(date);
    var g := MonthGrid(info);
    if g[i].DayCell? {
      var d := Date(date.year, date.month, g[i].day);
      assert g[i].day == i - info.startingDayOfWeek + 1;
      WeekdayInMonth(d);
    }
  }

  // ---------------------------------------------------------------------
  // The week window
  // ---------------------------------------------------------------------

  /** The Sunday on or before `d`. */
  function StartOfWeek(d: Date): (r: Date)
    requires Valid(d)
    ensures Valid(r) && Weekday(r) == 0
    ensures DayNumber(r) == DayNumber(d) - Weekday(d)
  {
    var w := Weekday(d);
    var r := AddDays(d, -w);
    WeekdayShift(d, r);
    ModSevenSmall(w + DayNumber(r) - DayNumber(d), Weekday(r));
    r
  }

  /** `getWeekDays`: the seven days from that Sunday on. */
  function WeekDays(selected: Date): (r: seq<Date>)
    requires Valid(selected)
    ensures |r| == 7 && r[0] == StartOfWeek(selected)
    ensures forall i :: 0 <= i < 7 ==> Valid(r[i])
    ensures forall i :: 0 <= i < 7 ==> DayNumber(r[i]) == DayNumber(r[0]) + i
    ensures forall i :: 0 <= i < 7 ==> Weekday(r[i]) == i
  {
    var start := StartOfWeek(selected);
    var r := seq(7, i requires 0 <= i < 7 => AddDays(start, i));
    WeekdaysFrom(start, r);
    r
  }

  /** The days that follow a Sunday are Monday, Tuesday, ... in turn. */
  lemma WeekdaysFrom(start: Date, r: seq<Date>)
    requires Valid(start) && Weekday(start) == 0 && |r| == 7
    requires forall i :: 0 <= i < 7 ==> Valid(r[i]) && DayNumber(r[i]) == DayNumber(start) + i
    ensures forall i :: 0 <= i < 7 ==> Weekday(r[i]) == i
  {
    forall i | 0 <= i < 7 ensures Weekday(r[i]) == i {
      WeekdayShift(start, r[i]);
      ModSevenSmall(i, Weekday(r[i]));
    }
  }

  /** The selected date is in its week, at the position of its weekday. */
  lemma SelectedInWeek(selected: Date)
    requires Valid(selected)
    ensures WeekDays(selected)[Weekday(selected)] == selected
  {
    var r := WeekDays(selected);
    DayNumberInjective(r[Weekday(selected)], selected);
  }

  /** Whole weeks later, the week starts the same number of days later. */
  lemma StartOfLaterWeek(selected: Date, n: int)
    requires Valid(selected) && n % 7 == 0
    ensures DayNumber(StartOfWeek(AddDays(selected, n))) == DayNumber(StartOfWeek(selected)) + n
  {
    var later := AddDays(selected, n);
    var w := Weekday(selected);
    WeekdayShift(selected, later);
    ModSevenPeriod(w, n, Weekday(later));
  }

  /**
   * Moving the selection by whole weeks (the week view's previous and next
   * move it by seven days) moves the whole window by as many days.
   */
  lemma LaterWeekWindow(selected: Date, n: int, i: int)
    requires Valid(selected) && n % 7 == 0 && 0 <= i < 7
    ensures WeekDays(AddDays(selected, n))[i] == AddDays(WeekDays(selected)[i], n)
  {
    var a := WeekDays(AddDays(selected, n))[i];
    var b := AddDays(WeekDays(selected)[i], n);
    StartOfLaterWeek(selected, n);
    assert DayNumber(a) == DayNumber(StartOfWeek(selected)) + n + i;
    DayNumberInjective(a, b);
  }

  // ---------------------------------------------------------------------
  // Previous / next
  // ---------------------------------------------------------------------

  /**
   * `goToPrevious`: the month view moves to the first of the previous month;
   * the week view moves the selected date back seven days, the day view one.
   */
  function GoToPrevious(c: Calendar): (r: Calendar)
    requires ValidCalendar(c)
    ensures ValidCalendar(r) && r.viewMode == c.viewMode
    ensures c.viewMode == MonthMode ==>
      r.selectedDate == c.selectedDate && r.currentDate.day == 1
      && DayNumber(r.currentDate) + DaysInMonth(r.currentDate.year, r.currentDate.month)
         == DayNumber(FirstOfMonth(c.currentDate.year, c.currentDate.month))
    ensures c.viewMode == WeekMode ==>
      r.currentDate == c.currentDate && DayNumber(r.selectedDate) == DayNumber(c.selectedDate) - 7
    ensures c.viewMode == DayMode ==>
      r.currentDate == c.currentDate && DayNumber(r.selectedDate) == DayNumber(c.selectedDate) - 1
  {
    match c.viewMode
    case MonthMode => c.(currentDate := PrevMonthStart(c.currentDate.year, c.currentDate.month))
    case WeekMode => c.(selectedDate := AddDays(c.selectedDate, -7))
    case DayMode => c.(selectedDate := AddDays(c.selectedDate, -1))
  }

  /** `goToNext`: the mirror image of `GoToPrevious`. */
  function GoToNext(c: Calendar): (r: Calendar)
    requires ValidCalendar(c)
    ensures ValidCalendar(r) && r.viewMode == c.viewMode
    ensures c.viewMode == MonthMode ==>
      r.selectedDate == c.selectedDate && r.currentDate.day == 1
      && DayNumber(r.currentDate)
         == DayNumber(FirstOfMonth(c.currentDate.year, c.currentDate.month))
            + DaysInMonth(c.currentDate.year, c.currentDate.month)
    ensures c.viewMode == WeekMode ==>
      r.currentDate == c.currentDate && DayNumber(r.selectedDate) == DayNumber(c.selectedDate) + 7
    ensures c.viewMode == DayMode ==>
      r.currentDate == c.currentDate && DayNumber(r.selectedDate) == DayNumber(c.selectedDate) + 1
  {
    match c.viewMode
    case MonthMode => c.(currentDate := NextMonthStart(c.currentDate.year, c.currentDate.month))
    case WeekMode => c.(selectedDate := AddDays(c.selectedDate, 7))
    case DayMode => c.(selectedDate := AddDays(c.selectedDate, 1))
  }

  /**
   * In the week and day views previous and next undo each other. In the month
   * view they return to the first of the month shown, whatever day it started on.
   */
  lemma PreviousNextInverse(c: Calendar)
    requires ValidCalendar(c)
    ensures c.viewMode != MonthMode ==> GoToNext(GoToPrevious(c)) == c && GoToPrevious(GoToNext(c)) == c
    ensures c.viewMode == MonthMode ==>
      GoToNext(GoToPrevious(c)) == c.(currentDate := FirstOfMonth(c.currentDate.year, c.currentDate.month))
      && GoToPrevious(GoToNext(c)) == c.(currentDate := FirstOfMonth(c.currentDate.year, c.currentDate.month))
  {
    if c.viewMode != MonthMode {
      DayNumberInjective(GoToNext(GoToPrevious(c)).selectedDate, c.selectedDate);
      DayNumberInjective(GoToPrevious(GoToNext(c)).selectedDate, c.selectedDate);
    } else {
      MonthStepsInverse(c.currentDate.year, c.currentDate.month);
    }
  }

  // ---------------------------------------------------------------------
  // Clicks and view buttons
  // ---------------------------------------------------------------------

  /** How far the view has drilled in: month 0, week 1, day 2. */
  function Depth(m: ViewMode): int {
    match m
    case MonthMode => 0
    case WeekMode => 1
    case DayMode => 2
  }

  /**
   * `handleDateClick`: a click in the month view opens the week of the date, a
   * click in the week view opens the day; in the day view nothing changes.
   */
  function HandleDateClick(c: Calendar, date: Date): (r: Calendar)
    requires ValidCalendar(c) && Valid(date)
    ensures ValidCalendar(r) && r.currentDate == c.currentDate
    ensures c.viewMode == DayMode ==> r == c
    ensures c.viewMode != DayMode ==>
      r.selectedDate == date && Depth(r.viewMode) == Depth(c.viewMode) + 1
  {
    match c.viewMode
    case MonthMode => c.(selectedDate := date, viewMode := WeekMode)
    case WeekMode => c.(selectedDate := date, viewMode := DayMode)
    case DayMode => c
  }

  /** Two clicks from any view reach the day view of the second date clicked. */
  lemma TwoClicksReachDay(c: Calendar, a: Date, b: Date)
    requires ValidCalendar(c) && Valid(a) && Valid(b)
    ensures HandleDateClick(HandleDateClick(c, a), b).viewMode == DayMode
    ensures c.viewMode == MonthMode ==> HandleDateClick(HandleDateClick(c, a), b).selectedDate == b
    ensures c.viewMode == DayMode ==> HandleDateClick(HandleDateClick(c, a), b) == c
  {
  }

  /** `handleWeekClick`: the week view of the given date. */
  function HandleWeekClick(c: Calendar, date: Date): (r: Calendar)
    requires ValidCalendar(c) && Valid(date)
    ensures ValidCalendar(r) && r.viewMode == WeekMode
    ensures r.selectedDate == date && r.currentDate == c.currentDate
  {
    c.(selectedDate := date, viewMode := WeekMode)
  }

  /** The Month, Week and Day buttons: the Week button goes through `handleWeekClick` on the selected date. */
  function PressViewButton(c: Calendar, m: ViewMode): (r: Calendar)
    requires ValidCalendar(c)
    ensures ValidCalendar(r) && r.viewMode == m
    ensures r.currentDate == c.currentDate && r.selectedDate == c.selectedDate
  {
    if m == WeekMode then HandleWeekClick(c, c.selectedDate) else c.(viewMode := m)
  }
}

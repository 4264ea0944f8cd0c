/**
 * The month calendar: the month layout from `getDaysInMonth`, the tasks of a
 * day from `getTasksForDate`, the grid the two loops of the render build, the
 * capped indicator dots, and the handlers that move between months, select a
 * day and add a task for it.
 *
 * The viewed date keeps JavaScript's month index 0..11; the key of a day is
 * the ISO date (year, month index + 1, day).
 */
module Calendar {
  import opened Wrappers
  import opened Dates
  import opened Text
  import opened Tasks

  datatype MonthLayout = MonthLayout(daysInMonth: int, startingDayOfWeek: int)

  /**
   * `getDaysInMonth(date)`: the date of `new Date(year, month + 1, 0)` (day 0
   * of the next month), counted from the 1st of the month, and the weekday of
   * the 1st.
   */
  function GetDaysInMonth(year: int, month: int): (r: MonthLayout)
    requires 0 <= month < 12
    ensures r.daysInMonth == MonthLength(year, month)
    ensures 28 <= r.daysInMonth <= 31
    ensures month == 1 ==> (r.daysInMonth == 29 <==> IsLeapYear(year))
    ensures 0 <= r.startingDayOfWeek < 7
  {
    var firstDay := MakeDay(year, month, 1);
    var lastDay := MakeDay(year, month + 1, 0);
    DayZeroOfNextMonth(year, month);
    MonthLayout(lastDay - firstDay + 1, WeekDay(firstDay))
  }

  /** `new Date(year, month)`: a month index outside 0..11 carries into the year. */
  function MonthStart(year: int, month: int): (int, int) {
    (year + month / 12, month % 12)
  }

  /** The month after ends up as many weekdays later as this month has days. */
  lemma NextMonthStartingDay(year: int, month: int)
    requires 0 <= month < 12
    ensures var (y, m) := MonthStart(year, month + 1);
      GetDaysInMonth(y, m).startingDayOfWeek
        == (GetDaysInMonth(year, month).startingDayOfWeek + GetDaysInMonth(year, month).daysInMonth) % 7
  {
    var (y, m) := MonthStart(year, month + 1);
    var first, len := MakeDay(year, month, 1), MonthLength(year, month);
    MonthStartFirst(year, month);
    assert GetDaysInMonth(y, m).startingDayOfWeek == WeekDay(first + len);
    WeekDayAdvance(first, len);
  }

  /** The month after month index `month` starts MonthLength days after its 1st, whichever year it falls in. */
  lemma MonthStartFirst(year: int, month: int)
    requires 0 <= month < 12
    ensures var (y, m) := MonthStart(year, month + 1);
      0 <= m < 12 && MakeDay(y, m, 1) == MakeDay(year, month, 1) + MonthLength(year, month)
  {
    NextMonthStart(year, month);
    if month == 11 {
      assert MonthStart(year, 12) == (year + 1, 0);
      assert MakeDay(year + 1, 0, 1) == MakeDay(year, 12, 1);
    } else {
      assert MonthStart(year, month + 1) == (year, month + 1);
    }
  }

  lemma WeekDayAdvance(day: int, n: int)
    ensures WeekDay(day + n) == (WeekDay(day) + n) % 7
  {
    var q := (day + 4) / 7;
    assert day + 4 == 7 * q + WeekDay(day);
    assert day + n + 4 == 7 * q + (WeekDay(day) + n);
  }

  /** February has 29 days in 2024 and 28 in 2023; 1 February 2024 is a Thursday. */
  lemma FebruaryExamples()
    ensures GetDaysInMonth(2024, 1).daysInMonth == 29
    ensures GetDaysInMonth(2023, 1).daysInMonth == 28
    ensures GetDaysInMonth(2024, 1).startingDayOfWeek == 4
  {
    assert DayFromYear(2024) == 19723;
    assert MakeDay(2024, 1, 1) == 19754;
  }

  /** `getTasksForDate(date)` */
  function GetTasksForDate(tasks: seq<Task>, date: CalendarDate): (r: seq<Task>)
    ensures |r| <= |tasks|
    ensures forall t :: t in r ==> t.dueDate == Some(date)
  {
    Select(tasks, DueOn(date))
  }

  /**
   * The tasks of a date are exactly those whose due date is that date, in
   * store order; tasks without a due date never appear.
   */
  lemma GetTasksForDateExact(tasks: seq<Task>, date: CalendarDate, t: Task)
    ensures IsExactSelection(GetTasksForDate(tasks, date), tasks, DueOn(date))
    ensures t in GetTasksForDate(tasks, date) <==> t in tasks && t.dueDate == Some(date)
  {
    SelectExact(tasks, DueOn(date));
    SelectMembership(tasks, DueOn(date), t);
  }

  /** The dots under a day number: at most three, then a "+n" label for the rest. */
  datatype Indicators = Indicators(dots: seq<Task>, more: Option<string>)

  function Min(a: int, b: int): int {
    if a < b then a else b
  }

  /** `dayTasks.slice(0, 3)` and `+${dayTasks.length - 3}` when there are more than three. */
  function TaskIndicators(dayTasks: seq<Task>): (ind: Indicators)
    ensures |ind.dots| <= 3 && |ind.dots| <= |dayTasks|
    ensures ind.dots == dayTasks[..|ind.dots|]
    ensures ind.more.Some? <==> |dayTasks| > 3
  {
    Indicators(
      dayTasks[..Min(3, |dayTasks|)],
      if |dayTasks| > 3 then Some("+" + NatToString(|dayTasks| - 3)) else None)
  }

  /**
   * The dots are the first min(3, n) tasks in order, the label appears only
   * beyond three, and dots plus the number in the label account for all n.
   */
  lemma IndicatorsAccountForAll(dayTasks: seq<Task>)
    ensures var ind := TaskIndicators(dayTasks);
      && |ind.dots| == Min(3, |dayTasks|)
      && (forall i :: 0 <= i < |ind.dots| ==> ind.dots[i] == dayTasks[i])
      && (ind.more.Some? <==> |dayTasks| > 3)
      && (ind.more.Some? ==>
            && |ind.more.value| >= 2 && ind.more.value[0] == '+'
            && (forall i :: 1 <= i < |ind.more.value| ==> IsDigit(ind.more.value[i]))
            && |ind.dots| + ParseNat(ind.more.value[1..]) == |dayTasks|)
  {
    if |dayTasks| > 3 {
      var more := "+" + NatToString(|dayTasks| - 3);
      assert more[1..] == NatToString(|dayTasks| - 3);
      ParseNatToString(|dayTasks| - 3);
    }
  }

  /** `isToday(day)` for the viewed month. */
  predicate IsToday(year: int, month: int, day: int, today: CalendarDate) {
    day == today.day && month == today.month - 1 && year == today.year
  }

  /** `isSelected` for a day of the viewed month. */
  predicate IsSelected(year: int, month: int, day: int, selected: Option<CalendarDate>) {
    selected.Some? && day == selected.value.day && month == selected.value.month - 1 && year == selected.value.year
  }

  /** A cell of the grid: a leading blank or a numbered day with its tasks and indicators. */
  datatype Cell =
    | Empty
    | Day(day: int, isToday: bool, isSelected: bool, tasks: seq<Task>, indicators: Indicators)
  {
    predicate HasTasks() {
      Day? && |tasks| > 0
    }
  }

  /** The cell the second loop pushes for a day of the viewed month. */
  function DayCell(year: int, month: int, day: int, tasks: seq<Task>, today: CalendarDate, selected: Option<CalendarDate>): (cell: Cell)
    ensures cell.Day? && cell.day == day
    ensures |cell.tasks| <= |tasks| && forall t :: t in cell.tasks ==> t.dueDate == Some(CalendarDate(year, month + 1, day))
    ensures |cell.indicators.dots| <= 3 && |cell.indicators.dots| <= |cell.tasks|
    ensures cell.indicators.dots == cell.tasks[..|cell.indicators.dots|]
  {
    var dayTasks := GetTasksForDate(tasks, CalendarDate(year, month + 1, day));
    Day(day, IsToday(year, month, day, today), IsSelected(year, month, day, selected), dayTasks, TaskIndicators(dayTasks))
  }

  /**
   * A day cell is marked today exactly when its date is today's, holds exactly
   * the tasks due on its date in store order, and is marked as having tasks
   * exactly when one of them is due that day.
   */
  lemma DayCellContents(year: int, month: int, day: int, tasks: seq<Task>, today: CalendarDate, selected: Option<CalendarDate>)
    ensures var cell := DayCell(year, month, day, tasks, today, selected);
      var date := CalendarDate(year, month + 1, day);
      && cell.day == day
      && (cell.isToday <==> date == today)
      && (cell.isSelected <==> selected == Some(date))
      && IsExactSelection(cell.tasks, tasks, DueOn(date))
      && (cell.HasTasks() <==> exists i :: 0 <= i < |tasks| && tasks[i].dueDate == Some(date))
  {
    var date := CalendarDate(year, month + 1, day);
    var cell := DayCell(year, month, day, tasks, today, selected);
    assert cell.tasks == Select(tasks, DueOn(date));
    SelectExact(tasks, DueOn(date));
    DayHasTasks(tasks, date);
  }

  /** Some task is listed under a date exactly when some task is due that date. */
  lemma DayHasTasks(tasks: seq<Task>, date: CalendarDate)
    ensures |Select(tasks, DueOn(date))| > 0 <==> exists i :: 0 <= i < |tasks| && tasks[i].dueDate == Some(date)
  {
    var dayTasks := Select(tasks, DueOn(date));
    if exists i :: 0 <= i < |tasks| && tasks[i].dueDate == Some(date) {
      var i :| 0 <= i < |tasks| && tasks[i].dueDate == Some(date);
      SelectMembership(tasks, DueOn(date), tasks[i]);
    } else if |dayTasks| > 0 {
      SelectMembership(tasks, DueOn(date), dayTasks[0]);
    }
  }

  /** The initial and reset state of the calendar's add form: no due date key. */
  function InitialForm(): Draft {
    Draft("", "", Medium, None)
  }

  /** The calendar component's state: `currentDate`, `selectedDate`, `showTaskForm` and `formData`. */
  class Calendar {
    var year: int
    var month: int
    var day: int
    var selectedDate: Option<CalendarDate>
    var showTaskForm: bool
    var formData: Draft

    ghost predicate Valid()
      reads this
    {
      && 0 <= month < 12
      && 1 <= day <= MonthLength(year, month)
      && (selectedDate.Some? ==> ValidDate(selectedDate.value))
      && (showTaskForm ==> selectedDate.Some?)
    }

    /** `useState(new Date())` and the other initial values, with today's date given. */
    constructor (today: CalendarDate)
      requires ValidDate(today)
      ensures Valid()
      ensures year == today.year && month == today.month - 1 && day == today.day
      ensures selectedDate.None? && !showTaskForm && formData == InitialForm()
    {
      year, month, day := today.year, today.month - 1, today.day;
      selectedDate := None;
      showTaskForm := false;
      formData := InitialForm();
    }

    /** `handlePrevMonth`: the 1st of the previous month, January rolling back to December. */
    method HandlePrevMonth()
      requires Valid()
      modifies this
      ensures Valid()
      ensures old(month) == 0 ==> year == old(year) - 1 && month == 11
      ensures old(month) > 0 ==> year == old(year) && month == old(month) - 1
      ensures day == 1
      ensures selectedDate == old(selectedDate) && showTaskForm == old(showTaskForm) && formData == old(formData)
    {
      var (y, m) := MonthStart(year, month - 1);
      year, month, day := y, m, 1;
    }

    /** `handleNextMonth`: the 1st of the next month, December rolling over to January. */
    method HandleNextMonth()
      requires Valid()
      modifies this
      ensures Valid()
      ensures old(month) == 11 ==> year == old(year) + 1 && month == 0
      ensures old(month) < 11 ==> year == old(year) && month == old(month) + 1
      ensures day == 1
      ensures selectedDate == old(selectedDate) && showTaskForm == old(showTaskForm) && formData == old(formData)
    {
      var (y, m) := MonthStart(year, month + 1);
      year, month, day := y, m, 1;
    }

    /** `handleToday`, with the current date given. */
    method HandleToday(today: CalendarDate)
      requires Valid() && ValidDate(today)
      modifies this
      ensures Valid()
      ensures year == today.year && month == today.month - 1 && day == today.day
      ensures selectedDate == old(selectedDate) && showTaskForm == old(showTaskForm) && formData == old(formData)
    {
      year, month, day := today.year, today.month - 1, today.day;
    }

    /** `handleDateClick(d)`: select that day of the viewed month, open the form and put its key in the form. */
    method HandleDateClick(d: int)
      requires Valid() && 1 <= d <= MonthLength(year, month)
      modifies this
      ensures Valid()
      ensures selectedDate == Some(CalendarDate(year, month + 1, d)) && showTaskForm
      ensures formData == old(formData).(dueDate := Some(CalendarDate(year, month + 1, d)))
      ensures year == old(year) && month == old(month) && day == old(day)
    {
      var clicked := CalendarDate(year, month + 1, d);
      selectedDate := Some(clicked);
      showTaskForm := true;
      formData := formData.(dueDate := Some(clicked));
    }

    /** `handleChange`: one input of the add form. */
    method HandleChange(c: FieldChange)
      requires Valid()
      modifies this
      ensures Valid()
      ensures formData == ApplyChange(old(formData), c)
      ensures year == old(year) && month == old(month) && day == old(day)
      ensures selectedDate == old(selectedDate) && showTaskForm == old(showTaskForm)
    {
      formData := ApplyChange(formData, c);
    }

    /** The Cancel button of the add form: close it and reset the form. */
    method HandleCancelForm()
      requires Valid()
      modifies this
      ensures Valid()
      ensures !showTaskForm && formData == InitialForm()
      ensures year == old(year) && month == old(month) && day == old(day) && selectedDate == old(selectedDate)
    {
      showTaskForm := false;
      formData := InitialForm();
    }

    /** The "Add Task for this Date" button, shown only under a selected date: open the form. */
    method HandleShowForm()
      requires Valid() && selectedDate.Some?
      modifies this
      ensures Valid()
      ensures showTaskForm
      ensures year == old(year) && month == old(month) && day == old(day)
      ensures selectedDate == old(selectedDate) && formData == old(formData)
    {
      showTaskForm := true;
    }

    /**
     * `handleSubmit`: a blank title is rejected and nothing changes; otherwise
     * the form is passed to `onAddTask` with the selected date as its due date,
     * and the form is reset, closed and the selection cleared. The form is
     * only on screen while it is open, which is only while a date is selected.
     */
    method HandleSubmit() returns (added: Option<Patch>)
      requires Valid() && showTaskForm
      modifies this
      ensures Valid()
      ensures IsBlank(old(formData).title) ==>
        added.None? && formData == old(formData) && showTaskForm == old(showTaskForm) && selectedDate == old(selectedDate)
      ensures !IsBlank(old(formData).title) ==>
        && added == Some(DraftPatch(old(formData).(dueDate := old(selectedDate))))
        && formData == InitialForm() && !showTaskForm && selectedDate.None?
      ensures year == old(year) && month == old(month) && day == old(day)
    {
      if IsBlank(formData.title) {
        return None;
      }
      added := Some(DraftPatch(formData.(dueDate := selectedDate)));
      formData := InitialForm();
      showTaskForm := false;
      selectedDate := None;
    }

    /** The list under the selected date: every task due that day, not capped. */
    function SelectedDateTasks(tasks: seq<Task>): (r: Option<seq<Task>>)
      reads this
      ensures r.None? <==> selectedDate.None?
      ensures r.Some? ==> IsExactSelection(r.value, tasks, DueOn(selectedDate.value))
    {
      if selectedDate.None? then None
      else SelectExact(tasks, DueOn(selectedDate.value)); Some(GetTasksForDate(tasks, selectedDate.value))
    }

    /**
     * The `days` array of the render: `startingDayOfWeek` blanks, then one cell
     * per day 1..daysInMonth in order, and nothing after.
     */
    method Days(tasks: seq<Task>, today: CalendarDate) returns (days: seq<Cell>)
      requires Valid()
      ensures var layout := GetDaysInMonth(year, month);
        && |days| == layout.startingDayOfWeek + layout.daysInMonth
        && (forall i :: 0 <= i < layout.startingDayOfWeek ==> days[i] == Empty)
        && (forall i :: layout.startingDayOfWeek <= i < |days| ==>
              days[i] == DayCell(year, month, i - layout.startingDayOfWeek + 1, tasks, today, selectedDate))
    {
      var layout := GetDaysInMonth(year, month);
      var start := layout.startingDayOfWeek;
      days := [];
      var i := 0;
      while i < start
        invariant 0 <= i <= start
        invariant |days| == i
        invariant forall k :: 0 <= k < i ==> days[k] == Empty
      {
        days := days + [Empty];
        i := i + 1;
      }
      var d := 1;
      while d <= layout.daysInMonth
        invariant 1 <= d <= layout.daysInMonth + 1
        invariant |days| == start + d - 1
        invariant forall k :: 0 <= k < start ==> days[k] == Empty
        invariant forall k :: start <= k < |days| ==> days[k] == DayCell(year, month, k - start + 1, tasks, today, selectedDate)
      {
        days := days + [DayCell(year, month, d, tasks, today, selectedDate)];
        d := d + 1;
      }
    }
  }

  /**
   * For the selected day, the cell's dots are the first min(3, n) entries of
   * the list shown under the calendar, which holds all n tasks.
   */
  lemma SelectedCellDotsArePrefixOfList(cal: Calendar, tasks: seq<Task>, today: CalendarDate)
    requires cal.Valid() && cal.selectedDate.Some?
    requires cal.selectedDate.value.year == cal.year && cal.selectedDate.value.month == cal.month + 1
    ensures var sel := cal.selectedDate.value;
      var cell := DayCell(cal.year, cal.month, sel.day, tasks, today, cal.selectedDate);
      var list := cal.SelectedDateTasks(tasks).value;
      && cell.isSelected
      && cell.tasks == list
      && |cell.indicators.dots| == Min(3, |list|)
      && cell.indicators.dots == list[..|cell.indicators.dots|]
  {
    var sel := cal.selectedDate.value;
    assert CalendarDate(cal.year, cal.month + 1, sel.day) == sel;
  }
}

# React task manager: verified model of its logic

This project is a Dafny model of the logic inside a small React task manager.
The application keeps one list of tasks and offers several views of it:

- a main page with statistics cards, an add form and a filtered list;
- a countdown next to every task that has a due date;
- a month calendar that shows the tasks due on each day and can add a task for a chosen day.

The model covers the parts of the components that compute or change state:

- `Tasks` (tasks.dfy): the task record and the plain objects that are spread over it. It also holds `Array.prototype.filter` over a task list (`Select`), with a proof that the result is the unique order-preserving selection.
- `MainView` (main_view.dfy): the filter engine `getFilteredTasks`.
- `App` (app.dfy): the task store. The class `TaskStore` holds a `seq<Task>` that `AddTask`, `ToggleComplete`, `DeleteTask` and `EditTask` replace. Each update is specified by a function over sequences (`NewTask`, `Toggled`, `Removed`, `Edited`), and lemmas state what those functions keep and change.
- `CountdownTimer` (countdown.dfy): `calculateTimeLeft` as a pure function of the deadline and the current time, both in milliseconds. It comes with a meaning for every display form (`Denotes`) and a proof that the chosen form is the only correct one. The class `Timer` holds the `timeLeft`/`isOverdue` state that one tick rewrites.
- `Calendar` (calendar.dfy): the month layout, the tasks of a day, the capped indicator dots and the grid that the render's two loops build (`Calendar.Days`). It also has the handlers that move between months, select a day and submit a task for it.
- `Dates` (dates.dfy): the proleptic Gregorian day arithmetic of ECMA-262 section 21.4.1 (DayFromYear, MakeDay, WeekDay). It proves that "day 0 of the next month" is the last day of the month.
- `TaskStats` (task_stats.dfy): the counts and the completion percentage.
- `TaskItem` (task_item.dfy): `isOverdue` and the edit state machine of a task row.
- `TaskForm` (task_form.dfy): the add form's state machine.
- `Text` (text.dfy): ECMAScript `trim` and the decimal rendering of numbers.
- `Wrappers` (wrappers.dfy): `Option`.

Representation choices:

- Dates are ISO calendar dates `(year, month 1..12, day)`. The calendar's viewed month keeps JavaScript's month index 0..11.
- A due date's deadline is midnight UTC of that date, in milliseconds since the epoch (`Dates.Deadline`). This is how ECMAScript parses a date-only string.
- Inputs the browser supplies are parameters: the current time, today's date, the answer of `window.confirm`, the generated id and the creation timestamp.

## Model

| member | source | states |
|---|---|---|
| MainView.GetFilteredTasks | src/pages/MainView.jsx:15-30 | The result is a subsequence of the tasks and no longer than them. 'active' and 'completed' give exactly the open and the completed tasks in store order. 'high', 'medium' and 'low' give exactly the tasks of that priority. Any other key gives the list unchanged. |
| MainView.ActiveCompletedPartition | src/pages/MainView.jsx:17-20 | 'active' and 'completed' are disjoint, their lengths add up to the store's length, and their multisets add up to the store's. |
| MainView.CompletionFilterMembership | src/pages/MainView.jsx:17-20 | A task is shown under 'active' iff it is in the store and not completed, and under 'completed' iff it is in the store and completed. |
| MainView.PriorityFilterIgnoresCompletion | src/pages/MainView.jsx:21-26 | A priority key shows a task iff it is in the store with that priority, whether it is completed or not. |
| MainView.CriterionFor | src/pages/MainView.jsx:16-29 | The switch: a key selects with a criterion iff it is one of 'active', 'completed', 'high', 'medium' or 'low'; every other key falls to the default. |
| Tasks.Spread | src/App.jsx:74 | `{ ...task, ...data }`: an empty object leaves the task unchanged, and an object without id, completed or createdAt keys keeps those three fields. |
| Tasks.Select | src/pages/MainView.jsx:18 | `filter` keeps only matching tasks and never lengthens the list. |
| Tasks.SelectIsSubsequence | src/pages/MainView.jsx:15-30 | `filter` adds nothing, duplicates nothing and reorders nothing. |
| Tasks.SelectIsGreatest | src/pages/MainView.jsx:15-30 | Every all-matching subsequence of the input is a subsequence of `filter`'s result, so no matching task is dropped. |
| Tasks.SelectExact | src/pages/MainView.jsx:15-30 | `filter` is the exact selection: an all-matching subsequence that contains every other one. |
| Tasks.ExactSelectionUnique | src/pages/MainView.jsx:15-30 | Only one list is the exact selection, so the exact-selection contracts fix the result completely. |
| Tasks.SelectMembership | src/App.jsx:66 | A task is in the filtered list iff it is in the input and matches. |
| Tasks.SelectAppend | src/App.jsx:51 | Filtering a list with one task appended gives the old result, plus that task at the end when it matches. |
| Tasks.SelectAllMatching | src/components/TaskStats/TaskStats.jsx:9 | When every task matches, `filter` returns the whole list. |
| Tasks.SelectNoneMatching | src/components/TaskStats/TaskStats.jsx:9 | When no task matches, `filter` returns the empty list. |
| Tasks.SelectComplement | src/components/TaskStats/TaskStats.jsx:5-6 | Filters by a predicate and by its negation split the list: lengths and multisets add up to the input's. |
| Tasks.SelectImplied | src/components/TaskStats/TaskStats.jsx:7 | A stricter predicate keeps no more tasks than a weaker one. |
| Tasks.DraftPatch | src/components/TaskItem/TaskItem.jsx:6-11 | The object built from a form's four fields carries no id, completed or createdAt key. |
| Tasks.ApplyChange | src/components/TaskForm/TaskForm.jsx:30-36 | One input sets only its own field of the form data, and the other three keep their values. |
| App.NewTask | src/App.jsx:44-49 | A new task is open and has the given creation time, whatever the form data says, because both are written after the spread. Its id is the generated one unless the data carries an id. The four user fields come from the data. |
| App.Toggled | src/App.jsx:56-60 | The `map` behind `toggleComplete` keeps the length; its pointwise effect is `App.ToggledAt`. |
| App.Removed | src/App.jsx:66 | The `filter` behind `deleteTask` never lengthens the list and keeps no task with the id; exactness is `App.RemovedExact`. |
| App.Edited | src/App.jsx:72-76 | The `map` behind `editTask` keeps the length; its pointwise effect is `App.EditedAt`. |
| App.ToggledAt | src/App.jsx:54-62 | Toggling keeps the length. It flips `completed` on every task with the id, changes no other field, and leaves other tasks unchanged. |
| App.ToggleTwice | src/App.jsx:54-62 | Toggling the same id twice restores the original list. |
| App.EditedAt | src/App.jsx:70-78 | Editing keeps the length and overwrites on every task with the id exactly the keys present in the data. Other tasks are unchanged. |
| App.EditWithDraftKeepsIdentity | src/App.jsx:70-78 | An edit saved from a task row keeps every task's id, completion and creation time, and sets the four edited fields on the matching tasks. |
| App.RemovedExact | src/App.jsx:64-68 | Deleting leaves exactly the tasks whose id differs, in store order. |
| App.AddKeepsUniqueIds | src/App.jsx:43-52 | Adding a task whose id is unused keeps ids unique. |
| App.ToggleAndEditKeepIds | src/App.jsx:54-78 | Toggling and draft edits keep every position's id, and so keep ids unique. |
| App.RemoveKeepsUniqueIds | src/App.jsx:64-68 | Deleting keeps ids unique. |
| App.ToggleMovesToCompleted | src/App.jsx:54-62 | Toggling an open task with a unique id puts its completed version in the 'completed' view and removes its id from the 'active' view. Its countdown is no longer shown. |
| App.AddedTaskInFilterViews | src/App.jsx:51 | After an add, every filter view the new task matches gains it at the end, and every other view is unchanged. |
| App.FormSubmissionCreatesTask | src/components/TaskForm/TaskForm.jsx:19 | A form submission creates an open task with the form's four fields, the generated id and the creation time. |
| App.CalendarSubmissionListedOnDate | src/components/Calendar/Calendar.jsx:62-65 | A task submitted from the calendar is due on the selected date and is listed last under that date. It shows as a dot if fewer than three tasks were due. No other date's list changes. |
| App.PayRentScenario | src/App.jsx:43-52 | A high-priority task due tomorrow shows under 'high', under 'active' and in tomorrow's grid cell. It is among that cell's dots if fewer than three tasks were due that day. |
| App.TaskStore.constructor | src/App.jsx:29 | The store starts empty. |
| App.TaskStore.Load | src/App.jsx:33-36 | The mount effect replaces the list with the loaded one. |
| App.TaskStore.AddTask | src/App.jsx:43-52 | The list becomes the old list plus the new task at the end. Earlier tasks are unchanged, and the new task is open with the given creation time. |
| App.TaskStore.ToggleComplete | src/App.jsx:54-62 | The list becomes its toggled version: `completed` flips on the tasks with the id and nothing else changes. |
| App.TaskStore.DeleteTask | src/App.jsx:64-68 | When confirmed, exactly the tasks with the id are removed and the rest keep their order. When not confirmed, the list is unchanged. |
| App.TaskStore.EditTask | src/App.jsx:70-78 | The list becomes its edited version: the data's keys overwrite the tasks with the id and nothing else changes. |
| CountdownTimer.Decompose | src/components/CountdownTimer/CountdownTimer.jsx:30-33 | Hours < 24, minutes < 60 and seconds < 60, and d·86400000 + h·3600000 + m·60000 + s·1000 ≤ difference < that + 1000. |
| CountdownTimer.DecomposeCompose | src/components/CountdownTimer/CountdownTimer.jsx:30-33 | Units in range plus fewer than 1000 ms decompose back to the same units (round trip). |
| CountdownTimer.CalculateTimeLeft | src/components/CountdownTimer/CountdownTimer.jsx:10-46 | The result is overdue iff deadline − now < 0, so a difference of 0 is pending. It is overdue iff the form is one of the two overdue texts, and the chosen form denotes the difference. |
| CountdownTimer.DenotesDetermines | src/components/CountdownTimer/CountdownTimer.jsx:15-45 | Any form that denotes the difference is the one chosen, so the first-match chain picks the only correct form. |
| CountdownTimer.DenotesByUnits | src/components/CountdownTimer/CountdownTimer.jsx:30-33 | A difference within the second named by in-range units decomposes to those units. |
| CountdownTimer.Render | src/components/CountdownTimer/CountdownTimer.jsx:17-45 | The overdue texts end in " overdue" and the pending ones in 'm' or 's', so the text alone tells the two branches apart. The exact text is checked only by the two example lemmas below. |
| CountdownTimer.CountdownFor | src/components/CountdownTimer/CountdownTimer.jsx:8-13 | Nothing is computed when the due date is absent or the task is completed. Otherwise the result is overdue iff now is past midnight UTC of the due date, and the form denotes the remaining time. |
| CountdownTimer.BoundaryIsPending | src/components/CountdownTimer/CountdownTimer.jsx:30-44 | A deadline equal to now is pending and reads "0s". |
| CountdownTimer.NinetyMinutesOverdue | src/components/CountdownTimer/CountdownTimer.jsx:17-26 | Ninety minutes past the deadline reads "1h 30m overdue". |
| CountdownTimer.Timer.constructor | src/components/CountdownTimer/CountdownTimer.jsx:4-5 | The text starts empty and the flag false. |
| CountdownTimer.Timer.Tick | src/components/CountdownTimer/CountdownTimer.jsx:7-48 | Without a due date, or when completed, the state is unchanged. Otherwise the flag and text become those of `calculateTimeLeft` at the given time. |
| CountdownTimer.Timer.Shown | src/components/CountdownTimer/CountdownTimer.jsx:54-60 | The component renders nothing iff the due date is absent or the task is completed. Otherwise it shows the stored flag and text. |
| Dates.DayFromYearStep | src/components/Calendar/Calendar.jsx:16-17 | Consecutive New Year's days lie 365 or 366 days apart, by the Gregorian leap rule. |
| Dates.DayZeroOfNextMonth | src/components/Calendar/Calendar.jsx:17-18 | Day 0 of the next month is the last day of this month, for every month including December. |
| Dates.NextMonthStart | src/components/Calendar/Calendar.jsx:46-48 | The 1st of the next month comes a month's length after the 1st of this one. |
| Dates.DayNumberWithinMonth | src/components/Calendar/Calendar.jsx:99 | Within a month, day numbers count up one per day. |
| Dates.EpochIsThursday | src/components/Calendar/Calendar.jsx:19 | 1 January 1970 is day 0 and a Thursday, as ECMA-262's WeekDay fixes. |
| Calendar.GetDaysInMonth | src/components/Calendar/Calendar.jsx:13-22 | `daysInMonth` is the Gregorian month length and lies in 28..31. For February it is 29 iff the year is a leap year. `startingDayOfWeek` lies in 0..6 with Sunday 0. |
| Calendar.NextMonthStartingDay | src/components/Calendar/Calendar.jsx:13-22 | The next month starts as many weekdays later as this month has days, December rolling into January. |
| Calendar.FebruaryExamples | src/components/Calendar/Calendar.jsx:13-19 | February 2024 has 29 days and starts on a Thursday, and February 2023 has 28 days. |
| Calendar.GetTasksForDate | src/components/Calendar/Calendar.jsx:24-31 | A day's list is no longer than the store and holds only tasks due that date; exactness is `Calendar.GetTasksForDateExact`. |
| Calendar.GetTasksForDateExact | src/components/Calendar/Calendar.jsx:24-31 | A day's tasks are exactly those whose due date is that date, in store order. Tasks without a due date never appear. |
| Calendar.TaskIndicators | src/components/Calendar/Calendar.jsx:115-124 | At most three dots, taken from the front of the day's list, and a "+" label iff the day has more than three tasks. |
| Calendar.IndicatorsAccountForAll | src/components/Calendar/Calendar.jsx:113-124 | The dots are the first min(3, n) tasks in order. A "+k" label appears iff n > 3, and the dots plus the number read back from the label make n. |
| Calendar.DayCell | src/components/Calendar/Calendar.jsx:99-127 | The pushed cell is a numbered day holding only tasks due on its date, with at most three dots taken from the front of its list. |
| Calendar.DayCellContents | src/components/Calendar/Calendar.jsx:87-109 | A cell is marked today iff day, month and year all equal today's, and selected iff its date is the selection. It holds exactly the tasks due that day in store order, and has tasks iff one is due that day. |
| Calendar.SelectedCellDotsArePrefixOfList | src/components/Calendar/Calendar.jsx:113-176 | For the selected day, the cell's dots are the first min(3, n) entries of the panel's list, and the list holds all n tasks. |
| Calendar.Calendar.constructor | src/components/Calendar/Calendar.jsx:4-11 | The calendar starts on today's date, with no selection, the form closed and the form data at its defaults. |
| Calendar.Calendar.HandlePrevMonth | src/components/Calendar/Calendar.jsx:42-44 | The calendar moves to the 1st of the previous month, January rolling back to December of the previous year. Everything else is unchanged. |
| Calendar.Calendar.HandleNextMonth | src/components/Calendar/Calendar.jsx:46-48 | The calendar moves to the 1st of the next month, December rolling over to January of the next year. Everything else is unchanged. |
| Calendar.Calendar.HandleToday | src/components/Calendar/Calendar.jsx:50-52 | The viewed date becomes today. Selection and form are unchanged. |
| Calendar.Calendar.HandleDateClick | src/components/Calendar/Calendar.jsx:33-40 | The clicked day of the viewed month becomes the selection, the form opens, and the form's due date becomes that day. |
| Calendar.Calendar.HandleChange | src/components/Calendar/Calendar.jsx:76-82 | One input sets its own field of the form. Nothing else changes. |
| Calendar.Calendar.HandleCancelForm | src/components/Calendar/Calendar.jsx:229-238 | Cancel closes the form and resets its data. The selection stays. |
| Calendar.Calendar.HandleShowForm | src/components/Calendar/Calendar.jsx:242-247 | The button under a selected date opens the form. |
| Calendar.Calendar.HandleSubmit | src/components/Calendar/Calendar.jsx:54-74 | A blank title adds nothing and changes nothing. Otherwise exactly one task is added, due on the selected date, and the form is reset, closed and the selection cleared. |
| Calendar.Calendar.SelectedDateTasks | src/components/Calendar/Calendar.jsx:163-185 | The panel appears iff a date is selected, and it lists exactly the tasks due that date in store order, uncapped. |
| Calendar.Calendar.Days | src/components/Calendar/Calendar.jsx:93-129 | The grid has exactly `startingDayOfWeek` empty cells, then one cell per day 1..`daysInMonth` in increasing order, and no trailing cells. |
| TaskStats.CompletionPercentage | src/components/TaskStats/TaskStats.jsx:9 | The percentage is the integer nearest to 100·completed/total, halves up. It lies in 0..100, is 100 when all are completed and 0 when none are. |
| TaskStats.PercentageBounds | src/components/TaskStats/TaskStats.jsx:9 | The rounding bounds and the range, proved from the quotient. |
| TaskStats.ComputeStats | src/components/TaskStats/TaskStats.jsx:4-9 | total is the number of tasks. completed and active are the lengths of the 'completed' and 'active' views, and they add up to total. The high-priority count is the number of open high-priority tasks, so it is at most active. The percentage is `CompletionPercentage(completed, total)` for a non-empty list and 0 for no tasks, and lies in 0..100. |
| TaskStats.CompletionExtremes | src/components/TaskStats/TaskStats.jsx:9 | The percentage is 100 when every task is completed and 0 when none is. |
| TaskItem.IsOverdue | src/components/TaskItem/TaskItem.jsx:58-61 | A row is never overdue without a due date or once completed. |
| TaskItem.OverdueStaysOverdue | src/components/TaskItem/TaskItem.jsx:58-61 | Once overdue, a row stays overdue at every later time, and its countdown shows overdue too. |
| TaskItem.IsOverdueMatchesCountdown | src/components/TaskItem/TaskItem.jsx:58-61 | A row is overdue iff its countdown is shown and overdue: false without a due date, false when completed, otherwise iff the due instant is strictly before now. |
| TaskItem.TaskItem.constructor | src/components/TaskItem/TaskItem.jsx:5-11 | A row starts out of editing, with the edit form holding the task's four fields. |
| TaskItem.TaskItem.ReceiveTask | src/components/TaskItem/TaskItem.jsx:6-11 | A new `task` prop does not re-run the state initialiser. The editing flag and the form are kept. |
| TaskItem.TaskItem.HandleEdit | src/components/TaskItem/TaskItem.jsx:13-15 | Editing starts and the form is unchanged. |
| TaskItem.TaskItem.HandleCancel | src/components/TaskItem/TaskItem.jsx:17-25 | Editing ends and the form is reset to the task's current four fields. |
| TaskItem.TaskItem.HandleSave | src/components/TaskItem/TaskItem.jsx:27-34 | A blank title issues nothing and the row stays in editing mode. Otherwise one edit (task id, four fields) is issued, carrying no id, completed or createdAt key, and editing ends. |
| TaskItem.TaskItem.HandleChange | src/components/TaskItem/TaskItem.jsx:36-42 | One input sets only its own field of the edit form. |
| TaskForm.TaskForm.constructor | src/components/TaskForm/TaskForm.jsx:4-9 | The form starts with an empty title and description, medium priority and no due date. |
| TaskForm.TaskForm.HandleSubmit | src/components/TaskForm/TaskForm.jsx:11-28 | A whitespace-only title submits nothing and leaves the form data unchanged. Otherwise the form data is submitted once and the form returns to its defaults. |
| TaskForm.TaskForm.HandleChange | src/components/TaskForm/TaskForm.jsx:30-36 | One input sets only its own field, and the others keep their values. |
| Text.BlankIffAllWhitespace | src/components/TaskForm/TaskForm.jsx:14 | `title.trim()` is empty iff every character of the title is ECMAScript whitespace or a line terminator. |
| Text.ParseNatToString | src/components/Calendar/Calendar.jsx:123 | The decimal text of a count reads back as the same count. |
| Text.NatToStringInjective | src/components/Calendar/Calendar.jsx:123 | Different counts give different texts. |

## Left out

- Persistence: `getTasks`/`saveTasks` and the two effects around them (src/App.jsx:33-41) are browser storage. The loaded list is a parameter of `App.TaskStore.Load`, and saving is not modelled.
- Markup, CSS class strings, routing and navigation, `TaskList` and `CalendarView`: these only render.
- The interval lifecycle of the countdown (`setInterval`/`clearInterval`): `CountdownTimer.Timer.Tick` is one run at a given time, and the scheduling is not modelled.
- Time zones: the model takes the host to be at UTC. `getTasksForDate` compares the `toISOString` day of a local midnight with that of a date-only string, which ECMAScript parses as UTC midnight. In a zone east of UTC the cell for day X builds the key X−1 while a task due on D keeps the key D, so the task shows one day late, in the cell for D+1. A calendar submission likewise stores the previous day as its due date. The host offset is not modelled, so this mismatch is not captured.
- `Date` string parsing and formatting: due dates are stored as (year, month, day) rather than `YYYY-MM-DD` text. `toLocaleDateString` output (the month name, dates in the task rows and in the panel heading) is not modelled.
- `window.confirm` is a boolean parameter of `App.TaskStore.DeleteTask`. `alert` is the rejected (None) result of the submit and save methods.
- `Date.now().toString()` ids and the `toISOString()` creation time are parameters of `App.NewTask`. Nothing in the source makes ids unique, so the lemmas that need unique ids require it.
- TaskStats.CompletionPercentage: the source computes `Math.round((completed / total) * 100)` in floating point. The model rounds the exact ratio, halves up, so the two can differ by one where the floating-point product lands just below a half (57 of 200 gives 28.499999999999996).
- App.NewTask: requires the data to carry the four form keys. Both add forms always send them, so the result for a data object missing a key is not modelled.
- Years 0..99: `new Date(y, m, d)` reads such a year as 1900 + y, so the source's month layout, month navigation and grid keys for those years fall in the 1900s (`new Date(99, 12)` is January 2000). `Dates.MakeDay`, `Calendar.GetDaysInMonth`, `Calendar.Calendar.HandlePrevMonth`, `Calendar.Calendar.HandleNextMonth` and `Calendar.DayCell` take every year literally, so the model does not capture this remapping.
- Calendar.Calendar.HandleDateClick: requires the day to lie within the viewed month, since only those cells are clickable. The day-overflow arithmetic of `new Date(year, month, day)` for other days is not modelled.
- Calendar.Calendar.HandleSubmit: requires the form to be open, since the form is only rendered then, which is only while a date is selected. A submission without a selection would throw in the source.
- Calendar.Calendar.HandleShowForm: requires a selected date, since its button is only rendered under one.
- Priorities are the three values the selects offer. Stored data holding any other priority string is not modelled.
- Form inputs and due dates: an empty due-date input and an absent due date are both `None`, because every use tests the value with `!dueDate`. The `description` text is carried but no logic reads it.

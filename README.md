# Task reminder bot — verified model

A Dafny model of the core of a Telegram task-reminder bot
(`task_reminder_bot.py`). A user adds a task in three steps: name, date,
then time. The user can list their tasks and delete one by its number in
the list. The bot reminds users in two ways:

- a one-shot job per task, armed when the task is created and again for
  every future task at start-up;
- a periodic check that sends a reminder for every task due in the
  current minute that has not been reminded yet.

The model covers:

- **Calendar** (`calendar.dfy`): Python's naive `datetime` on the
  proleptic Gregorian calendar. An instant is a number of microseconds
  since 0001-01-01 00:00. The module proves that day numbers follow
  calendar order and are one-to-one. It also proves that the
  field-by-field comparisons in the source are integer comparisons on
  instants: date before date, datetime before datetime, and the
  same-minute test of the periodic check. All of these hold for
  full-precision instants, with seconds and microseconds.
- **Date and time text** (`date_text.dfy`): the `/`-to-`.` replacement,
  `strptime` with `%d.%m.%Y` and `%H:%M`, and `strftime` with the same
  formats. Formatting a valid date or time and parsing it back gives the
  same value.
- **The two validating steps of the add-task conversation**
  (`validation.dfy`): each step rejects text it cannot parse and rejects
  a date or time in the past. An accepted step stores text that parses
  back to the date or time the user typed.
- **Tasks** (`tasks.dfy`):
  - The stored task record.
  - The sort by scheduled instant, as Python's stable `list.sort`. It is
    proved sorted, a permutation, stable, and the only stable sorted
    permutation.
  - Removal by position.
  - The status shown in the listing.
- **The periodic check and start-up re-arming as functions**
  (`reminders.dfy`): properties across repeated checks in the same minute
  and of failed sends.
- **The handlers that change the store** (`bot.dfy`): a `TaskStore`
  class whose methods add, list and delete tasks, run the periodic check
  and re-arm on start-up. Each method is proved against the functions
  above, and each keeps the invariant that every stored task's texts
  parse to its instant.

The clock is a parameter `now` of every operation that reads it. The
outcome of each reminder send is a parameter `delivers` that maps
(user, index) to success or failure.

Two facts about the code shape the model:

- The code has no recurrence rule, so tasks here have none.
- A task scheduled exactly at the current instant is accepted, because
  line 170 refuses only `task_datetime < now`.

The listing is the one place where the model deliberately corrects the
code. The code reads the clock twice for each task; the model reads it
once, as the code evidently intends. Both versions are modelled, see
"## Findings". Every other difference between the model and the code is
listed under "## Left out".

## Model

| member | source | states |
|---|---|---|
| Calendar.DaysInMonth | task_reminder_bot.py:125 | a month has 28 to 31 days, and 29 exactly for February of a leap year |
| Calendar.DayNumber | task_reminder_bot.py:128 | a date's day number falls within its own year's span of day numbers |
| Calendar.InstantOf | task_reminder_bot.py:167 | the instant of a date and time is a non-negative whole minute on that date's day |
| Calendar.DaysBeforeYearMonotone | task_reminder_bot.py:128 | later years start at least 365 days per year later |
| Calendar.YearLength | task_reminder_bot.py:128 | the next year starts one year length after this one, 365 or 366 days by the leap rule |
| Calendar.MonthsIncrease | task_reminder_bot.py:128 | every earlier month ends no later than a later month starts |
| Calendar.DayNumberStrict | task_reminder_bot.py:128 | an earlier date has a smaller day number |
| Calendar.DayNumberMonotone | task_reminder_bot.py:128 | calendar order of dates is exactly the order of their day numbers, in both directions |
| Calendar.DayNumberInjective | task_reminder_bot.py:128 | two valid dates share a day number exactly when they are the same date |
| Calendar.MinuteOfFields | task_reminder_bot.py:404-408 | a full datetime's whole-minute count and day count come from its date, hour and minute alone |
| Calendar.SameMinuteIffSameFields | task_reminder_bot.py:404-408 | two datetimes agree in year, month, day, hour and minute exactly when their instants lie in the same whole minute |
| Calendar.BeforeTodayIffEarlierDate | task_reminder_bot.py:128 | a date is before the current datetime's date exactly when its day number is below the day of the current instant |
| Calendar.InstantOrderIsFieldOrder | task_reminder_bot.py:170 | two full-precision datetimes compare field by field (date, hour, minute, second, microsecond) exactly as their instants compare as integers |
| Calendar.ClockOrder | task_reminder_bot.py:170 | within a day, clock readings compare field by field exactly as their microsecond offsets do |
| Calendar.TaskBeforeNowIffEarlierFields | task_reminder_bot.py:170 | a task's whole-minute instant is before a full-precision `now` exactly when its fields come first |
| DateText.Normalise | task_reminder_bot.py:124 | the result has the input's length, with every `/` replaced by `.` and every other character kept |
| DateText.NormaliseAgrees | task_reminder_bot.py:124 | text that differs from a dotted text only by `/` in place of `.` normalises to the normalised dotted text |
| DateText.SlashDateParsesAsDotDate | task_reminder_bot.py:123-125 | a date typed with `/` separators parses to the same date as with `.` separators |
| DateText.ParseField | task_reminder_bot.py:125 | a numeric field is accepted exactly when it has an allowed number of ASCII digits, and an n-digit field's value is below 10^n, so a 2-digit field is below 100 and a 4-digit year below 10000 |
| DateText.DigitsValueBound | task_reminder_bot.py:125 | n ASCII digits denote a number below 10^n |
| DateText.SplitJoins | task_reminder_bot.py:125 | joining the pieces of a split with the separator gives back the text, and no piece contains the separator, so fields are cut exactly at the separators |
| DateText.ParseDate | task_reminder_bot.py:125 | only a date that exists, with year 1..9999, is ever returned |
| DateText.ParseTime | task_reminder_bot.py:161 | only an hour 0..23 and a minute 0..59 are ever returned |
| DateText.Digit | task_reminder_bot.py:135 | the character written for a digit is an ASCII digit with that value |
| DateText.FormatDateRoundTrip | task_reminder_bot.py:135 | the stored `%d.%m.%Y` text of a valid date parses back to that date |
| DateText.FormatTimeRoundTrip | task_reminder_bot.py:162 | the stored `%H:%M` text of a valid time parses back to that time |
| Validation.DateStep | task_reminder_bot.py:117-152 | format error exactly when the normalised text does not parse; past exactly when it parses to a day before today; otherwise the stored text parses to the typed date, which is not before today; only acceptance moves on to the time |
| Validation.TimeStep | task_reminder_bot.py:155-175 | format error exactly when the time, or the stored date, does not parse; past exactly when the combined instant is before now; an accepted time stores text that parses to the typed time, with the combined instant no earlier than now; only acceptance ends the conversation |
| Validation.SlashDateStepAsDotDateStep | task_reminder_bot.py:123-125 | typing `/` separators gives exactly the reply typing `.` would |
| Validation.AcceptedStepsGiveTypedInstant | task_reminder_bot.py:128-170 | after a date accepted at one clock reading, a parsable time given at a later reading is accepted exactly when the typed date and time are not before that later reading; the task's instant is theirs, on a day no earlier than the date step's today |
| Tasks.InsertSorted | task_reminder_bot.py:253 | inserting into a sorted list keeps it sorted |
| Tasks.InsertAddsOne | task_reminder_bot.py:253 | insertion adds exactly the one task |
| Tasks.SortByInstant | task_reminder_bot.py:253 | the sorted list is ordered by instant and is a permutation of the input |
| Tasks.InsertKeepsTiedOrder | task_reminder_bot.py:253 | inserting a task keeps the order of the tasks at any one instant, with the new one first among its ties |
| Tasks.SortIsStable | task_reminder_bot.py:253 | tasks at the same instant keep their relative order through the sort |
| Tasks.StableSortIsUnique | task_reminder_bot.py:351 | two sorted lists that agree on the order of every instant's tasks are equal |
| Tasks.StableSortsAgree | task_reminder_bot.py:300 | any stable sort by instant gives exactly this sort's result, so the listing and the delete handler number tasks alike |
| Tasks.RemoveAt | task_reminder_bot.py:359 | `pop(i)` keeps the elements before `i`, shifts those after it, removes exactly the popped task, and keeps a sorted list sorted |
| Tasks.StatusTwoReads | task_reminder_bot.py:261-273 | the status as written: overdue exactly when the instant is before the first reading; otherwise, with the time left after the second reading taken as a `timedelta`, whole days when `.days` is positive, else whole hours 1..23 of `.seconds` when at least one, else "soon" |
| Tasks.HoursOfDelta | task_reminder_bot.py:265-266 | `.days` is positive exactly when at least a day is left, and `.seconds // 3600` is the whole hours, 0..23, of the time left within its day |
| Tasks.StatusOf | task_reminder_bot.py:260-273 | overdue exactly when the instant is before now; whole days left when at least one day remains; whole hours 1..23 when one hour to one day remains; otherwise "soon" |
| Tasks.ClockAdvanceShowsTwentyThreeHours | task_reminder_bot.py:261-266 | when the clock passes the task between the two readings, the listing as written shows 23 hours for a task that is "soon" by the first reading and overdue by the second |
| Tasks.ClockAdvanceExample | task_reminder_bot.py:261-266 | a task due now, with the second reading one microsecond later, is listed as 23 hours away |
| Reminders.Checked | task_reminder_bot.py:404-424 | after the check a task is reminded exactly when it was before, or it was due and its send succeeded; nothing else about it changes |
| Reminders.CheckedList | task_reminder_bot.py:400-424 | the check goes through a user's list task by task, keeping its length |
| Reminders.CheckedStore | task_reminder_bot.py:399-424 | the check keeps every user and list length and changes each task only as Checked says |
| Reminders.Delivered | task_reminder_bot.py:419-424 | only tasks the check attempts can be delivered |
| Reminders.DueOnlyInItsMinute | task_reminder_bot.py:404-411 | an unreminded task is due exactly during the minute that begins at its instant |
| Reminders.SameMinuteSameDue | task_reminder_bot.py:404-411 | any two instants in the same minute find the same tasks due |
| Reminders.SecondCheckRetriesOnlyFailures | task_reminder_bot.py:411-428 | a second check at any instant of the same minute attempts exactly the reminders the first attempted and failed to send |
| Reminders.NoDoubleDelivery | task_reminder_bot.py:411-424 | no reminder delivered by one check is delivered again by a later check in the same minute |
| Reminders.CheckIsIdempotent | task_reminder_bot.py:411-424 | after a check whose sends all succeed, another check at any instant of the same minute attempts nothing and leaves the store unchanged |
| Reminders.FailedSendStaysDue | task_reminder_bot.py:419-428 | a failed send leaves the task unchanged and still due, and the check goes on |
| Reminders.ArmedAtStartup | task_reminder_bot.py:455-466 | start-up arms a one-shot job, named by user and index, exactly for each stored task strictly after now |
| Reminders.ArmingIgnoresReminded | task_reminder_bot.py:457-460 | the jobs armed at start-up do not depend on what any periodic check has marked |
| Bot.CheckUser | task_reminder_bot.py:400-428 | the scan of one user's list returns the list as the check leaves it, the indices whose send succeeded and the indices whose send failed |
| Bot.DeleteKeepsWellFormed | task_reminder_bot.py:351-361 | deleting from the sorted copy of a user's list keeps every stored task's texts consistent with its instant |
| Bot.StoredTasksDueInTheirMinute | task_reminder_bot.py:184-192 | in a well-formed store every task's instant is a whole minute, so the check finds it due exactly from its instant until a minute later, while it is unreminded |
| Bot.CheckKeepsWellFormed | task_reminder_bot.py:423-424 | the check keeps every stored task's texts consistent with its instant |
| Bot.TaskStore.constructor | task_reminder_bot.py:32-37 | the store starts as the loaded mapping, and is valid when every loaded task's texts give its instant |
| Bot.TaskStore.AddTask | task_reminder_bot.py:177-202 | the reply is the time step's; a rejected time changes nothing and arms no job; an accepted one appends exactly the new unreminded task to the user's list, creating it if missing, leaves other users alone, and arms a job for the new last index at the task's instant |
| Bot.TaskStore.ListTasks | task_reminder_bot.py:238-273 | the user's tasks come in instant order, numbered from 1, each with its status at one clock reading; the listing is empty exactly when the user has no tasks; the store is unchanged |
| Bot.TaskStore.DeleteTask | task_reminder_bot.py:336-361 | no tasks, or a number outside 1..count, change nothing and say which; otherwise the user's list becomes the sorted list without the chosen position, and that task is returned |
| Bot.TaskStore.CheckTasks | task_reminder_bot.py:394-428 | the new store is CheckedStore of the old one; the delivered and failed sets are exactly the attempted reminders whose send succeeded and failed; in a valid store every attempted task's minute began at most a minute before now |
| Bot.TaskStore.RearmOnStartup | task_reminder_bot.py:455-466 | the armed jobs are exactly ArmedAtStartup of the store |

## Left out

- Telegram: messages, reply texts, keyboards and menu buttons are left out because only their effect on the store is modelled.
- The conversation-handler wiring, `/cancel`, the task-name step and the `awaiting_delete` flag are left out. The model starts each operation at the handler that changes the store.
- Parsing the delete number with `int()` is left out. DeleteTask takes the number as an integer, and a text that is not a number changes nothing.
- `delete_task_command` only lists and sorts a copy, so it is covered by ListTasks and the sort.
- `send_reminder` is left out: it only sends a message and never touches the store. A deleted task's armed job is not cancelled by the source either. Nothing is claimed about a job and the periodic check both sending for the same task.
- Job-queue timing (when a one-shot job fires, the 60-second interval, the 5-second first delay) is left out. The model returns the jobs as values.
- JSON files are left out. The store is an in-memory mapping loaded and saved whole, and a failing load or save is not modelled.
- User ids are the integers behind the source's string keys.
- The order of users in the mapping is left out. The periodic check and re-arming visit users as a set, and their results do not depend on the order.
- Bot.TaskStore.CheckTasks: writes each user's list back once after its scan, instead of saving the whole store after every successful send. The resulting store is the same.
- Bot.TaskStore.ListTasks: computes every status with Tasks.StatusOf at one clock reading. The source reads the clock at line 261 and again at line 264 for each task. Tasks.StatusTwoReads models the code as written, and the "## Findings" row shows where the two differ.
- Handlers are modelled as running one at a time, each to completion. In the source, `check_tasks_periodically` loads the store (line 396), waits on `send_message` (line 420), then saves its own copy (line 424). An add (lines 179-193) or a delete (lines 344-361) that runs during that wait is overwritten by the check's save. The added task is lost, or the deleted task comes back. The model does not capture this lost update.
- Bot.TaskStore.AddTask: uses one `now` for both the past test and `created_at`, where the source reads the clock twice.
- Bot.TaskStore.RearmOnStartup: uses one `now`, where the source reads the clock once per task.
- Seconds and microseconds of stored task instants are always zero, because tasks are typed to the minute.
- The sort key in the source is the ISO text of the instant. The model sorts on the instant itself, which orders the same way for four-digit years.
- `strptime` also accepts non-ASCII digits and a space followed by a digit as the day. Those forms are left out.
- `strftime("%Y")` writes years below 1000 without padding on some platforms. Every such date is in the past, so the model always pads to four digits.
- Recurrence is left out, because the code has no recurrence rule.

## Findings

| source | as written | input that shows it | evidently intended | confidence | as-written member | corrected member |
|---|---|---|---|---|---|---|
| task_reminder_bot.py:261-266 | the overdue test and the time-left computation each read the clock | a task due at the current instant, with the clock one microsecond later at the second reading: the time left is −1 µs, whose `.days` is −1 and `.seconds` is 86399, so the listing shows "in 23 h" | one reading: such a task is "soon" (or overdue) | not executed | Tasks.StatusTwoReads (Tasks.ClockAdvanceShowsTwentyThreeHours, Tasks.ClockAdvanceExample) | Tasks.StatusOf |

# Promo productivity page — a verified model of its core

Promo is a study-productivity web page with a Flask back end. This project
models the three parts of it that hold real logic, and proves properties of
them:

- **The page's timers and task list** (`static/scripts.js`). The Pomodoro
  timer (25-minute work periods alternating with 5-minute breaks, with a
  session counter) and the custom countdown timer are classes over the
  script's module-level variables (`Timers.PomodoroTimer`,
  `Timers.CustomTimer`). The one-second `setInterval` callback is an explicit
  `Tick()` method, and the live interval is a field `intervalActive`. The
  task list is the class `Tasks.TaskList` whose `tasks` field is the script's
  `tasks` array; its methods are the add, delete, toggle and sub-task
  handlers. The clock text and progress-bar numbers live in `Display`, and
  the JavaScript number operations they rely on (`parseInt`, `toString`,
  `padStart`, `Math.floor`, `%`) in `JsNum`.
- **The server's account rules** (`app.py`). `Accounts.Database` holds the
  user table as a sequence of records with their progress rows. Its methods
  are the sign-up checks and the streak kept by `update_usage`. Days are
  integers, and today's date and the password hash are parameters.
- **Sub-task extraction** (`main.py`). `Subtasks.GenerateSubtasks` turns the
  text-generation service's reply into the list of sub-task names. It is
  built on the Python string operations in `PyStr`.

Every class method is proved against a pure function of the state before the
call. The properties are proved as lemmas about those functions.

### Where the code does not do what it seems meant to

The model follows the code.

- **The Pomodoro timer does not chain periods.** The comment on the reset
  of the time left (static/scripts.js:99, "5 min break or 25 min work") and
  the call to `startPomodoro` at the end of the tick (static/scripts.js:101)
  show that work and break periods were meant to follow each other. In the
  code, the tick that finds zero does several things: it clears the
  interval, counts the session, switches the mode, resets the time and
  calls `startPomodoro` again. That call does nothing, because the timer is
  not paused. So the timer is left showing the full new period, not
  paused, with no interval running. Only pause (or stop) followed by start
  gets it going again. `Timers.FirstSessionStalls` states this. Because of
  the countdown to zero itself, the session is counted on tick 1501, not
  tick 1500.
- **Starting the custom timer does not resume it.** Every press of start
  reads the two input fields again and overwrites the time left. A start
  after a pause therefore restarts from the inputs.

## Model

| member | source | states |
|---|---|---|
| Timers.PomodoroStart | static/scripts.js:87-104 | Acts only when paused: unpauses and registers the interval. Otherwise nothing changes. Time, mode and session count are never touched. Validity is preserved. |
| Timers.PomodoroTick | static/scripts.js:88-103 | With no interval, nothing happens. With time left, it drops by exactly one and nothing else changes. At zero: sessions +1, mode flipped, time reset to the new period's length (300 for a break, 1500 for work), and the timer is left unpaused with no interval. Validity is preserved. |
| Timers.PomodoroPause | static/scripts.js:109-114 | Always ends paused. Changes nothing when already paused. Otherwise clears the interval. Never touches time, mode or sessions. |
| Timers.PomodoroStop | static/scripts.js:116-122 | From any state: paused, no interval, 1500 seconds, work mode. The session count is kept. |
| Timers.PomodoroRunValid | static/scripts.js:1-5 | Any sequence of presses and seconds keeps the state valid. The time stays within the current period, and an interval runs only while unpaused, so no second interval is ever registered. |
| Timers.PomodoroCountdown | static/scripts.js:90-93 | A running timer loses exactly k seconds in k ticks, with nothing else changing, as long as k is at most the time left. |
| Timers.PomodoroIdle | static/scripts.js:95 | Once the interval is cleared, no number of seconds changes the state. |
| Timers.FirstSessionStalls | static/scripts.js:87-103 | From the initial state and a start: after 1500 ticks the clock is at zero and running. Every later tick count leaves one session done, break mode, 300 seconds, unpaused and no interval, for good. |
| Timers.StalledRecovery | static/scripts.js:87-114 | In the stalled state, start alone changes nothing. Pause and then start registers the interval again. |
| Timers.StopThenStart | static/scripts.js:87-122 | Stop then start always gives a running full work period with the session count kept. |
| Timers.PomodoroTimer.constructor | static/scripts.js:1-5 | The initial values: 1500 seconds, paused, no sessions, work mode, no interval. |
| Timers.PomodoroTimer.Start | static/scripts.js:87-104 | The variables change as `PomodoroStart` says. |
| Timers.PomodoroTimer.Tick | static/scripts.js:90-103 | The variables change as `PomodoroTick` says, including the call back into `Start`. |
| Timers.PomodoroTimer.Pause | static/scripts.js:109-114 | The variables change as `PomodoroPause` says. |
| Timers.PomodoroTimer.Stop | static/scripts.js:116-122 | The variables change as `PomodoroStop` says. |
| Timers.PomodoroTimer.Display | static/scripts.js:77-85 | Returns the clock text of the time left. Elapsed is the period length minus the time left, and the total is 300 in a break and 1500 otherwise. |
| Timers.RequestedSeconds | static/scripts.js:130-132 | A field that is not a number counts as 0: neither gives 0, only seconds gives the seconds, only minutes gives minutes*60. |
| Timers.Typed | static/scripts.js:130-132 | Fields holding the decimal text of two integers ask for minutes*60 + seconds. |
| Timers.CustomStart | static/scripts.js:132-145 | Always overwrites the time left with the requested seconds. Starts the interval only when paused and the request is positive. Otherwise pause and interval are unchanged. Validity is preserved. |
| Timers.CustomTick | static/scripts.js:136-144 | With no interval, nothing happens. With time left, it drops by exactly one. At zero the interval is cleared and the timer pauses. Validity is preserved. |
| Timers.CustomPause | static/scripts.js:150-155 | Always ends paused with the time kept. Changes nothing when already paused, and clears the interval otherwise. |
| Timers.CustomStop | static/scripts.js:157-162 | From any state: paused at zero with no interval, the initial state. |
| Timers.CustomRunValid | static/scripts.js:7-9 | Any sequence of presses and seconds keeps "interval registered exactly when not paused". |
| Timers.CustomCountdown | static/scripts.js:137-139 | A running timer loses exactly k seconds in k ticks, as long as k is at most the time left. |
| Timers.CustomIdle | static/scripts.js:140-143 | Once the interval is cleared, seconds change nothing. |
| Timers.CustomRunsOut | static/scripts.js:129-144 | Started while paused with a positive request of t seconds: running at zero after t ticks. On every later count it is paused at zero with no interval. |
| Timers.CustomTimer.constructor | static/scripts.js:7-9 | The initial values: 0 seconds, paused, no interval. |
| Timers.CustomTimer.Start | static/scripts.js:129-148 | The variables change as `CustomStart` says, with the seconds `RequestedSeconds` reads from the inputs' text. |
| Timers.CustomTimer.Tick | static/scripts.js:136-144 | The variables change as `CustomTick` says. |
| Timers.CustomTimer.Pause | static/scripts.js:150-155 | The variables change as `CustomPause` says. |
| Timers.CustomTimer.Stop | static/scripts.js:157-162 | The variables change as `CustomStop` says. |
| Timers.CustomTimer.Display | static/scripts.js:164-170 | Returns the clock text and the progress pair (time left, time left + 1). |
| Display.PeriodLength | static/scripts.js:83 | 300 seconds in a break, 1500 in a work period. |
| Display.ClockFields | static/scripts.js:78-79 | For t >= 0: minutes*60 + seconds == t with 0 <= seconds < 60. For negative t, both fields are negative or zero, as JavaScript's operators give; the page never displays a negative count. |
| Display.Clock | static/scripts.js:80-81 | The clock text is at least five characters: two or more for each field and the colon. |
| Display.FieldsRead | static/scripts.js:80-81 | Any minutes and any seconds below 60, laid out as padded fields around a colon, read back as minutes*60 + seconds. |
| Display.ClockRoundTrip | static/scripts.js:77-81 | For every t >= 0 the `MM:SS` text reads back as exactly t, with a two-digit seconds field. |
| Display.PomodoroProgress | static/scripts.js:83-84 | The total is the period length, and elapsed plus time left equals it. Within the period, 0 <= elapsed <= total. |
| Display.CustomProgress | static/scripts.js:169 | The denominator is always one more than the numerator, not the length the timer was started with. |
| JsNum.ParseInt | static/scripts.js:130-131 | Gives a number exactly when a digit follows the leading whitespace and optional sign. |
| JsNum.ParseIntOrZero | static/scripts.js:130-131 | `NaN` becomes 0. Otherwise the parsed value. |
| JsNum.NatToStringDigits | static/scripts.js:81 | A number's decimal text is non-empty digits with no leading zero whose value is the number. It is one digit exactly when the number is below 10. |
| JsNum.PadStart2 | static/scripts.js:81 | The result is as long as the input or 2 characters, whichever is more. The input is its suffix, and everything in front of it is '0'. |
| JsNum.FloorDiv | static/scripts.js:78 | The floor quotient: q*b <= a < q*b + b. |
| JsNum.JsRem | static/scripts.js:79 | The truncating remainder: -b < r < b. It agrees with the floor division for a >= 0 and is never positive for a < 0. |
| JsNum.ParseIntToString | static/scripts.js:130 | `parseInt` reads back every integer `toString` writes. |
| JsNum.PaddedValue | static/scripts.js:81 | Zero-padding a number's digits keeps their value. |
| Tasks.Completed | static/scripts.js:67 | Same length and names, every sub-task completed. |
| Tasks.CompleteAll | static/scripts.js:67 | The `forEach` loop produces exactly `Completed` of its input. |
| Tasks.ToggleTask | static/scripts.js:64-70 | The flag flips, and name, duration and sub-task names are kept. Completing sets every sub-task completed. Un-completing leaves the sub-tasks alone. |
| Tasks.ToggleTwice | static/scripts.js:64-68 | Toggling twice restores the task's flag but leaves all sub-tasks completed (the cascade is one-way). |
| Tasks.CompletedIdempotent | static/scripts.js:67 | Completing all sub-tasks twice is the same as once. |
| Tasks.ToggleSubTask | static/scripts.js:72-75 | Exactly sub-task j flips. The other sub-tasks and the parent's own fields are unchanged. |
| Tasks.ToggleSubTaskTwice | static/scripts.js:72-75 | Toggling the same sub-task twice restores the task. |
| Tasks.WithSubTask | static/scripts.js:27-37 | NotLong exactly when the duration is not `"long"`. Added exactly when it is long and the prompt gave a non-empty name, and then one incomplete sub-task with that name is appended at the end. In every other case nothing changes. |
| Tasks.RemoveAt | static/scripts.js:376-378 | In range: one shorter, earlier elements in place, later ones shifted down by one. Past the end: unchanged. |
| Tasks.RemoveThenReinsert | static/scripts.js:376-378 | Re-inserting the removed task at its index restores the list, so only that task is lost. |
| Tasks.FreshSubTasks | static/scripts.js:206 | The names are exactly the given ones, in order, all incomplete. |
| Tasks.WithGenerated | static/scripts.js:205-209 | With a reply and a valid index, the target task's sub-tasks become exactly the reply's names, all incomplete, with its own fields kept. A failed request or a stale index changes nothing. No other task ever changes. |
| Tasks.FirstLong | static/scripts.js:353 | -1 exactly when no task is long. Otherwise the index of a long task with none before it. |
| Tasks.TaskList.constructor | static/scripts.js:11 | The list starts empty. |
| Tasks.TaskList.AddTask | static/scripts.js:13-25 | Appends exactly one incomplete task with no sub-tasks at the end. Earlier tasks are unchanged. |
| Tasks.TaskList.AddSubTask | static/scripts.js:27-37 | Task i becomes what `WithSubTask` gives, and every other task is unchanged. |
| Tasks.TaskList.ToggleTaskCompletion | static/scripts.js:64-70 | Task i becomes `ToggleTask` of it, and every other task is unchanged. |
| Tasks.TaskList.ToggleSubTaskCompletion | static/scripts.js:72-75 | Task i becomes `ToggleSubTask` of it, and every other task is unchanged. |
| Tasks.TaskList.DeleteTask | static/scripts.js:376-379 | The list becomes `RemoveAt` of the old list. |
| Tasks.TaskList.GenerationRequest | static/scripts.js:194-195 | The request carries the task's name. |
| Tasks.TaskList.AutoGenerationTarget | static/scripts.js:352-354 | A long task with no long task before it, or -1 exactly when there is none; the index is `FirstLong` of the list. |
| Tasks.TaskList.ApplyGenerated | static/scripts.js:366-370 | The list becomes `WithGenerated` of the old list and the reply. |
| Accounts.Touch | app.py:189-201 | The streak rule. No previous active day gives 1. The day after the last active day gives +1. A longer gap gives 1. The same day or an earlier one leaves it. Today always becomes the last active day. |
| Accounts.StreakIsActiveRun | app.py:182-201 | From a new progress row, with days never going back, the streak equals the length of the run of consecutive active days ending on the last one. |
| Accounts.FindUser | app.py:184 | Finds the first row with that id, or reports that no row has it. |
| Accounts.NextId | app.py:98-106 | The new row's id is positive and differs from every existing id. |
| Accounts.UsageUpdate | app.py:182-209 | Succeeds exactly when the user exists and has a progress row. On failure nothing changes. On success only that user's progress changes, as `Touch` says. |
| Accounts.UsageKeepsKeys | app.py:182-203 | A usage update keeps ids, usernames and emails unique. |
| Accounts.SignupDecision | app.py:70-92 | Checks in the route's order. MissingField exactly when a cleaned field is empty. PasswordMismatch exactly when none is empty and the passwords differ. AlreadyExists exactly when both pass and the username or lowered email is taken. Otherwise Created with the next id. |
| Accounts.AfterSignup | app.py:86-111 | A rejection leaves the table unchanged. A creation appends exactly one user with the cleaned fields and a fresh progress row. |
| Accounts.SignupKeepsKeys | app.py:86-106 | Sign-up keeps ids, usernames and emails unique. |
| Accounts.SignupThenLookup | app.py:98-111 | The new user is found by the new id with a fresh progress row. The same form submitted again is refused as AlreadyExists. |
| Accounts.Database.constructor | app.py:51-53 | The table starts empty. |
| Accounts.Database.Signup | app.py:66-114 | Returns `SignupDecision` on the old table, and the table becomes `AfterSignup`. |
| Accounts.Database.UpdateUsage | app.py:182-209 | Success flag and new table as `UsageUpdate` says. |
| Subtasks.LinesOf | main.py:17 | Every item is non-empty, has no surrounding whitespace and holds no newline. |
| Subtasks.GenerateSubtasks | main.py:7-22 | Every item is well formed. A raised exception (no reply) gives the empty list. |
| Subtasks.LinesOfEmpty | main.py:17 | The empty text gives no sub-task. |
| Subtasks.SingleLine | main.py:17 | A single line gives its stripped form, or nothing when it is blank. |
| Subtasks.LinesOfNewline | main.py:17 | The items of `a + "\n" + b` are those of `a` followed by those of `b`, so order is kept. |
| Subtasks.KeepStrippedAppend | main.py:17 | The filter distributes over concatenation of line lists. |
| Subtasks.LinesOfSpacePrefix | main.py:16-17 | Leading whitespace, newlines included, adds no item. |
| Subtasks.LinesOfSpaceSuffix | main.py:16-17 | Trailing whitespace, newlines included, adds no item. |
| Subtasks.OuterStripRedundant | main.py:16-17 | Stripping the whole reply before splitting changes nothing. |
| Subtasks.BlankReply | main.py:16-17 | A reply of only whitespace and newlines gives the empty list. |
| Subtasks.ReplyOrder | main.py:16-17 | The first line's stripped form, if not blank, comes before all items from the rest of the reply. |
| PyStr.Strip | main.py:16 | No longer than the input, neither end is whitespace, and empty exactly when the input is all whitespace. |
| PyStr.StripParts | main.py:16 | The input is whitespace, then its strip, then whitespace. |
| PyStr.StripUnique | main.py:17 | Any whitespace around a stripped string is exactly what strip removes. |
| PyStr.StripIdempotent | main.py:17 | Strip applied twice is strip applied once. |
| PyStr.SplitLines | main.py:17 | `split('\n')` always yields at least one piece. |
| PyStr.SplitJoin | main.py:17 | The pieces contain no newline, and joining them with newlines gives the input back. |
| PyStr.SplitAtNewline | main.py:17 | Splitting at a newline splits the two sides independently. |
| PyStr.Lower | app.py:73 | Same length. Each character is lower-cased on its own. |

## Left out

- Rendering: `updateTaskLists`, `showSection`, the modal and sign-in
  handlers, `toggleAuthMode`, the progress-bar animation and every other DOM
  write. These are display I/O.
- `updateProgressBar`'s percentage and `total_usage_hours` with its rounding
  are floating point. Only the integer numerator and denominator of the
  progress bars are modelled.
- Network calls: the `fetch` requests, their JSON decoding and the
  60-second usage ping. Only the state change on a reply is modelled
  (`Tasks.TaskList.ApplyGenerated`, `Accounts.Database.UpdateUsage`). The
  client asks `/generate-subtasks` while the server serves
  `/generate_subtasks`. That routing mismatch is not modelled.
- Real time: the interval becomes the flag `intervalActive` and one firing
  becomes `Tick()`. There is no concurrency.
- Flask routing, sessions, `flash`/`redirect`, `login_required`, the login,
  logout and profile routes, Google sign-in, SQLAlchemy commits, `dotenv`
  and the environment checks. These are framework plumbing.
- The password hash is computed by a foreign library and is a parameter of
  `Accounts.Database.Signup`.
- `datetime.utcnow()` becomes the parameter `today`, a day number.
- The call to the text-generation service. Its reply text (or the exception
  it raised) is a parameter.
- Logging: the `console.error` calls in the two `catch` handlers
  (static/scripts.js:209, 370) and the `print` of the exception in
  main.py:21. They only write to a console; the state changes (none on
  failure, the empty list in `Subtasks.GenerateSubtasks`) are modelled.
- `Accounts.Database.Signup`: the user row and its progress row are
  committed separately in the source. The model adds both at once, so a
  failure between the two commits is not modelled.
- `Accounts.Database.Signup`: a missing first name, last name, username or
  email makes the source raise on `.strip()` (a server error); the form here
  always has those four fields. A missing password or confirmation is
  `None`, which the route refuses like an empty field; it is passed as `""`
  here, which `Accounts.SignupDecision` refuses with `MissingField`.
- `PyStr.Lower`: only ASCII letters are lower-cased. Python's `lower()` also
  maps other letters, some of them to several characters.
- `JsNum.ParseInt`: numbers are unbounded integers. Beyond 2^53 a JavaScript
  number loses precision, and that is not modelled.
- `Tasks.TaskList.AddSubTask`, `Tasks.TaskList.ToggleTaskCompletion`,
  `Tasks.TaskList.ToggleSubTaskCompletion` and
  `Tasks.TaskList.GenerationRequest` require an index in range. An
  out-of-range index throws in the handler, and that is not modelled.
- `Tasks.TaskList.DeleteTask`: negative indices, which `splice` counts from
  the end, are not modelled. Indices are natural numbers.
- Progress's `study_hours` column and users' `google_id` column are not
  used by the modelled routes and are not modelled.

# CookieTimer timer state, in Dafny

CookieTimer is an Android kitchen-timer app. Each timer is a row of the Room
table `timers`. The row holds a name, an initial and a remaining duration in
seconds, "running" and "completed" flags, an optional oven temperature, and
the wall-clock time of the last start.

The timer state changes in three places, and this project models all three:

- `TimerService` is a foreground service.
  - It keeps one countdown per running row, in a map keyed by row id.
  - Every time the table emits its rows, the service reconciles that map with them.
  - Its START command only rewrites the stored row. STOP and RESET also cancel and remove that id's countdown.
  - A countdown writes each new whole second back to the row, and finally writes the row as completed.
- `MainActivity` holds the list of records on screen.
  - Each record carries its own UI countdown.
  - Its Start, Stop and Reset buttons change the list element in place and write a copy to the table.
  - Every emission of the table replaces the list.
  - The add dialog validates its text fields and inserts a new row.
- Two list adapters (`TimerAdaptor`, `TimerAdapter`) and a diff callback turn records into cards.
  - A card is the text, colour, temperature and enabled buttons of one record.
  - A card's buttons call back with the record's id.

The project has these modules:

| file | module | models |
|---|---|---|
| `kotlin_std.dfy` | `KotlinStd` | the Kotlin/JVM behaviour the code relies on: `Int`/`Long` ranges and `toInt()` wrap-around, truncating `/`, `%02d`, `toIntOrNull` over the decimal digits of every script that `Character.digit` reads, `trim` |
| `timer.dfy` | `TimerRecord` | the `Timer` entity, its invariants and the completed rewrite |
| `timer_dao.dfy` | `TimerDao` | the DAO as a class over a map from id to row, plus the AUTOINCREMENT sequence |
| `timer_service.dfy` | `TimerService` | the command rewrites, the resumption arithmetic, the reconciliation pass, and class `Service` |
| `main_activity.dfy` | `MainActivity` | the add dialog, the activity's rewrites, the UI countdown, and class `Activity` |
| `timer_adaptor.dfy` | `TimerAdaptor` | the adapter MainActivity uses, including `formatTime` |
| `timer_adapter.dfy` | `TimerAdapter` | the `ListAdapter`: temperature conversion, full and partial binds, and the DiffUtil item callback |
| `timer_diff_callback.dfy` | `TimerDiffCallback` | the positional `DiffUtil.Callback` |

Integers follow Kotlin.
- `Int` and `Long` are the subset types `Int32` and `Int64`.
- Every `toInt()` the code performs is the explicit wrap-around `ToInt`.
- `Long` division truncates toward zero (`Div`).
- `durationMinutes * 60` is an `Int` product, so it wraps for large inputs.

The clock (`System.currentTimeMillis()`) is a parameter `now`. A countdown's
`millisUntilFinished` is a parameter of its tick.

## Model

| member | source | states |
|---|---|---|
| KotlinStd.ToInt | app/src/main/java/com/catto/cookietimer/TimerService.kt:94 | `Long.toInt()` is the identity on the `Int` range and always lands in it |
| KotlinStd.ToIntWraps | app/src/main/java/com/catto/cookietimer/TimerService.kt:94 | `toInt()` keeps the value modulo 2^32 |
| KotlinStd.Div | app/src/main/java/com/catto/cookietimer/TimerService.kt:94 | `Long` division by a positive divisor truncates toward zero: quotient and remainder bounds for both signs |
| KotlinStd.Format02d | app/src/main/java/com/catto/cookietimer/TimerAdaptor.kt:68 | `%02d` of a non-negative number is all digits and reads back as the number; below 100 it is exactly two characters; a negative number is '-' followed by the digits of its magnitude, with no leading zero |
| KotlinStd.ToIntOrNullRoundTrip | app/src/main/java/com/catto/cookietimer/MainActivity.kt:126 | `toIntOrNull` reads back the decimal text of every `Int` |
| KotlinStd.ToIntOrNull | app/src/main/java/com/catto/cookietimer/MainActivity.kt:126 | `String.toIntOrNull()`: an optional sign, then decimal digits whose value fits an `Int`; stated by `ToIntOrNullAccepted`, `ToIntOrNullRoundTrip` and the per-script lemmas below |
| KotlinStd.DigitValue | app/src/main/java/com/catto/cookietimer/MainActivity.kt:126 | `Character.digit(c, 10)`: a value in 0..9 when defined; the ASCII digits read as themselves; no character outside the Basic Multilingual Plane is a digit |
| KotlinStd.DigitValueInRun | app/src/main/java/com/catto/cookietimer/MainActivity.kt:126 | the k-th character of any of the 37 runs of ten decimal digits reads as k |
| KotlinStd.DigitValueOnlyInRuns | app/src/main/java/com/catto/cookietimer/MainActivity.kt:126 | a character is a digit exactly when it lies in one of those runs |
| KotlinStd.ParseDecimalSpec | app/src/main/java/com/catto/cookietimer/MainActivity.kt:126 | the digit loop accepts exactly the texts made of digits of any script, and yields their positional decimal value |
| KotlinStd.AsciiDecimalValue | app/src/main/java/com/catto/cookietimer/MainActivity.kt:126 | on ASCII digits that value is the usual decimal value |
| KotlinStd.ToIntOrNullAccepted | app/src/main/java/com/catto/cookietimer/MainActivity.kt:126 | an accepted text is an optional sign followed by at least one decimal digit of any script, and its value is the signed positional value of those digits |
| KotlinStd.ToIntOrNullOneDigit | app/src/main/java/com/catto/cookietimer/MainActivity.kt:126 | a single digit of any script reads as its digit value |
| KotlinStd.ToIntOrNullTwoDigits | app/src/main/java/com/catto/cookietimer/MainActivity.kt:126 | two digits of any scripts read as ten times the first plus the second |
| KotlinStd.ToIntOrNullArabicIndic | app/src/main/java/com/catto/cookietimer/MainActivity.kt:126 | an Arabic-Indic five reads as 5 |
| KotlinStd.ToIntOrNullFullwidth | app/src/main/java/com/catto/cookietimer/MainActivity.kt:126 | fullwidth one and two after a plus sign read as 12 |
| KotlinStd.ToIntOrNullDevanagari | app/src/main/java/com/catto/cookietimer/MainActivity.kt:126 | a Devanagari seven after a minus sign reads as -7 |
| KotlinStd.ToIntOrNullSupplementary | app/src/main/java/com/catto/cookietimer/MainActivity.kt:126 | a mathematical digit outside the Basic Multilingual Plane, a surrogate pair on the JVM, is rejected |
| KotlinStd.Trim | app/src/main/java/com/catto/cookietimer/MainActivity.kt:124 | `trim()` is no longer than the input and, when not empty, has no whitespace at either end |
| KotlinStd.TrimIsInfix | app/src/main/java/com/catto/cookietimer/MainActivity.kt:124 | the trimmed text is the infix of the input left after removing only whitespace from both ends |
| KotlinStd.TrimEmptyIff | app/src/main/java/com/catto/cookietimer/MainActivity.kt:124 | the trimmed name is empty exactly when every character is whitespace |
| TimerRecord.DefaultTimerIsIdle | app/src/main/java/com/catto/cookietimer/Timer.kt:12-27 | the constructor defaults give an idle record with id 0 that meets the record invariants |
| TimerRecord.Completed | app/src/main/java/com/catto/cookietimer/TimerService.kt:239 | the `copy(remainingTimeSeconds = 0, isRunning = false, isCompleted = true)` rewrite; stated by `CompletedConsistent` |
| TimerRecord.CompletedConsistent | app/src/main/java/com/catto/cookietimer/TimerService.kt:239 | the completed rewrite keeps the id and initial duration, meets the invariants, and is idempotent |
| TimerRecord.IndexOfFirstId | app/src/main/java/com/catto/cookietimer/MainActivity.kt:166 | `indexOfFirst { it.id == timerId }`: the first index holding the id, or -1 when no element holds it |
| TimerRecord.FindById | app/src/main/java/com/catto/cookietimer/TimerService.kt:148 | `find { it.id == timerId }`: the first element with that id, or none exactly when no element has it |
| TimerDao.Updated | app/src/main/java/com/catto/cookietimer/TimerDao.kt:27-28 | `@Update` replaces the row with the record's key; it adds no row, and a missing key changes nothing |
| TimerDao.UpdatedTwice | app/src/main/java/com/catto/cookietimer/TimerDao.kt:27-28 | of two updates of one key, the later one wins |
| TimerDao.UpdatedAllSnoc | app/src/main/java/com/catto/cookietimer/TimerDao.kt:27-28 | a sequence of updates applies them in order |
| TimerDao.DescendingListingUnique | app/src/main/java/com/catto/cookietimer/TimerDao.kt:23-24 | two listings in strictly descending id order with the same members are equal |
| TimerDao.QueryResultUnique | app/src/main/java/com/catto/cookietimer/TimerDao.kt:23-24 | `ORDER BY id DESC` determines the query result from the table |
| TimerDao.QueryResultFind | app/src/main/java/com/catto/cookietimer/TimerDao.kt:23-24 | searching the query result by id finds exactly the stored row |
| TimerDao.TimerTable.constructor | app/src/main/java/com/catto/cookietimer/AppDatabase.kt:26-41 | a new database has no rows and sequence 0 |
| TimerDao.TimerTable.InsertTimer | app/src/main/java/com/catto/cookietimer/TimerDao.kt:18-19 | REPLACE insert. A non-zero id replaces or adds that row. Id 0 gets the next AUTOINCREMENT id, sequence + 1, which is new. A full sequence fails with nothing changed. |
| TimerDao.TimerTable.GetAllTimers | app/src/main/java/com/catto/cookietimer/TimerDao.kt:23-24 | returns every row once, in descending id order, and changes nothing |
| TimerDao.TimerTable.UpdateTimer | app/src/main/java/com/catto/cookietimer/TimerDao.kt:27-28 | the table after the update is `Updated(old rows, t)`, with the sequence unchanged |
| TimerDao.TimerTable.DeleteTimer | app/src/main/java/com/catto/cookietimer/TimerDao.kt:31-32 | removes the row with the record's key and nothing else |
| TimerDao.TimerTable.DeleteTimerById | app/src/main/java/com/catto/cookietimer/TimerDao.kt:35-36 | removes the row with that id and nothing else |
| TimerService.StartedCopy | app/src/main/java/com/catto/cookietimer/TimerService.kt:150-156 | the START rewrite; stated by `StartedCopySpec`, `CommandsKeepConsistent` and `StopAfterStartKeepsProgress` |
| TimerService.StoppedCopy | app/src/main/java/com/catto/cookietimer/TimerService.kt:171 | the STOP rewrite; stated by `CommandsKeepConsistent`, `StopAfterStartKeepsProgress` and `ResetAbsorbs` |
| TimerService.ResetCopy | app/src/main/java/com/catto/cookietimer/TimerService.kt:186 | the RESET rewrite; stated by `CommandsKeepConsistent` and `ResetAbsorbs` |
| TimerService.TickedCopy | app/src/main/java/com/catto/cookietimer/TimerService.kt:227-230 | the tick's rewrite with the whole seconds left; stated by `TickKeepsConsistent` |
| TimerService.StartedCopySpec | app/src/main/java/com/catto/cookietimer/TimerService.kt:150-156 | START runs the record from its initial duration when it was completed and from its remaining time otherwise; it sets the start time and changes nothing else |
| TimerService.CommandsKeepConsistent | app/src/main/java/com/catto/cookietimer/TimerService.kt:150-186 | the START, STOP and RESET rewrites keep the record invariants |
| TimerService.StopAfterStartKeepsProgress | app/src/main/java/com/catto/cookietimer/TimerService.kt:150-171 | STOP after START leaves the record as it was, stopped and with no start time |
| TimerService.ResetAbsorbs | app/src/main/java/com/catto/cookietimer/TimerService.kt:186 | RESET after START, STOP, completion or RESET is the plain RESET |
| TimerService.TickKeepsConsistent | app/src/main/java/com/catto/cookietimer/TimerService.kt:225-231 | a tick within the countdown's span writes a remaining time between 0 and the start value and keeps the invariants |
| TimerService.ResumedRemaining | app/src/main/java/com/catto/cookietimer/TimerService.kt:93-94 | the resumed remaining time is never negative |
| TimerService.ResumedWithoutTimestamp | app/src/main/java/com/catto/cookietimer/TimerService.kt:93-94 | with no start time the elapsed time is 0, and the whole initial duration (at least 0) remains |
| TimerService.ResumedFormula | app/src/main/java/com/catto/cookietimer/TimerService.kt:93-94 | when nothing overflows, the result is `max(0, initial - elapsed/1000)` |
| TimerService.ResumedIgnoresRemaining | app/src/main/java/com/catto/cookietimer/TimerService.kt:94 | resumption counts from the initial duration; the stored remaining time plays no part |
| TimerService.ResumedBounded | app/src/main/java/com/catto/cookietimer/TimerService.kt:93-96 | for an elapsed time under 2^31 s, the result is at most the initial duration, and is 0 exactly when that many seconds have passed |
| TimerService.PausedStartResumesFromInitial | app/src/main/java/com/catto/cookietimer/TimerService.kt:93-98 | a paused record that START stamps with `now` is resumed at once with its full initial duration; when time had already passed, that differs from the remaining time START wrote |
| TimerService.ResumedFromRemaining | app/src/main/java/com/catto/cookietimer/Timer.kt:17 | the resumption the record's comment calls for, from the remaining time: never negative |
| TimerService.RestampedTickCopy | app/src/main/java/com/catto/cookietimer/TimerService.kt:227-230 | the tick write that resumption needs: the whole seconds left, stamped with the tick's instant; stated by `TickedResumesFromRemaining` |
| TimerService.StartResumesFromRemaining | app/src/main/java/com/catto/cookietimer/Timer.kt:17 | resumed at the instant of a START, a record goes on from exactly the remaining time START wrote |
| TimerService.TickedResumesFromRemaining | app/src/main/java/com/catto/cookietimer/TimerService.kt:93-94 | with restamping ticks, a record started at t0 with remaining time R resumes at any later instant with max(0, R - whole seconds since t0), however many ticks were written |
| TimerService.TickedResumeAgreesFromFullDuration | app/src/main/java/com/catto/cookietimer/TimerService.kt:92-94 | for a record started from its full duration, that resumption equals the resumption as written after the ticks as written, so the restart after the service is killed is kept |
| TimerService.ResumeFromRemainingNeedsRestamp | app/src/main/java/com/catto/cookietimer/TimerService.kt:227-231 | a 300 s record ticked at 280 s and resumed 30 s after its start: 270 s as written, 250 s from the remaining time with the tick as written, 270 s with the restamping tick |
| TimerService.ResumedFromRemainingBounded | app/src/main/java/com/catto/cookietimer/Timer.kt:17 | for a clock that has not gone back, the corrected resumption is at most the remaining time, and is 0 exactly when that many seconds have passed |
| TimerService.ResumedWrapsAfterLongAbsence | app/src/main/java/com/catto/cookietimer/TimerService.kt:94 | `toInt()` wraps: a one-minute timer started 2^31 + 61 s earlier resumes with 2^31 - 1 s |
| TimerService.AfterStartCountdown | app/src/main/java/com/catto/cookietimer/TimerService.kt:204-263 | `startCountdownForTimer` on the map: other ids untouched; a countdown of `remaining * 1000` ms exactly when the remaining time is positive |
| TimerService.AfterStartCountdownWellFormed | app/src/main/java/com/catto/cookietimer/TimerService.kt:204-263 | starting a countdown keeps every countdown filed under its own id with time left |
| TimerService.RunningTimers | app/src/main/java/com/catto/cookietimer/TimerService.kt:76 | `filter { it.isRunning }` keeps exactly the running records, is no longer than its input, and keeps unique ids |
| TimerService.RunningTimersCount | app/src/main/java/com/catto/cookietimer/TimerService.kt:76 | the filter keeps each running record as many times as the input holds it, and no other record |
| TimerService.RunningTimersAppend | app/src/main/java/com/catto/cookietimer/TimerService.kt:76 | the filter of a concatenation is the concatenation of the filters, so the input order is kept |
| TimerService.CompletionsSpec | app/src/main/java/com/catto/cookietimer/TimerService.kt:100-103 | the records written back are exactly the completions of expired running records without a countdown |
| TimerService.ResumeAllSpec | app/src/main/java/com/catto/cookietimer/TimerService.kt:90-111 | phase 2, record by record, over distinct ids. Existing countdowns are kept. A record without one gets its resumed countdown exactly when time remains. The writes are the completions. |
| TimerService.ReconciledSpec | app/src/main/java/com/catto/cookietimer/TimerService.kt:76-111 | after the pass, only running ids hold a countdown; countdowns of still-running ids are untouched; every other running record gets its resumed countdown exactly when time remains |
| TimerService.ReconciledWrites | app/src/main/java/com/catto/cookietimer/TimerService.kt:100-103 | the pass writes back the completed copy of every running record that had no countdown and no time left, and nothing else |
| TimerService.ReconciledWellFormed | app/src/main/java/com/catto/cookietimer/TimerService.kt:76-111 | the pass keeps every countdown filed under its own id with positive time |
| TimerService.ReconcileStable | app/src/main/java/com/catto/cookietimer/TimerService.kt:76-111 | a second pass over the same emission at the same instant changes no countdown |
| TimerService.ReconciliationStable | app/src/main/java/com/catto/cookietimer/TimerService.kt:76-111 | any map that meets the reconciliation requirements, reconciled again, is unchanged |
| TimerService.Service.constructor | app/src/main/java/com/catto/cookietimer/TimerService.kt:58-66 | the service starts with no countdowns, over a valid table |
| TimerService.Service.StartCountdownForTimer | app/src/main/java/com/catto/cookietimer/TimerService.kt:204-263 | the map becomes `AfterStartCountdown(old map, timer)` |
| TimerService.Service.StopCountdownForTimer | app/src/main/java/com/catto/cookietimer/TimerService.kt:268-273 | removes that id's countdown and no other |
| TimerService.Service.StopAllActiveTimers | app/src/main/java/com/catto/cookietimer/TimerService.kt:276-282 | empties the map |
| TimerService.Service.Reconcile | app/src/main/java/com/catto/cookietimer/TimerService.kt:76-111 | the map becomes `Reconciled(...).countdowns`, the table receives `Reconciled(...).writes` in order, and the sequence is unchanged |
| TimerService.Service.CancelStaleCountdowns | app/src/main/java/com/catto/cookietimer/TimerService.kt:81-86 | phase 1 keeps exactly the countdowns whose ids are running |
| TimerService.Service.ResumeMissingCountdowns | app/src/main/java/com/catto/cookietimer/TimerService.kt:90-111 | the loop's map and table equal those of `ResumeAll` over the running records |
| TimerService.Service.ResumeIfMissing | app/src/main/java/com/catto/cookietimer/TimerService.kt:91-109 | one step of the loop: the map and the table become those of `ResumeOne` applied after the records already visited |
| TimerService.Service.OnTick | app/src/main/java/com/catto/cookietimer/TimerService.kt:225-235 | writes the ticked copy only when the whole seconds differ from the countdown's record; otherwise the table is unchanged |
| TimerService.Service.OnFinish | app/src/main/java/com/catto/cookietimer/TimerService.kt:237-257 | writes the completed copy and drops the countdown; asks to stop the service exactly when no stored row is running |
| TimerService.Service.StartTimerCommand | app/src/main/java/com/catto/cookietimer/TimerService.kt:144-162 | for an id other than -1 with a stored row, writes the started copy stamped `now`; otherwise changes nothing |
| TimerService.Service.StopTimerCommand | app/src/main/java/com/catto/cookietimer/TimerService.kt:163-177 | for a stored id, drops its countdown and writes the stopped copy; otherwise changes nothing |
| TimerService.Service.ResetTimerCommand | app/src/main/java/com/catto/cookietimer/TimerService.kt:178-192 | for a stored id, drops its countdown and writes the reset copy; otherwise changes nothing |
| TimerService.Service.OnStartCommand | app/src/main/java/com/catto/cookietimer/TimerService.kt:117-195 | always returns `START_STICKY`. STOP_SERVICE empties the map. The three timer actions do as above. Other actions change nothing. STOP or RESET with id -1 or an id not stored change nothing. |
| MainActivity.NewTimerFromInput | app/src/main/java/com/catto/cookietimer/MainActivity.kt:123-155 | the validation and construction of the add dialog; stated by `NewTimerFromInputAccepts`, `NewTimerFromInputSpec` and `NewTimerFromInputRoundTrip` |
| MainActivity.NewTimerFromInputAccepts | app/src/main/java/com/catto/cookietimer/MainActivity.kt:123-130 | the add is accepted exactly when the name has a non-whitespace character and the duration parses to a positive `Int` |
| MainActivity.NewTimerFromInputSpec | app/src/main/java/com/catto/cookietimer/MainActivity.kt:130-139 | an accepted record gets id 0, the trimmed name, equal initial and remaining durations, no flags, no start time, the given temperature and unit Celsius. Below the overflow bound it lasts minutes * 60 seconds and meets the invariants. |
| MainActivity.NewTimerFromInputRoundTrip | app/src/main/java/com/catto/cookietimer/MainActivity.kt:123-139 | a trimmed name and the decimal text of a valid number of minutes give back exactly that timer |
| MainActivity.NewTimerFromInputWraps | app/src/main/java/com/catto/cookietimer/MainActivity.kt:133-134 | 35791395 minutes is accepted, yet `* 60` wraps to a negative duration that breaks the invariants |
| MainActivity.ActivityRewritesMatchService | app/src/main/java/com/catto/cookietimer/MainActivity.kt:172-249 | the activity's start, stop and reset rewrites equal the service's, except that they keep the start time; reset after start is reset |
| MainActivity.ActivityStartResumption | app/src/main/java/com/catto/cookietimer/MainActivity.kt:172-179 | a row the activity starts keeps its old start time. With none, the service resumes it with the full duration. With a stale one older than the duration, the service completes it at once. |
| MainActivity.ActivityRewritesKeepConsistent | app/src/main/java/com/catto/cookietimer/MainActivity.kt:172-249 | stop and reset keep the invariants; start keeps them for a record that has a start time |
| MainActivity.TimerEntry.constructor | app/src/main/java/com/catto/cookietimer/MainActivity.kt:89 | a loaded record enters the list with no UI countdown |
| MainActivity.UiCountdown.constructor | app/src/main/java/com/catto/cookietimer/MainActivity.kt:186 | a created countdown is not yet running |
| MainActivity.UiCountdown.Start | app/src/main/java/com/catto/cookietimer/MainActivity.kt:186-209 | with time to count it runs and changes nothing else. With none, `onFinish` runs inside `start()`: the element and the table hold the completed record. |
| MainActivity.UiCountdown.Cancel | app/src/main/java/com/catto/cookietimer/MainActivity.kt:220 | a cancelled countdown makes no further callbacks |
| MainActivity.UiCountdown.OnTick | app/src/main/java/com/catto/cookietimer/MainActivity.kt:187-190 | the element's remaining time becomes the whole seconds left, and nothing else changes |
| MainActivity.UiCountdown.OnFinish | app/src/main/java/com/catto/cookietimer/MainActivity.kt:192-208 | the element becomes the completed record and drops its countdown; the table receives the completed copy; the countdown stops |
| MainActivity.Activity.constructor | app/src/main/java/com/catto/cookietimer/MainActivity.kt:55-79 | the list starts empty over a valid table |
| MainActivity.Activity.StartTimer | app/src/main/java/com/catto/cookietimer/MainActivity.kt:165-212 | no effect for an unknown id or a running record. Otherwise the first element with the id gets a countdown of time-to-start ms and the table the started copy; with no time it completes at once. Other elements keep their records and countdowns. |
| MainActivity.Activity.StartFound | app/src/main/java/com/catto/cookietimer/MainActivity.kt:168-209 | the start of one element that is not running, as stated for `StartTimer` |
| MainActivity.Activity.StopTimer | app/src/main/java/com/catto/cookietimer/MainActivity.kt:215-235 | no effect unless the first element with the id is running: the records, the countdowns held and the table stay, and a held countdown is not touched. Otherwise its countdown is cancelled and dropped, the element becomes the stopped copy, and the table receives it. |
| MainActivity.Activity.StopFound | app/src/main/java/com/catto/cookietimer/MainActivity.kt:218-233 | the stop of one running element |
| MainActivity.Activity.ResetTimer | app/src/main/java/com/catto/cookietimer/MainActivity.kt:238-256 | no effect for an unknown id. For a known id: stop if running, then the element and the table hold the reset copy (remaining = initial, not completed, not running); an element that was not running keeps its countdown untouched. Other elements keep their countdowns. |
| MainActivity.Activity.ResetListed | app/src/main/java/com/catto/cookietimer/MainActivity.kt:239-255 | the reset of the first element holding a listed id: stop if running, then the reset copy in the element and the table |
| MainActivity.Activity.ResetFound | app/src/main/java/com/catto/cookietimer/MainActivity.kt:243-254 | the in-place reset of one element and the matching table write |
| MainActivity.Activity.CancelAllCountdowns | app/src/main/java/com/catto/cookietimer/MainActivity.kt:87 | every countdown held by the list is cancelled, as in the reload and in `onDestroy` |
| MainActivity.Activity.OnTimersLoaded | app/src/main/java/com/catto/cookietimer/MainActivity.kt:84-90 | cancels every held countdown. The list then holds the emitted records, in order, as fresh elements without countdowns. The table is untouched. |
| MainActivity.Activity.AddTimer | app/src/main/java/com/catto/cookietimer/MainActivity.kt:123-156 | accepted exactly when the input is valid. A valid input is inserted under the next AUTOINCREMENT id. Invalid input, or a failed insert, leaves the table unchanged. |
| TimerAdaptor.FormatTime | app/src/main/java/com/catto/cookietimer/TimerAdaptor.kt:65-69 | for a non-negative time, a minutes:seconds clock text that reads back as that time; five characters below 100 minutes |
| TimerAdaptor.FormatTimeInjective | app/src/main/java/com/catto/cookietimer/TimerAdaptor.kt:65-69 | different non-negative times give different texts |
| TimerAdaptor.TimesUpIsNotATime | app/src/main/java/com/catto/cookietimer/TimerAdaptor.kt:43-52 | "TIME'S UP!" never equals a formatted time |
| TimerAdaptor.GetItemCount | app/src/main/java/com/catto/cookietimer/TimerAdaptor.kt:36 | `timers.size`; stated by `BindCoversEveryItem` |
| TimerAdaptor.OnBindViewHolder | app/src/main/java/com/catto/cookietimer/TimerAdaptor.kt:39-61 | the card of one record; stated by `BindCoversEveryItem`, `CardButtons` and `CardCountdownText` |
| TimerAdaptor.BindCoversEveryItem | app/src/main/java/com/catto/cookietimer/TimerAdaptor.kt:36-61 | every counted position binds the record at that position; its card shows that record's name and calls back with its id |
| TimerAdaptor.CardButtons | app/src/main/java/com/catto/cookietimer/TimerAdaptor.kt:46-48 | Start is enabled exactly when the record is idle and not completed. Stop is enabled exactly when it runs. Reset is always enabled. Start and Stop are never both enabled, and exactly one is for a consistent record that is not completed. |
| TimerAdaptor.CardCountdownText | app/src/main/java/com/catto/cookietimer/TimerAdaptor.kt:43-56 | "TIME'S UP!" in red exactly for a completed record; otherwise the formatted remaining time in blue |
| TimerAdapter.ConvertTemperature | app/src/main/java/com/catto/cookietimer/TimerAdapter.kt:100-106 | the unit conversion; stated by `ConvertTemperatureSpec` and `FahrenheitOrder` |
| TimerAdapter.ConvertTemperatureSpec | app/src/main/java/com/catto/cookietimer/TimerAdapter.kt:100-106 | the symbol is F, GM or C exactly for Fahrenheit, GasMark or any other unit. C keeps the value, F converts back exactly, GM is the gas mark. |
| TimerAdapter.FahrenheitOrder | app/src/main/java/com/catto/cookietimer/TimerAdapter.kt:102 | Fahrenheit keeps the order of temperatures; 0 C gives 32 F and 100 C gives 212 F |
| TimerAdapter.ConvertCelsiusToGasMark | app/src/main/java/com/catto/cookietimer/TimerAdapter.kt:108-115 | every result is one of the eleven gas marks |
| TimerAdapter.ThresholdsReachedMonotone | app/src/main/java/com/catto/cookietimer/TimerAdapter.kt:108-115 | a hotter temperature passes at least as many thresholds |
| TimerAdapter.ThresholdsReachedCount | app/src/main/java/com/catto/cookietimer/TimerAdapter.kt:108-115 | in sorted thresholds, a temperature between the k-th and (k+1)-th has passed exactly k |
| TimerAdapter.GasMarkIsStep | app/src/main/java/com/catto/cookietimer/TimerAdapter.kt:108-115 | the `when` chain is the step function: mark number k for the k thresholds passed; 0.25 below 135 C and 10 from 260 C |
| TimerAdapter.GasMarkMonotone | app/src/main/java/com/catto/cookietimer/TimerAdapter.kt:108-115 | a hotter oven never gets a lower gas mark |
| TimerAdapter.FullBind | app/src/main/java/com/catto/cookietimer/TimerAdapter.kt:61-91 | the full bind of one record; stated by `FullBindSpec` |
| TimerAdapter.FullBindSpec | app/src/main/java/com/catto/cookietimer/TimerAdapter.kt:61-91 | the full bind shows the name and the temperature exactly when there is one. The buttons follow the state. The text is completed-in-red or the time in blue. Clicks carry the id. |
| TimerAdapter.BindWithPayloadsSpec | app/src/main/java/com/catto/cookietimer/TimerAdapter.kt:44-58 | with no payload, the full bind of the current item. Otherwise only the holder's countdown text changes, and for a time that is not negative it reads back as the first payload's time. |
| TimerAdapter.AreItemsTheSame | app/src/main/java/com/catto/cookietimer/TimerAdapter.kt:119-121 | the same row by primary key; stated by `GetChangePayloadSpec` and `TimerDiffCallback.ContentsImplyItems` |
| TimerAdapter.AreContentsTheSame | app/src/main/java/com/catto/cookietimer/TimerAdapter.kt:123-126 | equality of the stored fields; stated by `GetChangePayloadSpec` and `TimerDiffCallback.ContentsImplyItems` |
| TimerAdapter.GetChangePayload | app/src/main/java/com/catto/cookietimer/TimerAdapter.kt:128-141 | the payload as written; stated by `GetChangePayloadSpec` and `RedrawAsWrittenKeepsStaleButtons` |
| TimerAdapter.GetChangePayloadSpec | app/src/main/java/com/catto/cookietimer/TimerAdapter.kt:119-141 | a payload is produced exactly when the remaining time changed, and carries the new time; equal contents mean the same item |
| TimerAdapter.RedrawAsWrittenKeepsStaleButtons | app/src/main/java/com/catto/cookietimer/TimerAdapter.kt:128-141 | as written, resetting a completed record yields a time-only payload; the redrawn card keeps Start disabled and red, unlike a full bind |
| TimerAdapter.RedrawAsWrittenSpec | app/src/main/java/com/catto/cookietimer/TimerAdapter.kt:128-141 | as written, a redraw with no payload is the full bind of the new record; with a payload it is the old card with only the text changed to the new time, which is the full bind of the new record whenever only the remaining time changed on a record that is not completed |
| TimerAdapter.RedrawMatchesFullBind | app/src/main/java/com/catto/cookietimer/TimerAdapter.kt:128-141 | with the payload restricted to pure time changes, every redraw equals the full bind of the new record |
| TimerAdapter.TickKeepsPartialRedraw | app/src/main/java/com/catto/cookietimer/TimerAdapter.kt:128-141 | a tick on a record that is not completed still gets the time-only payload, as written and corrected |
| TimerDiffCallback.TimerDiffCallback.GetOldListSize | app/src/main/java/com/catto/cookietimer/TimerDiffCallback.kt:13 | `oldList.size`; stated by `SameListUnchanged` |
| TimerDiffCallback.TimerDiffCallback.GetNewListSize | app/src/main/java/com/catto/cookietimer/TimerDiffCallback.kt:15 | `newList.size`; stated by `SameListUnchanged` |
| TimerDiffCallback.TimerDiffCallback.AreItemsTheSame | app/src/main/java/com/catto/cookietimer/TimerDiffCallback.kt:19-21 | the same primary key at the two positions; stated by `ContentsImplyItems`, `ItemsMatchAtMostOnce` and `SameListUnchanged` |
| TimerDiffCallback.TimerDiffCallback.AreContentsTheSame | app/src/main/java/com/catto/cookietimer/TimerDiffCallback.kt:25-30 | equal records at the two positions; stated by `ContentsImplyItems` and `SameListUnchanged` |
| TimerDiffCallback.ContentsImplyItems | app/src/main/java/com/catto/cookietimer/TimerDiffCallback.kt:19-30 | equal contents imply the same item; both answers agree with the list adapter's item callback |
| TimerDiffCallback.ItemsMatchAtMostOnce | app/src/main/java/com/catto/cookietimer/TimerDiffCallback.kt:19-21 | over lists with unique ids, a position matches at most one position of the other list |
| TimerDiffCallback.SameListUnchanged | app/src/main/java/com/catto/cookietimer/TimerDiffCallback.kt:13-30 | a list compared with itself has equal sizes, and every position is the same item with the same contents |

## Left out

- The `formatTime` of `TimerAdapter.kt` (lines 93-98) is the same computation as the one in `TimerAdaptor.kt`. Both adapters use `TimerAdaptor.FormatTime`, and `Locale.getDefault()` is taken to print ASCII digits.
- TimerAdaptor.FormatTime: the contract speaks only of times that are not negative. For a negative time it promises only the length and a leading digit or '-'.
- Kotlin data-class equality also compares the `@Ignore` field `countDownTimer`. Records read from Room have it null, so `AreContentsTheSame` compares the stored fields only.
- `Double` is modelled as `real`. This covers the temperature, `toDoubleOrNull` (the temperature is a parsed `Option<real>` parameter) and the `toInt()` of the displayed temperature, whose string resource and truncation are left out.
- Concurrency is left out. Coroutine launches (`Dispatchers.IO`, `serviceScope.launch`, `withContext(Main)`) run to completion in launch order. `collectLatest` cancellation and interleavings between the activity, the service and Room are not modelled.
- The service's reconciliation (`ResumeAll`, `Reconciled`, `Service.Reconcile`) keeps the resumption as written, from the initial duration. The resumption from the remaining time, `ResumedFromRemaining` with the restamping tick `RestampedTickCopy`, is stated beside it and is not wired into the pass or into `Service.OnTick`.
- `TimerService.kt:93` reads the clock twice. Both reads are the single parameter `now`.
- The countdown's one-second interval and its real-time scheduling are left out. Ticks and the finish are calls made by the caller.
- `onFinish` in the service re-reads the table after its write (line 251), and `stopSelf` is the returned flag. `updateForegroundNotificationContent`, notifications, `startForeground`/`stopForeground`, the media player and vibration are platform side effects and are left out.
- The `notifyItemChanged`/`notifyDataSetChanged` calls, the dialogs, toasts, swipe-to-delete (`SwipeToDeleteCallback`) and `onCreateViewHolder` are UI glue and are left out. A swipe deletes through `TimerTable.DeleteTimer`, which is modelled.
- A queued batch of several payloads is modelled as its first element only, which is what line 50 reads. The Bundle is the optional time.
- The `timer_completed_text` string resource is a parameter, `completedText`.
- Exceptions from Room other than a full AUTOINCREMENT sequence are not modelled. The catch blocks only log.
- NotificationHelper.kt, SettingsActivity.kt and SharedPreferencesManager.kt are not part of this model. The temperature unit preference is the parameter `currentTemperatureUnit`. AppDatabase.kt is the table's constructor.
- Logging is left out.

## Findings

| source | as written | input that shows it | evidently intended | confidence | as-written member | corrected member |
|---|---|---|---|---|---|---|
| app/src/main/java/com/catto/cookietimer/TimerAdapter.kt:128-141 | `getChangePayload` returns a time-only payload whenever the remaining time changed, even when other fields changed too; the partial bind then updates only the countdown text | reset of a completed 60 s record: remaining 0 to 60 and completed true to false; the card shows "01:00" but keeps Start disabled and the red colour | a payload only when the remaining time is the only change (on a record that is not completed), so that any other change binds in full, as the comment at lines 136-138 says | medium, not executed | TimerAdapter.RedrawAsWrittenKeepsStaleButtons | TimerAdapter.RedrawMatchesFullBind |
| app/src/main/java/com/catto/cookietimer/TimerService.kt:93-94 | the resumption counts from `initialDurationSeconds`, while START (line 152) keeps the remaining time of a paused record and stamps the start time | a 60 s record paused with 30 s left, then START: the service resumes it with 60 s | the countdown goes on from the remaining time, which the field's comment at `Timer.kt:17` calls the source of truth for resume; each tick write (line 230) then also stamps its instant, so that the elapsed time is counted once | low, not executed | TimerService.PausedStartResumesFromInitial | TimerService.TickedResumesFromRemaining |

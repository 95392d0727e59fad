# Habit tracker deadline engine in Dafny

This project models the deadline engine of the habit tracker's `Database` class
and proves properties about it. The engine does four things:

- **Schedule generation** (`insert_habit`). A habit that starts on `start`, repeats every
  `period` days and lasts `duration` days gets `duration // period + 1`
  back-to-back deadlines. Every deadline starts unchecked.
- **Check-off** (`check_off_habit`). The deadlines are scanned in stored order. The first one whose
  closed span `[from, to]` contains the instant is marked checked off, and the
  instant is recorded as its completion.
- **Streak** (`get_streak`). This is the longest run of consecutive checked-off deadlines.
- **Success rate** (`get_success_rate`). It keeps the deadlines whose end or whose start lies in
  `[now - window days, now]`. The rate is the share of kept deadlines that are checked off,
  and 0 when nothing is kept.

Instants are integers counting microseconds, the resolution of `datetime.now()`.
`timedelta(days = k)` is `Days(k)`, that is `k * 86400` seconds.
The sequence the operations work on is every deadline row stored under the task name,
in the order the `SELECT ... WHERE task = ?` returns them. `habits.task` is not unique
(database.py:46-52), so two habits inserted under one name share one sequence: check-off,
streak and rate then scan both schedules together, and the model's operations accept any such sequence.
The current time and the check-off instant are parameters.

Modules (one per file):

- `Deadline` (`deadline.dfy`): the `Interval` row, the `Error` and `Result` types, and the time unit.
- `Generation` (`generation.dfy`): the schedule and its uniqueness.
- `Resolution` (`resolution.dfy`): first-match check-off, and where an instant lands in a generated schedule.
- `Streaks` (`streaks.dfy`): the streak as the source's loop computes it, proved to be the longest run.
- `Rates` (`rates.dfy`): the window filter and the rate, with the kept set also stated over positions.
- `Scenarios` (`scenarios.dfy`): a weekly habit kept for 30 days, worked through.

Where the model departs from the code, or keeps behaviour that may look unintended:

- **Check-off with no matching deadline.** `id` is assigned inside `check_off_habit`, so
  Python treats it as a local variable. When no deadline matches, line 186 raises
  `UnboundLocalError` before the `UPDATE` runs, and nothing is changed. The model returns
  `Failure(NoMatchingInterval)` instead, and the caller keeps its unchanged sequence.
- **Non-positive period.** The source raises `ZeroDivisionError` for a period of 0, after the habit row is
  inserted. For a negative period, Python's `//` rounds down: with a positive duration the count
  `duration // period + 1` is at most 0 and no deadlines are inserted, but with a duration of 0 or less it is
  positive and the source inserts deadlines that run backward in time (period -7 and duration 0 give one
  deadline `[start, start - 7 days]`; duration -14 gives three). The model rejects every non-positive
  period with `InvalidConfiguration`.
- **Duration.** The duration is not validated, as in the code. A duration of 0 gives one deadline.
  A negative duration gives none, since `duration // period + 1 <= 0` (Dafny's `/` equals
  Python's `//` for a positive divisor).
- **Bounds and order.** Deadlines are closed at both ends and scanned in stored order. They are not re-sorted.
- **Enclosing deadlines.** The rate's filter tests the deadline's two ends, not overlap. A deadline that begins before
  the window and ends after `now` is not counted (`Rates.EnclosingDeadlineIgnored`,
  `Scenarios.EnclosedWindowRatesZero`). The comment at database.py:229 says deadlines
  "partially or completely" stretched over the window are included, so the code disagrees with
  its own comment here. The model keeps the code's behaviour, because that is what the rate reports.

## Model

| member | source | states |
|---|---|---|
| `Generation.IntervalCount` | database.py:108-109 | The number of deadlines is positive exactly when the duration is non-negative. It is then the least count whose periods together reach strictly past the duration. |
| `Generation.Generate` | database.py:108-117 | A non-positive period is rejected with `InvalidConfiguration`. Otherwise there are `IntervalCount` deadlines. All of them are pending, each spans exactly `period` days, and they are contiguous and in time order. The first starts at `start` and the last ends after `start + duration`. |
| `Generation.GenerateIsTheSchedule` | database.py:108-117 | Generation returns exactly the sequences with the schedule's shape, in both directions. The schedule is therefore unique. |
| `Generation.ScheduleStart` | database.py:113 | In any schedule, deadline `k` starts `k * period` days after `start`. |
| `Resolution.FirstMatch` | database.py:175-181 | The scan stops at a deadline that contains the instant (both ends included) with no earlier one containing it. It finds nothing exactly when no deadline contains the instant. |
| `Resolution.CheckOff` | database.py:175-186 | Check-off fails with `NoMatchingInterval` exactly when no deadline contains the instant, including when there are no deadlines. Otherwise only the first containing deadline changes: it becomes checked off with the instant as its completion. |
| `Resolution.CheckOffKeepsSpans` | database.py:183-186 | A check-off changes no deadline's span. Contiguity and time order survive it. |
| `Resolution.FirstMatchBySpans` | database.py:176-181 | Which deadline an instant selects depends only on the deadlines' spans, not on their check-off state. |
| `Resolution.RecheckOverwrites` | database.py:183-186 | When two instants select the same deadline, checking off at both gives the same result as checking off at the second alone: the second check-off only overwrites the completion instant. |
| `Resolution.BoundaryResolvesEarlier` | database.py:179-181 | An instant on the boundary two adjacent deadlines share never selects the later one. |
| `Resolution.GeneratedIsStepped` | database.py:113-114 | Generated deadline `i` spans `[start + i*p, start + (i+1)*p]`, with the period `p` counted in microseconds. |
| `Resolution.SteppedOutside` | database.py:175-179 | An instant before the first start or after the last end of such a schedule lies in no deadline. |
| `Resolution.SteppedInside` | database.py:175-181 | An instant after the first start and no later than the last end selects deadline `(t - start - 1) / p`. |
| `Resolution.ResolveInSchedule` | database.py:175-181 | In a generated schedule, check-off finds a deadline exactly when the instant lies between the first start and the last end. It then finds `(t - start - 1) / p`, or the first deadline for `start` itself, so a boundary instant goes to the earlier deadline. |
| `Streaks.TrailingRun` | database.py:203-208 | The running count after a scan is the length of the maximal run of checked-off deadlines at the end. |
| `Streaks.Streak` | database.py:197-212 | The streak never exceeds the number of deadlines. |
| `Streaks.StreakIsLongestRun` | database.py:197-212 | The recorded maximum is the length of the longest run of consecutive checked-off deadlines. Such a run exists, and no run is longer. |
| `Streaks.GetStreak` | database.py:197-212 | The source loop returns the length of the longest run of consecutive checked-off deadlines. |
| `Streaks.StreakZeroIffNoneChecked` | database.py:197-212 | The streak is 0 exactly when no deadline is checked off. |
| `Streaks.StreakOfAllChecked` | database.py:197-212 | When every deadline is checked off, the streak equals their number. |
| `Streaks.UncheckedResets` | database.py:207-208 | A deadline that is not checked off resets the running count to 0 and leaves the maximum unchanged. |
| `Streaks.CheckedExtends` | database.py:204-206 | A checked-off deadline adds one to the running count. The longest run afterwards is the larger of the old longest run and the extended trailing run. |
| `Streaks.AppendToFullStreak` | database.py:203-206 | Appending a checked-off deadline to fully checked-off ones raises the streak by exactly one. |
| `Streaks.StreakMonotone` | database.py:203-212 | Appending deadlines never lowers the streak. |
| `Rates.Kept` | database.py:230-237 | The filter keeps only deadlines whose end or start lies in the window. It keeps every such deadline. |
| `Rates.CheckedCount` | database.py:239 | The checked-off count never exceeds the number of deadlines. |
| `Rates.KeptCounts` | database.py:230-239 | The number of kept deadlines equals the number of positions whose deadline's end or start lies in the window. The same holds for the checked-off ones among them. |
| `Rates.SuccessRate` | database.py:224-247 | The rate lies in [0, 1]. It is 0 exactly when no kept deadline is checked off, which includes the empty case. It is 1 exactly when deadlines are kept and all of them are checked off. |
| `Rates.RateOverPositions` | database.py:227-247 | The rate equals the checked-off share of the positions whose deadline's end or start lies in `[now - window days, now]`, or 0 when there are none. |
| `Rates.DefaultWindow` | database.py:224 | An absent window and a window of 0 both mean 30 days. |
| `Rates.EnclosingDeadlineIgnored` | database.py:230-237 | A deadline that starts before the window and ends after `now` is not kept. |
| `Scenarios.WeeklyForThirtyDays` | database.py:108-114 | A weekly habit lasting 30 days gets five deadlines, from `start` to day 35. |
| `Scenarios.CheckOffSecondWeek` | database.py:175-186 | An instant at noon on day 9 checks off the second week only. |
| `Scenarios.CheckOffAfterSchedule` | database.py:175-186 | Day 60 lies after the last deadline, so check-off fails with `NoMatchingInterval`. |
| `Scenarios.CheckOffOnBoundary` | database.py:179-181 | Midnight of day 7 checks off the first week, not the second. |
| `Scenarios.CheckOffJustAfterBoundary` | database.py:174-181 | An instant 0.3 seconds after midnight of day 7, as `datetime.now()` can give, checks off the second week. |
| `Scenarios.StreakWithOneGap` | database.py:203-208 | The pattern checked, checked, missed, checked, checked has a streak of 2. |
| `Scenarios.RateOnDayFourteen` | database.py:224-247 | On day 14 the default window keeps three weeks. With only the second week checked off, the rate is 1/3. |
| `Scenarios.EnclosedWindowRatesZero` | database.py:230-237 | With a one-day window on day 3, no week's end or start is in the window. The rate is 0 even though the first week is checked off. |

## Left out

- The SQLite connection, table creation, commits and cursors (database.py:30-71) are I/O with no decision logic.
- `db_search` (database.py:7-22) only composes a SQL string. The `WHERE task = ?` selection is modelled by passing the rows stored under the task name as the sequence.
- Resolution.ResolveInSchedule: assumes the task name was used for only one habit, so that the sequence is one generated schedule. The `Scenarios` lemmas assume the same. With two habits under one name, check-off matches the earlier-inserted habit's deadline first, which `Resolution.FirstMatch` and `Resolution.CheckOff` still describe.
- The `habits` row that `insert_habit` writes (database.py:89-106) is not modelled. Only its deadlines are.
- `list_habits` and `delete_habit` (database.py:122-158) are single `SELECT` and `DELETE` statements with no logic over deadlines.
- Date strings are not modelled: the `%Y-%m-%d` and `%Y-%m-%d %H:%M:%S` parsing and formatting, and calendar arithmetic beyond whole days. A day is a fixed 86400 seconds, and start dates are the instant of their midnight.
- Generation.Generate: returns a schedule for every integer instant and count, while `datetime + timedelta` raises `OverflowError` outside years 1 to 9999 (database.py:113-114), and `timedelta(days = ...)` does so beyond 999999999 days. The model has no calendar range.
- Rates.SuccessRate: computes `now - window days` for every integer, while the source raises `OverflowError` when that instant falls before year 1 (database.py:227).
- The defaults of `insert_habit` are not modelled: a duration of 365 days and a start date of today (database.py:73, 82-85). The start and the duration are always given.
- `datetime.now()` is a parameter: `now` for the rate, and the check-off instant for check-off. `int(duration)` on a non-integer argument is not modelled. The window is `Option<int>`.
- Rates.SuccessRate: computes the exact ratio as a Dafny `real`, not the nearest IEEE double that Python's `/` returns.
- Check-off failure is a typed `NoMatchingInterval` result, not the source's `UnboundLocalError`, and it leaves the sequence as it was.
- Generation.Generate: rejects a negative period, where the source inserts an empty schedule for a positive duration and a backward-running one for a duration of 0 or less.

# Habit tracker: completion ledger, streaks and statistics

The habit tracker keeps, per user, a list of habits and a ledger of completion
records (habit, user, day). From that ledger it derives a current streak (the run of
consecutive days ending at the latest completion, if that was today or yesterday), a
longest streak, completion counts, rates and a seven-day chart. The backend recomputes
these from the stored days; the frontend mock keeps incremental counters instead and
bumps them by one on each toggle. This project models both and proves what each
computes, and where the two disagree.

Modules:

- `Wrappers`, `Seqs`: Option/Result and sequence helpers.
- `Dates`: days as proleptic-Gregorian ordinals (1 is 0001-01-01), the civil (year, month, day) view, and the `YYYY-MM-DD` text.
- `Rounding`: Python's `round(x, 1)`, JavaScript's `Math.round`, and JavaScript division with its Infinity and NaN.
- `Entities`: the records of `backend/models.py`.
- `Streaks`: `backend/utils.py`. `calculate_streaks` is a method with the two loops of `utils.py`, proved equal to a specification function. Lemmas then say what that function means.
- `Store`: the endpoints of `backend/server.py` as a class `HabitStore` whose two fields are the Mongo collections.
- `Mock`: `frontend/src/mock.js`, with each mock habit an object whose toggle changes it in place.
- `ClientStats`, `Calendar`, `Header`: the computations of `StatsOverview.js`, `CalendarView.js` and `Header.js`.

`today` is always a parameter. Dates are day numbers; `Dates.Format` and `Dates.Parse` prove that the string view is one-to-one, and `Dates.DateStringOrder` proves that Python's string `<` on two `YYYY-MM-DD` texts agrees with the order of their days, so sorting the strings sorts the days. Percentages are exact reals rather than binary floats.

## Model

| member | source | states |
|---|---|---|
| Dates.FromOrdinal | backend/utils.py:14 | the parsed date of a day number is a valid civil date that maps back to the same day |
| Dates.FromOrdinalToOrdinal | backend/utils.py:14 | every valid civil date survives the round trip through its day number |
| Dates.ToOrdinalInjective | backend/utils.py:14 | distinct civil dates have distinct day numbers |
| Dates.ParseFormat | backend/utils.py:62 | `strptime("%Y-%m-%d")` of `strftime("%Y-%m-%d")` of a date with a four-digit year gives the date back |
| Dates.FormatParse | backend/utils.py:14 | a string that parses is exactly the formatted text of what it parses to |
| Dates.DateStringInjective | backend/utils.py:11-14 | two days have equal `YYYY-MM-DD` strings exactly when they are the same day |
| Dates.StringLessAppend | backend/utils.py:11 | behind equally long heads, string `<` decides on the heads and falls through to the tails only when the heads are equal |
| Dates.DigitsLess | backend/utils.py:11 | zero-padded numerals of one width compare as strings exactly as their numbers compare |
| Dates.FieldsLess | backend/utils.py:11 | `Y-M-D` texts with equally wide fields compare by year, then month, then day |
| Dates.FormatOrder | backend/utils.py:11 | the `YYYY-MM-DD` text of one civil date is less than another's exactly when the date is earlier by year, month and day |
| Dates.DaysBeforeMonthMonotone | backend/utils.py:14 | a later month of the same year starts after the whole of an earlier month |
| Dates.CivilLessOrdinal | backend/utils.py:14 | a civil date earlier by year, month and day has the smaller day number |
| Dates.DateStringOrder | backend/utils.py:11-14 | the string of one day is less than another's exactly when the day is earlier, so `sorted(..., reverse=True)` on the strings orders the days latest first |
| Dates.DaysInMonth | frontend/src/components/dashboard/CalendarView.js:214 | a month has 28 to 31 days: 29 only for February of a leap year, 30 for April, June, September and November |
| Streaks.SortDescending | backend/utils.py:11 | the sorted dates have the input's length and run latest first |
| Streaks.SortPermutes | backend/utils.py:11 | sorting keeps every date with its number of occurrences |
| Streaks.StreaksOf | backend/utils.py:5-53 | no dates give (0, 0); the current streak never exceeds the longest; the longest of a non-empty list lies in 1..number of dates |
| Streaks.CalculateStreaks | backend/utils.py:5-53 | the two loops return exactly `StreaksOf` of the dates |
| Streaks.StreaksIgnoreOrder | backend/utils.py:11-14 | the result depends only on the multiset of dates, not their order |
| Streaks.CurrentStreakNeedsRecentCompletion | backend/utils.py:17-21 | the current streak is 0 unless the latest date is today or yesterday |
| Streaks.CurrentStreakIsLiveRun | backend/utils.py:21-33 | for distinct dates the current streak is the run latest, latest-1, … all present, and the day just below it is absent |
| Streaks.LongestStreakIsLongestRun | backend/utils.py:36-51 | for distinct non-empty dates some run has the longest streak's length and no run is longer |
| Streaks.LongestGrowsOnBackfill | backend/utils.py:36-51 | adding a day not yet listed to distinct dates never lowers the longest streak |
| Streaks.HabitsCompletedOn | backend/utils.py:66-68 | a day's count is at most the number of habits; its meaning is stated by the next row |
| Streaks.DateLists | backend/utils.py:66-68 | the per-habit date lists handed to the weekly count, one per habit in order |
| Streaks.HabitsCompletedOnCountsHabits | backend/utils.py:66-68 | a day's count is the number of habits whose list holds it; a missing list counts as empty |
| Streaks.GetWeekPerformance | backend/utils.py:55-76 | seven entries dated today-6 … today in ascending order, each counting the habits that list that day |
| Streaks.CompletionRate | backend/utils.py:78-82 | 0 for a zero target, else a whole number of tenths within 0.05 of completed/target·100 |
| Streaks.CompletionRateRange | backend/utils.py:78-82 | within the target the rate is in 0..100; at or past the target it is at least 100, not clamped |
| Streaks.HabitIdsOn | backend/utils.py:84-91 | a day's habit ids are at most one per completion; their meaning is stated by the next row |
| Streaks.HabitIdsOnMembers | backend/utils.py:84-91 | an id is listed for a day exactly when some completion of that habit falls on it |
| Streaks.GroupCompletionsByDate | backend/utils.py:84-91 | the keys are exactly the days that have completions, each mapping to its habit ids in input order |
| Streaks.GroupSizesSumToCount | backend/utils.py:84-91 | the group sizes add up to the number of completions |
| Store.FindOwned | backend/server.py:137-142 | finds a habit with that id and owner, and returns None exactly when the user owns no such habit |
| Store.UserHabits | backend/server.py:83 | the user's habits and nothing else |
| Store.UserCompletions | backend/server.py:273-275 | the user's completions: no more than the ledger, and a record is kept exactly when it belongs to the user |
| Store.CountOn | backend/server.py:278-279 | at most the number of completions, and 0 exactly when no completion falls on that day |
| Store.WithoutHabit | backend/server.py:185 | a record survives `delete_many` exactly when it belongs to another habit |
| Store.HabitDates | backend/server.py:90-95 | a day is listed exactly when the habit has a completion on it |
| Store.ApplyUpdate | backend/server.py:145-150 | every field given a value takes it and every field given None keeps its old value; id, owner and creation time never change |
| Store.ApplyUpdateNothing | backend/server.py:145-146 | an update that sets nothing leaves the habit unchanged, so skipping the write is harmless |
| Store.ApplyUpdateIdempotent | backend/server.py:145-150 | applying the same update twice equals applying it once |
| Store.HabitStore.CreateHabit | backend/server.py:109-128 | appends the new habit, leaves the completions alone, and reports streaks 0, count 0 and no dates |
| Store.CreatedHabitViewIsEmpty | backend/server.py:122-128 | listing a just-created habit gives the same empty figures that create reports |
| Store.HabitStore.UpdateHabit | backend/server.py:130-168 | 404 with nothing changed when the user does not own the habit; otherwise only that habit is updated and it is reported with its figures |
| Store.HabitStore.DeleteHabit | backend/server.py:170-187 | 404 with nothing changed when not owned; otherwise removes that habit and exactly the completions of that habit |
| Store.HabitStore.CompleteHabit | backend/server.py:190-225 | 404 when not owned, 400 when the day is already recorded (nothing changes in either case), otherwise appends exactly that record |
| Store.HabitStore.UncompleteHabit | backend/server.py:227-251 | 404 when not owned, 404 when the day is not recorded (nothing changes), otherwise removes that one record |
| Store.UncompleteRemovesOnlyThat | backend/server.py:242-246 | after removal the record is gone and every other record is still there |
| Store.CompleteUncompleteRestores | backend/server.py:218-246 | recording a new day and then removing it restores the completion list exactly |
| Store.HabitStore.CompleteThenUncomplete | backend/server.py:190-251 | complete followed by uncomplete of a new day leaves both collections as they were |
| Store.HabitView | backend/server.py:86-104 | the view carries the habit, lists exactly the days with a completion of that habit by that user, counts them, and has the streaks of `calculate_streaks`, the current never above the longest |
| Store.Views | backend/server.py:86-104 | one view per habit, in the habits' order |
| Store.HabitStore.ViewOf | backend/server.py:86-104 | the loop body's view is exactly `HabitView` over the stored completions |
| Store.HabitStore.GetHabits | backend/server.py:81-107 | one view per habit of the user, in stored order, with streaks from `calculate_streaks` and the count and list of its completion days |
| Store.CompletionCountIsDays | backend/server.py:95-102 | a listed habit's completion count is the number of distinct days on which that user completed it |
| Store.OwnDatesDistinct | backend/server.py:205-215 | a ledger without repeated records gives each habit distinct days, so the streak meaning lemmas apply |
| Store.HabitStore.GetStatsOverview | backend/server.py:254-320 | no habits gives all zeros and an empty week; otherwise the habit count, the active count, the sum of current streaks, the largest longest streak, the user's completion count, today's count, the mean rate rounded to one decimal, and the week chart |
| Store.HabitStore.FoldViews | backend/server.py:287-306 | the loop's accumulators end as the sum, maximum, count and rate total over the per-habit views |
| Store.SumCurrent | backend/server.py:292 | every habit's current streak is at most the total, which is 0 with no habits |
| Store.SumRates | backend/server.py:299 | with non-negative targets the rate total is non-negative; with positive targets none passed it is at most 100 per habit |
| Store.WeekOf | backend/server.py:309 | seven entries dated today-6 … today, one day apart, each counting at most all habits |
| Store.MaxLongest | backend/server.py:293 | the overall longest streak bounds every habit's and is reached by one (0 with no habits) |
| Store.CountActive | backend/server.py:295-296 | the active count is at most the number of habits, and 0 exactly when no habit has a current streak |
| Store.ActiveAtMostTotalCurrent | backend/server.py:292-296 | the active count never exceeds the total current streak |
| Store.LongestOverallBoundsCurrent | backend/server.py:291-293 | the overall longest streak is at least every habit's current streak |
| Entities.CreateWithDefaults | backend/models.py:42-47 | a create request naming only the habit gets an empty description, colour "#3B82F6", icon "brain" and target 30 |
| Mock.MockHabit.constructor | frontend/src/mock.js:11-69 | a mock habit starts with the given id, target and counters |
| Mock.ToggleState | frontend/src/mock.js:89-101 | when today is listed, today leaves the list, the current streak drops by one but not below 0 and the longest stays; otherwise today is pushed, the current rises by one and the longest becomes the larger of old longest and new current; the longest never decreases |
| Mock.MockHabit.Toggle | frontend/src/mock.js:89-101 | the habit's new state is `ToggleState` of its old state |
| Mock.FindHabit | frontend/src/mock.js:74 | the first habit with the id, and None exactly when no habit has it |
| Mock.GetTodayCompletion | frontend/src/mock.js:72-76 | false for an unknown id; true only when a habit with that id lists today |
| Mock.GetTodayCompletionUniqueIds | frontend/src/mock.js:72-76 | with unique ids: true exactly when a habit with that id lists today |
| Mock.GetHabitProgress | frontend/src/mock.js:78-82 | 0 for an unknown id; otherwise finite exactly for a non-zero target, NaN for a zero target without dates, and a finite value is a whole number within half of completed/target·100, a tie going up |
| Mock.GetHabitProgressBounds | frontend/src/mock.js:78-82 | within a positive target the progress is in 0..100 |
| Mock.MockToggleHabit | frontend/src/mock.js:84-106 | an unknown id changes no habit and returns nothing; otherwise the first matching habit is toggled and returned, no other habit changes, and for a list without repeats today's completion flips |
| Mock.ToggleFlipsToday | frontend/src/mock.js:89-97 | today's membership flips; the list loses exactly today (splice) or gains exactly today (push) and stays free of repeats |
| Mock.ToggleCounters | frontend/src/mock.js:94-101 | the longest streak never decreases; the current streak stays non-negative; it rises by one on completion; un-completing keeps the longest streak |
| Mock.ToggleTwice | frontend/src/mock.js:89-101 | two toggles from "not done today" restore the dates and the current streak; the longest becomes max(old longest, current+1) |
| Mock.CompletingKeepsConsistent | frontend/src/mock.js:96-101 | when the counters equal the backend's recomputation, completing today keeps both equal |
| Mock.UncompletingKeepsCurrent | frontend/src/mock.js:92-94 | from a consistent state, un-completing today keeps the current streak equal to the backend's |
| Mock.UncompletingCanLeaveLongestStale | frontend/src/mock.js:92-94 | a concrete state where un-completing leaves the mock's longest streak at 2 while the backend recomputes 1 |
| ClientStats.DaysRemaining | frontend/src/components/dashboard/StatsOverview.js:38 | never negative, equal to target minus completions when that is positive, and 0 exactly when the target is reached |
| ClientStats.Badge | frontend/src/components/dashboard/StatsOverview.js:56 | "default" exactly from 80 up, "outline" exactly below 50, "secondary" otherwise; NaN compares false |
| ClientStats.BadgeThresholds | frontend/src/components/dashboard/StatsOverview.js:37-56 | for a positive target the badge is "default" exactly when completions reach 79.5% of the target, and not "outline" exactly from 49.5% |
| ClientStats.BadgeOfZeroTarget | frontend/src/components/dashboard/StatsOverview.js:37-56 | with a zero target the rate is NaN without completions (outline) and Infinity with some (default) |
| ClientStats.CardRate | frontend/src/components/dashboard/StatsOverview.js:37 | finite exactly for a non-zero target, NaN exactly for a zero target without completions, and in 0..100 within a positive target |
| ClientStats.TotalCompletions | frontend/src/components/dashboard/StatsOverview.js:75 | every habit's completion count is at most the total, which is 0 with no habits |
| ClientStats.TotalCurrentStreak | frontend/src/components/dashboard/StatsOverview.js:76 | 0 with no habits; with non-negative counters the total is non-negative and bounds every habit's streak |
| ClientStats.LongestStreak | frontend/src/components/dashboard/StatsOverview.js:77 | -Infinity exactly when there are no habits; otherwise the largest longest streak, reached by some habit |
| ClientStats.RatioSum | frontend/src/components/dashboard/StatsOverview.js:79-81 | the sum of ratios is finite exactly when no target is zero |
| ClientStats.AvgCompletionRate | frontend/src/components/dashboard/StatsOverview.js:78-82 | finite exactly when there are habits and none has a zero target, and then the whole number within half of the mean ratio·100, a tie going up |
| ClientStats.AvgCompletionRateOfNothing | frontend/src/components/dashboard/StatsOverview.js:78-82 | with no habits the average is NaN |
| ClientStats.AvgCompletionRateBounds | frontend/src/components/dashboard/StatsOverview.js:78-82 | with positive targets the average is a finite non-negative whole percentage, at most 100 when no habit is past its target |
| ClientStats.ZeroTargetSpoilsAverage | frontend/src/components/dashboard/StatsOverview.js:78-82 | a single zero-target habit makes the average not finite |
| ClientStats.CompletedOn | frontend/src/components/dashboard/StatsOverview.js:86-88 | the habits listing a day are at most all habits |
| ClientStats.CompletedOnAtMostTotal | frontend/src/components/dashboard/StatsOverview.js:75-88 | today's count never exceeds the total number of completions |
| ClientStats.ActiveStreaks | frontend/src/components/dashboard/StatsOverview.js:91 | at most all habits, and 0 exactly when no habit has a positive streak |
| ClientStats.ActiveAtMostTotalStreak | frontend/src/components/dashboard/StatsOverview.js:76-91 | with non-negative counters the active count never exceeds the total current streak |
| ClientStats.ThisWeek | frontend/src/components/dashboard/StatsOverview.js:94-107 | seven entries dated today-6 … today in order, each counting the habits that list that day |
| ClientStats.CompletedOnMatchesBackend | frontend/src/components/dashboard/StatsOverview.js:99-101 | the page's daily count equals the backend's `get_week_performance` count over the same lists |
| ClientStats.ConsistencyScore | frontend/src/components/dashboard/StatsOverview.js:236 | NaN for no habits, otherwise a whole number in 0..100 within half of active/total·100, a tie going up |
| Calendar.Visited | frontend/src/components/dashboard/CalendarView.js:40-44 | a day is visited exactly when some habit lists it; a missing list counts as empty |
| Calendar.FirstOccurrences | frontend/src/components/dashboard/CalendarView.js:39-45 | the Set's contents in insertion order hold the same days, each once |
| Calendar.GetAllCompletionDates | frontend/src/components/dashboard/CalendarView.js:38-46 | each day that some habit lists appears exactly once, in first-seen order |
| Calendar.HabitsForDate | frontend/src/components/dashboard/CalendarView.js:49-54 | a habit is returned exactly when its list holds the day; a missing list holds nothing |
| Calendar.HabitsForDateAppend | frontend/src/components/dashboard/CalendarView.js:51-53 | the filter keeps the habits' original order |
| Calendar.HabitsForDateCount | frontend/src/components/dashboard/CalendarView.js:49-54 | the number of habits shown for a day equals the backend's weekly count for it |
| Calendar.MonthDates | frontend/src/components/dashboard/CalendarView.js:208-212 | a day is kept exactly when the habit lists it and it falls in the selected month and year |
| Calendar.MonthCompletions | frontend/src/components/dashboard/CalendarView.js:208-212 | at most the habit's listed days, and 0 exactly when none of them falls in the month |
| Calendar.MonthCompletionsIgnoreOtherMonths | frontend/src/components/dashboard/CalendarView.js:208-212 | adding a day of another month, before or after, changes nothing |
| Calendar.NextMonthFirst | frontend/src/components/dashboard/CalendarView.js:214 | `new Date(year, month + 1, ...)` rolls December over into January of the next year and gives a valid first of the month |
| Calendar.NextMonthStart | frontend/src/components/dashboard/CalendarView.js:214 | the first of the next month has the day number one past this month's last day |
| Calendar.DayZeroIsLastDay | frontend/src/components/dashboard/CalendarView.js:214 | the day before the first of the next month is the last day of this month |
| Calendar.JsDaysInMonth | frontend/src/components/dashboard/CalendarView.js:214 | `new Date(year, month + 1, 0).getDate()` is the Gregorian length of the month |
| Calendar.MonthRate | frontend/src/components/dashboard/CalendarView.js:215 | finite, a whole number, and the nearest whole percentage of month completions over month length, ties going up |
| Calendar.MonthRateBounds | frontend/src/components/dashboard/CalendarView.js:208-215 | for a habit with distinct days the monthly rate is finite and in 0..100 |
| Header.Split | frontend/src/components/dashboard/Header.js:21 | at least one piece, none containing a space |
| Header.SplitJoin | frontend/src/components/dashboard/Header.js:21 | joining the pieces with spaces gives the name back |
| Header.JoinSplit | frontend/src/components/dashboard/Header.js:21 | splitting a space-join of space-free pieces gives those pieces back |
| Header.FirstLettersOfWords | frontend/src/components/dashboard/Header.js:22-23 | the joined letters are exactly the first letters of the non-empty pieces, in order |
| Header.Upper | frontend/src/components/dashboard/Header.js:24 | same length, each character upper-cased |
| Header.UpperIdempotent | frontend/src/components/dashboard/Header.js:24 | upper-casing twice is upper-casing once |
| Header.GetInitials | frontend/src/components/dashboard/Header.js:19-25 | never empty; "U" for a missing name; otherwise "U" or at most one letter per `split(' ')` piece |
| Header.InitialsOfBlankName | frontend/src/components/dashboard/Header.js:20-24 | an empty or all-space name gives "U" |
| Header.InitialsAreWordStarts | frontend/src/components/dashboard/Header.js:20-24 | any other name gives one upper-cased letter per non-empty piece, its first, in order |
| Rounding.RoundHalfEven | backend/server.py:318 | within half of x, and on an exact tie the even neighbour |
| Rounding.JsDivide | frontend/src/components/dashboard/StatsOverview.js:37 | finite exactly for a non-zero divisor and then the quotient; NaN for 0/0; Infinity of the dividend's sign otherwise |
| Rounding.JsAdd | frontend/src/components/dashboard/StatsOverview.js:79-81 | finite exactly when both are, and then the sum; NaN absorbs |
| Rounding.JsScale | frontend/src/components/dashboard/StatsOverview.js:82 | multiplying by a positive constant keeps finiteness, scales a finite value and leaves Infinity and NaN alone |
| Rounding.JsMathRound | frontend/src/components/dashboard/StatsOverview.js:37 | a finite number rounds to an integer within half of it; Infinity and NaN stay as they are |
| Rounding.JsPercent | frontend/src/mock.js:81 | finite for a non-zero whole; with a zero whole it is NaN for a zero part and Infinity for a positive one; the finite value is the nearest whole percentage, ties going up |
| Rounding.JsPercentBounds | frontend/src/components/dashboard/StatsOverview.js:37 | a part within its positive whole is a percentage in 0..100 |
| Rounding.RoundTenths | backend/server.py:318 | `round(x, 1)` is a whole number of tenths within 0.05 of x, and on an exact half it is the even tenth |

## Left out

- Mongo and Motor I/O, async/await, FastAPI routing, CORS, logging, and startup and shutdown. The two collections are the sequence fields of `HabitStore`.
- The `to_list(100)`, `to_list(1000)` and `to_list(10000)` caps. The model reads every record.
- Authentication: JWT, password hashing, `get_current_user`, and the login pages. The current user is a parameter.
- `frontend/src/services/api.js` holds only request wrappers. `backend/models.py` provides only the shapes and defaults in `Entities` (target 30, icon "brain", colour "#3B82F6", empty description). A `description` of None in a create request is not modelled: descriptions are strings.
- Wall-clock reads (`datetime.now()`, `new Date()`) are replaced by the `today` parameter. UUID and timestamp generation are replaced by the `id` and `createdAt` parameters.
- Store.HabitStore.CreateHabit: requires the new id to be unused. This stands for `uuid4` freshness.
- Store.HabitStore.UpdateHabit, Store.HabitStore.DeleteHabit: `update_one`, `delete_one` and `delete_many` filter by habit id alone after the ownership check. The model removes or updates the owned record. Under the store invariant `Valid` (unique habit ids, every completion owned by its user, no repeated records) the two agree.
- Time zones: `toISOString` works in UTC while `getMonth` and `getFullYear` work in local time. The model treats all dates in one calendar.
- Weekday labels (`strftime('%a')`, `toLocaleDateString`) are locale text. `WeekEntry` carries only the date and the count.
- Floating point: percentages are exact reals. `round(x, 1)` is round-half-even on exact tenths, and `Math.round` is floor(x + 0.5).
- Date strings are day numbers. `strptime` leniency, malformed strings and string dates that the server stores without checking are not modelled. `Dates.Format` and `Dates.Parse` show that the `YYYY-MM-DD` view is one-to-one for years up to 9999.
- Streaks.GetWeekPerformance: requires `today > 6`. In Python, subtracting six days from an earlier date overflows.
- Store.HabitStore.GetStatsOverview: requires `today > 6` only when the user has habits, since the no-habit answer returns before the week is computed.
- ClientStats.ThisWeek: requires `today > 6`, because days before 0001-01-01 are not day numbers here. JavaScript dates would go on into year 0.
- Calendar.JsDaysInMonth: requires a year of at least 1, for the same reason.
- Streaks.CurrentStreakIsLiveRun, Streaks.LongestStreakIsLongestRun: stated for distinct dates only.
  - With repeated dates, a repeated day after a one-day gap passes through the gap branch and is counted again. The result is still exactly `StreaksOf`.
  - The 400 check of `complete_habit` keeps a habit's days distinct (`Store.OwnDatesDistinct`).
- Mock.GetTodayCompletion: its own contract gives one direction for any list. Both directions are proved when ids are unique (`Mock.GetTodayCompletionUniqueIds`). With repeated ids, `find` reads only the first habit.
- Mock.MockToggleHabit: the membership flip is stated for a list without repeats. On a list with repeats, splice removes only the first copy of today.
- The mock habits' display fields (name, description, colour, icon, creation date) are not modelled, since no computation reads them.
- `StatsOverview.js` reads the mock habits as value snapshots (`ShownHabit`). `CalendarView.js` reads the listed habits as `CalendarHabit` values.
- Upper-casing covers ASCII letters only. Strings are sequences of characters, not UTF-16 code units.
- React rendering, hooks, dialogs and toasts are not modelled. `AddHabitDialog.js`, `HabitsList.js`, `Dashboard.js` and `AuthPage.js` are not part of this model.

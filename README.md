# HabitQuest core in Dafny

HabitQuest is a habit tracker. Each habit keeps a list of dated entries,
and each entry is marked completed or not. From those entries the app derives:

- a current streak and a longest streak;
- experience points and a level;
- a seven-day strip per habit;
- a 91-day heat map;
- completion totals per category;
- a summary that is sent to a language model for advice.

This project models that logic and proves what it promises:

- **Streaks and levels** (`utils/habitUtils.ts`): module `Streaks` and module `Leveling`.
- **Toggling, adding and deleting habits** (`App.tsx`): class `App.HabitStore`. It holds the habit list and the experience, and its methods update them in place.
- **Header counters** (`App.tsx`): pure functions of module `App`.
- **Derived views**: modules `HabitCard`, `Heatmap` and `StatsOverview`, for the components of those names.
- **Analysis request** (`services/geminiService.ts`): module `GeminiService`. The model call itself is a function parameter.
- **Shared data** (`types.ts`): module `HabitTypes` holds the record types and the queries on entries that several views share. Module `Wrappers` holds `Option` and `Result`.

Dates are whole day numbers (`Day = int`), with consecutive days differing by one. Today's date is always a parameter.

Three behaviours of the code are easy to misread, and the model states each of them as the code has it:

- **Current streak.** The streak is anchored at yesterday when today is not completed. So completions on days 1, 2 and 5 give a current streak of 1 on day 6, not 0 (`Streaks.AnchoredAtYesterday`).
- **Longest versus current.** The longest streak is at least the current one only while the completed dates are distinct. A repeated completed day resets the ascending scan and can leave the longest streak below the current one (`Streaks.DuplicateDayBreaksLongest`). The toggle handler never creates a second entry for a day (`App.TogglePreservesUniqueDates`), so this needs stored data that already has duplicates.
- **Analysis reply.** The reply of the analysis is not validated, only cast (`GeminiService.ReplyIsNotValidated`).

## Model

| member | source | states |
|---|---|---|
| HabitTypes.CompletedDates | utils/habitUtils.ts:7-9 | the completed dates hold at most one date per entry, and every date listed is a completed day |
| HabitTypes.CompletedDatesMembership | utils/habitUtils.ts:7-9 | a day is among the completed dates exactly when some entry for that day is completed |
| HabitTypes.CompletedDatesDistinct | utils/habitUtils.ts:7-9 | with one entry per day, the completed dates are pairwise distinct |
| HabitTypes.CompletedDatesCount | utils/habitUtils.ts:7-9 | a day occurs among the completed dates as often as a completed entry for it occurs among the entries |
| HabitTypes.CompletedDatesOfPermutation | utils/habitUtils.ts:7-9 | reordering the entries only reorders the completed dates |
| HabitTypes.FindEntry | App.tsx:72 | the index of the first entry for the date, and -1 exactly when no entry has that date |
| HabitTypes.FlagOf | components/HabitCard.tsx:22-26 | the flag of the first entry for a day (false when none) is set only if that day is completed |
| HabitTypes.FlagOfUniqueDates | components/HabitCard.tsx:22-26 | with one entry per day, the flag of the first entry for a day (false when none) is whether that day is completed |
| HabitTypes.DayWindowShape | components/HabitCard.tsx:18-21 | a window of n days ends today, rises by one day per position and holds exactly the days in (today-n, today] |
| HabitTypes.CompletedCountFull | App.tsx:95-96 | the number of habits completed on a day equals the number of habits exactly when every habit is completed that day |
| Streaks.Sort | utils/habitUtils.ts:33 | the ascending sort returns a sorted permutation of the dates |
| Streaks.SortedUnique | utils/habitUtils.ts:33 | two sorted sequences with the same elements are equal, so the sort's result does not depend on the input order |
| Streaks.CountBack | utils/habitUtils.ts:24-30 | counting back from day d gives n such that every day in (d-n, d] is completed and day d-n is not |
| Streaks.CurrentStreak | utils/habitUtils.ts:18-30 | the current streak is zero exactly when neither today nor yesterday is completed |
| Streaks.CurrentStreakMeaning | utils/habitUtils.ts:18-30 | the current streak counts back from today if today is completed, else from yesterday, and stops at the first missing day |
| Streaks.RunEndingAt | utils/habitUtils.ts:36-47 | the scan's running streak at position i is a run of consecutive days ending there, of length 1..i+1 |
| Streaks.LongestRunIsLongest | utils/habitUtils.ts:33-50 | the longest streak is the length of a run of consecutive days that occurs in the sorted dates, and no such run is longer |
| Streaks.LongestStreak | utils/habitUtils.ts:33-50 | the longest streak is 0 for no completions and otherwise between 1 and the number of completed dates |
| Streaks.StreaksDependOnlyOnCompletedDays | utils/habitUtils.ts:7-10 | both streaks depend only on the multiset of completed dates |
| Streaks.StreaksOfReorderedEntries | utils/habitUtils.ts:7-10 | reordering a habit's entries changes neither streak |
| Streaks.SortOfDistinctIncreases | utils/habitUtils.ts:33 | distinct dates sort into a strictly increasing sequence |
| Streaks.ConsecutiveDaysFormRun | utils/habitUtils.ts:36-47 | in strictly increasing dates, c consecutive completed days starting at lo sit at consecutive positions |
| Streaks.CurrentAtMostLongest | utils/habitUtils.ts:22-50 | with distinct completed dates, current streak <= longest streak <= number of completed dates |
| Streaks.StreakBoundsForHabit | utils/habitUtils.ts:4-53 | for a habit with one entry per day, current <= longest <= number of completed days |
| Streaks.WindowCurrent | utils/habitUtils.ts:18-30 | n consecutive completed days ending today give a current streak of n |
| Streaks.WindowLongest | utils/habitUtils.ts:33-50 | n consecutive completed days give a longest streak of n |
| Streaks.ConsecutiveDaysEndingToday | utils/habitUtils.ts:4-53 | n completed entries for the n days ending today give current = longest = n |
| Streaks.FiveDaysEndingToday | utils/habitUtils.ts:4-53 | five completed days ending today give current 5 and longest 5 |
| Streaks.AnchoredAtYesterday | utils/habitUtils.ts:18-30 | completions on today-5, today-4 and today-1 give current 1 (anchored at yesterday) and longest 2 |
| Streaks.DuplicateDayBreaksLongest | utils/habitUtils.ts:36-47 | completions on today-2, today-1, today-1 and today give current 3 but longest 2, because the repeated day resets the scan |
| Streaks.CountCurrent | utils/habitUtils.ts:24-30 | the while loop that walks back one day at a time returns the count-back from its start day |
| Streaks.ScanLongest | utils/habitUtils.ts:33-50 | the loop over the ascending dates returns the longest run of consecutive days |
| Streaks.CalculateStreak | utils/habitUtils.ts:4-53 | returns the current and longest streak of the completed dates, and (0, 0) when none is completed |
| Leveling.XpForLevel | utils/habitUtils.ts:55 | advancing from a level costs at least 100 points per level number |
| Leveling.XpForLevelIncreases | utils/habitUtils.ts:55 | each level costs strictly more than the one before |
| Leveling.XpForLevelMonotone | utils/habitUtils.ts:55 | a higher level always costs more |
| Leveling.XpToReachMonotone | utils/habitUtils.ts:57-64 | the total experience needed to reach a level grows with the level |
| Leveling.CalculateLevel | utils/habitUtils.ts:57-64 | returns the level whose threshold is reached while the next one is not, and the percentage towards the next level, which lies in [0, 100) for non-negative experience |
| Leveling.LevelMonotone | utils/habitUtils.ts:57-64 | more experience never gives a lower level |
| Leveling.LevelUnique | utils/habitUtils.ts:57-64 | the level for an amount of experience is unique |
| Leveling.LevelExamples | utils/habitUtils.ts:57-64 | 0 points is level 1 with 0% progress; 100 points is level 2 with 0% progress |
| App.ToggleEntries | App.tsx:72-82 | toggling removes no entry, adds at most one, changes no entry's date, and leaves an entry for the toggled date |
| App.ToggleNegatesFlag | App.tsx:72-82 | toggling negates the flag of the first entry for the date, even when later entries repeat that date |
| App.ToggleEntriesShape | App.tsx:72-82 | an existing entry for the date has its flag negated and all else is unchanged; without one, a completed entry for the date is appended |
| App.TogglePreservesUniqueDates | App.tsx:72-82 | toggling keeps one entry per day |
| App.ToggleFlipsCompletion | App.tsx:72-82 | with one entry per day, toggling a date flips whether it is completed |
| App.ToggleTwiceRestores | App.tsx:72-82 | toggling the same date twice restores whether it is completed |
| App.ToggleKeepsOtherDays | App.tsx:72-82 | toggling a date leaves the completion of every other day unchanged |
| App.Rewarded | App.tsx:84-87 | a rewarded toggle is a toggle of today that leaves the day's first entry completed |
| App.RewardedMeansCompletedToday | App.tsx:84-87 | with one entry per day, the bonus is paid exactly when the toggled date is today and moves it from not completed to completed |
| App.ToggledHabits | App.tsx:69-70 | the list keeps its length and every position keeps its habit's id |
| App.ToggledHabitsShape | App.tsx:69-70 | habits with another id come back unchanged and in place; the matching habit changes only its entries, which are toggled |
| App.Rewards | App.tsx:84-87 | at most one bonus per habit, and none when no habit has the toggled id |
| App.RewardsOnlyForToday | App.tsx:84-87 | toggling a date other than today pays no bonus |
| App.RewardsAtMostOne | App.tsx:66-91 | with distinct ids one toggle pays at most one bonus, and pays one exactly when the habit with the id exists and its toggle is rewarded |
| App.ToggledHabitsPreserveUniqueDates | App.tsx:69-82 | toggling keeps one entry per day in every habit |
| App.TrimStart | App.tsx:42 | dropping leading white space leaves a suffix of the name that is empty or starts with a non-white-space character |
| App.TrimEnd | App.tsx:42 | dropping trailing white space leaves a prefix of the name that is empty or ends with a non-white-space character |
| App.Trim | App.tsx:42 | the trimmed name is no longer than the name and neither starts nor ends with white space |
| App.TrimEmptyIffBlank | App.tsx:42 | the trimmed name is empty exactly when the name consists only of whitespace |
| App.WithoutId | App.tsx:60 | no habit with the deleted id is left, and the list does not grow |
| App.WithoutIdMembers | App.tsx:60 | a habit survives deletion exactly when it was in the list and has another id |
| App.WithoutIdAppend | App.tsx:60 | deletion filters each part of the list separately, so the survivors keep their order |
| App.WithoutAbsentId | App.tsx:60 | deleting an id that no habit has leaves the list as it was |
| App.DailyCompletions | App.tsx:122 | the day's completions never exceed the habits, and equal their number exactly when every habit is completed today |
| App.DailyGoal | App.tsx:123 | the goal is never 0, so the percentage shown is always defined |
| App.AllDoneToday | App.tsx:95-96 | when the celebration fires, the day's completions equal the goal |
| App.DailyCounterBounds | App.tsx:122-123 | the day's completions lie between 0 and the goal; the goal is the number of habits, or 1 for an empty list |
| App.AllDoneMeansGoalReached | App.tsx:95-96 | the celebration fires exactly when the list is non-empty and the day's completions reach the goal |
| App.HabitStore.constructor | App.tsx:14-21 | starts from the stored habits and experience, or from no habits and 0 points when nothing is stored |
| App.HabitStore.ToggleHabit | App.tsx:66-91 | the new list is the toggled list; experience grows by 10 per bonus and never falls; distinct ids, one entry per day and non-negative experience are preserved; from a valid store experience grows by 0 or 10, and by 10 exactly when the habit with the id exists and its toggle is rewarded |
| App.ToggleAll | App.tsx:69-89 | the pass over the list yields the toggled list and 10 points per rewarded toggle |
| App.ToggleOne | App.tsx:72-88 | one habit's entry for the date is flipped, or a completed entry is appended, and the bonus is reported exactly when the toggle is rewarded |
| App.ToggleKeepsStoreInvariant | App.tsx:66-91 | on a list with distinct ids and one entry per day, a toggle keeps both and pays one bonus exactly when the habit's toggle is rewarded, none otherwise |
| App.ToggledHabitsKeepDistinctIds | App.tsx:69-70 | toggling keeps the ids of the habits distinct |
| App.WithoutIdKeepsDistinctIds | App.tsx:60 | deleting keeps the ids of the habits distinct |
| App.HabitStore.AddHabit | App.tsx:40-56 | given an id no habit has yet, a blank name changes nothing; otherwise a habit with the fresh id and no entries goes in front of the list; experience is unchanged and the store stays valid |
| App.HabitStore.DeleteHabit | App.tsx:58-62 | after confirmation the habits with the id are removed and the rest keep their order; without confirmation nothing changes; experience is unchanged and a valid store stays valid |
| HabitCard.IsCompletedToday | components/HabitCard.tsx:15 | the card shows today as done exactly when today is among the habit's completed dates |
| HabitCard.Last7Days | components/HabitCard.tsx:18-28 | the strip holds seven consecutive days in ascending order, ending today |
| HabitCard.Last7DaysWindow | components/HabitCard.tsx:22-26 | a day of the strip is marked exactly when its first entry is completed |
| HabitCard.CellMarkedMeansCompleted | components/HabitCard.tsx:22-26 | a marked day is completed; with one entry per day the converse holds too |
| HabitCard.TodayCellMatchesButton | components/HabitCard.tsx:15-28 | with one entry per day, today's square agrees with the "Done!" button |
| HabitCard.DuplicateTodayDisagrees | components/HabitCard.tsx:15-26 | with an entry for today that is not completed followed by one that is, the button shows done while the square stays blank |
| HabitCard.BonusHintMatchesReward | components/HabitCard.tsx:87-91 | with one entry per day, the "+10 XP" hint shows exactly when toggling today pays the bonus |
| Heatmap.Dates | components/Heatmap.tsx:10-17 | the map shows 91 consecutive days, oldest first, ending today |
| Heatmap.DatesWindow | components/Heatmap.tsx:10-17 | the map holds exactly the days from 90 days ago to today |
| Heatmap.GetCompletionCount | components/Heatmap.tsx:19-23 | the count for a day never exceeds the number of habits |
| Heatmap.GetColor | components/Heatmap.tsx:25-31 | a non-negative count gets the blank shade exactly when it is 0, and 3 or more completions get the darkest shade |
| Heatmap.CountZeroIffNone | components/Heatmap.tsx:19-23 | the count for a day is 0 exactly when no habit was completed on it |
| Heatmap.BlankIffNothingCompleted | components/Heatmap.tsx:19-31 | a square is blank exactly when no habit was completed on its day |
| Heatmap.ColorBuckets | components/Heatmap.tsx:25-31 | a non-negative count lands in shade min(count, 3); only a negative count reaches the fallback shade |
| Heatmap.ColorMonotone | components/Heatmap.tsx:25-31 | a larger count never gets a lighter shade |
| Heatmap.CountAppend | components/Heatmap.tsx:19-23 | the count over two lists of habits is the sum of their counts |
| Heatmap.CountIgnoresOtherDays | components/Heatmap.tsx:19-23 | toggling any habit on another day leaves the count for a day unchanged |
| Heatmap.CountIgnoresOrder | components/Heatmap.tsx:19-23 | the count does not depend on the order of the habits |
| StatsOverview.AddToTally | components/StatsOverview.tsx:13-15 | one reduce step keeps the existing keys in order, adds at most the habit's category at the end, gives that category at least the habit's completions, and leaves other categories' values alone |
| StatsOverview.CategoryStats | components/StatsOverview.tsx:12-16 | the reduction yields distinct keys, each with a value |
| StatsOverview.StatsPerCategory | components/StatsOverview.tsx:12-16 | a category has an entry exactly when some habit has it, and its value is the total of completed entries of that category's habits |
| StatsOverview.StatsSumToTotal | components/StatsOverview.tsx:12-16 | the values sum to the completed entries of all habits |
| StatsOverview.StatsKeyOrder | components/StatsOverview.tsx:12-16 | the categories appear in the order of their first habit |
| StatsOverview.Data | components/StatsOverview.tsx:18 | no category gets two bars |
| StatsOverview.DataCategories | components/StatsOverview.tsx:12-18 | there is a bar for a category exactly when some habit has it, its value is that category's total, and there are no bars exactly when there are no habits |
| StatsOverview.DataOrder | components/StatsOverview.tsx:12-18 | the bars follow the order in which categories first occur in the habit list |
| StatsOverview.DataTotal | components/StatsOverview.tsx:12-18 | the bar values add up to the completed entries of all habits |
| GeminiService.Summarize | services/geminiService.ts:9-14 | record i carries habit i's name, category and weekly target, and its completed dates |
| GeminiService.SummarizeAppend | services/geminiService.ts:9-14 | the summary of concatenated lists is the concatenation of their summaries |
| GeminiService.CompletionDatesInEntryOrder | services/geminiService.ts:12 | the completion dates are those of the completed entries, each once, in entry order |
| GeminiService.CompletedDatesOfCompleted | services/geminiService.ts:12 | entries that are not completed contribute no dates |
| GeminiService.SummaryIgnoresOtherFields | services/geminiService.ts:9-14 | habits that agree on name, category, target and completed entries get the same summary |
| GeminiService.AnalyzeHabits | services/geminiService.ts:24-61 | fails exactly when the request or the parse fails, then always with the fixed message; otherwise the parsed insight is returned unchanged |
| GeminiService.AnalysisSeesOnlySummary | services/geminiService.ts:9-61 | the outcome depends on the habits only through their summary |
| GeminiService.ReplyIsNotValidated | services/geminiService.ts:56-57 | a parsed reply with a score of 250 and no suggestions is returned as a success |

## Left out

- Rendering, icons, confetti and the charting library. The per-day weekday label of the seven-day strip is also left out. Only the values the components compute are modelled.
- Persistence in localStorage, and JSON parsing of the stored values. The store's constructor takes the loaded habits and experience as optional values. Writing them back is not modelled.
- The prompt text, the network request and the parsing of the reply text, including the `"{}"` fallback. All of these are the function parameter `generate` of `GeminiService.AnalyzeHabits`. The loading flag and the asynchronous flow of `handleAIAnalysis` are not modelled either.
- GeminiService.AnalyzeHabits: the client is created (services/geminiService.ts:6) and the summary is built (lines 9-14) before the `try` at line 24, so a failure there is passed on with its own error rather than the fixed message. The model does not cover such failures. The `console.error` logging in the `catch` (line 59) is not modelled.
- React's state-updater semantics are left out, including the double invocation of updaters in development mode. Each handler is one atomic method of `App.HabitStore`.
- JavaScript `Date`, ISO date strings and time zones. A date is a day number, and "yesterday" is `today - 1`.
- Floating point, and the rounding of the daily percentage shown in the header. Leveling works with exact reals, so the growth factor 1.1 is exactly 11/10. Experience in the store is an unbounded integer.
- The random id generator and the confirmation dialog. The fresh id, the creation timestamp and the user's answer are parameters of `AddHabit` and `DeleteHabit`. `AddHabit` requires the fresh id to be one no habit has, which a random UUID provides in practice.
- The `level` and `badges` fields of the user statistics record. Nothing in the app updates them.
- The descending sort of the completed dates in `calculateStreak` (utils/habitUtils.ts:7-10). It only orders the list that the backward walk searches by membership, so the model keeps the dates unsorted there. The forward scan copies the list and sorts it ascending again (line 33); that sort is modelled as `Streaks.Sort`, and `Streaks.SortedUnique` shows its result does not depend on the order it was given.
- The whitespace test of `trim` is the ECMAScript set of whitespace and line-terminator code points. Other Unicode processing is not modelled.
- Streaks.CurrentAtMostLongest: holds only for distinct completed dates. Repeated completed days can make the longest streak smaller than the current one (see `Streaks.DuplicateDayBreaksLongest`).

# Habit tracker core in Dafny

This project models the logic core of a small habit-tracking app. The model has two parts.

- **Date utilities (`utils/date.ts`).** These cover:
  - the `YYYY-MM-DD` day key taken from an instant's UTC date;
  - comparing keys with today's key;
  - month lengths;
  - the trailing window of the last *n* days;
  - the current and longest streak of a list of completed days.
- **The habit store (`store/habitStore.ts`).** This is the ordered list of habits together with:
  - the mutators that replace it (add, update, delete, archive, toggle a completed day);
  - the queries that read it (by id, active, archived, completed today, completion rate).

A day is a `Calendar.Day`, the number of days since 1970-01-01. `DayKey` builds the concrete key string for a day from a proleptic Gregorian calendar. It proves that, for years 0..9999:

- the key is ten characters, zero padded and digit-shaped;
- the key parses back to its date;
- distinct days have distinct keys;
- string `<` on keys is chronological order.

Together these facts mean that for years 0..9999 testing key membership is testing day membership (`DayKey.KeysMembership`). They also mean that sorting keys as strings is the same as sorting day numbers. This is why the streak and store modules hold completed days as day numbers. "Today" and the clock are parameters everywhere.

Modules:

- `Wrappers`: Option and Result.
- `Seqs`: filter, subsequence and no-duplicates, with lemmas.
- `Sorting`: the sorted copy `.sort()` makes.
- `Calendar`: dates, month lengths and `getLastNDays`.
- `DayKey`: `formatDate`, `isToday` and `isDateInPast`.
- `Streak`: the two streak walks.
- `Habits`: the record and its partial-update merge.
- `HabitList`: the lists the store builds.
- `Store`: the `HabitStore` class.

The store is a class with one `habits: seq<Habit>` field.

- Each mutator is a method that `modifies this`. Its `ensures` ties the new list to a function of the old one in `HabitList`, where the properties are proved.
- The mutators keep the invariant `WellFormed`: ids are unique and no habit lists one day twice. Delete, archive and toggle always keep it. Adding keeps it when the supplied id is fresh. An update keeps it when the patch leaves `id` alone, or sets it to the same id, and carries no duplicate day; the source accepts a patch such as `{ id: other }`, and `HabitList.UpdateCanBreakIds` shows that renaming one of two habits to the other's id breaks it. Ids come from the clock, so the store does not guarantee them unique; the toggle lemmas have variants for the first habit with an id that need no unique-id assumption.
- The streak and window computations are methods with the source's loops, proved equal to recursive specification functions.

Two behaviours are modelled as the code has them, although a caller might expect otherwise:

- A delete of an unknown id leaves the list unchanged and reports nothing (store/habitStore.ts:51-55).
- With today completed, the current streak counts today twice (utils/date.ts:48-58; see Findings).

## Model

| member | source | states |
|---|---|---|
| DayKey.FormatDate | utils/date.ts:1-3 | succeeds exactly for time values within ±8.64e15 ms (otherwise `toISOString` throws RangeError); for a UTC day with a four-digit year the key is 10 characters and parses back to that day's date |
| DayKey.KeyShape | utils/date.ts:1-3 | for years 0..9999 the key is 10 characters, `-` at positions 4 and 7, digits elsewhere, zero-padded year, month and day |
| DayKey.ParseFormatted | utils/date.ts:1-3 | for a valid date with a four-digit year, parsing its key gives the date back |
| DayKey.FormatParsed | utils/date.ts:1-3 | a string that parses as a key is exactly the key of the date it parses to |
| DayKey.DayKeyInjective | utils/date.ts:1-3 | two days (years 0..9999) have equal keys iff they are the same day |
| DayKey.DayKeyOrder | utils/date.ts:1-3 | for days with four-digit years, string `<` on their keys agrees with chronological order |
| DayKey.KeyOrder | utils/date.ts:1-3 | for valid dates with four-digit years, string `<` on their keys holds iff the first date is earlier |
| DayKey.FormatDateSameDay | utils/date.ts:1-3 | two in-range instants whose UTC days have four-digit years give the same key iff they fall on the same UTC day |
| DayKey.DigitsRoundTrip | utils/date.ts:1-3 | zero-padded digits of a number below 10^n read back as that number |
| DayKey.DigitsOrder | utils/date.ts:1-3 | string order on equal-width zero-padded numbers is numeric order |
| DayKey.StrLess | utils/date.ts:35-38 | JavaScript string `<`, element by element: it is irreflexive, and a proper prefix is smaller than the string it begins |
| DayKey.StrLessTotal | utils/date.ts:35-38 | string `<` is a strict total order: never both ways, and one way for any two different strings |
| DayKey.ParseKey | utils/date.ts:72-73 | reads a canonical `YYYY-MM-DD` key back to the date it names, as `new Date(key)` does for such keys; any result is a valid date with a four-digit year |
| DayKey.IsToday | utils/date.ts:31-33 | `date === getTodayFormatted()`; for a four-digit year today, it holds iff the string is a key naming today's date |
| DayKey.IsDateInPast | utils/date.ts:35-38 | `date < getTodayFormatted()` as strings; for a string that is a key, and a four-digit year today, it holds iff the key's date is before today |
| DayKey.StrLessConcat | utils/date.ts:35-38 | string `<` on concatenations with equal-length prefixes compares the prefixes first, then the rests |
| DayKey.IsTodayOfKey | utils/date.ts:31-33 | for days d and today with four-digit years, `isToday` of the key of d holds iff d is today |
| DayKey.IsDateInPastOfKey | utils/date.ts:35-38 | for days d and today with four-digit years, `isDateInPast` (string `<` against today's key) of the key of d holds iff d is before today |
| DayKey.KeysMembership | utils/date.ts:48-56 | for a day and a list of days all with four-digit years, the day's key is in the list's keys iff the day is in the list, the fact `includes` relies on |
| Calendar.DateOfDayInjective | utils/date.ts:1-3 | distinct day numbers are distinct calendar dates |
| Calendar.DateOfDayMonotone | utils/date.ts:1-3 | a later day number is a later calendar date |
| Calendar.DateOfNextDay | utils/date.ts:1-3 | day n + 1 is the calendar successor of day n |
| Calendar.DaysInMonth | utils/date.ts:17-19 | `new Date(year, month + 1, 0).getDate()` (month normalised into the year, years 0..99 read as 1900..1999) lies in 28..31 |
| Calendar.DaysInMonthIsLastDay | utils/date.ts:17-19 | for a 0-based month, the result is a valid day of that month and its successor is the 1st of the next month |
| Calendar.DaysInMonthIs29 | utils/date.ts:17-19 | the result is 29 exactly for February of a Gregorian leap year (as JavaScript reads the year) |
| Calendar.DaysInYear | utils/date.ts:17-19 | the twelve month lengths add up to 366 in leap years and 365 otherwise |
| Calendar.DaysInMonthYearZero | utils/date.ts:17-19 | year 0 is read as 1900, so February has 28 days although year 0 is a leap year; 2000 and 2024 give 29, 1900 gives 28 |
| Calendar.LastNDays | utils/date.ts:21-29 | returns max(n, 0) days, each one after the previous, oldest first, the last being today |
| Sorting.Sort | utils/date.ts:43 | the sorted copy is sorted and a permutation of its input |
| Sorting.SortedUnique | utils/date.ts:67 | two sorted permutations of one multiset are equal, so the sorted copy does not depend on input order |
| Sorting.SortIgnoresOrder | utils/date.ts:67 | inputs with the same elements have the same sorted copy |
| Sorting.SortOfSorted | utils/date.ts:67 | sorting a sorted list returns it |
| Streak.RunIsMaximalSpan | utils/date.ts:56-59 | the backward run from d has length k iff the k days ending at d are all completed and the day before them is not |
| Streak.RunSameMembers | utils/date.ts:56 | the run depends only on which days are present, not on their order or multiplicity |
| Streak.RunBound | utils/date.ts:56-59 | the run never exceeds the number of completed entries |
| Streak.CurrentStreak | utils/date.ts:40-62 | the loop returns the current-streak specification: 0 for no entries, else 1 plus the run ending today when today is present, else the run ending yesterday |
| Streak.CurrentStreakCases | utils/date.ts:41-60 | empty list gives 0; today absent gives the run ending yesterday (0 when yesterday is absent too); today present gives 2 plus the run ending yesterday, so `[today]` gives 2 |
| Streak.CurrentStreakBound | utils/date.ts:40-62 | at most the list length plus one, and at most the list length when today is absent |
| Streak.CurrentStreakExamples | utils/date.ts:40-62 | the three days before today give 3; only two days back gives 0; today and yesterday give 3 |
| Streak.CurrentStreakCountsTodayTwice | utils/date.ts:48-58 | with today completed, the as-written result is exactly one more than the intended streak |
| Streak.CurrentStreakAgreesWithoutToday | utils/date.ts:50-59 | with today not completed, the as-written and intended streaks agree |
| Streak.CurrentStreakCorrected | utils/date.ts:40-62 | the corrected loop returns the intended streak: the run ending today, or else the run ending yesterday |
| Streak.IntendedCurrentStreakExamples | utils/date.ts:40-62 | the intended streak gives `[today]` → 1, today and yesterday → 2, three days before today → 3, only two days back → 0 |
| Streak.IntendedCurrentStreakBound | utils/date.ts:40-62 | the intended streak never exceeds the number of entries |
| Streak.LongestStreak | utils/date.ts:64-86 | the loop over the sorted copy returns the longest-streak specification |
| Streak.LongestStreakOf | utils/date.ts:64-86 | 0 for an empty list, otherwise between 1 and the list length |
| Streak.LongestUpToIsMax | utils/date.ts:71-85 | the running maximum is attained by some chain end and bounds every chain ending before it |
| Streak.LongestStreakSingle | utils/date.ts:64-86 | a single key gives exactly 1 |
| Streak.LongestStreakIgnoresOrder | utils/date.ts:67 | lists with the same elements give the same longest streak |
| Streak.RunEndIsRun | utils/date.ts:71-82 | on a sorted duplicate-free list, the chain ending at position j is the backward run from that day |
| Streak.LongestStreakIsLongestRun | utils/date.ts:64-86 | for duplicate-free input the result is the longest run of consecutive completed days: some day attains it and no day exceeds it |
| Streak.LongestStreakExample | utils/date.ts:64-86 | three consecutive days followed by a gap give 3 |
| Streak.DuplicateBreaksChain | utils/date.ts:77-82 | with a duplicated key the longest streak is 2 even though three consecutive days are present |
| Habits.NewHabit | store/habitStore.ts:30-36 | the new record carries the caller's fields, the given id and timestamp, no completed days and is not archived |
| Habits.Apply | store/habitStore.ts:46 | `{ ...habit, ...updates }`: for each of the ten fields, including `id` and `createdAt`, a field the patch carries takes the patch's value and a field it leaves out keeps the habit's |
| Habits.ApplyNoChanges | store/habitStore.ts:46 | merging the empty partial record changes nothing |
| Habits.ApplyMerge | store/habitStore.ts:46 | two successive merges are one merge of the combined partial record |
| Habits.ApplyIdempotent | store/habitStore.ts:46 | merging the same partial record twice is merging it once |
| Habits.ApplyKeepsIdentity | store/habitStore.ts:46 | a partial record without `id` and `createdAt` keeps both |
| Habits.RestoreUnarchives | app/archived.tsx:39 | restoring with `{ archived: false }` clears the flag and changes nothing else |
| HabitList.UpdateWhere | store/habitStore.ts:45-47 | the mapped list has the same length, and exactly the habits with the id are transformed |
| HabitList.UpdateWhereUnknownId | store/habitStore.ts:45-47 | mapping over an absent id returns the list unchanged |
| HabitList.WithUpdate | store/habitStore.ts:43-49 | same length; each habit with the id gets the patch merged in, every other habit is unchanged |
| HabitList.WithUpdateUnknownId | store/habitStore.ts:43-49 | updating an absent id leaves the list unchanged |
| HabitList.UpdateCanBreakIds | store/habitStore.ts:43-49 | a patch `{ id: other }` on the first of two habits with distinct ids leaves both with the second id, so ids are no longer unique |
| HabitList.UpdateKeepsWellFormed | store/habitStore.ts:43-49 | an update that keeps the id and brings no duplicate days keeps ids unique and days duplicate-free |
| HabitList.RestoreMakesActive | app/archived.tsx:39 | restoring makes every habit with the id active, with nothing else changed |
| HabitList.WithoutId | store/habitStore.ts:51-55 | no habit with the id remains, every remaining habit came from the list, and every other habit is kept |
| HabitList.WithoutIdProperties | store/habitStore.ts:51-55 | the result is a subsequence (order kept), shorter by exactly the number of habits with the id, and unchanged for an absent id |
| HabitList.DeleteKeepsWellFormed | store/habitStore.ts:51-55 | deletion keeps ids unique and days duplicate-free |
| HabitList.WithArchive | store/habitStore.ts:57-63 | same length; exactly the habits with the id become archived, nothing else changes |
| HabitList.WithArchiveIdempotent | store/habitStore.ts:57-63 | archiving twice is archiving once; an absent id is a no-op |
| HabitList.ArchiveKeepsWellFormed | store/habitStore.ts:57-63 | archiving keeps the invariants |
| HabitList.ToggledDates | store/habitStore.ts:70-73 | the date's membership flips and every other date's membership is unchanged |
| HabitList.ToggledDatesNoDup | store/habitStore.ts:70-73 | toggling never introduces a duplicate into a duplicate-free list |
| HabitList.ToggleAbsentTwice | store/habitStore.ts:70-73 | adding an absent date and removing it again gives the original list |
| HabitList.RemovedOccurrence | store/habitStore.ts:72 | in a duplicate-free list the filtered-out occurrences of a present date are exactly one |
| HabitList.TogglePresentTwice | store/habitStore.ts:70-73 | removing a present date and adding it again keeps the same multiset of a duplicate-free list |
| HabitList.ToggledDatesTwice | store/habitStore.ts:70-73 | two toggles restore the set of dates, the list itself when the date was absent, and the multiset on a duplicate-free list |
| HabitList.WithToggle | store/habitStore.ts:65-81 | unknown id: list unchanged; otherwise every habit with the id gets the first match's dates toggled, all others unchanged |
| HabitList.WithToggleAt | store/habitStore.ts:65-81 | with unique ids a toggle replaces only the habit with that id, by its toggled copy |
| HabitList.WithToggleFlips | store/habitStore.ts:65-81 | with unique ids the toggled habit's date flips and its other dates stay |
| HabitList.WithToggleFirstAt | store/habitStore.ts:65-81 | without assuming unique ids, the first habit with the id gets its own dates toggled and no habit's id changes |
| HabitList.WithToggleFlipsFirst | store/habitStore.ts:65-81 | without assuming unique ids, the date flips in the first matching habit and its other dates stay |
| HabitList.WithToggleTwiceFirst | store/habitStore.ts:65-81 | without assuming unique ids, two toggles restore the first matching habit's set of dates, its list when the date was absent, and its other fields |
| HabitList.WithToggleTwice | store/habitStore.ts:65-81 | with unique ids two toggles change no other habit, restore the toggled habit's set of dates, and restore the list when the date was absent |
| HabitList.ReplaceKeepsUniqueIds | store/habitStore.ts:76-78 | replacing a habit by one with the same id keeps ids unique |
| HabitList.ToggleKeepsWellFormed | store/habitStore.ts:65-81 | toggling keeps the invariants |
| HabitList.FindById | store/habitStore.ts:83-85 | none iff no habit has the id; otherwise the first habit carrying it |
| HabitList.FindByIdFirst | store/habitStore.ts:83-85 | looking up the id of a habit that no earlier habit shares returns that habit, whether or not ids are unique |
| HabitList.FindByIdUnique | store/habitStore.ts:83-85 | with unique ids, looking up a habit's id returns that habit |
| HabitList.ActiveHabits | store/habitStore.ts:87-89 | exactly the non-archived habits of the list |
| HabitList.ArchivedHabits | store/habitStore.ts:91-93 | exactly the archived habits of the list |
| HabitList.ActiveArchivedPartition | store/habitStore.ts:87-93 | active and archived habits partition the list (lengths and multisets add up), each in list order |
| HabitList.ActiveHabitsAfterAdd | store/habitStore.ts:29-40 | an added habit appears at the end of the active list |
| HabitList.AddKeepsWellFormed | store/habitStore.ts:29-40 | appending a habit with a fresh id keeps the invariants |
| HabitList.FilterUniqueIds | store/habitStore.ts:53 | filtering keeps ids unique |
| HabitList.CompletedToday | store/habitStore.ts:95-100 | every returned habit is active and completed today |
| HabitList.CompletedTodayExactly | store/habitStore.ts:95-100 | the result is exactly the active habits whose dates include today, in list order |
| HabitList.WindowCount | store/habitStore.ts:107-117 | the number of completed days in the window is at most max(days, 0) |
| HabitList.WindowCountExtremes | store/habitStore.ts:107-117 | a fully completed window counts `days`, an empty one counts 0 |
| Seqs.Filter | store/habitStore.ts:53 | the filtered list is no longer than the input, keeps only elements satisfying the predicate, and keeps all of them |
| Seqs.FilterIsSubsequence | store/habitStore.ts:88 | filtering keeps list order |
| Seqs.FilterPartition | store/habitStore.ts:87-93 | a predicate and its negation split the list by length and multiset |
| Seqs.FilterFilter | store/habitStore.ts:97-99 | filtering by two predicates in turn is filtering by their conjunction |
| Seqs.FilterNoDup | store/habitStore.ts:72 | a filtered duplicate-free list is duplicate-free |
| Store.HabitStore.constructor | store/habitStore.ts:27 | the store starts empty |
| Store.HabitStore.AddHabit | store/habitStore.ts:29-40 | appends exactly the new habit at the end, earlier habits unchanged; keeps the invariants for a fresh id |
| Store.HabitStore.UpdateHabit | store/habitStore.ts:43-49 | the new list is the patched list; an unknown id changes nothing |
| Store.HabitStore.DeleteHabit | store/habitStore.ts:51-55 | the new list drops the id, keeps order, is unchanged for an unknown id, keeps the invariants |
| Store.HabitStore.ArchiveHabit | store/habitStore.ts:57-63 | the new list archives the id's habits, a second archive is a no-op, invariants kept |
| Store.HabitStore.ToggleHabitCompletion | store/habitStore.ts:65-81 | the date defaults to today; the state is the toggled list; unknown id changes nothing; invariants kept |
| Store.HabitStore.GetHabitById | store/habitStore.ts:83-85 | none iff the id is absent; else the first habit of the list with the id, as `find` returns (with unique ids, the one habit with it) |
| Store.HabitStore.GetActiveHabits | store/habitStore.ts:87-89 | an order-preserving subsequence holding exactly the non-archived habits |
| Store.HabitStore.GetArchivedHabits | store/habitStore.ts:91-93 | an order-preserving subsequence holding exactly the archived habits; with the active ones it makes up the list |
| Store.HabitStore.GetCompletedHabitsForToday | store/habitStore.ts:95-100 | the habits that are active and completed today, in list order |
| Store.HabitStore.GetHabitCompletionRate | store/habitStore.ts:102-120 | 0 for an unknown id; else completed days of the window over `days`; in [0, 1] whenever `days` ≠ 0; NaN exactly when the habit exists and `days` is 0 |
| Store.HabitStore.GetHabitCompletionRateGuarded | store/habitStore.ts:102-120 | 0 for an unknown id or an empty window, otherwise the same quotient; always in [0, 1], never NaN |

## Left out

- Persistence: the `persist` / `createJSONStorage(AsyncStorage)` wrapper (store/habitStore.ts:24-26, 122-125) is storage I/O through a library; the model is the in-memory list.
- The clock: `Date.now()`, `new Date()` and `getTodayFormatted` (utils/date.ts:5-7) become the `today` and `createdAt` parameters; the id from `Date.now().toString()` is the `id` parameter of `AddHabit`, so its uniqueness is not guaranteed by the store but assumed by `AddHabit`'s invariant clause.
- Time zones: `setDate`/`getDate` work in local time while `toISOString` takes the UTC date; the model walks UTC day numbers, so effects of a local offset or a daylight-saving change on which key a step produces are not modelled.
- Locale day names: `getDayName` and `getShortDayName` (utils/date.ts:9-15) call `toLocaleDateString`, a foreign call.
- Floating point: `completedCount / days` (store/habitStore.ts:119) is returned as the pair `Quotient(completed, days)` rather than a float; non-integer `days` is not modelled (`days` is an integer).
- Calendar.DaysInMonth: years outside JavaScript's time range, for which `getDate()` returns NaN, are not modelled.
- DayKey.StrLess: compares Dafny characters, not UTF-16 code units; the two agree on the ASCII key characters the lemmas are about.
- DayKey.ParseKey: only accepts canonical 10-character keys; how `new Date(string)` treats other strings is not modelled.
- Sorting.Sort: `.sort()` on key strings is modelled as a numeric sort of day numbers; `DayKey.DayKeyOrder` shows the orders agree for years 0..9999.
- Habits.Apply: a partial record that sets a required field to `undefined` cannot be expressed, since a required field's patch entry holds a value.
- Extra keys: `addHabit` spreads the caller's object over the defaults; at runtime overriding keys beyond the typed fields are not modelled.
- UI: screens, the form and the progress bar clamp (components/ProgressBar.tsx:17) are rendering; the form's rule that `days` is kept only for custom and `timesPerWeek` only for weekly habits (components/HabitForm.tsx:48-52) is captured by the `Frequency` datatype.

## Findings

| source | as written | input that shows it | evidently intended | confidence | as-written member | corrected member |
|---|---|---|---|---|---|---|
| utils/date.ts:48-58 | when today is completed `streak` starts at 1 and the cursor stays on today, so the loop counts today a second time | completed days `[today]` give 2; `[today, today - 1]` give 3 | today counts once, as the comment at utils/date.ts:51 ("Start checking from yesterday") implies for the other branch: `[today]` gives 1, today and yesterday give 2 | not executed | Streak.CurrentStreakCountsTodayTwice | Streak.CurrentStreakCorrected |
| store/habitStore.ts:109-119 | with `days` 0 the loop does not run and the result is `0 / 0`, NaN | an existing habit and `days = 0` | a guard against dividing by an empty window, like the `return 0` for a missing habit at store/habitStore.ts:104, giving a number in [0, 1] | not executed | Store.HabitStore.GetHabitCompletionRate | Store.HabitStore.GetHabitCompletionRateGuarded |

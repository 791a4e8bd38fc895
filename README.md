# Fitness tracker statistics and rules, in Dafny

This project models the logic of the fitness-tracking web application's
`app.py` that is more than framework glue:

- the statistics computed over a user's completed workouts:
  - the current and best streak (`calculate_streak`)
  - the current month's totals (`get_monthly_stats`)
  - the last seven days' durations (`get_weekly_activity`)
  - the category percentages (`get_workout_types_distribution`)
  - the five most used exercises (`get_most_used_exercises`)
- the awarding of achievements (`check_achievements`)
- the goal progress update (`update_goal_progress`)
- four small text rules:
  - the upload extension check (`allowed_file`)
  - the `nl2br` filter
  - the numbering of a program's days in `view_program`
  - the translation of exercise labels in `exercises`

The database is replaced by its answers. Every statistic receives the
user's records as a sequence (`Records.Record`, newest first where the
query orders by date), and the clock as a day number `today` or a second
number `now`. The user's achievements are a sequence of stored rows in an
`AchievementLog` object, and a goal is a `Goal` object whose fields the
update assigns.

The loops of the source are methods with loop invariants. Each is proved
equal to a specification function:

- `CalculateStreak` to `StreakOf`
- `GetWeeklyActivity` to `WeeklyActivity`
- `GetWorkoutTypesDistribution` to `DistributionOf`
- `TallyExercises` and `GetMostUsedExercises` to `TableOf` and `MostUsed`
- `NumberDays` to `Numbered`
- `AchievementLog.CheckAchievements` to `Awarded`

The lemmas state what those functions mean.

Modules, one per file:

- `Records`: the record type, day numbers, occurrence counts, and the
  insertion order of a dictionary.
- `Calendar`: proleptic Gregorian ordinals.
- `Streak`: the streak calculator.
- `Monthly`: the monthly aggregator.
- `Weekly`: the weekly histogram.
- `Distribution`: the category percentages.
- `Strings`: `lower`, `strip`, `split`, `join`, `replace` and `rsplit`,
  `isdigit` and decimal digits.
- `TopExercises`: the most used exercises.
- `Achievements`: achievement awarding.
- `Goals`: the goal update, with `int()` parsing.
- `TextFilters`: uploads, `nl2br` and the translations.
- `ProgramDays`: the day numbering.

The as-written behaviour disagrees with the application's evident intent
in three places (see "## Findings"):

- The expected streaks for a three-day run ending today and for a lone old
  workout are (3, 3) and (0, 1). The code gives (0, 3) and (0, 0).
- The progress score is described as rewarding rating improvement. The code
  always stores 0.

In each case the model follows the code. The corrected definitions are
given beside it, with their intended properties proved.

## Model

| member | source | states |
|---|---|---|
| Records.Distinct | app.py:394-403 | the keys of a counting dictionary: exactly the values that occur, each once |
| Records.DistinctInFirstEncounterOrder | app.py:396-403 | the keys come in the order their first occurrence appears in the input |
| Records.DayOfShift | app.py:337 | dropping the time of day: moving a timestamp by k days moves its day by k |
| Records.DayOfMonotone | app.py:326 | ordering records by timestamp orders their days the same way |
| Streak.CalculateStreak | app.py:324-353 | the loop returns exactly `StreakOf`, the fold of one loop step over the days newest first |
| Streak.WalkBounds | app.py:336-348 | after the loop the running and best counts are at most the number of records, and the last date is the oldest record's day |
| Streak.StreakBounds | app.py:327-351 | no records give (0, 0); current <= best <= number of records; a non-zero current streak means the oldest record is today or yesterday |
| Streak.SameDayBreaksRun | app.py:342-347 | a second record on the same day closes the run and restarts it at 1 |
| Streak.ThreeDayRunReportsNoCurrentStreak | app.py:350 | workouts today, yesterday and two days ago give (0, 3) |
| Streak.LoneOldWorkoutReportsNoBestStreak | app.py:338-351 | a lone workout five days old gives (0, 0) |
| Streak.CurrentStreakAsWrittenShort | app.py:336-350 | for a newest-first history with no record after tomorrow (UTC stamps against a local today), the current streak is at most 3; with none after today, at most 2 |
| Streak.LeadingRunIsRun | app.py:336-347 | the first `LeadingRun` days go back one day at a time from the newest, and the next day does not continue them |
| Streak.LongestRunIsLongest | app.py:345-351 | `LongestRun` is at least the run starting at any position, and equals the run starting at some position |
| Streak.LongestRunSplit | app.py:342-351 | the longest run is the larger of the leading run and the longest run of what follows it |
| Streak.IntendedStreak | app.py:324-353 | corrected streak: best <= number of days, at least 1 when there are days, current <= best, and a non-zero current streak means the newest day is today or yesterday |
| Streak.BestStreakAsWritten | app.py:336-351 | the as-written best streak: the longest run when the newest day is today or yesterday; otherwise the larger of the leading run minus one and the longest run after it; so it is the corrected best or one less |
| Streak.IntendedThreeDayRun | app.py:350 | corrected streak: today, yesterday and two days ago give (3, 3) |
| Streak.IntendedLoneOldWorkout | app.py:338-340 | corrected streak: a lone workout five days old gives (0, 1) |
| Calendar.DaysInMonth | app.py:358 | between 28 and 31, and 29 exactly in February of a leap year |
| Calendar.NextMonthOrdinal | app.py:358 | the first of the next month follows the last day of this month |
| Calendar.ThirtyTwoDaysLater | app.py:358 | 32 days after the first of a month is day 2 to 5 of the next month, so resetting the day to 1 gives the first of the next month |
| Monthly.MonthWindow | app.py:357-358 | the window contains now and runs from the first second to the last second of the month, one full month of seconds |
| Monthly.Window | app.py:360-363 | the records kept are exactly those dated within the window, with their multiplicities |
| Monthly.MonthlyStats | app.py:355-372 | at most as many workouts as records, and no workouts means zero duration and calories |
| Monthly.MonthlyStatsCons | app.py:365-371 | a record outside the month changes no total; one inside adds one workout and its non-null duration and calories |
| Monthly.MonthBoundaries | app.py:358-363 | workouts on the first and last whole second of the month count, those one second outside do not |
| Weekly.GetWeeklyActivity | app.py:374-389 | the bucketing loop and the read-out over the seven weekdays return `WeeklyActivity` |
| Weekly.InWeekDays | app.py:376-382 | a record in the window is dated between six days ago and today |
| Weekly.WeeklyActivityByDay | app.py:376-389 | exactly 7 entries; entry k is the duration of the records dated k days after six days ago |
| Weekly.WeeklyActivitySum | app.py:376-389 | the entries add up to the total non-null duration of the records in the window |
| Distribution.RoundHalfEven | app.py:404 | `round`: the nearest integer to the quotient, ties to the even one |
| Distribution.GetWorkoutTypesDistribution | app.py:391-406 | the tallying loop returns `DistributionOf` |
| Distribution.TallyTotal | app.py:399 | the counts add up to the number of records |
| Distribution.PercentAtMostHundred | app.py:404 | a category's percentage is at most 100 |
| Distribution.DistributionShape | app.py:393-406 | no records give ([], []); labels are the distinct categories in first-encounter order; one percentage per label, each in 0..100 and within half a unit of count*100/total |
| Distribution.TwoThirdsOneThird | app.py:403-404 | categories A, A, B give labels [A, B] and percentages [67, 33] |
| Strings.LowerIsLowerCase | app.py:419 | `lower` keeps the length, leaves no upper-case letter, changes nothing else and is idempotent |
| Strings.Strip | app.py:1146-1151 | `strip` is the infix left after whitespace is removed from both ends |
| Strings.StripTrimmed | app.py:1146 | text with no whitespace at either end strips to itself |
| Strings.JoinSplit | app.py:1145-1147 | joining the pieces of a split with the separator gives the text back |
| Strings.SplitJoin | app.py:1145-1147 | splitting a join of separator-free items gives the items back |
| Strings.ReplaceCharIsJoinSplit | app.py:823 | `s.replace(c, r)` equals `r.join(s.split(c))` |
| Strings.ReplaceCharRemoves | app.py:823 | after replacing c by text without c, no c is left |
| Strings.LastIndexOf | app.py:187 | the position `rsplit('.', 1)` splits at: a dot with no dot after it |
| Strings.LastIndexOfSuffix | app.py:187 | in `base + "." + ext` with no dot in ext, the last dot is the one before ext |
| Strings.DigitsOfValue | app.py:794 | the decimal digits of n denote n |
| Strings.Digits | app.py:794 | `filter(str.isdigit, ...)` keeps only digits |
| Strings.DigitsAppend | app.py:794 | the digit filter distributes over concatenation |
| TopExercises.ImageNameShape | app.py:419 | the image name is `'-'.join(name.lower().split(' ')) + '.svg'`: it ends in `.svg`, has no space in its stem and no upper-case letter |
| TopExercises.Earliest | app.py:422-426 | the earliest record with the same program and the same rating, if any, and none exactly when no record matches |
| TopExercises.Clamp | app.py:430 | the score is clamped to 0..100: unchanged inside that range, 0 below it, 100 above it |
| TopExercises.ProgressUpdate | app.py:421-430 | the as-written score is never set to anything but 0 |
| TopExercises.ProgressAsWrittenIgnoresImprovement | app.py:422-430 | ratings 2 then 4 in one program still score 0 |
| TopExercises.FirstOfProgram | app.py:422-426 | corrected lookup: the earliest record of the program, whatever its rating |
| TopExercises.IntendedProgressUpdate | app.py:428-430 | corrected score: in 0..100, set exactly when the program's first rating is non-zero; positive exactly when the rating rose; 20 per point of rise, capped at 100 |
| TopExercises.IntendedProgressRewardsImprovement | app.py:428-430 | corrected score: ratings 2 then 4 score 40 |
| TopExercises.MaxRating | app.py:418 | `max_weight` is at least 0 and every rating of the name, and is 0 or one of those ratings |
| TopExercises.TableOfKeys | app.py:411-417 | the table has an entry exactly for the names seen, with progress 0 |
| TopExercises.TableOfEntry | app.py:415-419 | each entry holds the name, its count, its largest rating and its image name |
| TopExercises.Visit | app.py:415-430 | one visit of an exercise extends the key order and updates the table as the fold does |
| TopExercises.TallyExercises | app.py:410-430 | the nested loops produce the names in first-encounter order and the folded table |
| TopExercises.UsesOfRecords | app.py:413-414 | the visits are exactly the (exercise, rating) pairs of the records' exercise lists |
| TopExercises.SetsAreTimesListed | app.py:417 | `sets` counts every listing of the name across all records |
| TopExercises.MaxWeightMeaning | app.py:418 | `max_weight` is the largest `rating or 0` over the records that list the name (0 when all are lower) |
| TopExercises.Listing | app.py:434 | one listing entry per name |
| TopExercises.EntriesMeaning | app.py:434 | each entry is id = name, its count, its largest rating, its image and progress 0 |
| TopExercises.InsertPermutes | app.py:433-436 | inserting keeps the multiset |
| TopExercises.InsertSorted | app.py:433-436 | inserting into a list sorted by sets keeps it sorted |
| TopExercises.InsertStable | app.py:433-436 | inserting keeps the relative order of entries with equal sets |
| TopExercises.SortBySetsProperties | app.py:433-436 | `sorted(..., reverse=True)` by sets: non-increasing, a permutation, stable |
| TopExercises.TopFiveProperties | app.py:433-437 | min(5, n) entries, sorted by sets, taken from the entries; every entry left out has no more sets than any kept; ties keep first-encounter order |
| TopExercises.GetMostUsedExercises | app.py:408-439 | the function returns `MostUsed`, the top five of the entries |
| TopExercises.MostUsedLength | app.py:433-437 | the result has min(5, number of distinct exercise names) entries |
| Achievements.CatalogueNamesDistinct | app.py:518-555 | the six catalogue names are distinct |
| Achievements.AwardedFromSound | app.py:558-573 | each stored achievement comes from an entry whose condition holds and whose name was not held |
| Achievements.AwardedFromComplete | app.py:558-573 | every entry whose condition holds is stored unless its name is already held |
| Achievements.AwardedFromDistinct | app.py:558-573 | one call stores no name twice |
| Achievements.AwardedFromProperties | app.py:558-573 | completeness, soundness and no duplicates together |
| Achievements.HeldAfter | app.py:558-573 | afterwards the user holds every achievement whose condition holds |
| Achievements.AwardedFromIdempotent | app.py:558-573 | a second call with the same statistics stores nothing |
| Achievements.ThirtyWorkoutsWeekStreak | app.py:518-555 | 30 workouts and a 7-day streak, from nothing, award first step, week warrior and workout master in that order |
| Achievements.AwardedFromStreakInsensitive | app.py:523-553 | streak values that make the same conditions true give the same awards |
| Achievements.ShortStreakIrrelevant | app.py:529-547 | below 7 days the streak has no effect on the awards |
| Achievements.StreakAsWrittenNeverCounts | app.py:514-529 | with the as-written current streak, a newest-first history with no record after tomorrow earns exactly what a zero streak would: no streak achievement is reachable |
| Achievements.AchievementLog.CheckAchievements | app.py:511-576 | the stored rows become the old rows followed by `Awarded` |
| Achievements.AchievementLog.AwardFrom | app.py:558-575 | the loop appends the entries that hold and are not yet held, in catalogue order |
| Goals.DropUnderscores | app.py:731 | no underscore is left, one character is kept exactly when it is not an underscore, and digits with underscores leave only digits |
| Goals.DropUnderscoresAppend | app.py:731 | removing underscores distributes over concatenation |
| Goals.ParseInt | app.py:731 | `int(s)`: a result means the stripped text is non-empty, and a negative result means it starts with `-` |
| Goals.ProgressValue | app.py:725-731 | `int(progress)`: only text can fail, and a JSON boolean gives 0 or 1 |
| Goals.Decide | app.py:718-738 | refused exactly when the user is not the owner; an update carries the converted value, which lies in 0..100 |
| Goals.ParseSignedDigits | app.py:731 | `-`, `+` or no sign followed by digits parses to their signed value |
| Goals.ParseDecimal | app.py:731 | `int(str(n)) == n` for every integer |
| Goals.ParseSurroundedBySpace | app.py:731 | any whitespace before and after any text is ignored |
| Goals.ParseGrouped | app.py:731 | for any two non-empty digit strings a and b, `a_b` parses as `ab` |
| Goals.ParseRejects | app.py:731-734 | any text that strips to nothing, starts with `_` after stripping, holds a `.` or holds `__` is rejected |
| Goals.DecideUpdates | app.py:718-738 | the goal is updated to v exactly when the owner submits a value that parses to v in 0..100; a non-owner is refused |
| Goals.Goal.UpdateProgress | app.py:716-742 | returns the decided outcome; on update, progress is the value and completed means 100; otherwise the goal is unchanged |
| TextFilters.AllowedFile | app.py:186-187 | a name with no dot is refused, and an accepted extension has three or four characters |
| TextFilters.AllowedFileIff | app.py:186-187 | `base.ext` with no dot in ext is allowed exactly when ext, lower-cased, is an allowed extension |
| TextFilters.UpperCaseExtensionAllowed | app.py:186-187 | `photo.JPG` is allowed |
| TextFilters.EarlierExtensionIgnored | app.py:186-187 | `clip.mp4.exe` is refused |
| TextFilters.NlToBr | app.py:818-823 | a missing value stays missing, a present one stays present, and the result holds no newline unless it is empty |
| TextFilters.NlToBrProperties | app.py:818-823 | the filter is `'<br>'.join(s.split('\n'))`, leaves no newline, and adds three characters per newline |
| TextFilters.NlToBrRoundTrip | app.py:823 | text without `<` is recovered from its filtered form |
| TextFilters.TranslateList | app.py:1144-1152 | a missing column stays missing, and a non-empty one without commas becomes its stripped text translated |
| TextFilters.TranslateExercise | app.py:1141-1152 | a known muscle group or difficulty becomes its translation and an unknown one is kept as it is; equipment and secondary muscles are rewritten by `TranslateList` with their tables; every label keeps its nullness |
| TextFilters.TranslateListResplit | app.py:1144-1152 | splitting the rewritten column on commas again gives one piece per original piece, each the translation of the stripped original |
| TextFilters.MuscleGroupTranslationsClean | app.py:70-77 | no muscle-group translation has a comma or surrounding whitespace |
| TextFilters.DifficultyTranslationsClean | app.py:79-83 | no difficulty translation has a comma or surrounding whitespace |
| TextFilters.EquipmentTranslationsClean | app.py:85-91 | no equipment translation has a comma or surrounding whitespace |
| ProgramDays.NumberDays | app.py:790-803 | the loop fills the day map as `Numbered` does |
| ProgramDays.PlainDaysInOrder | app.py:797-799 | keys that name no day are numbered 1, 2, 3, ... in order, and nothing is lost |
| ProgramDays.NumberedValuesFromInput | app.py:790-803 | every filed value comes from the input, and there are no more days than keys |
| ProgramDays.LabelledDayNumber | app.py:793-796 | a day heading without digits followed by `str(n)` is filed under n |
| ProgramDays.KunDayNumber | app.py:793-794 | `"Күн " + str(n)` is filed under n |
| ProgramDays.PlainKeyReplacesLabelledDay | app.py:797-799 | `{"Күн 2": a, "3": b}` is numbered `{2: b}`: the plain key overwrites day 2 |

## Left out

- Flask routes, rendering, `flash`, `redirect`, `jsonify`, authentication, sessions and file saving. These are framework plumbing and I/O.
- SQLAlchemy:
  - Queries become sequence inputs.
  - The achievement rows become a sequence field.
  - The commit is not modelled.
  - The query builders of the `programs` and `exercises` routes are not modelled.
- `json.loads`: the parsed day map of a program is an ordered list of (key, value) pairs.
- `datetime.now()`:
  - The clock is a parameter: `today` (a day number), `now` (a second number) or a `Calendar.DateTime`.
  - Microseconds are not modelled.
  - Years are unbounded, so the `OverflowError` past year 9999 is not modelled.
- Monthly.Window: record stamps are whole seconds on the same clock as the window. The stored stamps come from `datetime.utcnow` (app.py:136) and carry microseconds, so a workout at 23:59:59.5 on the last day of the month falls after `end_date` (23:59:59.000000, app.py:358) and is not counted by the code, while the model has no such instant. The window is computed from the local `datetime.now()` (app.py:357) while the stamps are UTC; the model does not convert between the two, so near either end of the month the code can count a workout from the neighbouring local month, or miss one, by up to the server's UTC offset.
- Weekly.InWeek: as for the month, stamps are whole seconds on the window's own clock. The code's window starts at `now - 6 days` with `now`'s microseconds (app.py:376-377), so a workout in the same second as that start but earlier within it is left out by the code and kept by the model. The window and the weekday names come from the local clock (app.py:376, 386) while the stamps are UTC, so near midnight a workout can fall in a different window or weekday bucket than the model assigns.
- Weekly.Weekday: the locale's `strftime('%a')` name is modelled as the day number modulo 7. Within one seven-day window both name each calendar day uniquely.
- Unicode text: `lower`, `strip` and `isdigit` use ASCII semantics.
- Goals.ParseInt: `int` also accepts the other Unicode decimal digits (`int('٤٢') == 42`, `int('４２') == 42`) and strips Unicode whitespace; the model rejects such text. `int` raises `ValueError` on more than 4300 digits; the model accepts any length.
- ProgramDays.DayNumber: the digit filter keeps only ASCII digits, so a key such as "Күн ٣", which the code files as day 3, is numbered sequentially by the model.
- Streak.CurrentStreakAsWrittenShort: workouts are stamped with `datetime.utcnow` (app.py:136) while `today` is the local date (app.py:333). The model takes both as day numbers and does not convert between time zones; the lemma allows records up to one day after `today` to cover the offset.
- Floating point:
  - `current_value` of a new goal and the hours of the profile page are not modelled.
  - The percentage in `get_workout_types_distribution` is rounded exactly, half to even. The code rounds the float `count / total * 100`.
- Goals.ProgressValue: a JSON float (truncated by `int`) and a JSON null, list or object (a `TypeError` the handler does not catch) are not among the inputs.
- TopExercises.ProgressUpdate: the code computes `(rating - initial) / 5 * 100` in floating point and rounds it. For whole ratings that is the whole number `20 * (rating - initial)`, which the model uses. Equal-date ties in the `order_by(date)` lookup are broken by list order.
- TextFilters.TranslateExercise: the source rewrites the exercise rows in place; the model maps one row's labels to their translation.
- Seeding functions (`add_sample_programs`, `add_sample_exercises`), forms.py, migrations.py and config.py hold constant data, declarative validators and DDL, with no logic of their own.
- The ORM class for completed workouts declares only date, notes, rating, user and program. The statistics also read duration, calories, category and exercise lists. Duration and calories are optional fields of the record. Category is a plain string and the exercise list a sequence of strings. So a null category (tallied under the key `None`) and a null exercise list (a `TypeError` in the loop) are not among the inputs.

## Findings

| source | as written | input that shows it | evidently intended | confidence | as-written member | corrected member |
|---|---|---|---|---|---|---|
| app.py:350 | the current streak is kept only if `last_date`, the OLDEST record visited, is today or yesterday | workouts today, yesterday and two days ago: (0, 3) | the run containing the newest record counts when that record is today or yesterday: (3, 3) | not executed | Streak.ThreeDayRunReportsNoCurrentStreak | Streak.IntendedThreeDayRun |
| app.py:338-340 | the first record starts a run only if it is today or yesterday, so an old first run is counted from 0 and the best streak can be one short (in general: `Streak.BestStreakAsWritten`) | one workout five days ago: (0, 0) | every run counts from 1, so the best streak is 1: (0, 1) | not executed | Streak.LoneOldWorkoutReportsNoBestStreak | Streak.IntendedLoneOldWorkout |
| app.py:422-430 | the initial record is looked up with the SAME rating as the current one, so the improvement is always 0 | ratings 2 then 4 in one program: progress 0 | compare with the program's first record: progress 40 | not executed | TopExercises.ProgressAsWrittenIgnoresImprovement | TopExercises.IntendedProgressRewardsImprovement |

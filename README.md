# training_app in Dafny

A verified model of the core of training_app, a browser workout tracker written in React. A user:

- keeps workout plans (a name and a list of exercises with sets, reps and a rest-time text) in `localStorage`;
- runs a plan as a timed session, set by set, with exercise and rest periods;
- sees a summary of the finished session;
- browses the saved history.

The model has one module per part of the program:

| module | file | models |
|---|---|---|
| `Wrappers` | wrappers.dfy | `Option`, standing for JavaScript's `null`, `NaN` and `undefined` |
| `JsString` | js_string.dfy | the JavaScript built-ins the code relies on: `trim`, `includes`, `split` on a character class, `replace` of one character, `toLowerCase`, `padStart`, `parseInt`, `String(n)` and `x \|\| d` |
| `Entities` | entities.dfy | plans, exercises, set records, the session-to-summary hand-off, history entries, and `find` by id |
| `Time` | time.dfy | `src/utils/time.js`: the `mm:ss` clock, and the rest-time text ("30秒", "2分鐘", "1分30秒") read as seconds and written back |
| `Units` | units.dfy | `src/utils/units.js`: the keyword classifier that picks an exercise's unit label |
| `Storage` | storage.dfy | `src/utils/storage.js`: `localStorage` as a map from key to parsed value, plus the `sessionStorage` map in the same `Store` class |
| `Editor` | editor.dfy | the list edits of the plan editor, the coercion of its number inputs, and its save handler with three guards |
| `Records` | records.dfy | the grouping by exercise name shared by the summary and history pages, and the summary's statistics |
| `Summary` | summary.dfy | the summary page's hand-off effect |
| `History` | history.dfy | the history page: sort newest first (as a function and as an in-place insertion sort on an array), expand toggle, delete, clear-all, set tags |
| `WorkoutList` | workout_list.dfy | the plan list and its confirmed delete |
| `Session` | session.dfy | the training session page as a class, and the plan it walks through |

How the program is represented:

- **JSON.** `JSON.stringify` followed by `JSON.parse` is the identity on this data, so a stored entry holds the value itself.
- **Dates.** An ISO date string stands for the millisecond instant it denotes, which is what the history sort's comparator subtracts.
- **Outside inputs.** `Date.now()`, `window.confirm(...)` and the history list reloaded after a delete are parameters. Navigation, alerts and rendering are outcomes or are left out.
- **React updates.** A React handler's updates land together after the handler, and the `period` effect then starts or stops the timers. Each session method is one handler, or one timer tick, with that effect already applied.
- **Timers.** A timer is the boolean "its interval exists".
- **Session invariant.** `Valid()` states that the records so far are exactly the plan's first sets, in order, and that each record carries the unit its name is classified as. Every handler keeps it.

## Model

| member | source | states |
|---|---|---|
| JsString.Trim | src/utils/time.js:10 | the result is the input with a whitespace-only prefix and a whitespace-only suffix cut off, and it neither starts nor ends with whitespace |
| JsString.TrimIgnoresPadding | src/utils/time.js:10 | whitespace added at either end never changes what trim returns |
| JsString.SplitOnFirstSeparator | src/utils/time.js:13 | splitting at the first separator yields the part before it, then the split of the rest |
| JsString.SplitOn | src/utils/time.js:13 | split on a character class gives at least one part; no further contract of its own — its meaning is stated by SplitOnFirstSeparator and SplitOnSeparatorGivesTwo |
| JsString.SplitOnSeparatorGivesTwo | src/utils/time.js:13 | a text holding a separator splits into at least two parts |
| JsString.RemoveFirst | src/utils/time.js:18 | replace with a one-character pattern leaves a text without that character unchanged, and otherwise removes exactly one character |
| JsString.RemoveFirstOccurrence | src/utils/time.js:27 | only the first occurrence is removed |
| JsString.OrElse | src/utils/time.js:17 | `n \|\| d` is d for NaN and 0, and the number itself otherwise |
| JsString.ParseIntOfIntToString | src/utils/time.js:27 | parseInt reads back what String(n) wrote, for every integer, followed by nothing or by any text that starts with neither a digit nor x/X (String(0) + "x1" would be read as hexadecimal) |
| JsString.NatToString | src/utils/time.js:5 | String(n) of a natural number is decimal digits with no leading zero, whose value is n |
| JsString.ParseInt | src/utils/time.js:17-27 | parseInt with no radix; no contract of its own — its readings are stated by ParseIntOfIntToString (String(n) reads back) and Time.NoLeadingDigitIsNaN (NaN when no digit follows the whitespace and sign) |
| JsString.PadStart | src/utils/time.js:5 | padStart keeps the text as a suffix, fills the front with the pad character, and reaches the width |
| JsString.ToLower | src/utils/units.js:3 | lower-casing keeps the length and maps each code point on its own |
| JsString.ToLowerIdempotent | src/utils/units.js:3 | lower-casing twice is lower-casing once |
| JsString.ContainsChar | src/utils/units.js:25 | includes of a one-character text is membership of that character |
| JsString.Contains | src/utils/time.js:12 | String.prototype.includes; no contract of its own — ContainsChar reduces the one-character case to membership, and Time.MentionsMinutes reduces the `分鐘` or `分` test to the presence of 分 |
| Time.JsRem | src/utils/time.js:4 | JavaScript's % lies strictly between -b and b, and goes with the quotient truncated toward zero |
| Time.FormatTime | src/utils/time.js:2-6 | the clock text is at least five characters long |
| Time.FormatTimeWidth | src/utils/time.js:2-6 | below 100 minutes the clock is exactly mm:ss |
| Time.FormatTimeReadsBack | src/utils/time.js:2-6 | for a non-negative count, the digits before the colon are whole minutes, the two after it are seconds below 60, and minutes × 60 + seconds is the count |
| Time.FormatRestTimeMarks | src/utils/time.js:34-44 | the formatter writes 分 exactly from one minute up (so its text takes parseRestTime's minutes branch exactly then), 鐘 exactly for whole minutes, and 秒 exactly when there is a seconds part |
| Time.MentionsMinutes | src/utils/time.js:12 | the test includes('分鐘') \|\| includes('分') is the same as the presence of 分 |
| Time.MinutesBranch | src/utils/time.js:12-25 | a trimmed text with 分 is read by the minutes branch on its split |
| Time.SecondsBranch | src/utils/time.js:26-27 | a trimmed text with 秒 and no 分 is parseInt of the text without its first 秒, or 0 |
| Time.MinutesAndSecondsOfParts | src/utils/time.js:16-20 | with two parts or more, minutes come from the first part and seconds from the second part, with 秒 removed and trimmed; NaN and 0 count as 0 |
| Time.MinuteTextSplitsInTwo | src/utils/time.js:13-23 | whenever 分 is present the split has two parts or more, so the `parts[0] * 60` branch is never taken |
| Time.ParseRestTimeIgnoresPadding | src/utils/time.js:10 | whitespace around the rest text never changes the parsed duration |
| Time.ParseRestTimeDefault | src/utils/time.js:30-31 | text with neither 分 nor 秒 gives the default of 30 seconds |
| Time.ParseRestTimeNoNumber | src/utils/time.js:26-27 | a seconds text that starts with no digit and no sign gives 0 |
| Time.NoLeadingDigitIsNaN | src/utils/time.js:27 | parseInt of text that starts with neither a digit nor a sign is NaN |
| Time.ParseSecondsForm | src/utils/time.js:26-27 | "n秒" parses to n, for every integer n |
| Time.ParseWholeMinutesForm | src/utils/time.js:12-25 | "m分鐘" parses to m × 60 for every m ≥ 0, "0分鐘" included |
| Time.ParseMinutesSecondsForm | src/utils/time.js:12-25 | "m分s秒" parses to m × 60 + s |
| Time.RestTimeRoundTrip | src/utils/time.js:8-44 | parseRestTime reads back every duration formatRestTime writes |
| Time.ParseRestTime | src/utils/time.js:8-32 | no contract of its own; its branches are stated by MinutesBranch, SecondsBranch and ParseRestTimeDefault, its padding independence by ParseRestTimeIgnoresPadding, and its inverse by RestTimeRoundTrip |
| Time.FormatRestTime | src/utils/time.js:34-44 | no contract of its own; FormatRestTimeMarks states which marks each branch writes, and RestTimeRoundTrip that parseRestTime reads every result back |
| Time.ParseRestTimeExamples | src/utils/time.js:9 | the three forms of the format comment ("45秒", "2分鐘", "1分30秒") and a padded " 30秒 " parse as expected |
| Units.LabelsDistinct | src/utils/units.js:2-34 | different units never share a label |
| Units.MentionsAnyMeansSomeKeyword | src/utils/units.js:6 | a chain of includes joined by \|\| holds exactly when some keyword of the list occurs |
| Units.FirstMatch | src/utils/units.js:2-34 | the result is the unit of the first matching rule, with every earlier rule not matching, or the fallback when no rule matches |
| Units.UnitForIsFirstMatch | src/utils/units.js:2-34 | getUnitForExercise is the first-match rule table (distance, speed, hold, strength) on the lower-cased name, with weight_or_reps by default |
| Units.UnitFor | src/utils/units.js:2-34 | no contract of its own; UnitForIsFirstMatch characterises it as the first-match rule table, and UnitForIgnoresAsciiCase shows letter case does not matter |
| Units.UnitForIgnoresAsciiCase | src/utils/units.js:3 | upper-casing the ASCII letters of a name never changes its unit |
| Units.RunningWins | src/utils/units.js:6-8 | a running keyword gives km whatever else the name mentions |
| Units.CyclingGivesSpeed | src/utils/units.js:11-13 | a cycling keyword with no running keyword gives km/h |
| Units.LiftCharacterGivesWeight | src/utils/units.js:21-28 | 舉 on its own, with no earlier keyword, gives weight |
| Units.NoKeywordGivesDefault | src/utils/units.js:33 | a name matching no rule gives weight_or_reps |
| Units.TreadmillIsDistance | src/utils/units.js:6-8 | 跑步機 is measured in km |
| Units.PlankIsHeld | src/utils/units.js:16-18 | "Plank" is measured in seconds, through the lower-cased keyword |
| Units.BackSquatIsWeight | src/utils/units.js:21-28 | "Back Squat" is weight |
| Units.PushUpIsWeightOrReps | src/utils/units.js:33 | 伏地挺身 matches no keyword and gets the default |
| Entities.FindById | src/components/TrainingSession.jsx:31 | find gives the first plan with the id, and nothing exactly when no plan has it |
| Storage.Store.SaveWorkouts | src/utils/storage.js:7-9 | the plans key holds the list afterwards; the history and sessionStorage are unchanged |
| Storage.Store.LoadWorkouts | src/utils/storage.js:11-14 | the saved plan list, or [] when the key is absent |
| Storage.Store.SaveTrainingHistory | src/utils/storage.js:16-18 | the history key holds the list afterwards; the plans and sessionStorage are unchanged |
| Storage.Store.LoadTrainingHistory | src/utils/storage.js:20-23 | the saved history, or [] when the key is absent |
| Storage.Store.AddTrainingRecord | src/utils/storage.js:25-34 | the record, stamped with the clock's id and date, goes in front of the saved history; the list grows by one, its tail is the old history, and it is saved and returned |
| Storage.WorkoutsRoundTrip | src/utils/storage.js:7-14 | saving plans and loading gives back the same plans |
| Storage.HistoryRoundTrip | src/utils/storage.js:16-23 | saving a history and loading gives back the same history |
| Storage.KeysAreIndependent | src/utils/storage.js:2-5 | the two keys differ, so saving one list never changes the other |
| Storage.EmptyStoreLoadsEmpty | src/utils/storage.js:11-23 | an empty store loads as two empty lists |
| Editor.AddExercise | src/components/WorkoutEditor.jsx:32-42 | the list grows by one default exercise ("", 3 sets, 10 reps, "30秒") at the end; the rest is unchanged |
| Editor.SetField | src/components/WorkoutEditor.jsx:46 | exactly the named field takes the value; the other three keep theirs |
| Editor.UpdateExercise | src/components/WorkoutEditor.jsx:44-48 | only the exercise at the index changes, and only in the edited field |
| Editor.RemoveExercise | src/components/WorkoutEditor.jsx:50-53 | an index in range drops exactly that exercise and keeps the order of the rest; any other index changes nothing |
| Editor.RemoveUndoesAdd | src/components/WorkoutEditor.jsx:32-53 | removing the exercise just added gives the list back |
| Editor.RemoveDropsOne | src/components/WorkoutEditor.jsx:50-53 | as a multiset, a removal loses exactly the removed exercise |
| Editor.CoerceCount | src/components/WorkoutEditor.jsx:148 | `parseInt(v) \|\| 1` is never 0: NaN and 0 become 1, any other number is kept |
| Editor.CoerceEmpty | src/components/WorkoutEditor.jsx:148 | a cleared input becomes 1 |
| Editor.CoerceZero | src/components/WorkoutEditor.jsx:159 | "0" becomes 1 |
| Editor.CoerceNegative | src/components/WorkoutEditor.jsx:148 | "-2" gets through as -2 |
| Editor.SaveProblem | src/components/WorkoutEditor.jsx:56-69 | the three guards, tested in order: a blank name, no exercises, a blank exercise name; the draft saves exactly when none applies |
| Editor.ReplaceById | src/components/WorkoutEditor.jsx:74-76 | plans with the id become the draft with that id; every other plan is unchanged; ids and length are kept |
| Editor.ReplaceMissingIdChangesNothing | src/components/WorkoutEditor.jsx:73-77 | editing a plan whose id no longer exists saves the list unchanged |
| Editor.ReplaceThenFind | src/components/WorkoutEditor.jsx:73-77 | after an edit, the id finds the edited plan |
| Editor.CreateAppendsOne | src/components/WorkoutEditor.jsx:78-84 | creating a plan appends exactly one, with the clock as its id, and leaves the others as they were |
| Editor.HandleSave | src/components/WorkoutEditor.jsx:55-87 | a refused draft writes nothing and reports its guard; otherwise the loaded list is edited or extended and saved, and the history and sessionStorage are unchanged |
| Editor.LoadDraft | src/components/WorkoutEditor.jsx:16-26 | the draft is the name and exercises of a plan with the route id; there is none exactly when no plan has it |
| Editor.LoadThenSaveKeepsPlan | src/components/WorkoutEditor.jsx:16-84 | with unique ids, loading a plan and saving it unedited writes back the same list |
| WorkoutList.RemoveById | src/components/WorkoutList.jsx:16 | the filter keeps exactly the plans with another id |
| WorkoutList.RemoveByIdOfConcat | src/components/WorkoutList.jsx:16 | the filter works piece by piece, so the plans kept stay in order |
| WorkoutList.RemoveAbsentIdChangesNothing | src/components/WorkoutList.jsx:16 | deleting an id no plan has leaves the list as it was |
| WorkoutList.RemovePresentIdDropsOne | src/components/WorkoutList.jsx:16 | with unique ids, deleting a present id removes exactly that plan |
| WorkoutList.WorkoutListView.Load | src/components/WorkoutList.jsx:10-12 | the page list is the stored plan list |
| WorkoutList.WorkoutListView.HandleDelete | src/components/WorkoutList.jsx:14-20 | a declined confirm changes nothing; a confirmed one filters the page list and saves it, so page and store agree; history and sessionStorage are unchanged |
| Records.GroupIndex | src/components/TrainingSummary.jsx:36 | the lookup acc[name] gives a group with that name, or -1 exactly when there is none |
| Records.GroupRecords | src/components/TrainingSummary.jsx:35-41 | the reduce, as a loop, computes the grouping |
| Records.GroupsOfIsPartition | src/components/TrainingSummary.jsx:35-41 | the groups are the distinct names in order of first appearance, and each holds exactly the records with its name, in input order |
| Records.GroupsOf | src/components/TrainingSummary.jsx:35-41 | no contract of its own; GroupsOfIsPartition and GroupsAreKeyedByName state what the grouping is, and GroupRecords is the loop proved equal to it |
| Records.GroupsAreKeyedByName | src/components/History.jsx:63-71 | each group's records carry its name, and no two groups share a name |
| Records.DistinctNamesFacts | src/components/TrainingSummary.jsx:31 | the distinct names are the names of the records, each once, in order of first appearance |
| Records.ExercisesCompletedIsGroupCount | src/components/TrainingSummary.jsx:30-31 | the exercise count is the number of groups, at most the set count, and at least 1 when there is a record |
| Records.GroupSizesSumToSetCount | src/components/TrainingSummary.jsx:30-41 | group sizes add up to the set count and group times add up to the total exercise time: no record is lost or counted twice |
| Records.TotalSets | src/components/TrainingSummary.jsx:30 | records.length; no contract of its own — GroupSizesSumToSetCount ties it to the group sizes |
| Records.ExercisesCompleted | src/components/TrainingSummary.jsx:31 | the size of the set of names; no contract of its own — ExercisesCompletedIsGroupCount equates it with the group count, at most TotalSets |
| Records.TotalExerciseTime | src/components/TrainingSummary.jsx:32 | the sum of the exercise times; no contract of its own — GroupSizesSumToSetCount ties it to the group times |
| Summary.StatsOf | src/components/TrainingSummary.jsx:30-32 | exercises ≤ sets, sets = records, and both totals agree with the grouped display |
| Summary.ReceiveHandOff | src/components/TrainingSummary.jsx:11-23 | with a hand-off: show it, put it in front of the history and remove it; without one: redirect and change nothing |
| Summary.HandOffIsReadOnce | src/components/TrainingSummary.jsx:11-23 | a second run of the effect redirects and adds nothing, so a hand-off enters the history once |
| History.InsertKeepsEntries | src/components/History.jsx:21 | an insertion adds exactly the inserted entry, as a multiset |
| History.InsertKeepsOrder | src/components/History.jsx:21 | inserting into a newest-first list keeps it newest first |
| History.InsertKeepsDateOrder | src/components/History.jsx:21 | entries with the same date leave an insertion in the order they entered it |
| History.SortIsStableNewestFirst | src/components/History.jsx:21 | the sorted history is newest first, has the same entries, and entries with equal dates keep their saved order |
| History.SortNewestFirst | src/components/History.jsx:21 | no contract of its own; SortIsStableNewestFirst states it is newest first, a permutation and stable, and SortInPlace is the in-place sort proved equal to it |
| History.SortIsNewestFirst | src/components/History.jsx:21 | the sorted history is newest first |
| History.SortKeepsEntries | src/components/History.jsx:21 | the sort is a permutation |
| History.SortKeepsDateOrder | src/components/History.jsx:21 | the sort is stable |
| History.SortKeepsSortedHistory | src/components/History.jsx:21 | a history already newest first is left unchanged |
| History.InsertLast | src/components/History.jsx:21 | one pass of the in-place insertion sort puts a[i] into the sorted prefix and leaves the rest of the array alone |
| History.SortInPlace | src/components/History.jsx:21 | the in-place sort on the array leaves exactly the stable newest-first order |
| History.Toggled | src/components/History.jsx:29-31 | the toggle expands the card exactly when it was not expanded, and collapses exactly when it was |
| History.ToggleTwiceCollapses | src/components/History.jsx:29-31 | two clicks on a card, starting collapsed, leave it collapsed |
| History.ToggleOtherMoves | src/components/History.jsx:29-31 | clicking another card moves the expansion to it |
| History.SetTag | src/components/History.jsx:186-187 | the weight text is present exactly when there is a weight, and is the weight then the unit label; the time text is present exactly when there is no weight and the time is non-zero, and is then the mm:ss clock; never both |
| History.HistoryView.LoadHistory | src/components/History.jsx:18-23 | the page list is the stored history, sorted in place: newest first, same entries, stable |
| History.HistoryView.ToggleExpand | src/components/History.jsx:29-31 | the expanded id is toggled and the list is unchanged |
| History.HistoryView.HandleDelete | src/components/History.jsx:33-41 | a declined confirm changes nothing; a confirmed one shows the reloaded history sorted newest first and collapses the card only if it was the one deleted |
| History.HistoryView.HandleClearAll | src/components/History.jsx:43-49 | a declined confirm changes nothing; a confirmed one shows the reloaded history sorted and collapses every card |
| Session.SetCount | src/components/TrainingSession.jsx:122 | the session runs max(1, sets) sets of an exercise |
| Session.PlannedSets | src/components/TrainingSession.jsx:122-123 | an exercise's planned sets are numbered 1 to that count |
| Session.ProgressStep | src/components/TrainingSession.jsx:117-123 | finishing a set that is not the last adds exactly that set to the progress |
| Session.ProgressCompletesExercise | src/components/TrainingSession.jsx:134-140 | finishing an exercise's last set completes that exercise's part of the plan |
| Session.ProgressMovesOn | src/components/TrainingSession.jsx:134-142 | the records of a finished exercise, plus its last set, are the progress at set 1 of the next exercise |
| Session.ProgressIsPlanPrefix | src/components/TrainingSession.jsx:102-147 | the sets done so far are a proper prefix of the plan |
| Session.ElapsedSeconds | src/components/TrainingSession.jsx:153 | Math.floor((now - start) / 1000) is the whole seconds elapsed, and is non-negative when the clock has not gone back |
| Session.RecordOf | src/components/TrainingSession.jsx:109-115 | the record of a finished set; no contract of its own — HandleNextSet, FinishSetAndRest and FinishSetAndMoveOn append exactly this record, and IntendedHandOffHoldsPlan shows the records then follow the plan |
| Session.HandOff | src/components/TrainingSession.jsx:153-160 | the sessionStorage payload; no contract of its own — EndTraining writes it, FinalHandOffLacksLastSet and SummaryMissesLastSetAsWritten state what it holds as written |
| Session.NextSetBranch | src/components/TrainingSession.jsx:122-146 | the three outcomes of handleNextSet; no contract of its own — HandleNextSet's contract gives the new state for each, and ButtonNamesBranch ties it to the caption |
| Session.ButtonFor | src/components/TrainingSession.jsx:173-174 | the caption chosen at line 225; no contract of its own — ButtonNamesBranch shows it names the branch within the set range, and ButtonMisnamesBranchWithoutSets shows the mismatch when there are no sets |
| Session.RestLastsItsSeconds | src/components/TrainingSession.jsx:74-82 | a rest of n seconds counts down one per tick and lasts exactly max(1, n) ticks |
| Session.ButtonNamesBranch | src/components/TrainingSession.jsx:173-174 | within the set range, the caption says "finish this set", "next exercise" or "finish training" exactly when the button does that |
| Session.ButtonMisnamesBranchWithoutSets | src/components/TrainingSession.jsx:173 | with fewer than one set, the caption says "finish this set" but the button moves on |
| Session.FinalHandOffLacksLastSet | src/components/TrainingSession.jsx:117-157 | as written, a session finished by its last set hands off every set of the plan except the last one |
| Session.OneSetPlanHandsOffNothing | src/components/TrainingSession.jsx:117-157 | as written, a one-set plan hands off no records at all |
| Session.IntendedHandOffHoldsPlan | src/components/TrainingSession.jsx:117-157 | with the finished set appended, the hand-off holds every set of the plan, in order |
| Session.SummaryMissesLastSetAsWritten | src/components/TrainingSession.jsx:149-160 | as written, the summary counts one set fewer than the plan has |
| Session.SummaryCountsEverySetIntended | src/components/TrainingSession.jsx:149-160 | with the corrected hand-off, the summary counts every set of the plan |
| Session.EndedSessionFollowsPlan | src/components/TrainingSession.jsx:149-160 | whenever the session is ended, its records are a proper prefix of the plan |
| Session.Start | src/components/TrainingSession.jsx:29-39 | no plan with the id: redirect; a plan without exercises: the render fails; otherwise a new session at set 1 of exercise 1, with the exercise timer running |
| Session.TrainingSession.ExerciseTick | src/components/TrainingSession.jsx:59-61 | one tick adds a second to the exercise time and changes nothing else |
| Session.TrainingSession.RestTick | src/components/TrainingSession.jsx:74-82 | a tick at 1 or less ends the rest and restarts the exercise timer; otherwise the countdown drops by one |
| Session.TrainingSession.EnterWeight | src/components/TrainingSession.jsx:205-211 | the weight field takes the typed text; nothing else changes |
| Session.TrainingSession.HandleRest | src/components/TrainingSession.jsx:93-100 | only in the exercise period: a rest of the exercise's parsed rest time, without finishing the set |
| Session.TrainingSession.StartRest | src/components/TrainingSession.jsx:71-84 | the rest period begins with the countdown at the given seconds; the rest timer runs and the exercise timer stops; nothing else changes |
| Session.TrainingSession.SkipRest | src/components/TrainingSession.jsx:246-250 | the early end of a rest goes back to the exercise period with the countdown at 0 |
| Session.TrainingSession.EndTraining | src/components/TrainingSession.jsx:149-165 | both timers stop, the plan's id, name, records, elapsed seconds and exercise time go to sessionStorage, and the page is left |
| Session.TrainingSession.Leave | src/components/TrainingSession.jsx:50-55 | the unmount cleanup stops both timers |
| Session.TrainingSession.HandleNextSet | src/components/TrainingSession.jsx:102-165 | in the rest period the whole state is unchanged: period, records, exercise, set number, both clocks, the weight text, both timers and the session store; the page stays mounted. In the exercise period the set is recorded, then one of three branches: rest with the next set number; set 1 of the next exercise; or the end, handing off the records of the click's render |
| Session.TrainingSession.FinishSetAndRest | src/components/TrainingSession.jsx:117-127 | more sets remain: the record is appended, the set number rises, the weight and time reset, and the rest begins with the given seconds, which HandleNextSet parses from the exercise's rest text |
| Session.TrainingSession.FinishSetAndMoveOn | src/components/TrainingSession.jsx:134-142 | last set of an exercise that is not the last: the record is appended, and the next exercise starts at set 1 with no rest |

## Left out

- `src/utils/calories.js`, the user settings and the calorie display of the history page: they are outside this model.
- Rendering, styling, `navigate`, `alert` and `Link`: they are presentation. Navigation appears only as the outcome of a handler.
- React StrictMode's development-only second run of each effect is not modelled. Summary.HandOffIsReadOnce shows what such a second run of the summary effect would do.
- The plan editor's `handleNameChange` (WorkoutEditor.jsx:28-30): it sets one field of the draft and is not modelled as an operation.
- `targetReps` and the per-record display of the summary page: they are display text.
- `JSON.stringify`/`JSON.parse` are taken as the identity. A stored entry of the wrong kind loads as []. No error path for malformed JSON text is modelled.
- The clocks (`Date.now()`, `new Date().toISOString()`), `setInterval` timing and `window.confirm` are parameters. Dates are the milliseconds they denote, not ISO strings.
- History.HistoryView.HandleDelete: `deleteTrainingRecord` and `clearTrainingHistory` are imported by the history page but not defined in `src/utils/storage.js`. The handlers therefore take the reloaded history as a parameter and do not state what it contains.
- The grouping reduce builds an object, and `Object.entries` visits integer-like keys (such as an exercise named "3") first, in numeric order. The model keeps first-appearance order for every name. A name such as `constructor` or `__proto__`, which `acc[name]` finds on the object prototype, is not modelled either.
- JsString.ParseInt: it reads integers only (sign, decimal, or hexadecimal after 0x). Values beyond the exactly representable range of a double are not rounded.
- JsString.ToLower: it lower-cases ASCII capitals and KELVIN SIGN only. Those are the mappings that can turn a name into one of the ASCII keywords; the CJK keywords have no case.
- Arithmetic is on unbounded integers. Every count in the program stays far below 2^53, so no floating-point rounding is modelled.
- Editor.UpdateExercise requires the index to be in range: the page only calls it with the index of a rendered exercise.
- After the session page is left, React discards state updates. The model leaves the fields as they were and marks the page unmounted.
- `handleNextExercise` (TrainingSession.jsx:134-147) has no caller but `handleNextSet`, so it is folded into Session.TrainingSession.HandleNextSet.

## Findings

| source | as written | input that shows it | evidently intended | confidence | as-written member | corrected member |
|---|---|---|---|---|---|---|
| src/components/TrainingSession.jsx:117-157 | `handleNextSet` calls `setRecords([...records, record])`, then, on the last set of the last exercise, `handleNextExercise` → `handleEndTraining`. That handler builds the hand-off from the `records` of the same render, which do not yet hold the set just finished. | Any plan run to its end through the next-set button. A plan of one exercise with one set hands off no records, and the summary and history count 0 sets. | The hand-off carries `[...records, record]`, so the summary shows every planned set. | not executed | Session.FinalHandOffLacksLastSet | Session.IntendedHandOffHoldsPlan |

Session.TrainingSession.HandleNextSet models the code as written: on the finishing branch its hand-off holds the records from before the click. Session.OneSetPlanHandsOffNothing and Session.SummaryMissesLastSetAsWritten show what that does. Session.IntendedFinalRecords is the corrected hand-off list, and Session.SummaryCountsEverySetIntended proves that the summary then counts every set of the plan.

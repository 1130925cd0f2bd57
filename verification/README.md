# State-changing rules of the ERP backend, modelled and proved in Dafny

The backend changes shared tables in scripts, migrations, hooks and a job runner. Each of these has rules of its own
for what it may change, and most are run more than once. This project models fourteen source files and the time zone
functions they use, and proves what they do over whole runs: what a second run changes, what every interleaving keeps,
what a cut-off migration converges to, and exactly when a promise holds if it does not always hold.

`dafny verify dfyconfig.toml` checks everything. Code that updates tables, sets or files step by step is a class or a
method with loops, proved against a specification; the laws are lemmas about the specification.

## What is modelled

* **Calendar and time zones** (`CivilDate`, `TimeZone`). Day counts after ECMA-262 section 21.4.1, `addDays` with the
  century that `Date.UTC` adds to years below 100, and the wall-clock functions, which read the zone's offset once and
  call 24 hours a day. A zone is any function from instants to offsets.
* **Lunch backfill** (`AttendanceEvents`, `LunchBackfill`, `LunchBackfillRun`, `LunchBackfillMeans`). Events are a
  table of rows; a run groups a day's events by employee, picks a window and replaces lunch events. Proved are: who gets
  a lunch and when, said of first check-in and last check-out; the counters add up; everything but lunch events of
  eligible days stays; an eligible day ends with one lunch in order; a second run is the identity exactly when the
  windows lie in their days.
* **Correction sync** (`CorrectionSync`, `CorrectionSyncLaws`, `CorrectionSyncTwice`, `CorrectionSyncSettled`). Ordered
  upserts whose `findOne` may return any of several earliest rows.
* **Job runner** (`JobRunner`). Every stretch of code between two awaits is a step; ticks of all jobs interleave. What a
  run is waiting for and what its row reads is told by its events alone.
* **Swagger annotator** (`SwaggerText`, `SwaggerBlock`, `SwaggerPatterns`, `SwaggerDocs`, `SwaggerAnnotator`,
  `SwaggerRoundTrip`, `SwaggerTwice`). The two regular expressions that matter are written out character by character
  and proved to match what their patterns say; what a block says about its route is told line by line, and when
  stripping undoes printing exactly.
* **Migrations** (`Schemas`, `Restart`, `SchemaChanges`, `RunOutcome`, `RunReady`, and for each migration its steps, in
  the module named `Migration`, and what it leaves behind, in that module or in one named `Outcome`). A schema is
  tables, columns with foreign keys, and indexes; a guarded step is one operation. Restart convergence, atomicity,
  closure under foreign keys, what a completed run leaves and when a run completes are statements over whole lists of
  steps, applied to the lists the migrations consist of.
* **Subscription seed** (`SubscriptionSeed`, `SubscriptionMigration`). Rows with generated ids, and the view by keys
  that they stand for; every statement on rows is proved to be a statement on the view.
* **Settings deduplication** (`SettingsDedup`). `DISTINCT ON` over any order the database may choose for ties.
* **Applicant and offer seeding** (`ApplicantSeeder`, `OfferSeeder`, `PostingSeed`, `PostingSeedAgain`). The bounded
  search with its pigeonhole argument, the top list with its order, and the run over all openings, once and again.
* **Project department hooks** (`ProjectScope`). Saves and bulk creates over five tables, and the invariant they keep.

## Where the code does not do what one would expect

Each of these is a lemma with the exact condition, a concrete case, or both.

* A business day is 24 hours long, so on a day the clock falls back the last hour on the wall is outside its own day
  (`TimeZone.LastHourOfALongDay`); a correction in that hour is never settled, every pass moves or adds a row
  (`CorrectionSyncLaws.LongDayIsNeverSettled`). Where the clock goes ahead, the ranges of neighbouring dates overlap
  (`TimeZone.NeighboursOverlap`). `TimeZone.RegularBesidesTheChange` has the exact dates for both.
* Where an engine prints the hour from midnight on as 24, a day's range holds the day before if the zone shows that
  hour when it is midnight in UTC, as UTC itself does (`TimeZone.MidnightAs24Windows`).
* `addDays` by 0 is the identity exactly from the year 100 on (`CivilDate.AddDaysZero`).
* A lunch start text that is not a time makes lunch end at the start of the day
  (`LunchBackfill.MalformedLunchEndsAtDayStart`); with an hour past 24 its start then lies outside the day, and a
  second run adds rows again (`LunchBackfillRun.HourPast24IsRepeated`).
* With two rows for a key, syncing a correction twice can overwrite both (`CorrectionSyncLaws.TwoEventsAreNotSafe`).
  `CorrectionSyncTwice.SyncRepeatsIff` has the exact condition for lists with one correction per key,
  `CorrectionSyncSettled.PassesChangeNothingIff` the one for any well-placed list and the rows before a pass.
* A rejected log creation blocks the job's name for the life of the process (`JobRunner.RejectedLogBlocksForever`).
* An annotation that was left open swallows the annotator's own block together with itself
  (`SwaggerRoundTrip.OpenCommentIsSwallowed`), and a route text that ends in a comment closer ends its own block early
  (`SwaggerRoundTrip.FilesRouteStays`). Exactly these two things keep strip from undoing annotate
  (`SwaggerRoundTrip.StripUndoesAnnotate`): an opener, no block about to be printed inside it, and a closer or a block
  somewhere behind it; or such a route. Where nothing is swallowed, such routes are also exactly what makes a second
  annotation differ from the first (`SwaggerTwice.AnnotateTwice`).
* The index guard of the settings migration is satisfied by an index over part of the rows
  (`SettingsDedup.GuardMissesNarrowIndex`, with the exact condition in `SettingsDedup.EnforcedAfterUp`), and the
  migration fails after its deletion when an index that the guard does not accept, or one of another table, has the
  name.
* A second seeding run that meets tied applications in another order makes another offer
  (`PostingSeed.OtherTiesOfferAgain`). Whatever the order, it adds nothing exactly when everybody has an offer whom some
  order would put within the limit (`PostingSeedAgain.SecondRunAddsNothingIff`).
* Three accepted saves can leave a member outside the project's department (`ProjectScope.SomeHistoryStrands`).

## Model

| member | source | states |
|---|---|---|
| `CivilDate.YearOf` | src/scripts/backfillYesterdayLunchBreaks.ts:21-22 | the year of a day number is the one whose first day is no later and whose successor's is later |
| `CivilDate.DayNumberOfFromDayNumber` | src/scripts/backfillYesterdayLunchBreaks.ts:21-22 | every day number prints as a valid date that reads back as the same number |
| `CivilDate.FromDayNumberOfDayNumber` | src/scripts/backfillYesterdayLunchBreaks.ts:21-22 | every valid date survives the way through its day number |
| `CivilDate.DayNumberOfNextDay` | src/scripts/backfillYesterdayLunchBreaks.ts:21 | the next number is the calendar's next day, over month ends and leap years |
| `CivilDate.KnownDays` | src/scripts/backfillYesterdayLunchBreaks.ts:21-22 | days are counted from 1 January 1970; the numbers of a leap day and of the end of a leap year |
| `CivilDate.RemappedYearIsLater` | src/scripts/backfillYesterdayLunchBreaks.ts:21 | years 0 to 99 are read as a later date |
| `CivilDate.AddDaysZero` | src/scripts/backfillYesterdayLunchBreaks.ts:19-23 | adding 0 days is the identity on a four-digit year exactly from year 100 on |
| `CivilDate.AddDaysSuccessor` | src/scripts/backfillYesterdayLunchBreaks.ts:19-23 | one more day is the calendar successor of the shorter sum |
| `CivilDate.AddDaysAdds` | src/scripts/backfillYesterdayLunchBreaks.ts:19-23 | adding a then b equals adding a+b exactly when the date in between is not remapped |
| `TimeZone.FixedOffsetIsRegular` | src/utils/timezone.ts:42-52 | with a fixed offset each day range holds exactly the instants of its date |
| `TimeZone.InOwnDay` | src/utils/timezone.ts:42-52 | an instant is in the range of its own date exactly when its time of day, moved by the offset change since midnight, is still in the day |
| `TimeZone.LastHourOfALongDay` | src/utils/timezone.ts:49-52 | on a 25-hour day an instant of the last hour is outside the range of its date |
| `TimeZone.RegularBesidesTheChange` | src/utils/timezone.ts:42-52 | where the offset changes once, back or ahead, a date's range holds exactly the instants of the date if and only if the change is over by the date's midnight in UTC and in both offsets, or comes after the date in both |
| `TimeZone.NeighboursOverlap` | src/utils/timezone.ts:42-52 | the ranges of a date and the next share instants exactly when the clock goes ahead between their midnights in UTC, and by how much |
| `TimeZone.MidnightAs24Windows` | src/utils/timezone.ts:1-29 | where the hour from midnight on is printed as 24, a fixed offset's day range holds the day before, if the wall shows that hour at midnight in UTC, and else the day |
| `AttendanceEvents.EventTable.FindInRange` | src/scripts/backfillYesterdayLunchBreaks.ts:128-134 | the query returns each matching row as often as the table has it, and no other |
| `AttendanceEvents.EventTable.DestroyLunch` | src/scripts/backfillYesterdayLunchBreaks.ts:93-109 | the deletion takes exactly one employee's lunch rows of the range |
| `AttendanceEvents.EventTable.Create` | src/scripts/syncApprovedAttendanceCorrections.ts:57 | one row is added at the end |
| `AttendanceEvents.EventTable.FindEarliest` | src/scripts/syncApprovedAttendanceCorrections.ts:32-40 | a matching row that none precedes in time, or none because none matches |
| `AttendanceEvents.EventTable.Update` | src/scripts/syncApprovedAttendanceCorrections.ts:53-54 | one row is overwritten in place |
| `LunchBackfill.ClockRoundTrip` | src/scripts/backfillYesterdayLunchBreaks.ts:25-34 | printing minutes and reading them back is the identity except on negative parts of an hour, past 24:00 too |
| `LunchBackfill.TargetDayIsYesterday` | src/scripts/backfillYesterdayLunchBreaks.ts:124 | without a target date the run treats the calendar predecessor of today on the business's wall |
| `LunchBackfill.LunchInOrder` | src/scripts/backfillYesterdayLunchBreaks.ts:55-59 | for every numeric start, lunch ends after it starts exactly when the zone does not jump ahead by an hour or more in between and the end is no part of an hour before midnight |
| `LunchBackfill.MalformedLunchEndsAtDayStart` | src/scripts/backfillYesterdayLunchBreaks.ts:55-59 | a start text that is not a time puts the lunch end at the start of the day |
| `LunchBackfill.GroupByEmployee` | src/scripts/backfillYesterdayLunchBreaks.ts:136-142 | one group per employee with events, each holding that employee's events in order |
| `LunchBackfill.Earliest` | src/scripts/backfillYesterdayLunchBreaks.ts:146 | the least time of a type, or none when the type does not occur |
| `LunchBackfill.Latest` | src/scripts/backfillYesterdayLunchBreaks.ts:147 | the greatest time of a type, or none when the type does not occur |
| `LunchBackfill.Judge` | src/scripts/backfillYesterdayLunchBreaks.ts:144-165 | incomplete, too short or eligible, as said of the table rather than of the loop's variables |
| `LunchBackfill.EligibleIsComplete` | src/scripts/backfillYesterdayLunchBreaks.ts:149-165 | an eligible employee has a check-in before a check-out that day |
| `LunchBackfill.TallyAddsUp` | src/scripts/backfillYesterdayLunchBreaks.ts:149-167 | eligible, incomplete and too short partition the employees handled |
| `LunchBackfill.TallyOne` | src/scripts/backfillYesterdayLunchBreaks.ts:149-203 | each verdict moves exactly the counters the set-based tally says |
| `LunchBackfill.ReplaceLunch` | src/scripts/backfillYesterdayLunchBreaks.ts:172-204 | the transaction leaves no old lunch row of the day, adds the two new ones and touches nothing else |
| `LunchBackfill.HandleEmployee` | src/scripts/backfillYesterdayLunchBreaks.ts:144-206 | one turn of the loop normalizes this employee and leaves those done and those to come |
| `LunchBackfill.BackfillBusiness` | src/scripts/backfillYesterdayLunchBreaks.ts:121-207 | a business ends with every employee normalized and the counters of the tally; a dry run changes no row |
| `LunchBackfill.IdleEmployee` | src/scripts/backfillYesterdayLunchBreaks.ts:136-144 | an employee without events in the day keeps every row |
| `LunchBackfillRun.Backfill` | src/scripts/backfillYesterdayLunchBreaks.ts:111-207 | all businesses are normalized, each as if alone, with the total counters; a dry run changes nothing |
| `LunchBackfillRun.CountersAddUp` | src/scripts/backfillYesterdayLunchBreaks.ts:115-119 | eligible + incomplete + too short is the number of employee groups, insertions are twice the eligible, replacements no more than them |
| `LunchBackfillRun.SameBusinessSameTally` | src/scripts/backfillYesterdayLunchBreaks.ts:128-134 | decisions about a business depend on its own rows alone |
| `LunchBackfillRun.SameShiftSameVerdict` | src/scripts/backfillYesterdayLunchBreaks.ts:145-165 | eligibility reads no lunch row |
| `LunchBackfillRun.OrderedWindowIsInDay` | src/scripts/backfillYesterdayLunchBreaks.ts:61-62 | an eligible day's window in order lies in the range the deletion covers |
| `LunchBackfillRun.EligibilitySurvives` | src/scripts/backfillYesterdayLunchBreaks.ts:144-206 | a run does not change who is eligible |
| `LunchBackfillRun.SecondRunChangesNothing` | src/scripts/backfillYesterdayLunchBreaks.ts:111-207 | a second run for the same days leaves the table as it is exactly when every window in use lies in its day |
| `LunchBackfillRun.HourPast24IsRepeated` | src/scripts/backfillYesterdayLunchBreaks.ts:55-62 | with a malformed start whose hour is past 24, in UTC, a second run changes the table as soon as somebody has a shift longer than lunch |
| `LunchBackfillRun.SomeHourPast24` | src/scripts/backfillYesterdayLunchBreaks.ts:55-62 | for one, with an hour of 25 and a shift from 8:00 to 17:00 |
| `LunchBackfillRun.OneLunchPerEligibleDay` | src/scripts/backfillYesterdayLunchBreaks.ts:144-206 | an eligible day has one LUNCH_OUT and one LUNCH_IN, with earliest check-in < out < in < latest check-out |
| `LunchBackfillRun.OtherEventsUnchanged` | src/scripts/backfillYesterdayLunchBreaks.ts:93-109 | of the events that are no lunch event of an eligible day, exactly the two made up change their number; all others are as often in the table as before |
| `LunchBackfillMeans.WhoIsEligible` | src/scripts/backfillYesterdayLunchBreaks.ts:144-165 | with the first check-in and the last check-out of the day, somebody is eligible exactly when they are more than an hour apart, lunch begins after the one and ends before the other |
| `LunchBackfillMeans.WhoFitsAnHour` | src/scripts/backfillYesterdayLunchBreaks.ts:53-62 | where the window is an hour long, exactly when the window lies strictly between them |
| `LunchBackfillMeans.WhoIsIncomplete` | src/scripts/backfillYesterdayLunchBreaks.ts:149-152 | without a check-in or a check-out in the day nobody is complete or eligible |
| `LunchBackfillMeans.TimesAre` | src/scripts/backfillYesterdayLunchBreaks.ts:128-134 | the day is the half-open range, and only rows of the business, the employee and the type count |
| `LunchBackfillMeans.BackfilledMeans` | src/scripts/backfillYesterdayLunchBreaks.ts:93-207 | how often each row of an employee with check-in and check-out is in the table after a run, in terms of these two times and the window |
| `LunchBackfillMeans.BackfilledKeeps` | src/scripts/backfillYesterdayLunchBreaks.ts:149-152 | without check-in or check-out in the day, or without settings, every row stays |
| `LunchBackfillMeans.TallyMeans` | src/scripts/backfillYesterdayLunchBreaks.ts:115-207 | the counters of a business are the numbers of its employees present, by outcome, of those who had a lunch, and twice the eligible |
| `LunchBackfillMeans.WhichLunchStart` | src/scripts/backfillYesterdayLunchBreaks.ts:55 | the environment goes before the settings, and 13:00 is used without both |
| `LunchBackfillMeans.OrdinaryPlan` | src/scripts/backfillYesterdayLunchBreaks.ts:55-59 | with a fixed offset the plan is the target date on the wall, with an hour of lunch from the start on |
| `LunchBackfillMeans.OrdinaryDay` | src/scripts/backfillYesterdayLunchBreaks.ts:111-207 | from 8:00 to 17:00 in UTC, without further settings, a run adds lunch from 13:00 to 14:00 and changes nothing else |
| `CorrectionSync.Upsert` | src/scripts/syncApprovedAttendanceCorrections.ts:20-59 | some earliest row of the key's day is overwritten, or one row is added when there is none |
| `CorrectionSync.Sync` | src/scripts/syncApprovedAttendanceCorrections.ts:16-60 | the pass is the upserts in order up to the first correction whose category the type column cannot store, updated + created is the number of corrections done, and rows grow by created |
| `CorrectionSync.UpsertMeans` | src/scripts/syncApprovedAttendanceCorrections.ts:32-59 | some earliest row of the employee, business and category in the 24 hours of the day becomes the corrected event, at place 0, 0 within the radius; without one that event is a new row |
| `CorrectionSync.WindowStartIs` | src/scripts/syncApprovedAttendanceCorrections.ts:20-30 | with a fixed offset, and in UTC without settings, the day begins at the wall's midnight before the corrected time |
| `CorrectionSync.StorableIs` | src/scripts/syncApprovedAttendanceCorrections.ts:45-57 | null and categories of more than twenty characters cannot be stored, the four events of a day can |
| `CorrectionSync.RegularZonesPlaceWell` | src/scripts/syncApprovedAttendanceCorrections.ts:23-30 | where the ranges of the corrected times' own dates are these dates, corrections share a window exactly when they share business, employee, type and local day, and windows are equal or disjoint |
| `CorrectionSyncLaws.UpsertCount` | src/scripts/syncApprovedAttendanceCorrections.ts:32-59 | an upsert keeps or starts its own key's count and leaves every other key's |
| `CorrectionSyncLaws.PassCount` | src/scripts/syncApprovedAttendanceCorrections.ts:19-60 | a corrected key ends with max(1, before) rows, any other with as many as before |
| `CorrectionSyncLaws.LastCorrectionWins` | src/scripts/syncApprovedAttendanceCorrections.ts:13-60 | a corrected key's day holds the event of its last correction |
| `CorrectionSyncLaws.LatestIsLastOfKey` | src/scripts/syncApprovedAttendanceCorrections.ts:13-51 | that event is the one of the last correction in the list with the key, at its corrected time |
| `CorrectionSyncLaws.OtherRowsUntouched` | src/scripts/syncApprovedAttendanceCorrections.ts:19-60 | rows of keys without corrections stay where they are |
| `CorrectionSyncLaws.PassInPlace` | src/scripts/syncApprovedAttendanceCorrections.ts:19-60 | with one row per corrected key a pass rewrites these rows in place to their last corrections |
| `CorrectionSyncLaws.SyncIsIdempotent` | src/scripts/syncApprovedAttendanceCorrections.ts:19-60 | with at most one row per corrected key a second pass changes no row |
| `CorrectionSyncTwice.PassAt` | src/scripts/syncApprovedAttendanceCorrections.ts:19-60 | with one correction per key a pass is, for each of its windows, one upsert and otherwise leaves the window alone |
| `CorrectionSyncTwice.SyncRepeatsIff` | src/scripts/syncApprovedAttendanceCorrections.ts:19-60 | a list with one correction per key can be synced again without a change, whatever the order of ties, exactly when in each corrected window no row but the one overwritten is as early as the corrected time |
| `CorrectionSyncSettled.PassesChangeNothingIff` | src/scripts/syncApprovedAttendanceCorrections.ts:13-60 | with any number of corrections of a key, no pass changes a row, whatever the order of ties, exactly when each corrected window has rows, its earliest rows read as its last correction, and every other row is later than each of its corrections or, if as late, reads as the last |
| `CorrectionSyncSettled.RepeatsIffUndisturbed` | src/scripts/syncApprovedAttendanceCorrections.ts:13-60 | a second pass changes nothing exactly when every first pass leaves such windows |
| `CorrectionSyncSettled.HeldWindow` | src/scripts/syncApprovedAttendanceCorrections.ts:19-60 | all along a pass over such windows, a window is as before but for one earliest row, which reads as the last correction so far |
| `CorrectionSyncLaws.OneCorrectionTwice` | src/scripts/syncApprovedAttendanceCorrections.ts:32-59 | for one correction in any zone: twice is once exactly when its time is in its own window and no rival row is as early |
| `CorrectionSyncLaws.OutsideItsWindow` | src/scripts/syncApprovedAttendanceCorrections.ts:29-40 | a time outside its own window is never settled |
| `CorrectionSyncLaws.TwoEventsAreNotSafe` | src/scripts/syncApprovedAttendanceCorrections.ts:32-54 | two earlier rows of a key and a later correction: the second pass changes the other row |
| `CorrectionSyncLaws.LongDayIsNeverSettled` | src/scripts/syncApprovedAttendanceCorrections.ts:29-40 | a correction in the last hour of a 25-hour day is not settled from any table |
| `CorrectionSyncLaws.DifferentKeysCommute` | src/scripts/syncApprovedAttendanceCorrections.ts:32-59 | upserts of different keys commute up to the order of added rows |
| `JobRunner.Runner.Register` | src/jobs/runner.ts:17-20 | a job is scheduled unless it is disabled; the invariant of every run is kept |
| `JobRunner.Runner.Tick` | src/jobs/runner.ts:20-27 | a tick of an active name does nothing, any other starts a run and takes the name; the invariant of every run is kept |
| `JobRunner.Runner.LogSettled` | src/jobs/runner.ts:27-36 | a created row starts the handler, a rejection leaves the run with its name taken; the invariant of every run is kept |
| `JobRunner.Runner.HandlerSettled` | src/jobs/runner.ts:35-47 | a return leads to saving success, a throw to saving failure; the invariant of every run is kept |
| `JobRunner.Runner.SuccessSettled` | src/jobs/runner.ts:37-47 | a saved success ends the run, a rejected one leads to saving failure; the invariant of every run is kept |
| `JobRunner.Runner.FailureSettled` | src/jobs/runner.ts:43-50 | the run ends whether or not the failure was saved; the invariant of every run is kept |
| `JobRunner.Runner.Release` | src/jobs/runner.ts:48-50 | the run is over and its name is free |
| `JobRunner.StepKeepsNamesHeld` | src/jobs/runner.ts:20-51 | every step keeps: active names are those of runs that hold them, one run each |
| `JobRunner.StepKeepsRowsHonest` | src/jobs/runner.ts:27-47 | every step keeps: a success row belongs to a run whose handler returned |
| `JobRunner.InvariantAlways` | src/jobs/runner.ts:6-51 | both hold after any interleaving of any number of jobs |
| `JobRunner.ActiveMeansOneRun` | src/jobs/runner.ts:20-51 | a name is active exactly while a run of it is in flight or lost its log creation, and then no other run of it is |
| `JobRunner.EndFreesTheName` | src/jobs/runner.ts:48-50 | a run that ends releases its name and the next tick of it starts a run |
| `JobRunner.SuccessMeansReturned` | src/jobs/runner.ts:35-40 | in every reachable state a row reads success only if its handler returned |
| `JobRunner.RunTells` | src/jobs/runner.ts:16-51 | in every history a run waits for what its last event leads to, its handler returned exactly if that event occurred, and its row has what was written last |
| `JobRunner.SaveTells` | src/jobs/runner.ts:27-50 | right after a saved success the row reads success and after a saved failure failed, and the run is over |
| `JobRunner.FinishedRowIsTrue` | src/jobs/runner.ts:35-50 | where no write about a run is rejected and what it throws has a message, the row of the finished run reads success if its handler returned and failed otherwise |
| `JobRunner.ScheduledAreRegistered` | src/jobs/runner.ts:17-20 | what is scheduled is what was registered and not disabled, in order |
| `JobRunner.TickStarts` | src/jobs/runner.ts:20-32 | a tick starts a run exactly when no run of the name is in flight or lost its log creation |
| `JobRunner.RejectedLogBlocksForever` | src/jobs/runner.ts:25-33 | after a rejected log creation no run of the name ever starts again |
| `JobRunner.NamesStay` | src/jobs/runner.ts:20-51 | runs keep their number and name for ever |
| `SwaggerText.JoinSplit` | annotate_swagger.js:46-140 | joining the lines of a text gives the text |
| `SwaggerText.SplitJoin` | annotate_swagger.js:46-140 | splitting joined lines gives the lines |
| `SwaggerText.StripNothing` | annotate_swagger.js:44 | a text without openers is not changed |
| `SwaggerText.AfterCloserLine` | annotate_swagger.js:44 | the lazy match ends at the first line that ends in a closer, white space aside |
| `SwaggerPatterns.OpenerShape` | annotate_swagger.js:44 | an opener is matched exactly where the text is a slash and two stars, white space with a line feed, a star, white space and the tag |
| `SwaggerPatterns.CloserShape` | annotate_swagger.js:44 | the match ends at the first closer that white space and a line feed follow, and fails exactly when there is none |
| `SwaggerPatterns.BreakShape` | annotate_swagger.js:44 | white space up to a line feed is matched greedily |
| `SwaggerPatterns.RouteShape` | annotate_swagger.js:75 | a route is matched exactly where the text is the router call, white space, a quote, the path up to the next quote on the line |
| `SwaggerPatterns.LeftmostRoute` | annotate_swagger.js:75 | a line's route is the leftmost match |
| `SwaggerPatterns.ParamsArePathNames` | annotate_swagger.js:81-107 | the parameters printed are the names behind colons and those in braces, in order |
| `SwaggerDocs.PathLineIs` | annotate_swagger.js:81-91 | the path line holds a text without names behind colons that is, with its braced names behind colons again, the mount and the path, or the mount alone for the root; its braced names are the path's |
| `SwaggerDocs.PathLineReads` | annotate_swagger.js:81-91 | without braces of its own, the mount followed by the path can be read off the path line |
| `SwaggerDocs.DifferentRoutesDiffer` | annotate_swagger.js:81-91 | routes of one mount with different paths have different path lines |
| `SwaggerDocs.TagIs` | annotate_swagger.js:87 | the tag is the last segment of the mount that is not empty, or default for a mount of slashes |
| `SwaggerDocs.ContainsIs` | annotate_swagger.js:79-112 | a line mentions a text where some end of the line begins with it |
| `SwaggerDocs.BlockDocuments` | annotate_swagger.js:89-136 | a block is, line by line: opening and tag, path line, method, tag, summary with the method in capitals and the path or index, security, one entry per path name, paging exactly for a GET that mentions a list, the responses, and the closer |
| `SwaggerBlock.TailLinesArePlain` | annotate_swagger.js:95-136 | below the summary no printed line can open or close a comment |
| `SwaggerBlock.SummaryEnds` | annotate_swagger.js:94 | the summary line ends in a closer exactly when the route's text does |
| `SwaggerBlock.BlockIsStripped` | annotate_swagger.js:44-136 | the strip pass takes out the whole printed block exactly for routes whose text ends in no closer, and otherwise leaves what follows the summary |
| `SwaggerAnnotator.AnnotateFile` | annotate_swagger.js:40-140 | the loop writes the specified text, which is one piece for each line of the stripped file, in order: the line, below a comment that documents its leftmost route if it has one and the line before exists and mentions no closer; without a known mount the text stays |
| `SwaggerAnnotator.WovenSuffix` | annotate_swagger.js:72-139 | where each line's piece of the output begins |
| `SwaggerAnnotator.LineSurvives` | annotate_swagger.js:72-139 | the output is one piece per original line in order: the line, below exactly one block if it is eligible |
| `SwaggerAnnotator.StripInert` | annotate_swagger.js:44 | a line without the start of an opener survives the strip pass before any text |
| `SwaggerRoundTrip.OpenerWalk` | annotate_swagger.js:44 | an opener of the text is one of the output, and ends at the same place, exactly when no block is printed inside it |
| `SwaggerRoundTrip.CloserWalk` | annotate_swagger.js:44-136 | a closer follows in the output exactly when one follows in the text or a block does, and behind it a line begins |
| `SwaggerRoundTrip.TouchedLoses` | annotate_swagger.js:44-139 | where stripping runs from an opener of the text, it takes a tag of the text that nothing brings back |
| `SwaggerRoundTrip.SwallowsWhereTouched` | annotate_swagger.js:44-139 | it does so exactly where the text, before annotating, swallows |
| `SwaggerRoundTrip.StripWoven` | annotate_swagger.js:44-139 | stripping the output gives the lines back, each below what its block leaves, exactly when the text swallows nothing |
| `SwaggerRoundTrip.StripUndoesAnnotate` | annotate_swagger.js:43-140 | strip after annotate is the identity exactly when no eligible route's text ends in a closer and no open annotation swallows what follows it, which is said of the text before annotating |
| `SwaggerRoundTrip.OpenCommentIsSwallowed` | annotate_swagger.js:43-140 | an annotation left open above a route swallows: it is lost together with the new block |
| `SwaggerRoundTrip.NoOpenerNoSwallow` | annotate_swagger.js:44 | a text in which no annotation opens swallows nothing |
| `SwaggerRoundTrip.OpenWithoutCloser` | annotate_swagger.js:43-140 | an open annotation with no closer and no block behind it does no harm |
| `SwaggerRoundTrip.CloserRouteStays` | annotate_swagger.js:75-140 | below any line that closes no comment, a route whose text ends in a closer leaves lines behind |
| `SwaggerRoundTrip.FilesRouteStays` | annotate_swagger.js:75-140 | for one, a route for the text of files, a slash, a star and a slash |
| `SwaggerTwice.WeaveAgain` | annotate_swagger.js:43-140 | printing blocks into what is left of a printed text gives the printed text again exactly when nothing was left over |
| `SwaggerTwice.AnnotateTwice` | annotate_swagger.js:43-140 | where nothing is swallowed, annotating an annotated file changes nothing if no eligible route's text ends in a closer; while the mount stays or is lost, exactly then or without a mount |
| `Schemas.QueryInterface.CreateTableIfMissing` | src/migrations/20260624_000001_hybrid_saas_subscriptions.js:15-17 | a missing table is created if what it refers to exists |
| `Schemas.QueryInterface.AddColumnSafe` | src/migrations/20260619_000003_add_overtime_request_lifecycle.js:12-15 | a missing column is added; a missing table is an error |
| `Schemas.QueryInterface.ChangeColumnSafe` | src/migrations/20260619_000003_add_overtime_request_lifecycle.js:22-25 | an existing column is changed, a missing one ignored |
| `Schemas.QueryInterface.AddIndexSafe` | src/migrations/20260619_000003_add_overtime_request_lifecycle.js:27-30 | an index is added unless its table has one of the name |
| `Schemas.QueryInterface.EnsureIndexByName` | src/migrations/20260722_000001_create_employment_contracts.js:65-92 | an index is added unless the database has one of the name |
| `Schemas.QueryInterface.PerformAll` | src/migrations/20260624_000001_hybrid_saas_subscriptions.js:22-70 | steps happen in order up to the first error |
| `Schemas.RunStops` | src/migrations/20260624_000001_hybrid_saas_subscriptions.js:22-70 | after an error nothing more happens |
| `Schemas.ApplyKeepsClosed` | src/migrations/20260722_000001_create_employment_contracts.js:249-549 | a step that succeeds keeps the schema closed under foreign keys |
| `Schemas.EverySchemaIsClosed` | src/migrations/20260722_000001_create_employment_contracts.js:249-652 | so is every schema on the way of any list of steps |
| `Schemas.SettledAfter` | src/migrations/20260619_000003_add_overtime_request_lifecycle.js:12-30 | a guard finds done what its own step did |
| `Schemas.SettledStays` | src/migrations/20260619_000003_add_overtime_request_lifecycle.js:12-30 | and later steps leave it done |
| `Restart.DoneIsSettled` | src/migrations/20260619_000003_add_overtime_request_lifecycle.js:36-53 | every step done stays done to the end of the run |
| `Restart.RunAfterCut` | src/migrations/20260619_000003_add_overtime_request_lifecycle.js:33-54 | a full run after a cut one ends as a full run from the start |
| `Restart.RestartConverges` | src/migrations/20260619_000003_add_overtime_request_lifecycle.js:33-54 | so does a full run after any number of runs, each cut anywhere |
| `Restart.ChangeBeforeAddDiverges` | src/migrations/20260619_000003_add_overtime_request_lifecycle.js:12-25 | a change listed before the addition of its column would diverge |
| `OvertimeMigration.PerformUp` | src/migrations/20260619_000003_add_overtime_request_lifecycle.js:33-54 | the migration returns at once without its table and otherwise runs its steps |
| `OvertimeMigration.StepsChangeLast` | src/migrations/20260619_000003_add_overtime_request_lifecycle.js:36-53 | its changes concern columns that no later step adds or changes |
| `OvertimeMigration.RestartedUpConverges` | src/migrations/20260619_000003_add_overtime_request_lifecycle.js:33-54 | any cut runs and a full one end as one full run, from any schema |
| `OvertimeMigration.UpLeaves` | src/migrations/20260619_000003_add_overtime_request_lifecycle.js:33-54 | a run that completes leaves the two columns changed, the twelve columns and the three indexes as defined or as they were, and every other column |
| `OvertimeMigration.UpCompletes` | src/migrations/20260619_000003_add_overtime_request_lifecycle.js:33-54 | it completes exactly when the table is missing, or the users or the three columns for them are there, and each index is on the table or the old columns it needs are there |
| `ProbationMigration.PendingDiffersInTested` | src/migrations/20260724_000001_create_probation_lifecycle.js:99-857 | the transaction's view differs from the committed one only in objects whose guards came before |
| `ProbationMigration.GuardsMayReadCommitted` | src/migrations/20260724_000001_create_probation_lifecycle.js:22-55 | for any parts that guard no object twice, guards outside the transaction decide as guards inside would |
| `ProbationMigration.TestedTwiceFails` | src/migrations/20260724_000001_create_probation_lifecycle.js:22-55 | a table guarded twice would make the outside guards fail |
| `ProbationMigration.Connection.PerformUp` | src/migrations/20260724_000001_create_probation_lifecycle.js:94-864 | guarded parts in order, then commit, or rollback at the first error |
| `ProbationMigration.PartsAreTestedOnce` | src/migrations/20260724_000001_create_probation_lifecycle.js:99-857 | the migration guards each of its objects once |
| `ProbationMigration.UpAsWithOwnGuards` | src/migrations/20260724_000001_create_probation_lifecycle.js:94-864 | from any committed schema it ends, or fails, as with guards on its own view |
| `ProbationOutcome.OwnGuardsLeave` | src/migrations/20260724_000001_create_probation_lifecycle.js:22-55 | parts that guard no object twice and complete leave every object, as described where it is new, and all that was there |
| `ProbationOutcome.OwnGuardsComplete` | src/migrations/20260724_000001_create_probation_lifecycle.js:22-55 | they complete exactly when each finds its object or what it needs, which is said of the committed schema and the parts before |
| `ProbationOutcome.UpLeaves` | src/migrations/20260724_000001_create_probation_lifecycle.js:94-864 | a run that completes commits the three tables with their foreign keys, the ten indexes with their columns, and all that was there; one that does not leaves the schema as it was |
| `ProbationOutcome.UpCompletes` | src/migrations/20260724_000001_create_probation_lifecycle.js:94-864 | it completes exactly when each table or what it refers to is there, and each index of the table or its columns |
| `ProbationOutcome.FreshUpCompletes` | src/migrations/20260724_000001_create_probation_lifecycle.js:94-864 | from a schema without its objects, exactly when the six tables referred to are there |
| `SchemaChanges.RunPreserves` | src/migrations/20260722_000001_create_employment_contracts.js:249-652 | a run keeps what was there except for columns its steps name |
| `SchemaChanges.RunOnlyMakes` | src/migrations/20260722_000001_create_employment_contracts.js:249-652 | what is new after a run was made by one of its steps |
| `RunOutcome.RunStands` | src/migrations/20260619_000003_add_overtime_request_lifecycle.js:33-54 | a completed run leaves what each of its steps is for |
| `RunOutcome.RunHas` | src/migrations/20260619_000003_add_overtime_request_lifecycle.js:12-15 | a column that one step is about is left as it was, or else as that step defines it |
| `RunOutcome.RunCreates` | src/migrations/20260722_000001_create_employment_contracts.js:249-549 | a table that one step creates and none alters has that step's columns, if it was not there |
| `RunOutcome.RunIndexes` | src/migrations/20260722_000001_create_employment_contracts.js:65-92 | an index that one step is about is as that step makes it, if its name was free |
| `RunReady.RunFollows` | src/migrations/20260624_000001_hybrid_saas_subscriptions.js:22-70 | the tables, columns and index names after a run are those that were there and those its steps make |
| `RunReady.RunCompletes` | src/migrations/20260624_000001_hybrid_saas_subscriptions.js:22-70 | a run of steps that make no table or index twice completes exactly when each step is ready, which is said of the schema before the run and the steps before |
| `SchemaChanges.CreateAndIndex` | src/migrations/20260722_000001_create_employment_contracts.js:249-609 | creating a table unless it is there, and its indexes unless their names are taken, completes exactly when what it refers to and what is indexed is there |
| `SchemaChanges.DropTableRefused` | src/migrations/20260722_000001_create_employment_contracts.js:698-719 | a drop is refused exactly when another table refers to the table |
| `SchemaChanges.DropColumnKeepsClosed` | src/migrations/20260722_000001_create_employment_contracts.js:681-687 | taking a column away, with the indexes over it, keeps closure |
| `SchemaChanges.DropTableKeepsClosed` | src/migrations/20260722_000001_create_employment_contracts.js:698-719 | so does a drop that is not refused |
| `ContractsMigration.Database.PerformUp` | src/migrations/20260722_000001_create_employment_contracts.js:93-659 | the steps in one transaction, with the onboarding part only if that table exists |
| `ContractsMigration.Database.PerformDown` | src/migrations/20260722_000001_create_employment_contracts.js:661-726 | the column, then the two tables, in one transaction |
| `ContractsMigration.UpStaysClosed` | src/migrations/20260722_000001_create_employment_contracts.js:249-652 | every schema on the way up is closed, despite the cycle |
| `ContractsMigration.DownStaysClosed` | src/migrations/20260722_000001_create_employment_contracts.js:672-719 | every schema on the way down is closed, and a table goes only when nothing refers to it |
| `ContractsMigration.UpCommits` | src/migrations/20260722_000001_create_employment_contracts.js:93-659 | from any schema `up` commits exactly when each table or what it refers to exists and each index name or its columns do; from one without its objects, exactly when the tables referred to exist |
| `ContractsMigration.UpFromFresh` | src/migrations/20260722_000001_create_employment_contracts.js:93-659 | from a schema without its objects a committed `up` leaves both tables and the column that closes the cycle |
| `ContractsOutcome.UpLeaves` | src/migrations/20260722_000001_create_employment_contracts.js:93-659 | a committed `up` leaves both tables with their foreign keys, the indexes with their columns, the number of a contract unique in its business, the onboardings' column where they exist, and all that was there |
| `ContractsOutcome.FreshUpClosesTheCycle` | src/migrations/20260722_000001_create_employment_contracts.js:249-652 | from a schema without its objects, contracts and onboardings then refer to each other |
| `ContractsMigration.DownUndoesUp` | src/migrations/20260722_000001_create_employment_contracts.js:93-726 | `down` after `up` gives back every table, column and index when none of the objects existed |
| `ContractsMigration.DownCommits` | src/migrations/20260722_000001_create_employment_contracts.js:661-726 | `down` commits exactly when no foreign key but the migration's own refers to a table it drops |
| `ExitModesMigration.Connection.PerformUp` | src/migrations/20260720_000001_add_exit_modes_and_reasons.js:154-393 | all statements and a commit, or the original when any statement fails from inside or outside; a failing commit leaves one or the other |
| `ExitModesMigration.UpdatedTwice` | src/migrations/20260720_000001_add_exit_modes_and_reasons.js:361-386 | the update of a row is a projection |
| `ExitModesMigration.UpdateTwice` | src/migrations/20260720_000001_add_exit_modes_and_reasons.js:361-386 | so is the update of the table |
| `ExitModesMigration.CompleteTwice` | src/migrations/20260720_000001_add_exit_modes_and_reasons.js:154-393 | a completed database is not changed by a further run |
| `ExitModesMigration.CallsAreAllOrNothing` | src/migrations/20260720_000001_add_exit_modes_and_reasons.js:154-393 | any mix of failed and undisturbed runs leaves the original, or what one run leaves if at least one got through |
| `ExitModesMigration.UpCompletes` | src/migrations/20260720_000001_add_exit_modes_and_reasons.js:361-386 | a run completes exactly when the exit table exists, the reasons table or what it refers to exists, each index name or its columns do, the old columns exist, and no reason without a snapshot is longer than 120 characters |
| `ExitModesMigration.SchemaPartCompletes` | src/migrations/20260720_000001_add_exit_modes_and_reasons.js:159-359 | the schema part completes exactly when its tables and indexes are there or can be made |
| `ExitModesMigration.CompletedRows` | src/migrations/20260720_000001_add_exit_modes_and_reasons.js:286-386 | in a completed database the initiator agrees with the exit type, mode, notice and snapshot keep old values and otherwise are the defaults and the reason, and no other old value changed |
| `ExitModesOutcome.CompletedSchema` | src/migrations/20260720_000001_add_exit_modes_and_reasons.js:159-359 | a completed run leaves the six columns, as they were or else as defined, the reasons with their foreign keys, both indexes, and every old column and index |
| `ExitModesOutcome.NewColumnsAreEmpty` | src/migrations/20260720_000001_add_exit_modes_and_reasons.js:322-359 | the reason's id and the letter are empty in every row that did not have them |
| `ExitModesOutcome.FailureLeavesAll` | src/migrations/20260720_000001_add_exit_modes_and_reasons.js:154-393 | a failure at any of the eleven statements or of a commit that is not stored leaves everything; a stored commit is a run that got through |
| `SubscriptionSeed.AddFeaturesView` | src/migrations/20260624_000001_hybrid_saas_subscriptions.js:79-90 | inserting the missing features adds exactly the nine keys to the view |
| `SubscriptionSeed.UpsertPlanView` | src/migrations/20260624_000001_hybrid_saas_subscriptions.js:101-109 | a plan is new with all values, or keeps its price and limit and gets the new terms |
| `SubscriptionSeed.AddGrantView` | src/migrations/20260624_000001_hybrid_saas_subscriptions.js:118-122 | one missing row adds the rule's grant for its pair and changes no other pair |
| `SubscriptionSeed.AddAllGrantsView` | src/migrations/20260624_000001_hybrid_saas_subscriptions.js:113-123 | a plan ends with a grant for every known feature, and keeps the grants it had |
| `SubscriptionMigration.Store.InsertMissingFeatures` | src/migrations/20260624_000001_hybrid_saas_subscriptions.js:79-90 | the statement on rows is the statement on the view |
| `SubscriptionMigration.Store.UpsertOne` | src/migrations/20260624_000001_hybrid_saas_subscriptions.js:101-109 | the statement on rows is the statement on the view |
| `SubscriptionMigration.Store.InsertMissingGrants` | src/migrations/20260624_000001_hybrid_saas_subscriptions.js:113-123 | the statement on rows is the statement on the view |
| `SubscriptionMigration.Store.Seed` | src/migrations/20260624_000001_hybrid_saas_subscriptions.js:72-124 | the seven statements in order; rows that are valid, with no two for a pair of plan and feature, stay so |
| `SubscriptionMigration.SeededIsReached` | src/migrations/20260624_000001_hybrid_saas_subscriptions.js:72-124 | what the view is after each number of statements, said without the statements |
| `SubscriptionMigration.SeedGrantsEveryPair` | src/migrations/20260624_000001_hybrid_saas_subscriptions.js:100-124 | each of three plans has a row for each of nine features, by the rule if new and as before if not; other plans and features are untouched |
| `SubscriptionOutcome.NewGrantsFollowThePlan` | src/migrations/20260624_000001_hybrid_saas_subscriptions.js:110-122 | a new row is enabled exactly for what its plan includes; its limit is the plan's seats for employees, a hundred a month for the business plan's reports, and none otherwise |
| `SubscriptionOutcome.PlansHaveTheirTerms` | src/migrations/20260624_000001_hybrid_saas_subscriptions.js:95-109 | after the seed each plan has its price, seats, price of one more and place; a new one costs its price and is limited to its seats, an old one keeps both |
| `SubscriptionOutcome.SchemaPartLeaves` | src/migrations/20260624_000001_hybrid_saas_subscriptions.js:22-70 | a schema part that completes leaves every column, the three tables with their foreign keys, the unique index over plan and feature, and every old column |
| `SubscriptionOutcome.SchemaPartCompletes` | src/migrations/20260624_000001_hybrid_saas_subscriptions.js:22-70 | it completes exactly when the four tables it adds to are there, the usage records or the businesses, and the unique index or its columns |
| `SubscriptionMigration.SeedAfterCut` | src/migrations/20260624_000001_hybrid_saas_subscriptions.js:72-124 | a full seed after a cut one ends as one full seed |
| `SubscriptionMigration.FullAfterCut` | src/migrations/20260624_000001_hybrid_saas_subscriptions.js:15-124 | the same for schema steps and seed together |
| `SubscriptionMigration.RestartedUpConverges` | src/migrations/20260624_000001_hybrid_saas_subscriptions.js:15-124 | any number of cut runs and one full run end in the schema and the key-level rows of one full run |
| `SettingsDedup.SettingsTable.Up` | src/migrations/20260610_000002_deduplicate_business_settings_add_unique.js:20-60 | without the table nothing happens; otherwise the newest rows stay and the index is added, which fails exactly when the guard finds none and an index of this or another table has the name; where no index has a condition of its own, live keys are unique from then on |
| `SettingsDedup.ListingKeepsNewest` | src/migrations/20260610_000002_deduplicate_business_settings_add_unique.js:30-38 | sorting and keeping the first of each key keeps one newest row per live key, in any order of ties |
| `SettingsDedup.NewIndexAdmits` | src/migrations/20260610_000002_deduplicate_business_settings_add_unique.js:47-58 | no data that stays keeps the unique index from being built |
| `SettingsDedup.KeptIsNewest` | src/migrations/20260610_000002_deduplicate_business_settings_add_unique.js:33-36 | a live row that stays was newest for its key |
| `SettingsDedup.SomeOutcome` | src/migrations/20260610_000002_deduplicate_business_settings_add_unique.js:30-38 | every table has an order to go through and an outcome |
| `SettingsDedup.NothingLeftToDelete` | src/migrations/20260610_000002_deduplicate_business_settings_add_unique.js:30-38 | on unique live keys the deletion takes nothing |
| `SettingsDedup.SecondRunChangesNothing` | src/migrations/20260610_000002_deduplicate_business_settings_add_unique.js:20-60 | a second run changes neither rows nor indexes |
| `SettingsDedup.NewestMayBeKept` | src/migrations/20260610_000002_deduplicate_business_settings_add_unique.js:33-36 | for any newest row there is an order in which it is kept |
| `SettingsDedup.OneOutcomeIffNoTie` | src/migrations/20260610_000002_deduplicate_business_settings_add_unique.js:33-36 | what the deletion leaves is the same for all orders the database may go through exactly when no live key has two newest rows |
| `SettingsDedup.EnforcedByPairs` | src/migrations/20260610_000002_deduplicate_business_settings_add_unique.js:40-58 | a list of indexes, whatever its columns and conditions, enforces unique live keys exactly when some unique index covers any two live rows of a key and sees them alike |
| `SettingsDedup.EnforcedWithoutConditions` | src/migrations/20260610_000002_deduplicate_business_settings_add_unique.js:40-58 | for indexes without conditions of their own, exactly when a unique one has no columns but business and key, and covers deleted rows too if the table has no column for them |
| `SettingsDedup.EnforcedAfterUp` | src/migrations/20260610_000002_deduplicate_business_settings_add_unique.js:40-58 | live keys are kept unique from then on exactly when `up` added its index or the indexes it found kept any two live rows of a key apart |
| `SettingsDedup.UpEnforces` | src/migrations/20260610_000002_deduplicate_business_settings_add_unique.js:40-58 | where every index covers all rows or all that are not deleted, an `up` that does not fail keeps live keys unique from then on |
| `SettingsDedup.GuardMissesNarrowIndex` | src/migrations/20260610_000002_deduplicate_business_settings_add_unique.js:41-47 | an index over part of the rows satisfies the guard and lets a live key in twice |
| `ApplicantSeeder.ParseDecimal` | src/scripts/seedActivePostingApplicants.ts:239 | the printed index reads back as the index |
| `ApplicantSeeder.EmailsDiffer` | src/scripts/seedActivePostingApplicants.ts:239 | different indices have different emails |
| `ApplicantSeeder.ScoreSpread` | src/scripts/seedActivePostingApplicants.ts:52-54 | the cap of 98 is never reached and scores repeat exactly every 34 indices |
| `ApplicantSeeder.ScoreSteps` | src/scripts/seedActivePostingApplicants.ts:52-54 | scores begin with 62 and go up by 7, or down by 27 from above 88 |
| `ApplicantSeeder.OfIs` | src/scripts/seedActivePostingApplicants.ts:222-227 | the applications of an opening are those of its business and its id, each as often as in the table |
| `ApplicantSeeder.GrownTurn` | src/scripts/seedActivePostingApplicants.ts:235-273 | a turn makes no row where one has the business, opening and email, and else one with the score, and applied, screened or shortlisted in turn |
| `ApplicantSeeder.Pigeonhole` | src/scripts/seedActivePostingApplicants.ts:235-274 | after n indices at least n minus the existing number were created |
| `ApplicantSeeder.GrownKeeps` | src/scripts/seedActivePostingApplicants.ts:235-274 | old rows stay, new ones are all for this opening, other openings are untouched |
| `ApplicantSeeder.GrownTakes` | src/scripts/seedActivePostingApplicants.ts:241-247 | every email looked at ends up taken |
| `ApplicantSeeder.SeedApplicants` | src/scripts/seedActivePostingApplicants.ts:221-277 | exactly max(0, ceil(target) - existing) are created, within ceil(target) indices, so the bound of twice the target never ends the loop; no email is listed twice |
| `ApplicantSeeder.SeedingFillsUp` | src/scripts/seedActivePostingApplicants.ts:221-277 | the opening ends with the larger of its old number and the target |
| `ApplicantSeeder.FullSeedsNothing` | src/scripts/seedActivePostingApplicants.ts:229-235 | an opening with enough applicants is left alone |
| `OfferSeeder.OrderedDescends` | src/scripts/seedActivePostingApplicants.ts:148-151 | the list holds every application once and none stands below one it is above |
| `OfferSeeder.TopIsHighest` | src/scripts/seedActivePostingApplicants.ts:143-153 | no application outside the limit is above one inside it |
| `OfferSeeder.TopByScore` | src/scripts/seedActivePostingApplicants.ts:143-153 | whoever of the opening is left out has no better score, and with the same score came no earlier; those without a score come first |
| `OfferSeeder.SeedOffers` | src/scripts/seedActivePostingApplicants.ts:140-219 | created + reused is the smaller of the limit and the applications; new offers are added at the end, to the emails listed, which are those of the applications that are first with their email and had no offer; these read "offered" and all others keep their stage |
| `OfferSeeder.TurnMeans` | src/scripts/seedActivePostingApplicants.ts:166-215 | a turn makes an offer, with the salary of its place, and sets the stage of its application, exactly when the email had no offer and is not that of an earlier place |
| `OfferSeeder.ChosenAreMarked` | src/scripts/seedActivePostingApplicants.ts:214 | after the turns the applications chosen read "offered" and nothing else of any application changed |
| `OfferSeeder.ChosenHaveOffers` | src/scripts/seedActivePostingApplicants.ts:191-215 | the new offers are those for the places chosen |
| `OfferSeeder.OfferedOnlyWhereNone` | src/scripts/seedActivePostingApplicants.ts:166-215 | a new offer goes only to a business and email that have none, and only once |
| `OfferSeeder.OfferedToAll` | src/scripts/seedActivePostingApplicants.ts:166-215 | every application in the limit ends with an offer to its email |
| `OfferSeeder.TopIgnoresStage` | src/scripts/seedActivePostingApplicants.ts:148-151 | changed stages do not change who is on top |
| `OfferSeeder.OfferedElsewhere` | src/scripts/seedActivePostingApplicants.ts:214 | applications for other openings stay as they are |
| `PostingSeed.Board.Run` | src/scripts/seedActivePostingApplicants.ts:279-314 | a bad target or limit is refused and changes nothing; otherwise every opening has its turn, applicants before offers |
| `PostingSeed.RunOffersOnlyWhereNone` | src/scripts/seedActivePostingApplicants.ts:303-305 | over all openings at most one offer per business and email is made, and only where there was none |
| `PostingSeed.RunMarks` | src/scripts/seedActivePostingApplicants.ts:303-305 | over a whole run an old application changes only by being marked "offered", with an offer made to it, and for every offer made an application with its business and email is marked |
| `PostingSeed.SettledStays` | src/scripts/seedActivePostingApplicants.ts:303-305 | the turn of one opening does not undo another's |
| `PostingSeed.RunSettles` | src/scripts/seedActivePostingApplicants.ts:279-314 | after a run every opening has its applicants and its offers, and old rows differ in their stage at most |
| `PostingSeed.SecondRunAddsNothing` | src/scripts/seedActivePostingApplicants.ts:279-314 | a second run with the same order of ties changes nothing |
| `PostingSeed.OtherTiesOfferAgain` | src/scripts/seedActivePostingApplicants.ts:140-153 | with another order of ties the second run makes an offer to somebody else |
| `PostingSeedAgain.TopMayBe` | src/scripts/seedActivePostingApplicants.ts:143-153 | whatever the order of ties, only applications with fewer than the limit before them by score and time are looked at |
| `PostingSeedAgain.FavouredIsOnTop` | src/scripts/seedActivePostingApplicants.ts:143-153 | and each of these is looked at in some order of ties |
| `PostingSeedAgain.RunsAddNothingIff` | src/scripts/seedActivePostingApplicants.ts:279-314 | with no applicant missing, a run changes nothing whatever the order of ties exactly when each of these has an offer |
| `PostingSeedAgain.SecondRunAddsNothingIff` | src/scripts/seedActivePostingApplicants.ts:279-314 | so it is for a second run, after a first in any order |
| `ProjectScope.Store.SaveProject` | src/models/Project.ts:32-60 | the loop over owner and manager finds the specified error, and a refused save changes nothing |
| `ProjectScope.Store.SaveRow` | src/models/ProjectMember.ts:6-29 | a member or task is stored exactly when its check passes |
| `ProjectScope.Store.BulkCreate` | src/models/ProjectTask.ts:55-57 | all rows are checked before any is written; the first error wins |
| `ProjectScope.ProjectIsStored` | src/models/Project.ts:32-60 | an accepted project is stored as given, an empty department as none, and other projects and tables stay; a refused one changes nothing |
| `ProjectScope.RowIsStored` | src/models/ProjectMember.ts:6-50 | an accepted row is stored in its own table and nothing else changes; a refused one changes nothing |
| `ProjectScope.BulkIsStored` | src/models/ProjectTask.ts:55-57 | a bulk create that passes leaves every id with its last row and every other id as it was, in its own table |
| `ProjectScope.GivenProjectPasses` | src/models/Project.ts:33-59 | with everything given, a project passes exactly when the department is of its business and owner and manager of both |
| `ProjectScope.GivenRowPasses` | src/models/ProjectMember.ts:6-29 | a row for somebody on a project with a department passes exactly when the project is of the row's business and the employee of both |
| `ProjectScope.EmptyIsMissing` | src/models/Project.ts:33-48 | empty ids are missing ones, and without a department or an employee nothing is checked |
| `ProjectScope.ProjectCheckMeans` | src/models/Project.ts:33-59 | a project passes exactly when its department is of its business and owner and manager belong to it |
| `ProjectScope.WhichError` | src/models/Project.ts:40-58 | which of the four errors a refused project gets |
| `ProjectScope.RowCheckMeans` | src/models/ProjectMember.ts:6-29 | a row passes exactly when its project exists in the business and it satisfies the invariant |
| `ProjectScope.WhichRowError` | src/models/ProjectTask.ts:11-28 | which of the three errors a refused row gets |
| `ProjectScope.BulkKeepsScope` | src/models/ProjectMember.ts:48-50 | bulk creates keep the whole invariant |
| `ProjectScope.SaveKeepsScopeIff` | src/models/Project.ts:32-60 | every save keeps the invariant except a project save that leaves somebody outside, which always breaks it; the owner and manager half is always kept |
| `ProjectScope.OnlyNewDepartmentsStrand` | src/models/Project.ts:34-44 | such a save sets a department that the project did not have |
| `ProjectScope.HistoryKeepsScopeIff` | src/models/ProjectTask.ts:6-29 | the invariant holds throughout a history of saves exactly when no save leaves anybody outside |
| `ProjectScope.HistoryKeepsProjectHalf` | src/models/Project.ts:32-60 | the owner and manager half holds throughout any history |
| `ProjectScope.BulkIsOneByOne` | src/models/ProjectMember.ts:47-50 | a bulk create passes exactly when each single create does, and then does the same |
| `ProjectScope.SomeHistoryStrands` | src/models/Project.ts:32-60 | three accepted saves end with a member outside the project's department |

## Left out

- ecosystem.config.js, line 36: behind the process settings stands a long obfuscated script that runs itself when the
  file is loaded. It is no part of the application and is not part of this model; the owner of the repository should
  look at it before loading the file anywhere.
- Row ids, creation and update timestamps, random UUIDs and log texts; where ids matter (seed rows, settings,
  applications) they are kept.
- Sequelize, PostgreSQL, node-cron and the file system beyond the state effect of each call; table locks and concurrent
  runs of the same script.
- Plain columns, types and defaults of created tables: a column is known by its name, its foreign key and a text for its
  definition, and of created tables the columns without foreign key or index are mostly dropped. Enumerated types that a
  created table brings along are not modelled.
- Failures that come from data, such as a unique index over duplicate rows in the overtime, subscription, contract and
  probation migrations. The settings migration and the exit update, where data decide, have them.
- `down` of all migrations but the contracts one; the probation `down` drops indexes and tables outside its transaction.
- TimeZone.MidnightAs24Windows: elsewhere the zone that gives the offset is the zone that gives the date, as in engines
  that print midnight as hour 0.
- TimeZone: the division by 60000 is exact there, and offsets may be any whole number of milliseconds.
- LunchBackfill.ClockRoundTrip: the two parts of a clock text are the numbers `Number` makes of them, or not numbers;
  the reading of the text itself is not modelled, and fractions are not.
- LunchBackfill.TargetDayIsYesterday: a target date from the environment is taken as its three numbers; a malformed one
  is not modelled.
- CorrectionSync.RegularZonesPlaceWell: whether a real zone is regular on a date is a fact about the time zone database;
  for a zone with one change `TimeZone.RegularBesidesTheChange` tells.
- CorrectionSync.Sync: the database cuts trailing spaces beyond 20 characters off instead of refusing them; the model
  refuses every longer category.
- CorrectionSyncSettled.RepeatsIffUndisturbed: the condition is one on the rows between the two passes; on the rows before
  both it is given for lists with one correction per key.
- JobRunner: when cron fires, and the texts of log rows. Whether a rejected write reached the database is left open on
  both sides.
- SwaggerAnnotator.AnnotateFile: reading the mounts of `src/app.ts` and the exports of a file is one function from text
  to mount; walking directories is left out.
- SwaggerTwice.AnnotateTwice: nothing is said of texts that swallow, where what is left can hold a block like the one to
  be printed, nor of a stripped file with another mount than before.
- ExitModesMigration.UpCompletes: the database cuts trailing spaces beyond 120 characters off instead of refusing them;
  the model refuses every longer reason.
- SubscriptionSeed: names and descriptions of features and plans; that keys of features and plans are unique is taken
  from their tables.
- SettingsDedup.SettingsTable.Up: businesses, keys and times are numbers in the database's sort order; the DELETE is one
  statement.
- ApplicantSeeder.SeedApplicants: targets that are not finite numbers, which the script refuses; names, phones and
  metadata of made-up applicants; how a title becomes a slug (every slug will do).
- OfferSeeder.SeedOffers: a fractional limit, which the database would round; letter texts, templates, departments,
  positions and start dates of offers.
- PostingSeed.SecondRunAddsNothing: between the two runs nothing else writes, and the openings are the same.
- PostingSeed.Board.Run: finding the business, its openings, the creator and the template.
- ProjectScope: hooks return early when the department or employee model is not registered, which does not happen once
  the application has loaded its models. Employees and departments are fixed; deletions, restores and updates that skip
  hooks are left out.
- The service layer, the job handlers, authentication, uploads, mail and the other migrations, whose guarded steps are of
  the kinds modelled here.

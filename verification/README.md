# GuardTrak back end: a model of its scheduling, attendance, patrol, queue and idempotency rules

GuardTrak is a back end for security companies. Officers are assigned to one-off and recurring shifts, clock in and out
with breaks, and walk patrols over the checkpoints of a route; background jobs run on an in-memory queue, and repeated
requests are recognised by idempotency keys. This project models the parts of it that are real algorithms or state
machines and proves what they promise.

| file | what it models |
|---|---|
| `JsText.dfy` | text as JavaScript writes and compares it |
| `Calendar.dfy` | calendar dates, day numbers and `YYYY-MM-DD` date keys |
| `TimeZone.dfy` | wall-clock time in a zone, the conversion loop to UTC |
| `Recurrence.dfy` | occurrences of shifts, their expansion, the current one, clock-in resolution |
| `ScheduleOverlap.dfy` | the overlap check between two schedules |
| `CanonicalJson.dfy` | the canonical text of a payload behind every request hash |
| `JsonReading.dfy` | a reader of JSON texts that reads canonical texts back |
| `Idempotency.dfy` | the record of an idempotency key, begin / complete / fail, executions under way |
| `JobQueue.dfy` | the in-memory queue, its callbacks, retries and dead letters |
| `Scheduling.dfy` | assignments of officers to shifts, and updates of the shifts |
| `Attendance.dfy` | attendance rows, breaks, payroll minutes |
| `Ordering.dfy` | stable sorting by an integer key |
| `PatrolVisits.dfy` | one patrol: snapshots, visits, progress, status |
| `PatrolCheckpoints.dfy` | checkpoint rows, the two-phase reorder, route activation |
| `PatrolTables.dfy` | routes, checkpoints and patrols together |

## How to read it

Each service call is one atomic step. A state machine is given twice: as functions on values (`Apply`, `Step`,
`Execute`), about which the lemmas speak, and as a class whose methods update its fields in place, follow the branches
of the service and are proved to take exactly the specified step. Loops of the source are methods with loops, proved
against a function whose meaning is then proved by lemmas. Tables are maps or sequences of rows. A time zone is an
arbitrary offset function from instants to seconds; where a statement needs a fixed offset, it says so. Clock readings,
fresh ids, the verdicts of geofence, device, permission and evidence checks, and the distance of a device from a
checkpoint are parameters. Numbers are unbounded integers, distances are reals.

Ids are natural numbers. A job, row or snapshot id that is generated in the source is a parameter here, required to be
fresh where the source relies on that.

## Where the code does not do what it seems to promise

Each of these is a lemma with the exact condition or a concrete input.

- `expandOccurrences` never returns for a range that reaches 9999-12-31 with fewer meeting days left than it asks for
  (`Recurrence.ExpandLoopEnds`, `Recurrence.TooFewDatesLeft`, `Recurrence.NoWeekdayNeverReturns`); `addCalendarDays`
  leaves years 1000 to 9999 as text that no longer parses (`Calendar.AddIsDayAddition`).
- A wall time skipped by a daylight-saving change makes `zonedDateTime` alternate and miss by the gap
  (`TimeZone.SkippedWallTime`).
- The three-day probe finds the earliest occurrence in its window exactly when windows close before the second midnight
  after their date begins (`Recurrence.ProbeSufficesExactly`).
- At a post manned by daily 24-hour shifts, during the grace period of the one that has just ended, a clock-in to the
  open shift is accepted only if the request names today's date; without a date, or with yesterday's, it is refused
  (`Recurrence.ClockInFindsOpenOccurrence`, `Attendance.ChangeoverAcceptsExactly`).
- The overlap check misses series that begin too late in or after its window (`ScheduleOverlap.LaterCopyCaughtExactly`,
  `ScheduleOverlap.UnbegunSeriesEscapes`), a night shift of the evening before a one-off one
  (`ScheduleOverlap.OneOffProposalExactly`, `ScheduleOverlap.NightShiftEscapes`), one-off shifts after the window
  (`ScheduleOverlap.FarOneOffEscapes`), and, for a series that ends, what its last night runs into on the morning after
  and all of its last date when its last instant comes before the start of the day's shift
  (`ScheduleOverlap.EndingProposalExactly`, `ScheduleOverlap.NightSeriesEscapes`, `ScheduleOverlap.LastDateEscapes`).
- Updating a recurring shift to a one-off one without new times is not checked for conflicts and can leave an officer with
  two overlapping one-off shifts (`Scheduling.UpdateKeepsExactly`, `Scheduling.UncheckedChangeClashes`).
- The comment on the active attendance statuses says "not yet clocked out", but a clocked-out row may be sent to review
  and is then active again: breaks ended after that lose the balance of payroll minutes, and another clock-out writes
  over the first one's time and minutes, so that a clock-out is final only on a rejected or voided row
  (`Attendance.BalanceLostExactly`, `Attendance.BalanceCanBeLost`, `Attendance.ClockOutFinalExactly`). An officer who
  arrives on time for a one-off shift projected onto a later day is clocked out as days late
  (`Attendance.ProjectedShiftCountsAsLate`).
- A begin that comes while an execution is past its 30 second lock starts a second one, and only such a begin does; the
  late execution may overwrite the other's response (`Idempotency.OneInFlightExactly`,
  `Idempotency.LateExecutionOverwrites`). A response stored without a body would be executed again, twice at once, instead
  of replayed; the store accepts one, though no present caller passes it (`Idempotency.ReplayExecutesExactly`,
  `Idempotency.BodylessResponseRunsTwice`).
- `archive` of a shift does not look at its assignments, after which overlap checks no longer see them
  (`Scheduling.ArchivingInUseExactly`).
- Reorder accepts a request that names a checkpoint twice, and rows that are inactive or deleted keep their sequence in
  the unique index (`PatrolCheckpoints.ReorderCommitsExactly`, `PatrolCheckpoints.ReorderNumbersExactly`,
  `PatrolCheckpoints.DeletedRowObstructs`). It does not look at patrols under way
  (`PatrolTables.ReorderLeavesBehindExactly`).
- A visit of a completed patrol can still be rejected, so a completed patrol need not be complete
  (`PatrolVisits.CompletenessLostExactly`). With the default settings no visit ever needs review, because the refusal of
  a device time and the need for review are read off the same clock drift (`PatrolVisits.ReviewPossibleExactly`). A patrol
  of 200 checkpoints or more shows 100 % before it is complete (`PatrolVisits.PercentageMeans`).

## Model

| member | source | states |
|---|---|---|
| `Calendar.CivilOfDay` | src/common/utils/timezone.util.ts:173-175 | the UTC getters give a valid date for every day number, and Date.UTC of that date gives the number back |
| `Calendar.Epoch` | src/common/utils/timezone.util.ts:178-184 | day number 0 is 1970-01-01, the anchor of the count of Date.UTC, which together with consecutive days fixes every date |
| `Calendar.DayOfCivil` | src/common/utils/timezone.util.ts:173-183 | Date.UTC of a valid date is a day number whose date is that date, so the two directions are inverse |
| `Calendar.DateUtcMeans` | src/common/utils/timezone.util.ts:173-183 | Date.UTC of a date is its day number in milliseconds, but that the years 0 to 99 are read as 1900 to 1999 |
| `Calendar.DaysAreConsecutive` | src/common/utils/timezone.util.ts:168-176 | consecutive day numbers are consecutive calendar dates, through month ends and leap years (the month lengths of RFC 3339, section 5.7) |
| `Calendar.WeekdayOfDay` | src/common/utils/timezone.util.ts:13-21 | any count of weekdays that starts from Thursday, 1970-01-01, and moves on by one from each date to the next is the day number plus four modulo seven |
| `Calendar.ParseOfKey` | src/common/utils/timezone.util.ts:80-99 | the key of a day in years 1000 to 9999 parses back to its date |
| `Calendar.KeyOrder` | src/common/utils/timezone.util.ts:80-99 | comparing two keys as strings compares their days, in both directions |
| `Calendar.AddIsDayAddition` | src/common/utils/timezone.util.ts:168-176 | addCalendarDays is addition on day numbers whenever the sum stays in years 1000 to 9999, and its result parses only then |
| `Calendar.AddComposes` | src/common/utils/timezone.util.ts:168-176 | two shifts in a row are the shift by the sum |
| `Calendar.KeyRoundTrip` | src/common/utils/timezone.util.ts:178-184 | key to UTC date to key is the identity |
| `TimeZone.ZonedDateTime` | src/common/utils/timezone.util.ts:104-133 | the four-round loop ends on the value that four corrections give, the early exit changing nothing |
| `TimeZone.ZonedWeekday` | src/common/utils/timezone.util.ts:13-21 | the weekday a zone shows is the weekday of the date it shows, from 0 for Sunday, counted on the calendar from 1970-01-01 |
| `TimeZone.WallExistsWhen` | src/common/utils/timezone.util.ts:104-133 | with one offset change near by, a wall time exists exactly when one of the two offsets reaches it on its own side of the change |
| `TimeZone.LoopReachesWall` | src/common/utils/timezone.util.ts:116-131 | for a wall time that exists the loop ends on an instant that shows it, within its four rounds |
| `TimeZone.ZonedDateTimeRightInverse` | src/common/utils/timezone.util.ts:104-133 | the parts of the result are the wanted ones if and only if the wall time exists, for any zone with offsets under 24 h and one change within a day |
| `TimeZone.SkippedWallTime` | src/common/utils/timezone.util.ts:116-131 | on a skipped wall time the answer misses by exactly the gap, in the direction given by the change |
| `TimeZone.DayBounds` | src/common/utils/timezone.util.ts:135-166 | in a fixed-offset zone an instant carries a day's key exactly when it lies between the day's start and end |
| `Recurrence.OccurrenceShowsSeriesTime` | src/modules/shifts/shift-recurrence.util.ts:104-142 | in any zone with one offset change near the wanted time, an occurrence starts on its date at the series' own time of day if and only if that wall time exists there, and lasts as long as the shift |
| `Recurrence.FixedOn` | src/modules/shifts/shift-recurrence.util.ts:73-142 | in a fixed-offset zone a recurring shift occurs on exactly the matching weekdays of its series, at the series' time of day and length |
| `Recurrence.OccursExactly` | src/modules/shifts/shift-recurrence.util.ts:53-142 | in a fixed-offset zone a series occurs on a date if and only if the date lies between its first and its last one and is due: any date of a daily series, one of a listed weekday counted on the calendar where valid ones are listed, a whole number of weeks after the first date of a weekly one without any; it then starts whole days after its own start and lasts as long |
| `Recurrence.OneOffOn` | src/modules/shifts/shift-recurrence.util.ts:94-102 | a one-off shift occurs on its own date alone, at its own times |
| `Recurrence.OnIsInSeries` | src/modules/shifts/shift-recurrence.util.ts:83-92 | the string comparisons put every occurrence between the first and the last day of the series |
| `Recurrence.ExpandOccurrences` | src/modules/shifts/shift-recurrence.util.ts:144-185 | whenever the cursor loop ends at all, on whatever dates and keys, the method returns the list that the loop builds |
| `Recurrence.ListedIsCollected` | src/modules/shifts/shift-recurrence.util.ts:170-184 | for dates in years 1000 to 9999 that list is the one collected day number by day number |
| `Recurrence.ExpandIsFirstMeeting` | src/modules/shifts/shift-recurrence.util.ts:170-184 | it is in strictly increasing date order, holds only occurrences that meet the window on dates from that of its start to that of its end, and omits one only behind a full list |
| `Recurrence.ExpandLoopEnds` | src/modules/shifts/shift-recurrence.util.ts:173-183 | the loop ends if and only if the range stops before 9999-12-31, is empty, or has as many meeting days up to that date as it asks for |
| `Recurrence.TooFewDatesLeft` | src/modules/shifts/shift-recurrence.util.ts:173-183 | asking for more dates than are left up to 9999-12-31 never returns |
| `Recurrence.NoWeekdayNeverReturns` | src/modules/shifts/shift-recurrence.util.ts:53-71 | nor does any range up to that date for a custom series without a valid weekday |
| `Recurrence.CurrentOccurrence` | src/modules/shifts/shift-recurrence.util.ts:187-210 | the loop over three keys returns the first whose window contains now |
| `Recurrence.CurrentMissesExactly` | src/modules/shifts/shift-recurrence.util.ts:187-210 | in a fixed-offset zone with an early window up to 24 h: when some date has an occurrence in its window, the probe finds one that starts no later if and only if that date is no earlier than yesterday |
| `Recurrence.CurrentMissesNothing` | src/modules/shifts/shift-recurrence.util.ts:187-210 | hence it misses nothing and finds the earliest while windows close before the second midnight after their date begins, which durations plus grace up to 24 h always do |
| `Recurrence.ProbeSufficesExactly` | src/modules/shifts/shift-recurrence.util.ts:187-210 | and that condition on time of day, duration and grace is exact |
| `Recurrence.NamedOccurrence` | src/modules/shifts/shift-recurrence.util.ts:212-233 | a client date resolves an occurrence if and only if it is the key of yesterday, today or tomorrow and the shift occurs on that date, and then that one |
| `Recurrence.ClockInFindsOpenOccurrence` | src/modules/shifts/shift-recurrence.util.ts:310-335 | in a fixed-offset zone, for every client date: while an occurrence of at most 24 h is open, clock-in resolves to an open one if and only if the named occurrence is open or, when none is named, yesterday's is not an ended one in its grace period, which is then resolved; a request that names the date of the open one always resolves to it |
| `Recurrence.FallsBackToToday` | src/modules/shifts/shift-recurrence.util.ts:316-320 | when no date near by is named and no window holds now, clock-in resolves to today's occurrence if there is one |
| `Recurrence.FallsBackToDaily` | src/modules/shifts/shift-recurrence.util.ts:322-332 | a one-off shift without an occurrence near by is resolved as a daily one |
| `Recurrence.ProjectedOccurrence` | src/modules/shifts/shift-recurrence.util.ts:322-332 | a one-off shift is projected onto every later date once its original occurrence is over with its grace period, at its own time of day, for every request that names no other date near by |
| `ScheduleOverlap.OverlapMeansSharedInstant` | src/modules/assignments/assignment-overlap.util.ts:5-12 | two ranges overlap if and only if they share an instant, the ends not counted |
| `ScheduleOverlap.RecurrencesOverlap` | src/modules/shifts/shift-recurrence.util.ts:337-353 | whenever both expansions return, the two nested loops report a clash exactly when two listed occurrences overlap |
| `ScheduleOverlap.FoundOverlapIsReal` | src/modules/shifts/shift-recurrence.util.ts:337-353 | a reported clash, of series or one-off shifts, is between two real occurrences that overlap |
| `ScheduleOverlap.ShortWindowSeesExactly` | src/modules/shifts/shift-recurrence.util.ts:337-353 | in a window of at most 61 days the limit of 62 never bites: a clash is reported if and only if two occurrences overlap that meet the window and, in a series, are not dated before it |
| `ScheduleOverlap.FiniteCheckSettlesSchedule` | src/modules/shifts/shift-recurrence.util.ts:337-353 | for any instant by which both series have begun, early enough for one more week and an occurrence to fit into the window and its first 61 days: if nothing is found, no two occurrences that start from then on ever overlap, however far ahead |
| `ScheduleOverlap.RunningOccurrencesAreSettled` | src/modules/shifts/shift-recurrence.util.ts:337-353 | if the series go on and occurrences last at most a week, this includes occurrences already running at that instant |
| `ScheduleOverlap.TakingTurnsPasses` | src/modules/shifts/shift-recurrence.util.ts:337-353 | series in one fixed-offset zone that take turns within the day, each over before the other starts, are never reported |
| `ScheduleOverlap.LaterCopyCaughtExactly` | src/modules/assignments/assignments.service.ts:1147-1175 | a daily proposal against its own copy that begins some days later, which coincides with it from then on, is refused if and only if the copy begins by the end of the window and within 62 dates |
| `ScheduleOverlap.UnbegunSeriesEscapes` | src/modules/assignments/assignments.service.ts:1147-1175 | a copy that begins after the window always passes |
| `ScheduleOverlap.OneOffProposalExactly` | src/modules/assignments/assignments.service.ts:1147-1175 | for a one-off proposal against a series the check sees exactly the occurrences dated on or after the proposal's date, so a proposal that passes is free of clashes if and only if no occurrence of an earlier date is still running when it starts |
| `ScheduleOverlap.NightShiftEscapes` | src/modules/assignments/assignments.service.ts:1147-1175 | a one-off shift from 02:00 to 04:00 passes against a daily one from 22:00 to 06:00 that is running through it |
| `ScheduleOverlap.SeriesProposalExactly` | src/modules/assignments/assignments.service.ts:1147-1175 | for a series proposed against a one-off shift that ends within the window and its first 61 days the check is exact |
| `ScheduleOverlap.FarOneOffEscapes` | src/modules/assignments/assignments.service.ts:1147-1175 | a one-off shift after the window passes against the daily series it clashes with |
| `ScheduleOverlap.EndingProposalExactly` | src/modules/assignments/assignments.service.ts:1147-1175 | a proposed series that ends within 61 days never clashes with another series, on any date, if and only if the check finds nothing, no occurrence dated before the proposal or over when it begins still runs into it, none that starts after its last instant meets its last occurrence, and it does not clash on a last date that starts after that instant |
| `ScheduleOverlap.NightSeriesEscapes` | src/modules/assignments/assignments.service.ts:1150-1152 | a daily night series that ends on a date at most five dates after it begins passes against a series of the weekday after that date alone, although its last night runs into it |
| `ScheduleOverlap.LastDateEscapes` | src/modules/assignments/assignments.service.ts:1150-1152 | a daily series whose last instant comes before its start on the last date passes against a series at the same time of day on that weekday alone |
| `CanonicalJson.ValuePrefix` | src/common/idempotency/request-hash.util.ts:3-18 | two encodings that agree up to a delimiter encode the same payload and leave the same rest (quoted strings of RFC 8259, section 7) |
| `CanonicalJson.SameEncodesSame` | src/common/idempotency/request-hash.util.ts:12-17 | the order in which objects list their keys does not matter, at any depth |
| `CanonicalJson.CanonicalTextIsFaithful` | src/common/idempotency/request-hash.util.ts:3-18 | canonical texts are equal if and only if the payloads are equal up to key order |
| `JsonReading.CanonicalTextReadsBack` | src/common/idempotency/request-hash.util.ts:3-18 | round trip: the canonical text of a payload, whatever follows it, is a JSON text (RFC 8259, sections 2 to 7) that a reader reads back as that payload up to key order, with the keys of each object ascending |
| `CanonicalJson.UndefinedItemCollides` | src/common/idempotency/request-hash.util.ts:8-10 | outside JSON it is not injective: an array with one undefined item encodes like the empty array |
| `Idempotency.StepKeeps` | src/common/idempotency/prisma-idempotency.store.ts:38-168 | one punctual step keeps: at most one execution, exactly while the record is processing and locked with its hash; the hash stays; a completed record stays as it is |
| `Idempotency.OneInFlightExactly` | src/common/idempotency/prisma-idempotency.store.ts:50-97 | over every run whose responses have bodies, at most one execution is ever in flight if and only if no begin comes while an execution is past its lock |
| `Idempotency.ProtocolSafety` | src/common/idempotency/prisma-idempotency.store.ts:38-168 | in every such run, however late executions finish: at most one in flight, the hash never changes, a completed response is never overwritten |
| `Idempotency.BeginAnswers` | src/common/idempotency/idempotency.service.ts:34-70 | what begin answers in every reachable state: replay for the same hash, refusal for another, in progress while one runs, execution otherwise |
| `Idempotency.FailureAllowsRetry` | src/common/idempotency/prisma-idempotency.store.ts:78-97 | over every punctual run: after an execution has failed, the next begin with its hash proceeds and executes, and any other hash is refused |
| `Idempotency.CompletionIsReplayed` | src/common/idempotency/prisma-idempotency.store.ts:129-149 | over every punctual run: after an execution has completed, the next begin with its hash replays the code and body it completed with without executing, and any other hash is refused |
| `Idempotency.RecordIsTraced` | src/common/idempotency/prisma-idempotency.store.ts:38-168 | in every run, punctual or not: operation, hash and expiry of the record are those of a begin, its lock runs 30 seconds from that begin, a completed record and every replay have the code and body of a completion of the run, a failed one the error body after a failure |
| `Idempotency.DifferentPayloadNeverExecutes` | src/common/idempotency/idempotency.service.ts:57-66 | once a key belongs to a payload, a payload that is not equal up to key order never executes under it |
| `Idempotency.SecondExecutionExactly` | src/common/idempotency/prisma-idempotency.store.ts:50-97 | a second execution starts beside a running one if and only if the lock has run out |
| `Idempotency.ReplayExecutesExactly` | src/modules/attendance/attendance.service.ts:302-313 | by the guard of the callers, a completed key is executed again for its own hash if and only if its response was stored without a body |
| `Idempotency.BodylessResponseRunsTwice` | src/modules/attendance/attendance.service.ts:302-329 | a run in which a response without a body leads to two executions of one request at once |
| `Idempotency.LateExecutionOverwrites` | src/common/idempotency/prisma-idempotency.store.ts:129-149 | a run in which a late execution overwrites the completed response of a different payload |
| `Idempotency.PrismaIdempotencyStore.BeginKey` | src/common/idempotency/prisma-idempotency.store.ts:38-127 | begin leaves the record and gives the lookup result that the protocol's step prescribes, and touches no other key |
| `Idempotency.PrismaIdempotencyStore.CompleteKey` | src/common/idempotency/prisma-idempotency.store.ts:129-149 | complete stores status and response and releases the lock, or fails when there is no record |
| `Idempotency.PrismaIdempotencyStore.FailKey` | src/common/idempotency/prisma-idempotency.store.ts:151-167 | fail stores the failure and releases the lock, or fails when there is no record |
| `Idempotency.IdempotencyService.BeginOperation` | src/common/idempotency/idempotency.service.ts:34-70 | the service's answer is the outcome of the store's lookup, and without a store everything proceeds |
| `JobQueue.QueueSafety` | src/infrastructure/queues/in-memory-queue.service.ts:65-188 | in every interleaving: callbacks are never fewer than waiting jobs before stop, every enqueued job is in exactly one place, the clamped counters are exact, no job begins more than three times, first attempts begin in enqueue order |
| `JobQueue.QuietMeansSettled` | src/infrastructure/queues/in-memory-queue.service.ts:118-175 | no lost wake-up: with no callback scheduled and no job awaited, every job has succeeded or is dead-lettered |
| `JobQueue.FirstInFirstOut` | src/infrastructure/queues/in-memory-queue.service.ts:65-91 | from every state and in every run the ids begun followed by those waiting only grow at the end: what waits, new or to be tried again, begins in its order ahead of everything that comes later |
| `JobQueue.OutcomesAreEvents` | src/infrastructure/queues/in-memory-queue.service.ts:118-175 | in every run the jobs done are as many as the successes, the attempts begun as many as those awaited, succeeded and failed, and the queue is destroyed exactly by a stop |
| `JobQueue.StoppedBeginsNothing` | src/infrastructure/queues/in-memory-queue.service.ts:118-121 | a stopped queue begins nothing any more |
| `JobQueue.StepDecreases` | src/infrastructure/queues/in-memory-queue.service.ts:118-175 | twice the remaining attempts plus the callbacks strictly decreases at every step but enqueue and stop, and is never negative |
| `JobQueue.ProcessingTerminates` | src/infrastructure/queues/in-memory-queue.service.ts:118-175 | so a run without new jobs is no longer than that measure |
| `JobQueue.RunLengthBound` | src/infrastructure/queues/in-memory-queue.service.ts:65-175 | a run has at most eight steps for each enqueued job, beside the stops |
| `JobQueue.InMemoryQueueService.EnqueueJob` | src/infrastructure/queues/in-memory-queue.service.ts:65-91 | the queue takes the enqueue step and every other queue stays as it is |
| `JobQueue.InMemoryQueueService.ProcessNext` | src/infrastructure/queues/in-memory-queue.service.ts:118-134 | a callback takes the callback step: idle when destroyed or empty, otherwise the first job begins |
| `JobQueue.InMemoryQueueService.JobSucceeds` | src/infrastructure/queues/in-memory-queue.service.ts:137-140 | a finished job is counted, and a callback is scheduled when jobs wait |
| `JobQueue.InMemoryQueueService.JobFails` | src/infrastructure/queues/in-memory-queue.service.ts:141-174 | a failed job goes to the end of the queue with its callback, or to the dead letters after the third attempt |
| `JobQueue.InMemoryQueueService.StopQueues` | src/infrastructure/queues/in-memory-queue.service.ts:60-63 | stop marks the queues destroyed and changes nothing else |
| `Scheduling.UpdateKeepsExactly` | src/modules/shifts/shifts.service.ts:437-560 | a shift update keeps active one-off assignments disjoint if and only if it does not turn a recurring shift into a one-off one, without new times, whose times collide with a one-off shift beside it |
| `Scheduling.UncheckedChangeClashes` | src/modules/shifts/shifts.service.ts:500-560 | two accepted calls, a creation and such an update, that leave an officer with two overlapping one-off shifts |
| `Scheduling.ScheduleStaysDisjoint` | src/modules/assignments/assignments.service.ts:1089-1194 | throughout any run of create, batch, reassign, confirm, cancel, status update, clock-in, clock-out, shift status changes, archivings and shift updates, an officer's active one-off assignments on shifts that are not archived have disjoint ranges and no shift is booked twice for one officer, if and only if every update of the run is safe in that sense |
| `Scheduling.ArchivingInUseExactly` | src/modules/shifts/shifts.service.ts:671-693 | a call keeps every active assignment on a live shift if and only if it does not archive a shift that is in use |
| `Scheduling.ScheduleFullyDisjoint` | src/modules/assignments/assignments.service.ts:263-309 | in runs that archive only idle shifts and update safely, all active one-off assignments of an officer are pairwise disjoint |
| `Scheduling.ReassignMeansUnbooked` | src/modules/assignments/assignments.service.ts:802-908 | checking the replacement while ignoring the old assignment finds the officer free once the old one is taken out |
| `Scheduling.CreateBooks` | src/modules/assignments/assignments.service.ts:166-225 | a creation is accepted exactly for an open shift and an active officer who is not on duty for it and has no conflict; the officer is then on duty for the shift by the new row alone and nothing else changes |
| `Scheduling.BatchBooks` | src/modules/assignments/assignments.service.ts:246-309 | a batch is accepted exactly when every officer could be booked; each is then on duty for the shift by exactly one new row, and there are no other new rows and no other changes |
| `Scheduling.ReassignHandsOver` | src/modules/assignments/assignments.service.ts:802-908 | a reassignment is accepted exactly before the old assignment has begun and when the replacement can be booked beside it; the replacement is then on duty for the shift by the new row alone, the replaced officer, who is another, no longer, the old row is REASSIGNED and nothing else changes |
| `Scheduling.BookingRefusals` | src/modules/assignments/assignments.service.ts:1006-1194 | a refused creation, batch or reassignment names a true reason |
| `Scheduling.CallsMoveExactly` | src/modules/assignments/assignments.service.ts:674-993 | confirm, cancel, status update, clock-in and clock-out are accepted exactly where a table has a move for the status, write that move, and change nothing else but that the first clock-in starts a scheduled one-off shift |
| `Scheduling.ClosedAssignmentsStay` | src/modules/assignments/assignments.service.ts:674-993 | in every run an assignment keeps its shift and officer, and a completed, cancelled, reassigned or missed one stays as it is |
| `Scheduling.ShiftCallsExactly` | src/modules/shifts/shifts.service.ts:578-693 | a shift's status moves exactly along a table, archiving alone deletes it, and cancelling it cancels its active assignments and no others |
| `Scheduling.UpdateWrites` | src/modules/shifts/shifts.service.ts:437-560 | the exact condition under which a shift update is accepted, and that it writes the given fields and keeps the others, an end date only on a series and weekdays only on one that is not daily |
| `Scheduling.OneOffConflictExactly` | src/modules/assignments/assignments.service.ts:1174-1186 | two one-off shifts conflict if and only if they share an instant |
| `Scheduling.LaterCopyConflictsExactly` | src/modules/assignments/assignments.service.ts:1147-1175 | an endless daily shift conflicts with its own copy that begins some days later if and only if that is within the first 62 dates |
| `Scheduling.AssignmentsService.AssertNoDuplicate` | src/modules/assignments/assignments.service.ts:1089-1111 | true exactly when the officer holds no active assignment to the shift |
| `Scheduling.AssignmentsService.AssertNoOverlap` | src/modules/assignments/assignments.service.ts:1113-1194 | true exactly when no other active assignment of the officer, recurring or not, conflicts with the shift |
| `Scheduling.AssignmentsService.AssertNoConflictsOnReschedule` | src/modules/shifts/shifts.service.ts:739-787 | true exactly when no other active assignment, on a shift that is not deleted, of an officer of the shift meets the new times |
| `Scheduling.AssignmentsService.PerformUpdateShift` | src/modules/shifts/shifts.service.ts:437-560 | the shift takes the specified update or the first failing check is reported and nothing changes |
| `Scheduling.AssignmentsService.CreateAssignment` | src/modules/assignments/assignments.service.ts:166-225 | the call ends in the specified state or with the specified error and no change |
| `Scheduling.AssignmentsService.CreateAssignments` | src/modules/assignments/assignments.service.ts:246-309 | all officers of the batch are checked first, then all are created, or none |
| `Scheduling.AssignmentsService.ReassignAssignment` | src/modules/assignments/assignments.service.ts:802-908 | the old row becomes REASSIGNED and a new one is created, or nothing changes |
| `Scheduling.AssignmentsService.UpdateAssignmentStatus` | src/modules/assignments/assignments.service.ts:674-744 | a status moves along the table or the call is refused |
| `Scheduling.AssignmentsService.ConfirmAssignment` | src/modules/assignments/assignments.service.ts:746-800 | only an ASSIGNED assignment is confirmed |
| `Scheduling.AssignmentsService.CancelAssignment` | src/modules/assignments/assignments.service.ts:931-993 | started and completed assignments cannot be cancelled, closed ones stay as they are |
| `Attendance.OvertimeExcludesEarlyDeparture` | src/modules/attendance/attendance-calculation.service.ts:33-77 | whoever clocked in no earlier than the scheduled start never has both overtime and an early departure |
| `Attendance.MinutesBalance` | src/modules/attendance/attendance-calculation.service.ts:33-77 | after grace and before the end: gross plus late plus early lies between scheduled minus grace minus 2 and scheduled minus grace |
| `Attendance.TotalsMean` | src/modules/attendance/attendance-calculation.service.ts:33-77 | gross, late and early minutes are the whole minutes of their intervals, payable the gross less the breaks, and overtime what the gross has beyond the scheduled minutes and the threshold, each none when negative |
| `Attendance.TotalAlwaysExact` | src/modules/breaks/breaks.service.ts:465-494 | in every run, corrections included, totalBreakMinutes is the sum of the completed breaks |
| `Attendance.ChronicleRun` | src/modules/breaks/breaks.service.ts:379-414 | in runs without corrections breaks follow one another from clock-in on, only the last can be running, and each completed one has the length it says |
| `Attendance.DisjointBreaksFit` | src/modules/breaks/breaks.service.ts:459-494 | breaks that follow one another inside an interval have together no more whole minutes than the interval |
| `Attendance.ClockOutBalances` | src/modules/attendance/attendance.service.ts:1307-1316 | at every clock-out of a run without corrections no break is running, the completed ones are disjoint intervals from clock-in to clock-out, and payable plus break minutes are gross exactly, so no clamp bites |
| `Attendance.ClockOutWrites` | src/modules/attendance/attendance.service.ts:1299-1459 | the exact condition under which a clock-out is accepted; its minutes are exact in that sense against the occurrence it is settled against, and nothing but them, the time and the status changes |
| `Attendance.CorrectionWrites` | src/modules/attendance/attendance.service.ts:811-893 | a correction is accepted exactly when a clock-out is given or recorded; it writes the given times, and minutes exact against the shift's own times |
| `Attendance.BreakStepsWrite` | src/modules/breaks/breaks.service.ts:288-494 | the exact conditions under which a break is started, ended and cancelled, by officers within five minutes, and what each writes |
| `Attendance.ReviewStepsWrite` | src/modules/attendance/attendance.service.ts:721-937 | review requests, verdicts and voiding are accepted exactly along a table and change nothing but the status |
| `Attendance.StepRefusals` | src/modules/attendance/attendance.service.ts:1264-1393 | a refused break, clock-out, review step or correction names a true reason |
| `Attendance.BalanceLostExactly` | src/modules/attendance/attendance.service.ts:737-763 | the balance survives a step if and only if the step does not end a break of at least a minute after the clock-out |
| `Attendance.BreaksLeaveExactly` | src/modules/breaks/breaks.service.ts:379-400 | completed breaks stay inside clock-in and clock-out if and only if none is ended later than the clock-out |
| `Attendance.BalanceCanBeLost` | src/modules/attendance/attendance.service.ts:737-763 | a run of clock-out, review request and a ten-minute break that ends with payable plus break above gross |
| `Attendance.ClockOutOverwrittenExactly` | src/modules/attendance/attendance.service.ts:1299-1393 | a step changes a recorded clock-out if and only if it is an admitted clock-out at another time with no break running, in status CLOCKED_IN or APPROVED_WITH_WARNING or, when it needs no review, PENDING_SUPERVISOR_APPROVAL or SUPERVISOR_APPROVED |
| `Attendance.ClockOutFinalExactly` | src/modules/attendance/attendance.service.ts:1299-1393 | a recorded clock-out stays as it is in all runs without corrections if and only if the row is rejected or voided |
| `Attendance.ClockInGate` | src/modules/attendance/attendance.service.ts:1015-1175 | a clock-in is accepted exactly when device, assignment, its status and place are admitted and an occurrence is resolved, has no attendance yet and is open; the new row is empty and balanced, for that occurrence, with the status that the place calls for and the whole minutes past the grace period as late |
| `Attendance.ClockInRefusals` | src/modules/attendance/attendance.service.ts:1015-1175 | a refused clock-in names a true reason |
| `Attendance.ClockOutUsesClockInOccurrence` | src/modules/attendance/attendance.service.ts:1400-1424 | the stored occurrence date leads clock-out back to the occurrence of that day, or to the shift's own times if the shift has none |
| `Attendance.WholeShiftBalances` | src/modules/attendance/attendance.service.ts:1055-1150 | from clock-in to clock-out without corrections: the same occurrence, exact minutes against it, the same late minutes, never both overtime and an early departure, and the minutes balance within rounding |
| `Attendance.ChangeoverAcceptsExactly` | src/modules/attendance/attendance.service.ts:1015-1074 | at daily 24-hour shifts, after a changeover and within grace until midnight, an admitted clock-in is accepted if and only if the request names today's date and there is no attendance for it yet; without a date or with yesterday's it is refused although an occurrence is open |
| `Attendance.ProjectedShiftCountsAsLate` | src/modules/attendance/attendance.service.ts:1409-1424 | an officer on time for a one-off shift projected onto any later day, naming no other date near by, is accepted with no late minutes, and after any run without corrections clock-out writes all minutes since the original start and grace as late |
| `Attendance.SumDurations` | src/modules/attendance/attendance.service.ts:1396-1398 | the fold over the breaks is the sum of the completed ones |
| `Attendance.FindActive` | src/modules/attendance/attendance.service.ts:1307-1309 | finds a running break exactly when there is one |
| `Attendance.AttendanceService.PerformClockIn` | src/modules/attendance/attendance.service.ts:953-1243 | writes the specified row or refuses without change, and keeps one attendance per assignment and occurrence |
| `Attendance.AttendanceService.PerformClockOut` | src/modules/attendance/attendance.service.ts:1264-1459 | the row takes the clock-out step, all other rows stay |
| `Attendance.AttendanceService.PerformStartBreak` | src/modules/breaks/breaks.service.ts:357-429 | the row takes the start-break step or nothing changes |
| `Attendance.AttendanceService.PerformEndBreak` | src/modules/breaks/breaks.service.ts:431-494 | the row takes the end-break step, its total summed over the completed breaks again |
| `Attendance.AttendanceService.CancelBreak` | src/modules/breaks/breaks.service.ts:288-340 | the row takes the cancel step, within five minutes for officers |
| `Attendance.AttendanceService.PerformRequestReview` | src/modules/attendance/attendance.service.ts:721-763 | the status moves to pending approval where the table allows it |
| `Attendance.AttendanceService.PerformReview` | src/modules/attendance/attendance.service.ts:1552-1599 | the status moves to approved or rejected where the table allows it |
| `Attendance.AttendanceService.VoidAttendance` | src/modules/attendance/attendance.service.ts:909-937 | the status moves to voided where the table allows it |
| `Attendance.AttendanceService.CorrectAttendance` | src/modules/attendance/attendance.service.ts:811-893 | times and totals are rewritten against the shift's own times, or refused without a clock-out |
| `PatrolVisits.Calculate` | src/modules/patrols/patrol-progress.service.ts:22-87 | one pass over the snapshots in sequence order counts what the specification counts and keeps the first open one |
| `PatrolVisits.ProgressMeans` | src/modules/patrols/patrol-progress.service.ts:29-86 | in whatever order the snapshots come: the clamp on pending never bites, next is an open snapshot with the least sequence and absent only when all are settled, all-complete holds exactly when every snapshot is completed |
| `PatrolVisits.PercentageMeans` | src/modules/patrols/patrol-progress.service.ts:73-74 | the percentage lies in 0 to 100 without the cap, is 100 from 99.5 % of completion on and 0 below 0.5 % |
| `PatrolVisits.VisitAcceptedExactly` | src/modules/patrol-visits/patrol-visits.service.ts:363-493 | a visit is accepted if and only if the patrol is in progress, the snapshot is not completed or skipped, in sequential mode it is its turn, and method, drift, device, accuracy, distance, QR code, photo and note are as configured |
| `PatrolVisits.FindMeans` | src/modules/patrol-visits/patrol-visits.service.ts:371-378 | the snapshot is looked up by its own id first and by the id of the original second |
| `PatrolVisits.VisitWrites` | src/modules/patrol-visits/patrol-visits.service.ts:499-577 | an accepted visit writes its snapshot's visit and no other: completed, and one more counted, within the offline threshold, and under review with the patrol later |
| `PatrolVisits.VisitRefusals` | src/modules/patrol-visits/patrol-visits.service.ts:363-493 | a refused visit names a true reason |
| `PatrolVisits.VisitExtendsPrefix` | src/modules/patrol-visits/patrol-visits.service.ts:395-410 | visiting the next checkpoint keeps the visited snapshots a prefix of the sequence order |
| `PatrolVisits.StepKeepsPatrolOk` | src/modules/patrol-visits/patrol-visits.service.ts:499-577 | every step keeps: visited snapshots a prefix on sequential routes, at most one visit under review, status in agreement with the visits, stored counts equal to recomputed ones |
| `PatrolVisits.PatrolSafety` | src/modules/patrol-assignments/patrol-assignments.service.ts:485-797 | the same over every run of start, visit, review, complete, cancel and mark-missed |
| `PatrolVisits.StatusMoves` | src/modules/patrols/patrol-transitions.util.ts:32-64 | every status change is in the table or the return from review to progress; finished patrols stay finished |
| `PatrolVisits.CompletedOnlyWhenFull` | src/modules/patrol-assignments/patrol-assignments.service.ts:731-757 | COMPLETED is entered only by completing a patrol in progress with every snapshot completed, although the table also allows it from review |
| `PatrolVisits.CompletesExactly` | src/modules/patrol-assignments/patrol-assignments.service.ts:726-757 | a patrol in progress is completed if and only if it has snapshots and all are completed |
| `PatrolVisits.StartsExactly` | src/modules/patrol-assignments/patrol-assignments.service.ts:622-682 | the exact condition under which a patrol is started, which changes only its status |
| `PatrolVisits.ReviewWrites` | src/modules/patrol-visits/patrol-visits.service.ts:598-686 | the exact condition under which a review is accepted; it writes its verdict on that visit alone, and the patrol goes back to progress when nothing is under review any more |
| `PatrolVisits.CompleteWrites` | src/modules/patrol-assignments/patrol-assignments.service.ts:699-771 | the exact condition under which a patrol is completed or, with a note, partially completed, which changes only its status |
| `PatrolVisits.CancelsExactly` | src/modules/patrol-assignments/patrol-assignments.service.ts:485-516 | a patrol is cancelled exactly with a reason while it is active |
| `PatrolVisits.WalkCompletes` | src/modules/patrol-assignments/patrol-assignments.service.ts:622-771 | a patrol that is started, visited on time at every snapshot in sequence order and then completed ends as completed with all snapshots counted |
| `PatrolVisits.MarkMissedRefusedExactly` | src/modules/patrol-assignments/patrol-assignments.service.ts:551-581 | marking missed is refused exactly without a reason or outside NOT_STARTED and IN_PROGRESS, so its second transition check never fails; the outcome depends on whether something was completed |
| `PatrolVisits.CompletenessLostExactly` | src/modules/patrol-visits/patrol-visits.service.ts:642-686 | a completed patrol falls short of its total if and only if a supervisor rejects or skips one of its visits |
| `PatrolVisits.ReviewPossibleExactly` | src/modules/patrol-visits/patrol-visits.service.ts:495-502 | some visit can send the patrol to review if and only if the offline threshold is below the device time tolerance |
| `PatrolVisits.NoReviewsByDefault` | src/modules/patrol-visits/patrol-visits.service.ts:716-730 | with the tolerance no wider than the threshold no run ever reaches review |
| `PatrolVisits.DefaultConfigNeverReviews` | src/modules/patrol-visits/patrol-visits.service.ts:495-502 | in particular with the defaults of 10 and 30 minutes |
| `PatrolCheckpoints.AssertCanActivate` | src/modules/patrol-routes/patrol-routes.service.ts:398-440 | the loop returns the first failure in sequence order |
| `PatrolCheckpoints.ActivatesExactly` | src/modules/patrol-routes/patrol-routes.service.ts:412-439 | a route passes if and only if it has active checkpoints, numbered 1 to n, each with a QR hash where its method scans one |
| `PatrolCheckpoints.FailureIsFirst` | src/modules/patrol-routes/patrol-routes.service.ts:412-439 | the failure is that of the first checkpoint in sequence order that is out of number or lacks its QR hash |
| `PatrolCheckpoints.TransactionKeepsRowsOk` | src/modules/patrol-checkpoints/patrol-checkpoints.service.ts:355-368 | after every single row update of a reorder that commits, the sequences of the route are distinct |
| `PatrolCheckpoints.ReorderCommitsExactly` | src/modules/patrol-checkpoints/patrol-checkpoints.service.ts:317-368 | an accepted request commits if and only if no row of the route outside the request, inactive and deleted ones included, holds a sequence from 1 to n |
| `PatrolCheckpoints.ReorderedRows` | src/modules/patrol-checkpoints/patrol-checkpoints.service.ts:355-368 | named rows end with a requested sequence, in requests without repetition the one asked for, and all else is untouched |
| `PatrolCheckpoints.NamesEveryActiveExactly` | src/modules/patrol-checkpoints/patrol-checkpoints.service.ts:317-351 | an accepted request covers every active checkpoint if and only if it names none twice |
| `PatrolCheckpoints.ReorderNumbersExactly` | src/modules/patrol-checkpoints/patrol-checkpoints.service.ts:355-368 | after a committed reorder the active checkpoints are numbered 1 to n if and only if the request named none twice, and then as requested |
| `PatrolCheckpoints.RepeatedNameAbortsWhenContiguous` | src/modules/patrol-checkpoints/patrol-checkpoints.service.ts:325-351 | on a route already numbered 1 to n a request with a repeated name always fails on the unique index |
| `PatrolCheckpoints.RepeatedNameLeavesGap` | src/modules/patrol-checkpoints/patrol-checkpoints.service.ts:325-368 | on a route with a gap such a request commits and the route no longer passes activation |
| `PatrolCheckpoints.DeletedRowObstructs` | src/modules/patrol-checkpoints/patrol-checkpoints.service.ts:404-410 | a deleted checkpoint that kept sequence 1 makes every reorder of its route fail |
| `PatrolTables.CommandKeepsCoherent` | src/modules/patrol-checkpoints/patrol-checkpoints.service.ts:177-296 | every command of the route, checkpoint, patrol and visit services keeps the tables coherent |
| `PatrolTables.PatrolTablesStayCoherent` | src/modules/patrol-assignments/patrol-assignments.service.ts:810-973 | in every run: snapshots of active patrols have the coordinates, radius, method and QR hash of their checkpoint, one active patrol per route and assignment, none on archived routes, every patrol sound, sequences unique |
| `PatrolTables.EmptyTablesAreCoherent` | src/modules/patrol-assignments/patrol-assignments.service.ts:810-973 | the tables of a new installation are coherent, so every run from them is covered |
| `PatrolTables.BatchKeepsCoherent` | src/modules/patrol-assignments/patrol-assignments.service.ts:162-185 | a batch creates all patrols or none and keeps the tables coherent |
| `PatrolTables.CreatePatrolWrites` | src/modules/patrol-assignments/patrol-assignments.service.ts:810-959 | the exact condition under which a patrol is created; it has not begun and its snapshots copy the active checkpoints of its route, each once, in sequence order |
| `PatrolTables.BatchWrites` | src/modules/patrol-assignments/patrol-assignments.service.ts:162-185 | a batch that is carried out has created all its patrols and changed nothing else |
| `PatrolTables.BatchAppends` | src/modules/patrol-assignments/patrol-assignments.service.ts:162-185 | one more patrol in a batch is created after the others if they and it can be, and otherwise refuses the batch |
| `PatrolTables.StepWritesPatrol` | src/modules/patrol-visits/patrol-visits.service.ts:355-577 | a step is made under the mode of the patrol's route and touches that patrol alone |
| `PatrolTables.RouteCallsWrite` | src/modules/patrol-routes/patrol-routes.service.ts:299-360 | a route's status moves exactly along a table, to active only when fit for it, to archived, which deletes it, only without active patrols |
| `PatrolTables.CreateCheckpointWrites` | src/modules/patrol-checkpoints/patrol-checkpoints.service.ts:41-65 | the exact condition under which a checkpoint is created, and the row it gets |
| `PatrolTables.UpdateCheckpointWrites` | src/modules/patrol-checkpoints/patrol-checkpoints.service.ts:177-281 | the exact condition under which a checkpoint is updated; the row has the given fields and keeps the others |
| `PatrolTables.ArchiveCheckpointWrites` | src/modules/patrol-checkpoints/patrol-checkpoints.service.ts:392-410 | the exact condition under which a checkpoint is archived; its row stays with its sequence |
| `PatrolTables.QrStaysUnique` | src/modules/patrol-checkpoints/patrol-checkpoints.service.ts:41-65 | no two checkpoint rows have the same QR hash in any run |
| `PatrolTables.WithRowKeepsMirrored` | src/modules/patrol-checkpoints/patrol-checkpoints.service.ts:187-199 | replacing a checkpoint row is seen by no active patrol if the row keeps its verification fields and is not deleted, or no active patrol uses it |
| `PatrolTables.FinishedIsFinal` | src/modules/patrols/patrol-transitions.util.ts:59-64 | no service brings a finished patrol back: status, snapshots, route and assignment are final in every run |
| `PatrolTables.VisitMatchesCheckpoint` | src/modules/patrol-visits/patrol-visits.service.ts:412-478 | in every coherent state an accepted visit matches the checkpoint as it stands: its method, its QR hash, and a distance within its radius plus at most 25 metres |
| `PatrolTables.ReorderLeavesBehindExactly` | src/modules/patrol-checkpoints/patrol-checkpoints.service.ts:298-368 | after a reorder a snapshot still has its checkpoint's sequence if and only if the request kept it |
| `PatrolTables.PatrolServices.PerformUpdateRouteStatus` | src/modules/patrol-routes/patrol-routes.service.ts:299-326 | carries out the command or refuses without change, and keeps the tables coherent |
| `PatrolTables.PatrolServices.PerformArchiveRoute` | src/modules/patrol-routes/patrol-routes.service.ts:346-360 | likewise, with an archived route left as it is |
| `PatrolTables.PatrolServices.PerformCreateCheckpoint` | src/modules/patrol-checkpoints/patrol-checkpoints.service.ts:41-65 | likewise, a QR hash being kept only for methods that scan one |
| `PatrolTables.PatrolServices.PerformUpdateCheckpoint` | src/modules/patrol-checkpoints/patrol-checkpoints.service.ts:177-281 | likewise, guarded fields being refused while an active patrol uses the checkpoint |
| `PatrolTables.PatrolServices.PerformArchiveCheckpoint` | src/modules/patrol-checkpoints/patrol-checkpoints.service.ts:392-410 | likewise, refused while an active patrol uses the checkpoint |
| `PatrolTables.PatrolServices.PerformReorder` | src/modules/patrol-checkpoints/patrol-checkpoints.service.ts:298-368 | likewise, through the checks and the two passes |
| `PatrolTables.PatrolServices.TwoPassUpdate` | src/modules/patrol-checkpoints/patrol-checkpoints.service.ts:355-368 | the two loops leave the rows after all updates, or as they were if one of them meets a taken sequence |
| `PatrolTables.PatrolServices.PerformCreatePatrols` | src/modules/patrol-assignments/patrol-assignments.service.ts:162-185 | likewise, for a batch in one transaction |
| `PatrolTables.PatrolServices.CreateOneInTx` | src/modules/patrol-assignments/patrol-assignments.service.ts:810-959 | one patrol is created with snapshots of the active checkpoints, or the error of the first failing check is returned |
| `PatrolTables.PatrolServices.PerformStart` | src/modules/patrol-assignments/patrol-assignments.service.ts:622-682 | likewise, a patrol in progress being returned as it is |
| `PatrolTables.PatrolServices.PerformVisit` | src/modules/patrol-visits/patrol-visits.service.ts:328-577 | likewise, progress being calculated before and after the visit is written |
| `PatrolTables.PatrolServices.PerformReviewVisit` | src/modules/patrol-visits/patrol-visits.service.ts:598-686 | likewise, a patrol under review returning to progress when its last review is settled |
| `PatrolTables.PatrolServices.PerformComplete` | src/modules/patrol-assignments/patrol-assignments.service.ts:699-771 | likewise, finished patrols being returned as they are |
| `PatrolTables.PatrolServices.PerformCancel` | src/modules/patrol-assignments/patrol-assignments.service.ts:485-516 | likewise |
| `PatrolTables.PatrolServices.PerformMarkMissed` | src/modules/patrol-assignments/patrol-assignments.service.ts:545-594 | likewise |

## Left out

- ScheduleOverlap.FiniteCheckSettlesSchedule: stated for fixed-offset zones only; with offset changes the two series may shift against each other. It needs room for a week and an occurrence before the end of the window; proposals that end within 61 days are decided by EndingProposalExactly, and of series that begin later the family of LaterCopyCaughtExactly.
- ScheduleOverlap.RunningOccurrencesAreSettled: likewise, and for series that go on for a week and an occurrence.
- ScheduleOverlap.ShortWindowSeesExactly: stated for fixed-offset zones, as are the other lemmas of that file about what the check misses.
- Recurrence.OccurrenceShowsSeriesTime: for zones with one offset change near the wanted time.
- Recurrence.FixedOn: stated for fixed-offset zones, with OccurrenceShowsSeriesTime for others.
- Recurrence.OccursExactly: likewise.
- Recurrence.CurrentMissesExactly: stated for fixed-offset zones and early windows up to 24 h; the callers' is two hours.
- Recurrence.CurrentMissesNothing: likewise.
- Recurrence.ProbeSufficesExactly: likewise.
- Recurrence.ClockInFindsOpenOccurrence: stated for fixed-offset zones and occurrences of at most 24 h.
- Recurrence.ProjectedOccurrence: stated for fixed-offset zones and shifts that last less than 24 h with their grace period.
- Attendance.ProjectedShiftCountsAsLate: likewise.
- TimeZone.DayBounds: stated for fixed-offset zones; where clocks are set back over midnight a date's instants are no interval.
- TimeZone.ZonedDateTimeRightInverse: for years from 101 on, because Date.UTC reads years 0 to 99 as 1900 to 1999, and for zones with at most one offset change within a day of the wanted time.
- Idempotency.ProtocolSafety: begin is one step, so the race of two creations that ends in a unique-index error and a second begin is not modelled; the request hash is the canonical text itself, SHA-256 being a foreign call.
- PatrolVisits.Calculate: computes the completion percentage on reals; the rounding of the floating-point quotient, which can tip an exact half, is not modelled.
- Scheduling.ScheduleStaysDisjoint: an update of a shift is one step; its length, break, weekday and time-zone checks are one verdict, and titles, instructions and grace periods are not part of it.
- Scheduling.BookingRefusals, and the other lemmas on refusals: a refusal names a true reason; which of several it names is read from the specification functions alone.
- Real time-zone data and Intl.DateTimeFormat, including its printing of years before 1.
- JSON numbers are identified with the text the language prints for them; NaN, infinities, negative zero and Date objects are not payloads here.
- Races between un-transacted reads and writes: a call is one step, so two break starts or two clock-ins at the same time are not interleaved.
- Permissions, tenant scoping, supervisors, idempotency wrapping of single endpoints, audit records, event rows, notifications, metrics and logs: branch-level facts or wiring.
- The geofence computation, GPS accuracy policy of clock-in and clock-out, device and evidence checks: their verdicts are inputs, and where several such checks stand between two modelled ones the order of their error codes is not kept.
- The isActive flag of assignments, which no modelled service changes, and the unpaid break minutes of a shift, which the calculation receives and does not use.
- Batch creation of checkpoints: the same checks and rows as creating them one after another.
- Names and descriptions of routes and checkpoints; a route's name check is an input.
- Validation of request bodies before a service is called, except that sequences are at least 1.
- The occurrence an upcoming-duty card shows, list filters, paging and response mappers: easy members.
- SHA-256 and case folding of QR codes: a QR hash is a text that is compared for equality.
- Worked-hours helpers for reports, incident, emergency and device tables, sessions and synchronisation: other parts of the system, none of which the results above need.

# Verified model of the university request office

A Dafny model of the back end of a university request office, and proofs of what
its services promise together. `dafny verify dfyconfig.toml` checks all of it.

Three layers meet here:

1. **The working-time calendar** (`WorkingTime`, `CalendarLaws`). Instants are
   integer microseconds, a local day is 24 hours at a fixed offset from UTC, and
   which days are holidays is arbitrary. Two day-stepping loops add and measure
   working time; both are proved against a definition that counts working
   microseconds one at a time.
2. **The request life cycle with its pausable SLA clock, and the sweep**
   (`Requests`, `RequestRecord`, `SlaLedger`, `RequestLaws`, `RequestRuns`,
   `RequestColumns`, `IdlePauses`, `Office`, `SweepFairness`). A request row is a class whose methods
   update it in place; each is proved to do what a function on the columns says, or
   to be refused and change nothing. A ledger, read off the history, says how much
   working time the office has held the request. The central invariant keeps
   deadline and ledger in step through returns, resumes and closing. `Office` puts
   requests, catalogue and sweeps into one state machine.
3. **The supporting algorithms**: the outbox retry queue (`Outbox`), KPI reports
   and the dashboard (`Kpi`, `KpiLines`, `KpiLaws`, `KpiOrder`, `Dashboard`,
   `ReachableRows`),
   least-loaded routing (`Routing`), tracking numbers (`Tracking` on `Decimals`),
   faculty codes (`FacultyCodes`), one-time passwords (`Totp`) and the two-level
   catalogue (`Catalogue`, `CatalogueColumns`).

## Where the code promises less than one might think

- Adding back measured working time returns to the same instant only inside the
  3660-day window: `CalendarLaws.MeasureThenAdd` has the exact condition,
  `CalendarLaws.MeasureThenAddCanFail` an example.
- A request can be warned more often than its deadline moved: a return and resume
  on a day off clears the warning mark and leaves the deadline.
  `IdlePauses.MovesBoundWarnings` bounds the warnings over every run,
  `IdlePauses.BoundBreaksExactlyWhenIdle` says exactly which resume breaks the
  simpler bound, and `IdlePauses.WarnedTwiceHappens` gives an example.
- On-time counts and the dashboard's compliance agree with the KPI report only on
  rows whose closing date matches their status: `KpiLaws.OnTimeWithinClosed`,
  `Dashboard.ComplianceAgrees`. All rows the life cycle produces are such rows
  (`ReachableRows.ReportsAgree`).
- Two groups of one size and one label keep the order in which their rows came:
  `KpiOrder.ReportIgnoresOrder`.
- A lost tracking counter can be reseeded wrongly once its year's numbers reach
  100000, because the greatest text need not be the greatest number then:
  `Tracking.FreshAfterLoss` has the exact condition, `Tracking.CollidesAfterLoss`
  the numbers that collide.
- The report's mean acceptance time is meant as the time until a request is first
  taken into work, but requests are routed into work as they are filed, so for
  them it is the time between two stamps of one call, microseconds that the report
  rounds to 0.0, and exactly zero where the call reads the clock once, as here:
  `ReachableRows.AcceptedOnFiling`.

## Model

| member | source | states |
|---|---|---|
| `WorkingTime.AddWorkingTime` | backend/app/services/sla_calendar.py:69-84 | The day-stepping loop returns the instant right after the last of `duration` working microseconds counted one by one from `start`, and fails exactly when the 3660-day window holds fewer; a zero or negative duration is counted from the first working instant. |
| `WorkingTime.Advance` | backend/app/services/sla_calendar.py:69-84 | The defining facts of that instant: measured time from `start` equals the duration, the microsecond before it is working, it lies in the window; failure exactly when the window runs out. |
| `WorkingTime.WorkingTimeBetween` | backend/app/services/sla_calendar.py:87-100 | The measuring loop ends for every start and end and returns the number of working microseconds in the half-open interval, zero when the end is not later. |
| `WorkingTime.SlaDeadlineFrom` | backend/app/services/sla_calendar.py:103-104 | A deadline is that instant for the service's hours. |
| `WorkingTime.WorkSplit` | backend/app/services/sla_calendar.py:87-100 | Measuring is additive over any split point. |
| `WorkingTime.WorkMonotone` | backend/app/services/sla_calendar.py:87-100 | Measuring is monotone in both ends. |
| `WorkingTime.UnitEndUnique` | backend/app/services/sla_calendar.py:69-84 | Measured time and a working microsecond just before pin one instant down. |
| `WorkingTime.AdvanceIs` | backend/app/services/sla_calendar.py:69-84 | Any instant in the window with those two facts is the one returned. |
| `CalendarLaws.WorkingByWeek` | backend/app/services/sla_calendar.py:55-66 | Counting from Monday 5 January 1970, any microsecond of day k of any week works if and only if k is a configured weekday and the day is no holiday, with local time ahead of UTC by the offset. |
| `CalendarLaws.FridayMorning` | backend/app/services/sla_calendar.py:55-84 | In Tashkent one working hour from Friday 2 January 1970 at 10:00 ends at 11:00 that day. |
| `CalendarLaws.AdvanceIsLeast` | backend/app/services/sla_calendar.py:69-84 | For a positive duration the result is the least instant by which that much working time has passed, in both directions. |
| `CalendarLaws.ZeroDuration` | backend/app/services/sla_calendar.py:76-81 | Zero duration stays at a working instant and otherwise moves forward to a local midnight that opens a working day. |
| `CalendarLaws.MeasureThenAdd` | backend/app/services/sla_calendar.py:69-100 | Adding back a measured span returns to its end if and only if the microsecond before the end is working and the end is in the window (and the matching condition when nothing was measured). |
| `CalendarLaws.MeasureThenAddCanFail` | backend/app/services/sla_calendar.py:76-84 | A concrete calendar and span for which adding back fails although the instant before the end is working: the window is a real limit. |
| `CalendarLaws.AddingComposes` | backend/app/services/sla_calendar.py:69-84 | Adding in two steps gives what adding once gives, whenever adding once succeeds. |
| `CalendarLaws.AdvanceMonotoneInStart` | backend/app/services/sla_calendar.py:69-84 | Starting later never ends earlier. |
| `CalendarLaws.AdvanceStrictInDuration` | backend/app/services/sla_calendar.py:69-84 | Adding more always ends strictly later, negative durations included. |
| `CalendarLaws.WorkOfDays` | backend/app/services/sla_calendar.py:76-84 | The working time of the first n local days, exactly: 24 hours for each working day, less what has already passed of the first. |
| `CalendarLaws.FailureBound` | backend/app/services/sla_calendar.py:76-84 | For a positive duration adding fails if and only if the working days of the 3660-day window hold less than it, stated in days. |
| `CalendarLaws.WeekNeverRunsOut` | backend/app/services/sla_calendar.py:76-84 | With a Monday-to-Friday week and at most 2583 of the window's weekdays lost to holidays, no duration up to 720 hours fails. |
| `CalendarLaws.RunsOutHere` | backend/app/services/sla_calendar.py:76-84 | A concrete calendar and start with 2584 lost weekdays for which a 720-hour duration fails. |
| `CalendarLaws.WeekCanRunOut` | backend/app/services/sla_calendar.py:76-84 | That bound is sharp: one more lost weekday fails a 720-hour request not filed at midnight. |
| `RequestRecord.Request.ChangeClock` | backend/app/services/request_service.py:402-413 | The SLA half of the status change, in place: pause stamped once, deadline recomputed from what was left at the pause only if something was left, markers cleared with it; a failure leaves the row untouched. |
| `RequestRecord.Request.ApplyStatus` | backend/app/services/request_service.py:393-417 | The whole status change in place does what its specification says or is refused with the row as it was. |
| `RequestRecord.Request.Transition` | backend/app/services/request_service.py:295-354 | Each refusal in the program's order, or the status change with its history entry; a refused call changes nothing. |
| `RequestRecord.Request.Answer` | backend/app/services/request_service.py:357-390 | Refused for the wrong handler, a closed request or a blank text; otherwise stripped answer, stamps, closing and history; rolled back if the calendar gives up. |
| `RequestRecord.Request.Resubmit` | backend/app/services/request_service.py:420-443 | Only the owner, only from returned; the clock resumes and the history says so. |
| `RequestRecord.Request.Assign` | backend/app/services/request_service.py:261-292 | Only an open request and an active staff member or registrator; faculty and department change only when given; status unchanged in the history entry. |
| `RequestRecord.CreateRequest` | backend/app/services/request_service.py:125-206 | A filed request: routed to its handler or answered and closed on the spot, deadline by the calendar, two history entries. |
| `RequestRecord.Request.Mark` | backend/app/services/sla_service.py:156-167 | One iteration of the sweep: breach or warning entry and markers, an earlier warning mark kept. |
| `RequestRecord.SweepDeadlines` | backend/app/services/sla_service.py:156-172 | The loop marks exactly the batch, leaves every other row as it was, and its two counts are the overdue and the remaining rows of the batch. |
| `RequestColumns.FilingWrites` | backend/app/services/request_service.py:144-204 | A filed request carries the student's own faculty and department, the handler routing chose or the service's automatic text, its stamps and exactly two history entries. |
| `RequestColumns.AnswerWrites` | backend/app/services/request_service.py:369-389 | An accepted answer stores the handler's own text trimmed, who gave it and when, completes the request, writes one entry, and leaves filing and assignment columns alone. |
| `RequestColumns.AnswerIsTheText` | backend/app/services/request_service.py:370-375 | The stored answer is the given text without the blanks before and after it. |
| `RequestColumns.AnswerRefused` | backend/app/services/request_service.py:349-372 | Refused as forbidden, in conflict or unprocessable if and only if the actor may not act, the request is closed or the text is blank, in that order. |
| `RequestColumns.AnswerOverRuns` | backend/app/services/request_service.py:363-417 | Over every run from filing a completed request holds the answer of the call that wrote its last entry, or its automatic service's text. |
| `RequestColumns.MoveWrites` | backend/app/services/request_service.py:333-345 | A move changes the status and the clock only and is logged with actor, both statuses and time. |
| `RequestColumns.MoveRefused` | backend/app/services/request_service.py:303-354 | Each refusal of a move if and only if its condition holds: leadership, completing or a move that is not there, another's request, a return without a comment. |
| `RequestColumns.SendBackWrites` | backend/app/services/request_service.py:431-442 | A resubmission puts the request back in work for the same handler and is logged as the student's. |
| `RequestColumns.SendBackRefused` | backend/app/services/request_service.py:424-430 | Refused if and only if another student asks or the request is not returned. |
| `RequestColumns.AssignmentWrites` | backend/app/services/request_service.py:275-291 | The request goes to the one named, an active staff member or registrator; faculty and department change only when given; nothing else does. |
| `RequestColumns.AssignmentRefused` | backend/app/services/request_service.py:95-106 | Refused if and only if leadership asks, the request is closed or the one named cannot be given requests. |
| `RequestColumns.SweepWrites` | backend/app/services/sla_service.py:143-167 | A sweep marks a breach exactly on a watched request past its deadline, keeping an earlier warning mark, warns exactly an unwarned one within the last 24 hours, and changes nothing else. |
| `SlaLedger.StaysInStep` | backend/app/services/request_service.py:393-417 | While the clock runs, ledger and deadline move together. |
| `SlaLedger.StoppedInStep` | backend/app/services/request_service.py:402-413 | With nothing left at the pause the deadline had been reached, so leaving it alone is right: why the guard on the remaining time is needed. |
| `SlaLedger.ResumedInStep` | backend/app/services/request_service.py:404-412 | A recomputed deadline leaves exactly the rest of the budget and lies after now. |
| `SlaLedger.PassedExactlyWhenSpent` | backend/app/services/request_service.py:393-417 | A deadline in step with the ledger has passed if and only if the ledger has reached the budget. |
| `SlaLedger.FiledOk` | backend/app/services/request_service.py:138-206 | A filed request starts in order: two chained entries, deadline in step with an empty ledger and after now. |
| `RequestLaws.ApplyStatusClock` | backend/app/services/request_service.py:393-417 | Every status change leaves the deadline in step with the ledger, puts any new deadline after now, and keeps a breach mark with its deadline. |
| `RequestLaws.StatusChangeOk` | backend/app/services/request_service.py:334-345 | Every logged status change keeps shape, history, stamps and clock of the request in order. |
| `RequestLaws.NextOk` | backend/app/services/request_service.py:261-443 | Every step, refused or not, keeps every request in order: history a legal path from new to the current status in time order, paused mark exactly in returned, closing date exactly in closed statuses, a non-blank answer exactly on completed requests, breach mark only with a warning mark and a deadline before it. |
| `RequestLaws.OverdueExactlyWhenBudgetSpent` | backend/app/services/request_service.py:393-417 | While the clock runs, the deadline has passed if and only if the working time with the office, pauses left out, has reached the service's hours. |
| `RequestLaws.ClosedOnTime` | backend/app/services/request_service.py:415-417 | Closed before the budget was used is on time, closed on time never used more, and but for closing at the very deadline the two are the same. |
| `RequestLaws.ClosedIsFinal` | backend/app/services/request_service.py:44-50 | No step changes a closed request in any column or its history. |
| `RequestLaws.ResumeMovesByThePause` | backend/app/services/request_service.py:404-413 | A resume with time left moves the deadline by exactly the working time of the pause, never earlier, keeps what was left at the pause, and moves it if and only if the pause held working time. |
| `RequestLaws.ResumeWithNothingLeft` | backend/app/services/request_service.py:408-413 | With nothing left the deadline and both markers stay, and the deadline was not after the pause. |
| `RequestLaws.CalendarNeverGivesUp` | backend/app/services/request_service.py:404-409 | With a Monday-to-Friday week and at most 2583 lost weekdays ahead, no step on a request of at most 720 hours meets the calendar's limit, resumes included. |
| `RequestLaws.BreachIsFinal` | backend/app/services/sla_service.py:156-164 | Once a breach is marked no step clears it, moves the deadline or touches the warning mark. |
| `RequestLaws.NewDeadlinesAreAhead` | backend/app/services/request_service.py:409 | A step that changes the deadline puts it after now, and only on an unbreached request. |
| `RequestLaws.LateStaysLate` | backend/app/services/request_service.py:402-413 | Lateness cannot be returned or resumed away. |
| `RequestRuns.RunOk` | backend/app/services/request_service.py:261-443 | Any sequence of calls and sweeps in time order keeps the request in order and its budget unchanged. |
| `RequestRuns.SlaAccounting` | backend/app/services/request_service.py:393-417 | Over every run from filing: while the clock runs, deadline passed if and only if budget used; closed early enough is on time, and on time is within the budget. |
| `RequestRuns.FinalForEver` | backend/app/services/request_service.py:44-50 | Over every run: a closed request never changes, a breach mark and its deadline never change. |
| `RequestRuns.OneEntry` | backend/app/services/sla_service.py:121-130 | A step adds at most one history entry, and the markers change exactly as that entry's kind says. |
| `RequestRuns.NoticesOverRuns` | backend/app/services/sla_service.py:156-167 | Over every run: one breach notice if and only if the mark is set, and no notice of either kind after it. |
| `RequestRuns.OneWarningEach` | backend/app/services/sla_service.py:145-167 | Over every run from filing, exactly: warnings sent plus times the notices were armed in vain is one plus the resumes with time left. |
| `IdlePauses.RearmsMoveOrIdle` | backend/app/services/request_service.py:408-412 | The resumes that re-arm the notices are exactly those that move the deadline and those whose pause held no working time. |
| `IdlePauses.MovesBoundWarnings` | backend/app/services/request_service.py:404-412 | Over every run from filing, warnings are at most one, plus one per resume that moved the deadline, plus one per resume of an already warned request after a pause without working time; so the first two bound every run without such a resume. |
| `IdlePauses.BoundBreaksExactlyWhenIdle` | backend/app/services/request_service.py:404-412 | From any run that has used the bound up, a resume with time left followed by a sweep in the warning window exceeds one warning plus one per deadline-moving resume if and only if the pause held no working time, which can be told before the resume. |
| `IdlePauses.WarnedAndReturnedIsTight` | backend/app/services/request_service.py:402-403 | A request warned and then returned has used the bound up, so such runs exist. |
| `IdlePauses.IdleResumeFits` | backend/app/services/request_service.py:404-413 | After a pause without working time, sending such a request back is a resume that theorem speaks of. |
| `IdlePauses.WarnedTwiceWithoutMoving` | backend/app/services/request_service.py:408-412 | Every request warned, returned, resumed with no working time in between and swept again has two warnings and no resume that moved its deadline. |
| `IdlePauses.WarnedTwiceHappens` | backend/app/services/request_service.py:408-412 | A concrete calendar, request and run from filing with two warnings and no deadline-moving resume. |
| `Office.StepSound` | backend/app/services/request_service.py:125-443 | One step of the whole office (filing through catalogue and routing, a call, a catalogue change, a sweep) keeps every request and the catalogue in order, and leaves no unfinished request without a handler. |
| `Office.RunSound` | backend/app/services/request_service.py:125-443 | So does every run, however the steps are interleaved. |
| `Office.FilingStores` | backend/app/services/request_service.py:125-172 | A filing is stored if and only if the service takes requests, routing finds somebody or none is needed, and the calendar gives a date; it goes to the handler found and nothing else changes. |
| `Office.DeadlinesTellTheTruth` | backend/app/services/request_service.py:393-417 | In every reached state a running request is past its deadline if and only if the office has held it for its service's hours. |
| `Office.BatchExists` | backend/app/services/sla_service.py:143-155 | Whatever is stored, the sweep's query has an answer: the earliest-deadline batch the other theorems assume exists. |
| `SweepFairness.QueueNeverGrows` | backend/app/services/sla_service.py:142-168 | No step adds to the unbreached open requests due by an instant already past. |
| `SweepFairness.SweepMarksOrShortens` | backend/app/services/sla_service.py:142-168 | A sweep marks a running overdue request or takes 200 off the queue ahead of it. |
| `SweepFairness.QueueWorkedOff` | backend/app/services/sla_service.py:142-168 | After any part of a run the request is marked, or every sweep so far took 200 off a queue that still holds it. |
| `SweepFairness.NoBreachStarves` | backend/app/services/sla_service.py:142-168 | A running, overdue, unmarked request that runs whenever a sweep comes is marked within ceil(k/200) sweeps, k counting the unbreached open requests due no later at the start. |
| `Outbox.Message.DeliverOne` | backend/app/services/outbox_service.py:102-122 | One send in place: sent with its stamp, retried after 2^(attempts-1) minutes, or failed at the limit. |
| `Outbox.DeliverPending` | backend/app/services/outbox_service.py:149-152 | The loop sends the batch in order, touches nothing else, and returns its length. |
| `Outbox.DeliverAllAt` | backend/app/services/outbox_service.py:149-152 | A row of the batch is sent exactly once per tick and every other row is untouched. |
| `Outbox.OutcomesOverRuns` | backend/app/services/outbox_service.py:102-122 | Over every run: a row is sent if and only if its last send worked (and all before it failed), given up if and only if all its sends failed and are as many as the limit, pending if and only if they failed and are fewer; its columns give the time of the send that worked or the last error, cut to 2000 characters. |
| `Outbox.NewRowsAreDue` | backend/app/models/outbox.py:36-43 | A new row is pending without attempts and due at once. |
| `Outbox.RunLogged` | backend/app/services/outbox_service.py:102-152 | Over every run each row's attempts count its sends, its next attempt is its last send plus the backoff, and its sends are spaced by the backoff. |
| `Outbox.RetriesBackOff` | backend/app/services/outbox_service.py:109-116 | Over every run no row is tried more often than the limit (or once), and its n-th try comes at least 2^(n-1) - 1 minutes after the first. |
| `Outbox.SentAndFailedAreFinal` | backend/app/services/outbox_service.py:130-152 | Sent and failed rows never change again. |
| `Outbox.BacklogWorkedOff` | backend/app/services/outbox_service.py:130-152 | While a due row waits, every tick takes 50 attempts off the backlog of lower ids. |
| `Outbox.NoRowStarves` | backend/app/services/outbox_service.py:130-152 | A due row is tried within ceil((1 + attempts left on pending rows of lower id)/50) ticks, whatever is enqueued. |
| `Kpi.Acc.Add` | backend/app/services/report_service.py:67-89 | One row in place: every counter and list of the accumulator. |
| `Kpi.Accumulate` | backend/app/services/report_service.py:206-210 | The loop leaves one separate accumulator per key, in order of first appearance, each holding its group's tally, and one holding the total. |
| `Kpi.KpiReport` | backend/app/services/report_service.py:201-224 | The report is the sorted lines of the groups' tallies, and the totals are the tally of all rows. |
| `KpiLines.ReportSays` | backend/app/services/report_service.py:201-217 | The report has one line for every group that occurs and each line says of its group's rows, by the source's column: counters are numbers of rows, percentages 100 times the part over the whole, means the summed time over the count; labelled by its key, larger groups first and then by label. |
| `KpiLines.TotalsSay` | backend/app/services/report_service.py:207-223 | The totals line says the same of all rows. |
| `KpiLines.LineSays` | backend/app/services/report_service.py:91-113 | Every column of a line from the rows themselves, for any group. |
| `KpiLaws.TallyCounts` | backend/app/services/report_service.py:67-89 | Every counter is the number of rows that qualify for it, and each duration is listed as often as rows have it. |
| `KpiLaws.GroupsAddUp` | backend/app/services/report_service.py:201-224 | For every row set and grouping each counter and each list of durations adds up over the groups to the totals. |
| `KpiLaws.StatusesAddUp` | backend/app/services/report_service.py:68-77 | Open, completed and rejected add up to the total, and overdue is within open. |
| `KpiLaws.OnTimeWithinClosed` | backend/app/services/report_service.py:78-80 | On-time never exceeds closed in any selection of rows if and only if no open row carries an on-time closing date. |
| `KpiLaws.PeriodsAddUp` | backend/app/services/report_service.py:129-133 | For adjacent periods every counter and list adds up to the one of the whole period. |
| `KpiLaws.PeriodIsByLocalDay` | backend/app/services/report_service.py:129-133 | A request filed at any microsecond of a local day is in a period if and only if the day is. |
| `KpiLaws.CountIgnoresOrder` | backend/app/services/report_service.py:67-89 | No counter or list, as a multiset, depends on the order of the rows. |
| `KpiLaws.MeanIgnoresOrder` | backend/app/services/report_service.py:97-98 | Nor does a mean. |
| `KpiOrder.SortedOrders` | backend/app/services/report_service.py:217 | Sorting puts larger groups first, then labels, and loses no line. |
| `KpiOrder.SortedKeepsRanks` | backend/app/services/report_service.py:217 | The sort is stable. |
| `KpiOrder.SortsAlike` | backend/app/services/report_service.py:217 | Two lists of lines sort to the same report if and only if they hold the same lines of every size and label in the same order. |
| `KpiOrder.LineIgnoresOrder` | backend/app/services/report_service.py:206-216 | The set of groups and the line of each do not depend on the order of the rows. |
| `KpiOrder.ReportIgnoresOrder` | backend/app/services/report_service.py:206-217 | The report is the same for every order of the rows if and only if no two groups have one size and one label. |
| `KpiOrder.NamesakesTie` | backend/app/services/report_service.py:212-217 | Two people of one name with one request each are such groups. |
| `Dashboard.DashboardStats` | backend/app/services/stats_service.py:35-116 | For all rows, total, open, overdue and mean resolution time are those of the KPI tally; every status has its count; overdue, due-soon and returned requests are disjoint parts of the open ones; the compliance is what the late ones leave of the closed, none if nothing is closed. |
| `Dashboard.TilesCount` | backend/app/services/stats_service.py:57-81 | Due soon, unassigned, completed today and created this week count exactly the rows that are, stated on the rows: within 24 hours, open without handler, closed on today's UTC day, within seven days. |
| `Dashboard.CountersAgree` | backend/app/services/stats_service.py:42-90 | The sums over the per-status counts, the overdue query and the average are the tally's total, open, overdue and mean. |
| `Dashboard.StatusSums` | backend/app/services/stats_service.py:43-47 | Sums over the per-status counts equal the tally's total, open and closed. |
| `Dashboard.TwoCountsOfOnTime` | backend/app/services/stats_service.py:104-116 | The report's and the dashboard's on-time counts differ exactly by the open requests with an on-time date and the closed ones without a date. |
| `Dashboard.ComplianceAgrees` | backend/app/services/stats_service.py:104-116 | The two compliances are equal if and only if nothing is closed or those two kinds are equally many. |
| `ReachableRows.ReportsAgree` | backend/app/services/stats_service.py:104-116 | At every moment of every run of the office and over any of its requests, the report's on-time count is the dashboard's closed minus late, and the compliances agree. |
| `ReachableRows.AcceptedOnFiling` | backend/app/services/report_service.py:138-148 | Over every run a routed request's first acceptance is the entry its filing wrote, at the filing's time as the model reads the clock once, and an automatic one has none. |
| `ReachableRows.AcceptanceSaysNothing` | backend/app/services/report_service.py:84-87 | So the mean acceptance time of such requests is zero or missing. |
| `Routing.LeastLoaded` | backend/app/services/routing_service.py:107-115 | The candidate returned is one of the list and no other has a smaller open load, or an equal one and a smaller id; none exactly for the empty list. |
| `Routing.LoadIsNumber` | backend/app/services/routing_service.py:86-104 | A user's load is how many requests are assigned to them in status new, accepted, in progress or returned. |
| `Routing.OnlyOpenRequestsCount` | backend/app/services/routing_service.py:86-252 | Closed requests, however many, never change whom routing chooses. |
| `Routing.FinishedWorkIsNoLoad` | backend/app/services/routing_service.py:97-115 | With one finished request held by the lower id and nothing open, the lower id is chosen. |
| `Routing.StaffFirst` | backend/app/services/routing_service.py:234-243 | A student whose faculty has active staff gets one of them. |
| `Routing.RegistratorByLoad` | backend/app/services/routing_service.py:155-158 | Otherwise the active registrator of the faculty with the fewest open requests, the lower id between equals. |
| `Routing.WhoManages` | backend/app/services/routing_service.py:161-180 | A general manager is an active staff member or registrator marked as one. |
| `Routing.HandlerTakesRequests` | backend/app/services/routing_service.py:204-231 | A handler is always an active staff member or registrator. |
| `Routing.FacultyRouting` | backend/app/services/routing_service.py:234-252 | By faculty routing fails if and only if nobody active is bound to it, and falls back to a registrator if and only if no staff member is. |
| `Routing.DepartmentFirst` | backend/app/services/routing_service.py:139-152 | When the student's department has staff, one of them is chosen. |
| `Routing.NobodyCarriesLess` | backend/app/services/routing_service.py:107-152 | Nobody routing may choose from carries less than the one chosen: the staff of the student's department if there is any, otherwise all staff of the faculty. |
| `Routing.GeneralRouting` | backend/app/services/routing_service.py:161-231 | A general service goes to the employee it names if and only if that one can still take requests, otherwise to the least-loaded general manager, and fails if and only if there is neither. |
| `Routing.GapNeverGrows` | backend/app/services/routing_service.py:86-115 | Over any number of filings to one pool the gap between highest and lowest load stays within max(1, initial gap). |
| `Routing.TotalAfter` | backend/app/services/routing_service.py:86-115 | Each filing adds exactly one to the pool's total. |
| `Routing.LoadsAreAverage` | backend/app/services/routing_service.py:86-115 | From a gap of at most one, after any number of filings every load is the average rounded down or up. |
| `Tracking.TrackingCounter.Generate` | backend/app/services/request_service.py:63-92 | The counter after the call and the number issued, reseeded from the greatest stored text when the counter starts. |
| `Tracking.NumberShape` | backend/app/services/request_service.py:92 | A number is written REQ-, the year, a dash and the number in decimal with at least five digits and no more than it needs. |
| `Tracking.Filings` | backend/app/services/request_service.py:63-92 | For every n a run of n filings exists that gives out 1 to n. |
| `Tracking.ParseNumber` | backend/app/services/request_service.py:85-92 | Parsing undoes formatting, for every year and number. |
| `Tracking.NumberInjective` | backend/app/services/request_service.py:92 | Distinct year or number gives distinct text. |
| `Tracking.TextOrder` | backend/app/services/request_service.py:76-80 | Below 100000 the order of the texts is the order of the numbers. |
| `Tracking.NumbersStayFresh` | backend/app/services/request_service.py:63-92 | Over every run of filings, rolled-back filings and lost counters the number issued is not stored yet, provided its own year was below 100000 each time that year's counter was reseeded; a living counter has no limit and other years do not matter. |
| `Tracking.FreshBelowLimit` | backend/app/services/request_service.py:63-92 | In particular while the year's stored numbers are below 100000. |
| `Tracking.FreshAfterLoss` | backend/app/services/request_service.py:75-92 | With 1 to n of a year stored, whatever other years hold, and its counter lost, the next number is new if and only if n is below 100000 or all its digits but the last are nines. |
| `Tracking.FreshWithGaps` | backend/app/services/request_service.py:75-92 | Gaps in the year do no harm: under that condition on its greatest number the next one is new. |
| `Tracking.LostAtSixDigits` | backend/app/services/request_service.py:75-92 | For n below 999990 the condition is n below 100000. |
| `Tracking.CollidesAfterLoss` | backend/app/services/request_service.py:75-92 | For n from 100000 to 999989 the greatest text is 99999 and 100000 is issued again. |
| `Tracking.CollisionIsReached` | backend/app/services/request_service.py:63-92 | For each n from 100000 to 999989 a run of n filings and a lost counter after which the next filing is given a stored number. |
| `FacultyCodes.FreeCode` | backend/app/services/auth_service.py:52-63 | The search ends with a free code, every earlier candidate was taken, and it tried at most one more than there are taken codes. |
| `FacultyCodes.InitialsAreWordStarts` | backend/app/services/auth_service.py:38-39 | The initials are exactly the characters at which the words of the name start, in order. |
| `FacultyCodes.CodeOfName` | backend/app/services/auth_service.py:36-40 | The code is the capitals of the initials, at most 16, of the name without blanks if it has no word, and F if nothing is left. |
| `FacultyCodes.CandidateShape` | backend/app/services/auth_service.py:53-63 | Later candidates are the code's first 29 characters, a dash and their number in decimal. |
| `FacultyCodes.CandidatesDiffer` | backend/app/services/auth_service.py:53-63 | No two candidates are the same. |
| `FacultyCodes.TriedAtMost` | backend/app/services/auth_service.py:56-63 | Pigeonhole: n taken candidates need n taken codes. |
| `FacultyCodes.CodeFits` | backend/app/services/auth_service.py:63 | A code fits 32 characters while its suffix has at most 15 digits. |
| `Totp.Offset` | backend/app/core/totp.py:29-30 | The four bytes of the code lie inside the 20-byte digest (section 5.3 of RFC 4226). |
| `Totp.TruncatedBytes` | backend/app/core/totp.py:29-30 | The four bytes start where the last byte modulo 16 says, big-endian, without the top bit, for every digest. |
| `Totp.CodeDigits` | backend/app/core/totp.py:31 | A code is the six decimal digits of the remainder by a million. |
| `Totp.SampleCode` | backend/app/core/totp.py:26-31 | The digest of section 5.4 of RFC 4226 gives 872921. |
| `Totp.CodeShape` | backend/app/core/totp.py:26-31 | A code always has six digits. |
| `Totp.MatchingStep` | backend/app/core/totp.py:38-51 | A step returned is the current one or a neighbour and its code is the one entered. |
| `Totp.MatchesExactly` | backend/app/core/totp.py:44-51 | A text matches if and only if, cleaned, it is the code of the current 30-second step or a neighbour. |
| `Totp.CleanedDigits` | backend/app/core/totp.py:44 | Blanks around the digits and one between them do not matter. |
| `Totp.NearbyCodesMatch` | backend/app/core/totp.py:38-51 | The code of the current or a neighbouring step always matches some step (section 5.2 of RFC 6238). |
| `Totp.MatchWindow` | backend/app/core/totp.py:47-51 | A step can match during 90 seconds only. |
| `Totp.UsedSteps.Consume` | backend/app/api/v1/auth.py:148-155 | A code is accepted if and only if it matches a step whose key is not live, and then the key is set for 120 seconds. |
| `Totp.StepUsedOnce` | backend/app/api/v1/auth.py:148-155 | Over all runs no user has a time step accepted twice although the keys expire, if the second login writes its key within 30 seconds of its check. |
| `Totp.TwiceExactlyWhenKeyIsGone` | backend/app/api/v1/auth.py:148-155 | For keys written in order, a user has a step accepted twice if and only if two logins with that step's code write their keys at least 120 seconds apart. |
| `Totp.LateKeyLetsStepThrough` | backend/app/api/v1/auth.py:155 | 30 is exact: with 31 seconds a step is accepted twice. |
| `Catalogue.CategoryRow.ApplyUpdate` | backend/app/services/catalog_service.py:123-161 | The partial update in place: nulls dropped, texts cleaned, checks on the written row, assignee dropped off general routing; a refused update is rolled back. |
| `CatalogueColumns.BuildWrites` | backend/app/services/catalog_service.py:91-116 | A new row is active, under the parent the form names, with its trimmed name and description. |
| `CatalogueColumns.BuildWritesService` | backend/app/services/catalog_service.py:101-117 | A service type keeps hours, priority, routing, trimmed texts and assignee of the form. |
| `CatalogueColumns.BuildRefused` | backend/app/services/catalog_service.py:30-104 | Refused as not found, unprocessable or bad if and only if the parent is missing, the hours or the automatic text are wrong, or the parent is a service or the assignee does not fit. |
| `CatalogueColumns.UpdateWrites` | backend/app/services/catalog_service.py:140-160 | Sent values replace copied columns, an explicit null leaves required ones, and the assignee is kept, cleared or set as sent and as routing allows. |
| `CatalogueColumns.UpdateWritesTexts` | backend/app/services/catalog_service.py:144-151 | Sent texts are stored trimmed, blanks and null as nothing, unsent ones kept. |
| `CatalogueColumns.UpdateAccepted` | backend/app/services/catalog_service.py:130-160 | An update goes through if and only if its hours are good, it moves nowhere it must not, an automatic service keeps a text and a sent assignee fits. |
| `CatalogueColumns.DeactivatedTakesNothing` | backend/app/services/catalog_service.py:287-303 | After a row is deactivated nothing can be filed under it or beneath it. |
| `Catalogue.StepSound` | backend/app/services/catalog_service.py:89-161 | Every create, update and deactivation keeps two levels, texts on auto-reply services, assignees only on general routing and hours in 1 to 720, and never turns one kind of row into the other. |
| `Catalogue.RunSound` | backend/app/services/catalog_service.py:89-161 | So does every run of them. |
| `Catalogue.CategoryTree` | backend/app/services/catalog_service.py:239-264 | The two loops give the roots and, for every listed row, its children in listing order; a row with an unlisted parent appears nowhere. |
| `Catalogue.ListedExactlyWhenAccepted` | backend/app/services/catalog_service.py:239-311 | A request is accepted for a service, with no type or the matching one, if and only if the tree lists it beneath an active root. |
| `Text.StripTrims` | backend/app/services/catalog_service.py:26 | Trimming cuts blanks off both ends and nothing else. |
| `Text.TrimUnique` | backend/app/services/catalog_service.py:26 | A text has one trimmed form only. |
| `Decimals.LeqByFirstDifference` | backend/app/services/report_service.py:217 | Texts are ordered by their first difference, a text before its continuations. |
| `Text.Clean` | backend/app/services/catalog_service.py:25-27 | Cleaning gives nothing exactly for missing or blank text and otherwise the text trimmed. |

## Left out

- Civil dates: month and day of the yearly holidays are not decoded; a holiday is any set of day numbers. The calendar's weekday is computed.
- Zones with daylight saving: the offset is fixed, as the configured zone's is. Instants before and after the range of the program's date type are allowed.
- Clock reads: each step of the life cycle reads the clock once, where the program reads it two or three times within one call. The outbox and the one-time passwords do have a second reading.
- The SLA budget: `slaHours` is remembered in the request only to state what its deadline means; the program has no such column.
- Tracking.FreshAfterLoss: both directions for a year without gaps; with gaps only the direction of `Tracking.FreshWithGaps`, because which text is greatest then depends on the gaps.
- ReachableRows.AcceptedOnFiling: the program stamps the request row and its history rows separately, so the acceptance time is microseconds there; the model has one stamp for the filing.
- RequestLaws.CalendarNeverGivesUp: stated for budgets of at most 720 hours, the range the request schema accepts.
- IdlePauses.WarnedTwiceWithoutMoving: the sweep's warning lead is the configured default of 24 hours throughout the model.
- Calls refused at the endpoint (visibility, role requirements) and statuses outside the six known ones: only the checks inside the services are modelled.
- Rows of the earlier triage flow (`accepted`, `rejected`, returns without a pause mark) as starting states; the statuses and their branches are kept.
- Comments, titles, files, labels, icons, answer descriptions and files, notification and email texts, recipients, audit entries and websockets.
- Concurrency: steps are atomic, one sweep and one outbox tick run at a time, outbox ids follow commit order, and a crash between a send and its commit is not modelled.
- Queries: what the database returns is described (`Office.IsBatch`, `Outbox.IsBatch`, `Catalogue.ActiveListing`, `Tracking.Highest`), not computed; joins and the visibility scope of the dashboard are left out, and so are the catalogue's inactive listing and the order of names.
- Whether a send works, and what error it gives: a parameter of each send. SMTP, webhooks and their signatures are not part of this model.
- Rounding of percentages and means to one decimal, and the spreadsheet output: percentages and means are exact.
- Tracking.NumbersStayFresh: a counter is alive or lost; a restored older copy of it and two filings at the same moment are not modelled.
- FacultyCodes.FreeCode: starts after the lookup by name found nothing; `str.upper` is an arbitrary function and the set of taken codes is finite and does not change during the search.
- Totp.StepUsedOnce: requires the second login's key to be written at most 30 seconds after its check, the slack between 90 and 120 seconds; the program does not enforce it, and `Totp.TwiceExactlyWhenKeyIsGone` says which runs fail. Negative time steps (the first half minute of 1970) and digits outside ASCII are not modelled; the keyed hash is any function to 20 bytes.
- Passwords, tokens, cookies, login limits, uploads, migrations, seed data and the front end.

# IncidentRelay verification

A Dafny model of the scheduling, silencing and throttling core of IncidentRelay, an on-call and
alert-routing service, with proofs of what that core is meant to guarantee. Check everything with

    dafny verify dfyconfig.toml

## What is modelled

Instants are integers counting microseconds. A time zone is a pair of functions between instants and
wall-clock readings; nothing is assumed of it beyond what a statement names.

**On-call schedule.** The service answers "who is on call at t?" directly (`OnCall`: override, then the
best active layer, then whose turn the slot is) and as a calendar (`Windows`, `LayerSweep`, `Collapse`,
`Calendar`: a sweep that cuts layers at handoffs, membership changes and weekly restrictions, then keeps
one winner per slice and merges neighbours). `RotationSchedule` is the handoff arithmetic both share and
`Inheritance` says whose settings it runs on.
The calendar is proved to be the canonical event list of one pointwise function, for every rotation whose
zones are regular at the handoffs of its layers in use and, for restricted layers, at the restriction
boundaries and local midnights; fixed-offset zones always are. From that follow agreement with the point
query and independence of the queried range, event for event. In any zone at all, the calendar shows the
turn at the sweep's cursor, overrides first. `ClockChange` and `WindowChange` say exactly which clock changes
do harm: the first for the handoffs of one unrestricted layer, the second for the windows of one restriction.

**Silences.** `SilenceRules` says what each lifecycle operation does to every alert, application and
group at once; `SilenceService` runs the operations row by row, as the service does, and is proved to
compute exactly that. `SilenceLaws` states, in stored fields alone, exactly which rows each operation
changes and what is conserved. `SilenceSafety` and `SilenceRuns` prove invariants under every interleaving of
intake, payload updates, operator actions, silence edits, reconciliations and scheduler passes.

**Login throttle.** `LoginThrottle` is the table, the login view that drives it, and bounds over whole runs.

**Smaller algorithms.** Creation order of database tables (`SchemaOrder`), escalation stepping
(`Escalation`), the schedule-gap scanner (`GapScan`), API-token delegation (`TokenScopes`) and the
template tag checker (`TagBalance`).

## Findings

- *Calendar and point query differ for people off duty.* The calendar lists every membership period
  (`app/services/calendar_service.py:128-133`); the point query drops disabled rows and inactive users
  (`app/services/oncall.py:74-79`). Retiring a member disables the row
  (`app/modules/db/rotations_repo.py:760-765`), so the point query for a past instant no longer knows
  somebody the calendar still shows (`Calendar.RetiredMemberDiverges`). With distinct users the two take
  the same turns exactly when everybody effective is on duty (`Calendar.TurnsAgreeIffAllOnDuty`).
- *The slot law fails inside clock changes.* When clocks jump ahead over a calendar handoff, the slot
  changes at the jump but the advertised boundary lies later
  (`RotationSchedule.SkippedHandoffBreaksSlotLaw`); when they go back over one, or over the start, the slot
  falls back (`RotationSchedule.RepeatedHandoffBreaksSlotLaw`). Across such a change the law holds exactly
  when no handoff is skipped or repeated (`RotationSchedule.SpringForwardLawIff`,
  `RotationSchedule.FallBackLawIff`), and in general exactly when the handoffs are regular
  (`RotationSchedule.SlotLawIffRegular`).
- *There the calendar leaves the point query and depends on the queried range.* After a skipped handoff a
  calendar queried from before the jump shows the previous member up to the advertised boundary, while the
  point query, and a calendar queried from after the jump, name the next
  (`ClockChange.SkippedHandoffDiverges`, `ClockChange.SkippedHandoffRangesDiffer`). After a repeated one a
  calendar queried from before the change keeps the next member until the reading comes again, while the
  other two are back at the previous (`ClockChange.RepeatedHandoffDiverges`,
  `ClockChange.RepeatedHandoffRangesDiffer`). A calendar queried from inside the repeated stretch even stays
  with the previous member for a whole duration, a week for a weekly rotation
  (`ClockChange.RepeatedHandoffLingers`), which is longer than the day by which the calendar view widens its
  query (`app/views/calendar_view.py:107-124`). For two or more different people both failures happen exactly when a handoff is skipped or repeated
  (`ClockChange.SpringForwardAgreesIff`, `ClockChange.FallBackAgreesIff`), and in any zone the one happens
  exactly when the other does (`ClockChange.AgreesIffRangeIndependent`).
- *Restriction windows fail inside clock changes too.* Their boundaries are converted one by one. Going back,
  the windows are exact unless a boundary is repeated (`WindowChange.FallBackWindowsIff`); jumping ahead,
  unless a boundary is skipped, where the stretch that ends exactly with the next boundary is harmless
  (`WindowChange.SpringForwardWindowsIff`). A restriction that is always on is never affected.
- *The throttle's real bound.* A fixed window admits at most max(1, 2 * max_failures - 2) counted failures
  per address, and per account between two successes, in any window-long interval when the block is at least
  as long as the window. This is reached for every limit, whatever the policy of the other kind.
- *What a release restores.* Only firing alerts are ever silenced (`app/services/silences.py:299`), so
  although applications can remember an acknowledged status, every release in every run restores firing
  (`SilenceRuns.ReleaseMeansFiring`).

## Model

| member | source | states |
|---|---|---|
| Clock.CalendarUnits | app/services/oncall.py:27-28 | weekdays run Monday to Sunday from a known Thursday, and seconds, minutes and days fit together |
| RotationSchedule.DurationSeconds | app/services/rotation_schedule.py:57-63 | a layer's duration is positive whatever is stored |
| RotationSchedule.CalendarInterval | app/services/rotation_schedule.py:66-100 | a calendar cadence is a positive whole number of days and, unless custom, the stored duration |
| RotationSchedule.CalendarHandoffs | app/services/rotation_schedule.py:66-100 | daily, weekly and custom day or week schedules hand off every 1, 7, n or 7n days at the start's wall-clock time, n counting as 1 if unset or smaller |
| RotationSchedule.FixedHandoffs | app/services/rotation_schedule.py:57-63 | every other schedule hands off at multiples of the stored duration, or of a day if that is unset or not positive, in any zone |
| RotationSchedule.ScheduleBegins | app/services/rotation_schedule.py:34-53 | no slot before the anchor, given as an instant or a reading of the layer's clock, UTC by default, and always the first slot without one |
| RotationSchedule.SlotCountsHandoffs | app/services/rotation_schedule.py:103-126 | at regular handoffs the slot is at least j exactly when the j-th handoff has been reached |
| RotationSchedule.RegularImpliesLawAt | app/services/rotation_schedule.py:129-146 | from any instant after the start the slot is non-negative, constant up to the next boundary and one larger there |
| RotationSchedule.SlotLawIffRegular | app/services/rotation_schedule.py:103-146 | the slot law holds for a schedule if and only if its handoffs avoid irregular wall-clock readings |
| RotationSchedule.FixedOffsetIsRegular | app/services/rotation_schedule.py:118-146 | fixed durations in any zone, and any cadence in a fixed-offset zone, satisfy the law |
| RotationSchedule.HandoffKeepsWallClock | app/services/rotation_schedule.py:66-72 | every calendar handoff shows the start's time of day on the local clock |
| RotationSchedule.RegularReadingsSuffice | app/services/rotation_schedule.py:103-146 | a schedule is regular if each handoff reading, taken by itself, splits time cleanly and reads back |
| RotationSchedule.SkippedHandoffBreaksSlotLaw | app/services/rotation_schedule.py:142-144 | any calendar handoff strictly inside a stretch the clocks skip breaks the slot law |
| RotationSchedule.RepeatedHandoffBreaksSlotLaw | app/services/rotation_schedule.py:118-126 | any calendar handoff strictly inside a stretch the clocks repeat, or a start a second or more inside it, breaks the slot law |
| RotationSchedule.SpringForwardLawIff | app/services/rotation_schedule.py:103-146 | across a jump ahead of less than a day, wherever the start lies, the slot law holds if and only if no handoff is skipped |
| RotationSchedule.FallBackLawIff | app/services/rotation_schedule.py:103-146 | across a jump back of less than a day, wherever the start lies, the slot law holds if and only if no handoff is repeated |
| OnCall.ActiveOverride | app/modules/db/rotations_repo.py:227-242 | the override used is the covering one with the highest id, and none exactly when none covers |
| OnCall.CrewFilters | app/modules/db/rotations_repo.py:618-655 | the crew holds, in listed order, exactly the enabled rows of active users whose period is open |
| OnCall.PointQueryAnswers | app/services/oncall.py:90-142 | a user is on call if and only if the rotation is enabled and not deleted and the covering override with the highest id names them or, without one, the first layer that names anybody does |
| Inheritance.OwnColumnsWin | app/services/rotation_schedule.py:11-23 | a rotation's value for a column the layer sets itself changes neither form's answer |
| Inheritance.UnsetColumnsInherit | app/services/rotation_schedule.py:11-23 | leaving a column unset is the same as copying the rotation's value into it |
| Inheritance.OwnScheduleDecides | app/services/rotation_schedule.py:11-23 | a layer that sets every column runs on exactly those |
| Inheritance.DefaultsOnlyFillGaps | app/services/rotation_schedule.py:11-23 | defaults that agree wherever a layer leaves a column unset give the same point query and calendar at every instant |
| Inheritance.CopyingDefaultsChangesNothing | app/services/rotation_schedule.py:11-23 | copying the rotation's values into unset columns changes neither |
| Windows.MatchesIffInLocalWindow | app/services/oncall.py:23-53 | a restriction matches a reading exactly when the window opened that day or the day before contains it: full-day, same-day and overnight, with or without weekday |
| Windows.WindowForDayExact | app/services/calendar_service.py:396-435 | a day's clipped window holds exactly the range's instants whose local reading it contains |
| Windows.ScannedDaysExact | app/services/calendar_service.py:383-393 | the scanned days, one beyond the range on each side, miss no matching instant |
| Windows.MergeStepKeeps | app/services/calendar_service.py:447-453 | one merge step adds exactly the new window's instants and keeps strict gaps |
| Windows.MergeSorted | app/services/calendar_service.py:444-455 | merging sorted windows keeps the union, leaves strict gaps, and is the identity on separated windows |
| Windows.MergeWindows | app/services/calendar_service.py:438-455 | merging keeps the covered instants and leaves sorted windows with strict gaps |
| Windows.LayerActiveWindows | app/services/calendar_service.py:346-380 | in any zone the windows cover exactly what the scanned days' windows cover, in a regular one exactly the instants at which some restriction matches, and the whole range without restrictions |
| WindowChange.SpringForwardWindowsIff | app/services/calendar_service.py:396-435 | across a jump ahead of less than a day the windows of a restriction are exact on every range if and only if it is always on or no boundary is skipped without the next one falling on the end of the stretch |
| WindowChange.FallBackWindowsIff | app/services/calendar_service.py:396-435 | across a jump back of less than a day they are exact on every range if and only if it is always on or no boundary is repeated |
| LayerSweep.NextMemberBoundary | app/services/calendar_service.py:104-119 | the earliest membership boundary after the cursor, or the fallback if none comes sooner |
| LayerSweep.OverlapKeepsEffective | app/modules/db/rotations_repo.py:658-697 | fetching only overlapping periods changes nobody's turn inside the range |
| LayerSweep.PeriodsFilter | app/modules/db/rotations_repo.py:658-697 | the fetched rows are, in listed order, exactly the periods that end after the range begins and begin before it ends |
| LayerSweep.SegmentConstant | app/services/calendar_service.py:458-470 | the scheduled user is constant up to the next handoff or membership boundary |
| LayerSweep.HandoffPassesTurn | app/services/calendar_service.py:458-470 | a handoff passes the duty to the next effective member in listed order, wrapping round |
| LayerSweep.CursorExact | app/services/calendar_service.py:155-207 | at regular handoffs the user at the cursor covering an instant is the user of that instant |
| LayerSweep.SweepWindow | app/services/calendar_service.py:151-207 | the sweep terminates in every zone with ordered non-empty segments and shows, at every instant of the window, the turn at the cursor that covers it; at regular handoffs that is the turn of the instant itself |
| LayerSweep.SweepWindows | app/services/calendar_service.py:151-209 | in every zone, inside each window what its sweep shows, from the later of the window's and the layer's start, and outside the windows nothing |
| LayerSweep.BuildLayerEvents | app/services/calendar_service.py:122-209 | a regular layer contributes, at every instant of the range, its own shift and nothing else; an unrestricted one shows its sweep in any zone |
| Collapse.WinnerIsMaximum | app/services/calendar_service.py:298-304 | the winner is the covering candidate with the highest priority and order, the earliest on ties, and exists exactly when some candidate covers |
| Collapse.Normalize | app/services/calendar_service.py:259-275 | clipping keeps the winner of every instant and yields all cut points |
| Collapse.PickWinner | app/services/calendar_service.py:288-304 | the best candidate spanning a slice without cut points wins at each of its instants |
| Collapse.AppendOrMergeKeeps | app/services/calendar_service.py:315-331 | appending or merging keeps events sorted, disjoint, non-empty, with no touching equals |
| Collapse.AppendOrMergeNames | app/services/calendar_service.py:315-343 | it names the new shift on its slice and nothing else changes |
| Collapse.CollapseCandidates | app/services/calendar_service.py:256-312 | the output is canonical and names the pointwise winner at every instant of the range, for every range |
| Collapse.CollapseConservesTime | app/services/calendar_service.py:256-312 | the output lasts exactly as long as the union of the clipped candidates |
| Events.CanonicalIsUnique | app/services/calendar_service.py:315-343 | two canonical event lists naming the same shift at every instant are equal |
| Calendar.AddOverride | app/services/calendar_service.py:212-253 | clipped override candidates represent exactly the overrides covering an instant |
| Calendar.WinnerIsCalendarAnswer | app/services/calendar_service.py:47-80 | overrides beat all layers, and the first listed layer with an event there beats the others |
| Calendar.BuildRotationCalendar | app/services/calendar_service.py:47-80 | the calendar is canonical and shows the override or else the first layer's event, in any zone; for regular rotations it names the pointwise answer at every instant of the range |
| Calendar.FixedOffsetRotationRegular | app/services/calendar_service.py:354-363 | every rotation in fixed-offset zones is regular |
| Calendar.CalendarRefinesPointQuery | app/services/oncall.py:90-142 | when everybody effective is on duty, the calendar names the point query's user at every instant and none exactly when there is none |
| Calendar.TurnsAgreeIffAllOnDuty | app/services/oncall.py:69-87 | with distinct users, both forms take the same turn in every slot if and only if nobody effective is off duty |
| Calendar.RetiredMemberDiverges | app/services/oncall.py:74-79 | for every active user whose row was closed and disabled, and every instant of the closed period, every calendar shows that user and the point query names nobody |
| Calendar.RangeIndependence | app/views/calendar_view.py:107-124 | among calendars that name the pointwise answer, the one of a smaller range is the larger one cut to it, event for event |
| ClockChange.RangeIndependentIffExact | app/services/calendar_service.py:151-209 | for any crew in any zone, what an unrestricted layer shows does not depend on the queried range if and only if it is the turn of each instant |
| ClockChange.ExactCalendarsNest | app/views/calendar_view.py:107-124 | in any zone where that holds, built calendars of nested ranges agree event for event |
| ClockChange.AgreesIffRangeIndependent | app/services/oncall.py:90-142 | in any zone, the calendar of an unchanging crew agrees with the point query everywhere if and only if it does not depend on the queried range |
| ClockChange.SpringForwardAgreesIff | app/services/calendar_service.py:162-207 | across a jump ahead, calendar and point query agree, and nested ranges agree, if and only if no handoff is skipped |
| ClockChange.FallBackAgreesIff | app/services/calendar_service.py:162-207 | across a jump back, calendar and point query agree, and nested ranges agree, if and only if no handoff is repeated |
| ClockChange.SkippedHandoffDiverges | app/services/calendar_service.py:162-207 | between a jump over a handoff and the advertised boundary every calendar queried from before the jump names the previous member, the point query the next, and they differ |
| ClockChange.RepeatedHandoffDiverges | app/services/calendar_service.py:162-207 | after the clocks go back over a handoff, until its reading comes again, every calendar queried from before names the next member, the point query the previous, and they differ |
| ClockChange.RepeatedHandoffLingers | app/services/calendar_service.py:172-178 | queried from inside a repeated stretch, every calendar names the previous member for one whole duration, though the handoff has come again and the point query names the next |
| ClockChange.SkippedHandoffRangesDiffer | app/views/calendar_view.py:107-124 | up to the advertised boundary of a skipped handoff, calendars queried from before and from after the jump name different members |
| ClockChange.RepeatedHandoffRangesDiffer | app/views/calendar_view.py:107-124 | until a repeated reading comes again, calendars queried from before and from after the change name different members |
| SilenceService.Service.GetOrCreateApplication | app/modules/db/silences_repo.py:221-254 | an active row is kept, otherwise the row is created or revived |
| SilenceService.Service.RegroupChanged | app/modules/db/alerts_repo.py:551-652 | every group with a changed child, and no other, is recalculated from its children, and the reported moves are counted exactly |
| SilenceService.Service.ApplyToAlert | app/services/silences.py:308-355 | a new application silences a firing alert and remembers the status to restore |
| SilenceService.Service.ApplySilenceToExistingAlerts | app/services/silences.py:279-376 | the row-by-row loop computes the simultaneous application and reports the matching alerts, changed alerts and silenced groups |
| SilenceService.Service.ReleaseApplicationAlert | app/services/silences.py:379-428 | an alert is reactivated exactly when its last application is released |
| SilenceService.Service.ReleaseChosen | app/services/silences.py:489-527 | the row-by-row loop computes the simultaneous release and reports the released applications, changed alerts and reactivated groups |
| SilenceService.Service.ReleaseSilenceApplications | app/services/silences.py:431-527 | all applications are released unless the silence keeps its alerts quiet, and the report counts which |
| SilenceService.Service.ReconcileSilence | app/services/silences.py:530-606 | pending, ended and active silences are reconciled and reported as the rules say |
| SilenceService.Service.RecordNewAlertSilences | app/services/silences.py:256-276 | one active application per matching silence, and the number newly made |
| SilenceService.Service.ReconcileOrphanSilencedAlerts | app/services/silences.py:609-685 | the row-by-row loop computes the simultaneous repair and reports the applications backfilled, alerts and groups reactivated |
| SilenceService.Service.ProcessSilenceLifecycle | app/services/silences.py:688-729 | a pass repairs, starts the due silences by start time and id, releases the ended ones by id, and its report totals exactly what each step did |
| SilenceLaws.ApplySilencesExactly | app/services/silences.py:279-376 | an alert is silenced if and only if it is firing, the silence is opted in, enabled, undeleted and in its period, team and matcher fit, its group is open and unmerged, and the silence was not applied to it yet; nothing else changes |
| SilenceLaws.ApplyRecordsExactly | app/services/silences.py:308-328 | applications are recorded for exactly the alerts taken in, with the status to return to |
| SilenceLaws.StatusToReturnTo | app/services/silences.py:308-319 | the remembered status is acknowledged exactly if the alert is, or is not firing and was before, and firing otherwise |
| SilenceLaws.ReleaseReactivatesExactly | app/services/silences.py:379-428 | releasing reactivates exactly the silenced alerts the silence was last to cover, with the remembered status, unless it keeps its alerts quiet |
| SilenceLaws.ReleaseEndsExactly | app/services/silences.py:431-527 | exactly the silence's own applications end, or none if it keeps its alerts quiet |
| SilenceLaws.ReconcileKeepsExactly | app/services/silences.py:530-606 | an active silence keeps exactly the applications it still fits, a pending one none, an ended one those it keeps quiet |
| SilenceLaws.RepairReactivatesExactly | app/services/silences.py:609-685 | repair reactivates exactly the silenced alerts of unresolved groups without an active application that no silence of their team covers now |
| SilenceLaws.RepairRecordsExactly | app/services/silences.py:609-645 | repair records applications for exactly the silences covering such an alert |
| SilenceLaws.IntakeSilencesExactly | app/services/alerts/lifecycle.py:997-1008 | a new alert is born silenced if and only if it arrives firing and a silence covers it, with an application from exactly those silences |
| SilenceLaws.UpdateKeepsQuiet | app/modules/db/alerts_repo.py:1021-1043 | a repeated payload takes effect unless it is firing and the alert is acknowledged or silenced |
| SilenceLaws.GroupFollowsChildren | app/modules/db/alerts_repo.py:551-652 | a recalculated group takes the status its children call for, and acknowledgement outlives a firing child |
| SilenceLaws.OnlyTouchedGroupsMove | app/services/silences.py:357-371 | exactly the groups with a changed child are recalculated, and only in their status |
| SilenceLaws.EndedSilencesAreReleased | app/modules/db/silences_repo.py:103-120 | after a pass an application is active only if its silence keeps alerts quiet or is enabled, undeleted and not over |
| SilenceLaws.RunningSilencesAreStarted | app/modules/db/silences_repo.py:82-100 | after a pass every opted-in silence in its period is marked reconciled |
| SilenceLaws.RunningSilencesHold | app/modules/db/silences_repo.py:103-120 | a pass ends no application of a silence that has not ended and wakes no alert that such a silence covers |
| SilenceLaws.ListedInOrder | app/modules/db/silences_repo.py:82-120 | due silences are handled by start time and then id, ended ones by id |
| SilenceLaws.ReconcileReportsExactly | app/services/silences.py:530-606 | reconciling reports the application after dropping what no longer fits, or a release, of everything if the silence is pending |
| SilenceLaws.PassKeepsColumns | app/services/silences.py:688-729 | a pass changes no silence beyond marking it reconciled |
| SilenceLaws.PassConserves | app/services/silences.py:688-729 | over a pass the number of silenced alerts changes by exactly the reported silenced less the reported reactivated |
| SilenceLaws.ApplyConserves | app/services/silences.py:279-376 | applying adds as many silenced alerts as it reports |
| SilenceLaws.ReleaseConserves | app/services/silences.py:431-527 | releasing takes away as many silenced alerts and active applications as it reports |
| SilenceLaws.RepairConserves | app/services/silences.py:609-685 | repair takes away the silenced alerts it reports reactivated and adds the applications it reports backfilled |
| SilenceLaws.GroupsReported | app/services/silences.py:279-685 | the reported groups are those that went from firing to silenced, or back, and the reported matches those taken in |
| SilenceSafety.RepairEstablishesCoverage | app/services/silences.py:609-685 | from any state whatever, repair leaves no silenced alert of an unresolved group without an active application |
| SilenceSafety.ApplyKeepsInvariant | app/services/silences.py:279-376 | applying keeps every silenced alert covered and resolved groups free of silenced alerts |
| SilenceSafety.ReleaseKeepsInvariant | app/services/silences.py:379-527 | releasing keeps both |
| SilenceSafety.ReconcileKeepsInvariant | app/services/silences.py:530-606 | reconciling keeps both |
| SilenceSafety.ProcessKeepsInvariant | app/services/silences.py:688-729 | a pass keeps the second and establishes the first |
| SilenceRuns.NothingLeftDue | app/modules/db/silences_repo.py:82-120 | after a pass both due queries select nothing at the same instant |
| SilenceRuns.SchedulerIsIdempotent | app/services/silences.py:688-729 | a second pass at the same instant changes nothing at all |
| SilenceRuns.SecondPassReportsNothing | app/services/silences.py:688-729 | whatever the order, the second pass reports zero in every counter |
| SilenceRuns.StepIsGood | app/services/alerts/lifecycle.py:997-1008 | every step, intake and re-routing payload updates included, keeps the invariant |
| SilenceRuns.EveryRunIsSafe | app/services/silences.py:256-685 | through every interleaving every silenced alert holds an active application |
| SilenceRuns.IdempotentInEveryRun | app/services/silences.py:688-729 | at any point of any run two passes at one instant equal one |
| SilenceRuns.EntersFromFiring | app/services/silences.py:294-304 | an existing alert becomes silenced only from firing and only by a lifecycle step |
| SilenceRuns.ReturnsToEntryStatus | app/services/silences.py:307-428 | a lifecycle step ends the quiet only when no application is left, and the alert then has the status it had before the first |
| SilenceRuns.ReleaseMeansFiring | app/services/silences.py:379-428 | in every run, a lifecycle step that ends an alert's quiet, however it began, leaves it firing and without an active application |
| SilenceRuns.ApplyKeepsAgreement | app/services/silences.py:313-328 | applications recorded while already silenced remember the original status |
| SilenceRuns.ReleaseInAnyOrder | app/services/silences.py:389-410 | releasing overlapping silences in any order leaves the alert untouched until the last, which restores its original status |
| SilenceRuns.OverlappingSilencesRoundTrip | app/services/silences.py:307-428 | silencing a firing alert any number of times and releasing in any order returns it to firing, at the last release and not before |
| LoginThrottle.Throttle.LoginRetryAfter | app/services/auth_throttle.py:51-65 | the advertised wait is the larger of the address and account waits |
| LoginThrottle.Throttle.RecordFailure | app/services/auth_throttle.py:68-115 | one failure counted: new row, window reset or increment, and block at the limit |
| LoginThrottle.Throttle.RecordLoginFailure | app/services/auth_throttle.py:118-127 | both keys are counted, then week-old rows are purged |
| LoginThrottle.Throttle.Login | app/views/auth_view.py:41-55 | check, verify, then record or clear, in that order |
| LoginThrottle.FailureCountsBoth | app/services/auth_throttle.py:68-127 | a failed attempt counts against its address and its account: one more in a running window, else from one, with a block of at least a second exactly at the limit |
| LoginThrottle.OtherRowsStay | app/services/auth_throttle.py:118-134 | a blocked attempt changes nothing, a granted one clears only its account, a failed one otherwise only drops rows untouched for a week |
| LoginThrottle.OutcomeDecided | app/views/auth_view.py:41-55 | an attempt is refused if and only if one of its keys is blocked, else the password decides |
| LoginThrottle.DisabledKindNeverCounts | app/services/auth_throttle.py:68-71 | a limit of zero or less never creates a row of its kind in any run |
| LoginThrottle.LimitLocksKey | app/services/auth_throttle.py:99-115 | as many failures as the limit within one fresh window lock the address or account: every later attempt on it is refused until the block ends |
| LoginThrottle.RunKeepsMirror | app/services/auth_throttle.py:99-115 | in every run the row of an address or account mirrors the failures counted so far, for an account since its last success: the last ones form its window |
| LoginThrottle.FailuresPerWindow | app/services/auth_throttle.py:68-134 | in every window-long interval every run counts at most max(1, 2 * max_failures - 2) failures for one address, and for one account between two successes |
| LoginThrottle.BoundIsAttained | app/services/auth_throttle.py:99-112 | for every address and every account, every limit and every policy of the other kind, some run reaches that bound |
| LoginThrottle.RunFollowsPolicy | app/services/auth_throttle.py:101-114 | in every run a row is blocked exactly when its count is at the limit, until the last failure plus the block time |
| LoginThrottle.BlockSurvives | app/services/auth_throttle.py:101-134 | no attempt by anybody removes or shortens a running block, despite reset, purge and clear |
| LoginThrottle.BlockedKeyIsRefused | app/views/auth_view.py:41-48 | a blocked key reaches no password check before the block ends |
| LoginThrottle.AdvertisedWaitSuffices | app/services/auth_throttle.py:59-65 | waiting the advertised seconds ends every counted block, a full second less never does, and a wait is advertised exactly when a key is blocked |
| SchemaOrder.Expansion.Visit | app/migrations/20260427000001_initial_schema.py:70-92 | the recursive visit terminates on cyclic graphs, adds only reachable models and leaves no reference open |
| SchemaOrder.ExpandModelDependencies | app/migrations/20260427000001_initial_schema.py:64-97 | each model reachable from the roots is listed exactly once, and a reference is out of order only on a cycle |
| SchemaOrder.AcyclicOrderIsTopological | app/migrations/20260427000001_initial_schema.py:79-92 | without cycles every referenced model precedes its referrers |
| SchemaOrder.ReverseIsDropOrder | app/migrations/20260427000001_initial_schema.py:108-110 | in the reversed list a dropped table is referenced by no remaining one |
| Escalation.EscalationRunsExactly | app/services/escalation_policies.py:67-102 | a fixed policy visits exactly n * (repeat_count + 1) rules, the k-th being rule k mod n with counter k div n, then stops |
| Escalation.StepsAsListed | app/services/escalation_policies.py:67-102 | each step in full: no policy, disabled or empty, unassigned, rule gone, next rule, new round, stop |
| Escalation.UneditedFollowsVisits | app/services/escalation_policies.py:67-102 | without edits following a policy visits its rules in order, and after the stop nothing moves |
| Escalation.CounterBoundedUnderEdits | app/services/escalation_policies.py:84-102 | under arbitrary rule edits the counter never decreases and never passes the repeat count |
| GapScan.ScanGaps | app/services/oncall_health.py:445-486 | the gaps are ordered, strictly apart, and contain a sampled instant exactly when nobody active resolves there |
| GapScan.UnstaffedExactly | app/services/oncall_health.py:445-486 | a sample is unstaffed if and only if nobody is on call or an override names somebody inactive or deleted |
| GapScan.MergeGaps | app/services/oncall_health.py:509-540 | merging keeps the union, leaves strict gaps and is the identity on separated gaps |
| GapScan.CheckScheduleGaps | app/services/oncall_health.py:436-506 | the report holds the scanned gaps, at most the first 20 and then one truncation notice |
| TokenScopes.ExpandIsClosure | app/services/api_token_scopes.py:189-212 | scope expansion is extensive, monotone and idempotent |
| TokenScopes.EffectiveScopes | app/services/api_token_scopes.py:189-212 | exactly which scopes a token effectively holds: its own, everything but audit writes with the wildcard, and with an aggregate that action outside alerts, profile and audit writes |
| TokenScopes.RequirementsMet | app/services/api_token_scopes.py:215-227 | the wildcard meets every requirement, any other token exactly those it effectively holds |
| TokenScopes.CanGrantIffCovers | app/services/api_token_scopes.py:230-256 | a token may mint another exactly when it holds the wildcard or every effective scope of the new one |
| TokenScopes.GrantingIsPreorder | app/services/api_token_scopes.py:230-256 | granting is reflexive and transitive |
| TokenScopes.DelegationNeverWidens | app/services/api_token_scopes.py:215-256 | through a chain of any length the last token satisfies only requirements its root satisfies |
| TagBalance.BalanceParser.HandleEndTag | app/check_templates.py:37-55 | the recovery loop drops everything through the nearest such tag |
| TagBalance.PopThroughNearest | app/check_templates.py:49-55 | recovery keeps exactly what lies below the nearest such tag, or nothing if there is none |
| TagBalance.CheckedTagsStayOpen | app/check_templates.py:7-47 | a lone opening tag stays open exactly for the twelve checked tags, and a lone closing tag of them is the one error |
| TagBalance.BalanceParser.Feed | app/check_templates.py:63-65 | feeding a template handles its events in order |
| TagBalance.CleanIffNests | app/check_templates.py:33-55 | no error is reported exactly when every checked closing tag meets its opening tag |
| TagBalance.BalancedIffWellNested | app/check_templates.py:23-55 | the checker ends clean and empty exactly when the checked tags form a well-nested word |
| TagBalance.BalancedTagsPairUp | app/check_templates.py:33-47 | in an accepted template every checked tag opens as often as it closes |

## Left out

- Database access, transactions, audit and event logging, HTTP responses, password hashing and tokens: queries appear as the row lists they select.
- Real time-zone data and ISO formatting: zones are functions and times are integers; `HH:MM` strings are minutes. The clock changes studied one by one are shorter than a day, which leaves out moves across the date line.
- A rotation without any start time: the column is mandatory; the calendar raises an error there while the point query uses slot 0.
- Team calendars, which concatenate rotation calendars and sort them, and the display fields of events that follow from their identity.
- Group notification, escalation restart and merged groups in the silence lifecycle.
- Maintenance windows, which can also change alert statuses, are not part of this model.
- Concurrent races between workers in the throttle and the silence store: every operation is one atomic step. Throttle keys are the normalised values, so hashing is taken as injective.
- Database row identifiers of escalation rules are taken to be non-zero.
- Role checks, outbound HTTP, metrics, redaction, notifiers, other migrations and views.

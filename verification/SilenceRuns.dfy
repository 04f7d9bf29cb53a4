/** Runs of the silence lifecycle: idempotence, safety under every interleaving, and restored statuses. */
module SilenceRuns {
  import opened Clock
  import opened SilenceRules
  import opened SilenceSafety

  // ----- the scheduler pass is idempotent

  lemma {:induction false} StartAllMarks(m: Matching, w: World, order: seq<int>, now: int)
    requires forall sid :: sid in order ==> sid in w.silences && w.silences[sid].applyToExisting && IsActive(w.silences[sid], now)
    ensures forall sid :: sid in w.silences ==>
              StartAll(m, w, order, now).silences[sid] ==
              if sid in order then w.silences[sid].(reconciledAt := Some(now)) else w.silences[sid]
    decreases |order|
  {
    if order != [] {
      var init := order[..|order| - 1];
      StartAllMarks(m, w, init, now);
      assert order == init + [order[|order| - 1]];
    }
  }

  lemma ReleaseEmpties(w: World, sid: int, now: int, x: int)
    requires sid in w.silences && w.silences[sid].reactivateOnEnd
    ensures AppliedTo(ReleaseAll(w, sid, now, true), x) == if x == sid then {} else AppliedTo(w, x)
  {
  }

  lemma {:induction false} EndAllReleases(w: World, order: seq<int>, now: int, x: int)
    requires forall sid :: sid in order ==> sid in w.silences && w.silences[sid].reactivateOnEnd
    ensures var w' := EndAll(w, order, now);
            && (forall sid :: sid in w.silences ==>
                  w'.silences[sid] == if sid in order then w.silences[sid].(reconciledAt := Some(now)) else w.silences[sid])
            && AppliedTo(w', x) == if x in order then {} else AppliedTo(w, x)
    decreases |order|
  {
    if order != [] {
      var init, last := order[..|order| - 1], order[|order| - 1];
      EndAllReleases(w, init, now, x);
      assert order == init + [last];
      ReleaseEmpties(EndAll(w, init, now), last, now, x);
    }
  }

  /** After a pass nothing is due at the same instant. */
  lemma NothingLeftDue(m: Matching, w: World, now: int, w': World)
    requires Processed(m, w, now, w')
    ensures StartingNow(w', now) == {} && ReleasingNow(w', now) == {}
  {
    var starts: seq<int>, ends: seq<int> :| ProcessedInOrder(m, w, now, starts, ends, w');
    var repaired := Repair(m, w, now);
    var started := StartAll(m, repaired, starts, now);
    StartAllMarks(m, repaired, starts, now);
    forall sid | sid in w'.silences
      ensures !DueToStart(w', sid, now) && !DueToRelease(w', sid, now)
    {
      EndAllReleases(started, ends, now, sid);
      assert sid in starts <==> sid in StartingNow(repaired, now);
      assert sid in ends <==> sid in ReleasingNow(started, now);
    }
  }

  lemma RepairWithoutOrphans(m: Matching, w: World, now: int)
    requires NoOrphans(w)
    ensures Repair(m, w, now) == w
  {
  }

  /** A second scheduler pass at the same instant changes nothing at all. */
  lemma SchedulerIsIdempotent(m: Matching, w: World, now: int, w': World, w'': World)
    requires Closed(w) && Processed(m, w, now, w') && Processed(m, w', now, w'')
    ensures w'' == w'
  {
    ProcessKeepsInvariant(m, w, now, w');
    NothingLeftDue(m, w, now, w');
    RepairWithoutOrphans(m, w', now);
    var starts: seq<int>, ends: seq<int> :| ProcessedInOrder(m, w', now, starts, ends, w'');
    EmptyListing(starts);
    EmptyListing(ends);
  }

  /** A second pass at the same instant reports that it started, released, silenced, reactivated and backfilled nothing. */
  lemma SecondPassReportsNothing(m: Matching, w: World, now: int, w': World, starts: seq<int>, ends: seq<int>, w'': World)
    requires Closed(w) && Processed(m, w, now, w') && ProcessedInOrder(m, w', now, starts, ends, w'')
    ensures PassCounts(m, w', now, starts, ends, w'') == PassReport(0, 0, 0, 0, 0)
  {
    ProcessKeepsInvariant(m, w, now, w');
    NothingLeftDue(m, w, now, w');
    RepairWithoutOrphans(m, w', now);
    EmptyListing(starts);
    EmptyListing(ends);
    assert StatusChanges(w'.alerts, w'.alerts) == {} && BackfillKeys(m, w', now, w'.alerts.Keys) == {};
  }

  lemma EmptyListing(order: seq<int>)
    ensures Lists(order, {}) ==> order == []
  {
    if order != [] {
      assert order[0] in order;
    }
  }

  // ----- statuses move only between firing and silenced

  /** Nothing on record remembers an acknowledged status, so a release always means firing again;
      and the silenced flag of an alert backs its status. */
  ghost predicate FromFiring(w: World) {
    && (forall k :: k in w.apps ==> w.apps[k].previous != Acknowledged)
    && (forall a :: a in w.alerts && w.alerts[a].status == Silenced ==>
          w.alerts[a].previous != Some(Acknowledged) && w.alerts[a].quiet)
  }

  /** A silenced alert that stops being silenced is firing and uncovered; others keep their status or go quiet. */
  ghost predicate Moves(w: World, w': World, a: int)
    requires a in w.alerts && a in w'.alerts
  {
    var before, after := w.alerts[a].status, w'.alerts[a].status;
    && (before == after || (Open(before) && Open(after)))
    && (before == Silenced && after == Firing ==> !HasActiveApp(w'.apps, a))
    && (before == Firing && after == Firing && !HasActiveApp(w.apps, a) ==> !HasActiveApp(w'.apps, a))
    && (before == Silenced && after == Firing ==> !w'.alerts[a].quiet)
    && (before == Firing && after == Firing && !w.alerts[a].quiet ==> !w'.alerts[a].quiet)
  }

  ghost predicate LifecycleMove(w: World, w': World) {
    w'.alerts.Keys == w.alerts.Keys && FromFiring(w') && forall a :: a in w.alerts ==> Moves(w, w', a)
  }

  lemma MovesCompose(w: World, w1: World, w2: World)
    requires LifecycleMove(w, w1) && LifecycleMove(w1, w2)
    ensures LifecycleMove(w, w2)
  {
  }

  lemma StayingMoves(w: World, w': World)
    requires FromFiring(w) && w'.alerts == w.alerts && w'.apps == w.apps
    ensures LifecycleMove(w, w')
  {
  }

  lemma ApplyAlertsMoves(m: Matching, w: World, sid: int, done: set<int>)
    requires FromFiring(w) && sid in w.silences
    ensures LifecycleMove(w, ApplyAlerts(m, w, sid, done))
  {
    var w' := ApplyAlerts(m, w, sid, done);
    forall a | a in w.alerts
      ensures Moves(w, w', a)
    {
      ApplyAlertMoves(m, w, sid, done, a);
    }
    ApplyKeepsFromFiring(m, w, sid, done);
  }

  lemma ApplyKeepsFromFiring(m: Matching, w: World, sid: int, done: set<int>)
    requires FromFiring(w) && sid in w.silences
    ensures FromFiring(ApplyAlerts(m, w, sid, done))
  {
  }

  lemma ApplyAlertMoves(m: Matching, w: World, sid: int, done: set<int>, a: int)
    requires a in w.alerts && sid in w.silences
    ensures Moves(w, ApplyAlerts(m, w, sid, done), a)
  {
  }

  lemma RepairAlertsMoves(m: Matching, w: World, now: int, done: set<int>)
    requires FromFiring(w)
    ensures LifecycleMove(w, RepairAlerts(m, w, now, done))
  {
  }

  lemma ApplyMoves(m: Matching, w: World, sid: int, now: int)
    requires FromFiring(w) && sid in w.silences
    ensures LifecycleMove(w, Apply(m, w, sid, now))
  {
    var applied := ApplyAlerts(m, w, sid, w.alerts.Keys);
    ApplyAlertsMoves(m, w, sid, w.alerts.Keys);
    StayingMoves(w, w);
    StayingMoves(applied, Reconciled(Regrouped(w, applied), sid, Some(now)));
    MovesCompose(w, applied, Reconciled(Regrouped(w, applied), sid, Some(now)));
  }

  lemma ReleaseMoves(w: World, sid: int, chosen: set<int>, now: int)
    requires FromFiring(w) && sid in w.silences
    ensures LifecycleMove(w, Release(w, sid, chosen, now))
  {
  }

  lemma ReleaseAllMoves(w: World, sid: int, now: int, respect: bool)
    requires FromFiring(w) && sid in w.silences
    ensures LifecycleMove(w, ReleaseAll(w, sid, now, respect))
  {
    StayingMoves(w, Reconciled(w, sid, Some(now)));
    ReleaseMoves(w, sid, AppliedTo(w, sid), now);
  }

  lemma ReconcileMoves(m: Matching, w: World, sid: int, now: int)
    requires FromFiring(w) && sid in w.silences
    ensures LifecycleMove(w, Reconcile(m, w, sid, now))
  {
    if !IsActive(w.silences[sid], now) {
      ReleaseAllMoves(w, sid, now, true);
      ReleaseAllMoves(w, sid, now, false);
      var released := ReleaseAll(w, sid, now, false);
      StayingMoves(released, Reconciled(released, sid, None));
      MovesCompose(w, released, Reconciled(released, sid, None));
    } else {
      var kept := if Invalid(m, w, sid) == {} then w else Release(w, sid, Invalid(m, w, sid), now);
      StayingMoves(w, w);
      ReleaseMoves(w, sid, Invalid(m, w, sid), now);
      ApplyMoves(m, kept, sid, now);
      MovesCompose(w, kept, Apply(m, kept, sid, now));
    }
  }

  lemma {:induction false} StartAllMoves(m: Matching, w: World, order: seq<int>, now: int)
    requires FromFiring(w) && forall sid :: sid in order ==> sid in w.silences
    ensures LifecycleMove(w, StartAll(m, w, order, now))
    decreases |order|
  {
    if order == [] {
      StayingMoves(w, w);
    } else {
      var init := order[..|order| - 1];
      StartAllMoves(m, w, init, now);
      ApplyMoves(m, StartAll(m, w, init, now), order[|order| - 1], now);
      MovesCompose(w, StartAll(m, w, init, now), StartAll(m, w, order, now));
    }
  }

  lemma {:induction false} EndAllMoves(w: World, order: seq<int>, now: int)
    requires FromFiring(w) && forall sid :: sid in order ==> sid in w.silences
    ensures LifecycleMove(w, EndAll(w, order, now))
    decreases |order|
  {
    if order == [] {
      StayingMoves(w, w);
    } else {
      var init := order[..|order| - 1];
      EndAllMoves(w, init, now);
      ReleaseAllMoves(EndAll(w, init, now), order[|order| - 1], now, true);
      MovesCompose(w, EndAll(w, init, now), EndAll(w, order, now));
    }
  }

  lemma ProcessMoves(m: Matching, w: World, now: int, w': World)
    requires FromFiring(w) && Processed(m, w, now, w')
    ensures LifecycleMove(w, w')
  {
    var starts: seq<int>, ends: seq<int> :| ProcessedInOrder(m, w, now, starts, ends, w');
    var repaired := Repair(m, w, now);
    var started := StartAll(m, repaired, starts, now);
    RepairAlertsMoves(m, w, now, w.alerts.Keys);
    StayingMoves(RepairAlerts(m, w, now, w.alerts.Keys), repaired);
    MovesCompose(w, RepairAlerts(m, w, now, w.alerts.Keys), repaired);
    StartAllMoves(m, repaired, starts, now);
    EndAllMoves(started, ends, now);
    MovesCompose(w, repaired, started);
    MovesCompose(w, started, w');
  }

  // ----- runs under every interleaving

  /** What can happen to the store: intake, operators, silence edits, reconciliation and the scheduler. */
  datatype Step =
    | CreateAlert(id: int, team: Option<int>, group: int, incoming: Status, facts: int, groupBefore: Group, at: int)
    | UpdateAlert(id: int, team: Option<int>, incoming: Status, facts: int)
    | AcknowledgeGroup(group: int)
    | ResolveGroup(group: int)
    | WriteSilence(id: int, row: Silence)
    | ReconcileSilence(id: int, at: int)
    | Scheduler(at: int)

  /** A new alert is born silenced when an active silence matches it, with an application for each match. */
  function Created(m: Matching, w: World, step: Step): World
    requires step.CreateAlert?
  {
    var plain := Alert(step.team, step.group, step.incoming, None, false, step.facts);
    var matched := MatchingSilences(m, w, plain, step.at);
    var alert := if matched == {} then plain
                 else plain.(status := if step.incoming == Firing then Silenced else step.incoming, quiet := true);
    var alerts := w.alerts[step.id := alert];
    World(alerts,
          w.groups[step.group := step.groupBefore.(status := Recalculated(alerts, step.group, step.groupBefore.status))],
          w.silences,
          map k | k in w.apps.Keys + (set sid | sid in matched :: AppKey(sid, step.id)) ::
            if k in w.apps && w.apps[k].active then w.apps[k]
            else if k.alert == step.id && k.silence in matched then Application(Firing, NewAlert, true)
            else w.apps[k])
  }

  /** A repeated payload refreshes and may re-route an alert; a firing payload does not undo silenced or acknowledged. */
  function Updated(w: World, step: Step): World
    requires step.UpdateAlert? && step.id in w.alerts
  {
    var current := w.alerts[step.id];
    var kept := (current.status == Acknowledged || current.status == Silenced) && step.incoming == Firing;
    var alerts := w.alerts[step.id := current.(previous := Some(current.status),
                                            status := if kept then current.status else step.incoming,
                                            team := step.team,
                                            facts := step.facts)];
    w.(alerts := alerts,
       groups := map g | g in w.groups ::
         if g == current.group then w.groups[g].(status := Recalculated(alerts, g, w.groups[g].status)) else w.groups[g])
  }

  function GroupResolved(w: World, g: int): World
    requires g in w.groups
  {
    w.(alerts := map a | a in w.alerts ::
         if w.alerts[a].group == g then w.alerts[a].(status := Resolved) else w.alerts[a],
       groups := w.groups[g := w.groups[g].(status := Resolved)])
  }

  ghost predicate Next(m: Matching, w: World, step: Step, w': World) {
    match step
    case CreateAlert(id, _, _, incoming, _, _, _) =>
      id !in w.alerts && incoming != Silenced && incoming != Resolved && w' == Created(m, w, step)
    case UpdateAlert(id, _, incoming, _) =>
      id in w.alerts && w.alerts[id].status != Resolved && incoming != Silenced && w' == Updated(w, step)
    case AcknowledgeGroup(g) =>
      g in w.groups && w.groups[g].status != Resolved
      && w' == w.(groups := w.groups[g := w.groups[g].(status := Acknowledged)])
    case ResolveGroup(g) => g in w.groups && w' == GroupResolved(w, g)
    case WriteSilence(id, row) => row.reconciledAt.None? && w' == w.(silences := w.silences[id := row])
    case ReconcileSilence(id, at) => id in w.silences && w' == Reconcile(m, w, id, at)
    case Scheduler(at) => Processed(m, w, at, w')
  }

  ghost predicate Good(w: World) {
    Closed(w) && Safe(w) && FromFiring(w)
  }

  lemma CreateIsGood(m: Matching, w: World, step: Step)
    requires Good(w) && step.CreateAlert? && step.id !in w.alerts && step.incoming != Silenced && step.incoming != Resolved
    ensures Good(Created(m, w, step))
  {
    var w' := Created(m, w, step);
    forall a | a in w'.alerts && w'.alerts[a].status == Silenced
      ensures HasActiveApp(w'.apps, a)
      ensures w'.groups[w'.alerts[a].group].status != Resolved
    {
      RecalculatedOpen(w'.alerts, w'.alerts[a].group, step.groupBefore.status, a);
      if a == step.id {
        var plain := Alert(step.team, step.group, step.incoming, None, false, step.facts);
        var sid :| sid in MatchingSilences(m, w, plain, step.at);
        ActiveAppWitness(w'.apps, AppKey(sid, step.id));
      } else {
        var k :| k in w.apps && k.alert == a && w.apps[k].active;
        ActiveAppWitness(w'.apps, k);
      }
    }
  }

  lemma UpdateIsGood(w: World, step: Step)
    requires Good(w) && step.UpdateAlert? && step.id in w.alerts && step.incoming != Silenced
    ensures Good(Updated(w, step))
  {
  }

  /** Every step keeps the invariant. */
  lemma StepIsGood(m: Matching, w: World, step: Step, w': World)
    requires Good(w) && Next(m, w, step, w')
    ensures Good(w')
  {
    match step
    case CreateAlert(_, _, _, _, _, _, _) => CreateIsGood(m, w, step);
    case UpdateAlert(_, _, _, _) => UpdateIsGood(w, step);
    case AcknowledgeGroup(_) =>
    case ResolveGroup(_) =>
    case WriteSilence(_, _) =>
    case ReconcileSilence(id, at) =>
      ReconcileKeepsInvariant(m, w, id, at);
      ReconcileMoves(m, w, id, at);
    case Scheduler(at) =>
      ProcessKeepsInvariant(m, w, at, w');
      ProcessMoves(m, w, at, w');
  }

  ghost predicate IsRun(m: Matching, run: seq<World>, steps: seq<Step>) {
    |run| == |steps| + 1 && forall i :: 0 <= i < |steps| ==> Next(m, run[i], steps[i], run[i + 1])
  }

  /** Through every interleaving, every silenced alert holds an active application. */
  lemma {:induction false} EveryRunIsSafe(m: Matching, run: seq<World>, steps: seq<Step>, i: int)
    requires IsRun(m, run, steps) && Good(run[0]) && 0 <= i < |run|
    ensures Good(run[i]) && NoOrphans(run[i])
    decreases i
  {
    if i > 0 {
      EveryRunIsSafe(m, run, steps, i - 1);
      StepIsGood(m, run[i - 1], steps[i - 1], run[i]);
    }
  }

  /** At any point of any run, two scheduler passes at one instant equal one. */
  lemma IdempotentInEveryRun(m: Matching, run: seq<World>, steps: seq<Step>, i: int, now: int, w': World, w'': World)
    requires IsRun(m, run, steps) && Good(run[0]) && 0 <= i < |run|
    requires Processed(m, run[i], now, w') && Processed(m, w', now, w'')
    ensures w'' == w'
  {
    EveryRunIsSafe(m, run, steps, i);
    SchedulerIsIdempotent(m, run[i], now, w', w'');
  }

  predicate ByLifecycle(step: Step) {
    step.ReconcileSilence? || step.Scheduler?
  }

  lemma LifecycleStepMoves(m: Matching, w: World, step: Step, w': World)
    requires FromFiring(w) && Next(m, w, step, w') && ByLifecycle(step)
    ensures LifecycleMove(w, w')
  {
    match step
    case ReconcileSilence(id, at) => ReconcileMoves(m, w, id, at);
    case Scheduler(at) => ProcessMoves(m, w, at, w');
  }

  /** An alert already present becomes silenced only from firing, and only by a lifecycle step. */
  lemma EntersFromFiring(m: Matching, w: World, step: Step, w': World, a: int)
    requires FromFiring(w) && Next(m, w, step, w') && a in w.alerts && a in w'.alerts
    requires w.alerts[a].status != Silenced && w'.alerts[a].status == Silenced
    ensures w.alerts[a].status == Firing && ByLifecycle(step)
  {
    if ByLifecycle(step) {
      LifecycleStepMoves(m, w, step, w');
      assert Moves(w, w', a);
    }
  }

  /** However many silences overlap, a lifecycle step ends the quiet only when no application is left,
      and then the alert has the status it had before the first one. */
  lemma ReturnsToEntryStatus(m: Matching, run: seq<World>, steps: seq<Step>, i: int, j: int, a: int)
    requires IsRun(m, run, steps) && Good(run[0]) && 0 <= i < j < |steps|
    requires forall n :: i <= n <= j + 1 ==> a in run[n].alerts
    requires run[i].alerts[a].status != Silenced
    requires forall n :: i < n <= j ==> run[n].alerts[a].status == Silenced
    requires run[j + 1].alerts[a].status != Silenced && ByLifecycle(steps[j])
    ensures run[j + 1].alerts[a].status == run[i].alerts[a].status
    ensures !HasActiveApp(run[j + 1].apps, a) && !run[j + 1].alerts[a].quiet
  {
    EveryRunIsSafe(m, run, steps, i);
    EveryRunIsSafe(m, run, steps, j);
    EntersFromFiring(m, run[i], steps[i], run[i + 1], a);
    LifecycleStepMoves(m, run[j], steps[j], run[j + 1]);
    assert Moves(run[j], run[j + 1], a);
  }

  /** Whatever silenced the alert, intake included, a lifecycle step that ends the quiet leaves it firing
      and without an active application. */
  lemma ReleaseMeansFiring(m: Matching, run: seq<World>, steps: seq<Step>, i: int, a: int)
    requires IsRun(m, run, steps) && Good(run[0]) && 0 <= i < |steps| && ByLifecycle(steps[i])
    requires a in run[i].alerts && a in run[i + 1].alerts
    requires run[i].alerts[a].status == Silenced && run[i + 1].alerts[a].status != Silenced
    ensures run[i + 1].alerts[a].status == Firing
    ensures !HasActiveApp(run[i + 1].apps, a) && !run[i + 1].alerts[a].quiet
  {
    EveryRunIsSafe(m, run, steps, i);
    LifecycleStepMoves(m, run[i], steps[i], run[i + 1]);
    assert Moves(run[i], run[i + 1], a);
  }

  // ----- releasing overlapping silences one by one

  /** All active applications of an alert remember the same status to restore. */
  ghost predicate Agree(w: World, a: int)
    requires a in w.alerts
  {
    forall k :: k in w.apps && k.alert == a && w.apps[k].active ==> Restorable(w.apps[k].previous) == Origin(w.alerts[a])
  }

  lemma ApplyKeepsAgreement(m: Matching, w: World, sid: int, now: int, a: int)
    requires sid in w.silences && a in w.alerts && Agree(w, a)
    ensures Agree(Apply(m, w, sid, now), a)
    ensures Origin(Apply(m, w, sid, now).alerts[a]) == Origin(w.alerts[a])
  {
  }

  lemma {:induction false} StartAllKeepsAgreement(m: Matching, w: World, order: seq<int>, now: int, a: int)
    requires (forall sid :: sid in order ==> sid in w.silences) && a in w.alerts && Agree(w, a)
    ensures a in StartAll(m, w, order, now).alerts && Agree(StartAll(m, w, order, now), a)
    ensures Origin(StartAll(m, w, order, now).alerts[a]) == Origin(w.alerts[a])
    decreases |order|
  {
    if order != [] {
      StartAllKeepsAgreement(m, w, order[..|order| - 1], now, a);
      ApplyKeepsAgreement(m, StartAll(m, w, order[..|order| - 1], now), order[|order| - 1], now, a);
    }
  }

  function ReleaseEach(w: World, order: seq<int>, a: int, now: int): World
    requires forall sid :: sid in order ==> sid in w.silences
    decreases |order|
  {
    if order == [] then w
    else ReleaseEach(Release(w, order[0], {a}, now), order[1..], a, now)
  }

  /** Exactly the listed silences are active on the alert, each listed once. */
  ghost predicate ActiveFor(w: World, a: int, sids: seq<int>) {
    && (forall i, j :: 0 <= i < j < |sids| ==> sids[i] != sids[j])
    && (forall sid: int :: ActiveApp(w.apps, AppKey(sid, a)) <==> sid in sids)
  }

  lemma ReleaseLeavesOthersActive(w: World, order: seq<int>, a: int, now: int)
    requires order != [] && order[0] in w.silences && ActiveFor(w, a, order)
    ensures ActiveFor(Release(w, order[0], {a}, now), a, order[1..])
  {
  }

  /** Releasing one of several leaves the alert as it was; releasing the only one restores it. */
  lemma ReleaseOne(w: World, order: seq<int>, a: int, now: int)
    requires a in w.alerts && w.alerts[a].status == Silenced && Agree(w, a)
    requires order != [] && order[0] in w.silences && ActiveFor(w, a, order)
    ensures var w' := Release(w, order[0], {a}, now);
            if |order| > 1 then w'.alerts[a] == w.alerts[a] && Agree(w', a)
            else w'.alerts[a].status == Origin(w.alerts[a])
  {
    var k := AppKey(order[0], a);
    assert ActiveApp(w.apps, k);
    if |order| > 1 {
      assert ActiveApp(w.apps, AppKey(order[1], a));
      assert CoveredByOther(w.apps, k);
    } else {
      forall o | o in w.apps && o.alert == a && w.apps[o].active
        ensures o == k
      {
        assert ActiveApp(w.apps, AppKey(o.silence, a));
      }
      assert !CoveredByOther(w.apps, k);
    }
  }

  /** Part-way through any order of releases the alert is untouched; at the end it has its original status. */
  lemma {:induction false} ReleaseInAnyOrder(w: World, order: seq<int>, n: int, a: int, now: int)
    requires (forall sid :: sid in order ==> sid in w.silences) && a in w.alerts
    requires w.alerts[a].status == Silenced && Agree(w, a) && ActiveFor(w, a, order)
    requires 0 <= n <= |order| && order != []
    ensures var r := ReleaseEach(w, order[..n], a, now);
            && a in r.alerts
            && (n < |order| ==> r.alerts[a] == w.alerts[a])
            && (n == |order| ==> r.alerts[a].status == Origin(w.alerts[a]))
    decreases n
  {
    if n > 0 {
      var first := order[0];
      assert first in order;
      assert first in w.silences;
      ReleaseOne(w, order, a, now);
      ReleaseLeavesOthersActive(w, order, a, now);
      var w' := Release(w, order[0], {a}, now);
      if |order| == 1 {
        assert order[..n][1..] == [];
      } else {
        assert order[..n][1..] == order[1..][..n - 1];
        ReleaseInAnyOrder(w', order[1..], n - 1, a, now);
      }
    }
  }

  /** Round trip: silence a firing alert with any overlapping silences, release them in any order, and it fires again,
      having stayed silenced until the last. */
  lemma OverlappingSilencesRoundTrip(m: Matching, w: World, starts: seq<int>, ends: seq<int>, n: int, a: int, now: int, later: int)
    requires (forall sid :: sid in starts + ends ==> sid in w.silences) && a in w.alerts
    requires w.alerts[a].status == Firing && !HasActiveApp(w.apps, a)
    requires var quiet := StartAll(m, w, starts, now);
             && a in quiet.alerts
             && quiet.alerts[a].status == Silenced
             && ActiveFor(quiet, a, ends)
    requires 0 <= n <= |ends| && ends != []
    ensures var r := ReleaseEach(StartAll(m, w, starts, now), ends[..n], a, later);
            a in r.alerts && r.alerts[a].status == if n < |ends| then Silenced else w.alerts[a].status
  {
    assert forall sid :: sid in starts || sid in ends ==> sid in starts + ends;
    StartAllKeepsAgreement(m, w, starts, now, a);
    ReleaseInAnyOrder(StartAll(m, w, starts, now), ends, n, a, later);
  }
}

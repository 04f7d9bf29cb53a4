/** The silence lifecycle in terms of stored fields: exactly which rows each operation changes, and what is conserved. */
module SilenceLaws {
  import opened Clock
  import opened SilenceRules
  import opened SilenceSafety
  import opened SilenceRuns

  // ----- applying

  /** The silence takes in stored alerts at this instant, and this alert is one of them. */
  ghost predicate TakesIn(m: Matching, w: World, s: Silence, a: int, now: int)
    requires a in w.alerts
  {
    var alert := w.alerts[a];
    && s.applyToExisting && s.enabled && !s.deleted && s.startsAt <= now < s.endsAt
    && alert.team == Some(s.team)
    && (alert.status == Firing || alert.status == Silenced)
    && alert.group in w.groups
    && (w.groups[alert.group].status == Firing || w.groups[alert.group].status == Silenced)
    && !w.groups[alert.group].merged
    && m.existing(s.matcher, alert.facts)
  }

  /** An alert is silenced exactly when it is firing, the silence takes it in, and was not applied to it yet. */
  lemma ApplySilencesExactly(m: Matching, w: World, sid: int, now: int, a: int)
    requires sid in w.silences && a in w.alerts
    ensures var s, alert, w' := w.silences[sid], w.alerts[a], Apply(m, w, sid, now);
            && a in w'.alerts
            && w'.alerts[a] == if TakesIn(m, w, s, a, now) && alert.status == Firing
                                  && !(AppKey(sid, a) in w.apps && w.apps[AppKey(sid, a)].active)
                               then Alert(alert.team, alert.group, Silenced, Some(Firing), true, alert.facts)
                               else alert
    ensures Apply(m, w, sid, now).silences ==
            if w.silences[sid].applyToExisting && w.silences[sid].enabled && !w.silences[sid].deleted
               && w.silences[sid].startsAt <= now < w.silences[sid].endsAt
            then w.silences[sid := w.silences[sid].(reconciledAt := Some(now))]
            else w.silences
  {
  }

  /** It records an application for exactly the alerts it takes in, with the status to return to. */
  lemma ApplyRecordsExactly(m: Matching, w: World, sid: int, now: int, k: AppKey)
    requires sid in w.silences && (k in w.apps ==> k.alert in w.alerts)
    ensures var w' := Apply(m, w, sid, now);
            var recorded := k.silence == sid && k.alert in w.alerts && TakesIn(m, w, w.silences[sid], k.alert, now)
                            && !(k in w.apps && w.apps[k].active);
            && (k in w'.apps <==> k in w.apps || recorded)
            && (k in w'.apps ==>
                  w'.apps[k] == if recorded
                                then Application(if w.alerts[k.alert].status == Silenced && w.alerts[k.alert].previous == Some(Acknowledged)
                                                 then Acknowledged else Firing, Retroactive, true)
                                else w.apps[k])
  {
  }

  /** The status to return to is never a silenced one: the alert's own while it is awake, else the one it
      had before, taken for firing unless it was acknowledged. */
  lemma StatusToReturnTo(alert: Alert)
    ensures Origin(alert) == Acknowledged <==>
            || alert.status == Acknowledged
            || (alert.status != Firing && alert.previous == Some(Acknowledged))
    ensures Origin(alert) != Acknowledged ==> Origin(alert) == Firing
  {
  }

  // ----- releasing

  /** No application to the alert is active besides k. */
  ghost predicate LastFor(apps: map<AppKey, Application>, k: AppKey) {
    forall o :: o in apps && o.alert == k.alert && o != k ==> !apps[o].active
  }

  /** Releasing a silence reactivates exactly the silenced alerts it was the last to cover, with the remembered
      status, unless it keeps its alerts quiet. */
  lemma ReleaseReactivatesExactly(w: World, sid: int, now: int, respect: bool, a: int)
    requires sid in w.silences && a in w.alerts
    ensures var k, alert, w' := AppKey(sid, a), w.alerts[a], ReleaseAll(w, sid, now, respect);
            && a in w'.alerts
            && w'.alerts[a] == if (w.silences[sid].reactivateOnEnd || !respect) && k in w.apps && w.apps[k].active
                                  && alert.status == Silenced && LastFor(w.apps, k)
                               then Alert(alert.team, alert.group,
                                          if w.apps[k].previous == Acknowledged then Acknowledged else Firing,
                                          Some(Silenced), false, alert.facts)
                               else alert
    ensures ReleaseAll(w, sid, now, respect).silences == w.silences[sid := w.silences[sid].(reconciledAt := Some(now))]
  {
    var k := AppKey(sid, a);
    assert CoveredByOther(w.apps, k) <==> !LastFor(w.apps, k);
  }

  lemma ReleaseEndsExactly(w: World, sid: int, now: int, respect: bool, k: AppKey)
    requires sid in w.silences
    ensures var w' := ReleaseAll(w, sid, now, respect);
            && (k in w'.apps <==> k in w.apps)
            && (k in w.apps ==>
                  w'.apps[k] == if k.silence == sid && (w.silences[sid].reactivateOnEnd || !respect)
                                then w.apps[k].(active := false) else w.apps[k])
  {
  }

  // ----- reconciling

  /** An active silence keeps exactly the applications whose alert it still fits; a pending one ends all of its
      applications and is to be started again; an ended one ends them unless it keeps its alerts quiet. */
  lemma ReconcileKeepsExactly(m: Matching, w: World, sid: int, now: int, k: AppKey)
    requires References(w) && sid in w.silences && k in w.apps && w.apps[k].active && k.silence == sid
    ensures var s, alert, w' := w.silences[sid], w.alerts[k.alert], Reconcile(m, w, sid, now);
            && k in w'.apps
            && (w'.apps[k].active <==>
                  if s.enabled && !s.deleted && s.startsAt <= now < s.endsAt
                  then alert.team == Some(s.team) && m.existing(s.matcher, alert.facts)
                       && (w.apps[k].source == NewAlert || s.applyToExisting)
                  else !(s.enabled && !s.deleted && now < s.startsAt) && !s.reactivateOnEnd)
            && (s.enabled && !s.deleted && now < s.startsAt ==> w'.silences[sid].reconciledAt.None?)
  {
    var s := w.silences[sid];
    if IsActive(s, now) {
      var invalid := Invalid(m, w, sid);
      var kept := if invalid == {} then w else Release(w, sid, invalid, now);
      InvalidIff(m, w, sid, k.alert);
      KeptAfterRelease(w, sid, invalid, now, k);
      ApplyRecordsExactly(m, kept, sid, now, k);
    } else {
      ReleaseEndsExactly(w, sid, now, true, k);
      ReleaseEndsExactly(w, sid, now, false, k);
    }
  }

  lemma InvalidIff(m: Matching, w: World, sid: int, a: int)
    requires sid in w.silences && AppKey(sid, a) in w.apps && w.apps[AppKey(sid, a)].active && a in w.alerts
    ensures a in Invalid(m, w, sid) <==>
            !(&& w.alerts[a].team == Some(w.silences[sid].team)
              && m.existing(w.silences[sid].matcher, w.alerts[a].facts)
              && (w.apps[AppKey(sid, a)].source == NewAlert || w.silences[sid].applyToExisting))
  {
    assert a in AppliedTo(w, sid);
  }

  lemma KeptAfterRelease(w: World, sid: int, chosen: set<int>, now: int, k: AppKey)
    requires References(w) && sid in w.silences && k in w.apps && w.apps[k].active && k.silence == sid
    ensures var r := Release(w, sid, chosen, now);
            && References(r)
            && k in r.apps && r.apps[k].source == w.apps[k].source && (r.apps[k].active <==> k.alert !in chosen)
            && r.alerts[k.alert].team == w.alerts[k.alert].team && r.alerts[k.alert].facts == w.alerts[k.alert].facts
            && r.silences[sid] == w.silences[sid].(reconciledAt := Some(now))
  {
  }

  // ----- orphan repair

  /** The silence covers an incoming or orphaned alert of its team at this instant. */
  ghost predicate CoversNow(m: Matching, w: World, sid: int, alert: Alert, now: int) {
    && sid in w.silences
    && alert.team == Some(w.silences[sid].team)
    && w.silences[sid].enabled && !w.silences[sid].deleted
    && w.silences[sid].startsAt <= now < w.silences[sid].endsAt
    && m.intake(w.silences[sid].matcher, alert.facts)
  }

  /** Silenced in an unresolved group without any active application. */
  ghost predicate Unexplained(w: World, a: int)
    requires a in w.alerts
  {
    && w.alerts[a].status == Silenced
    && w.alerts[a].group in w.groups && w.groups[w.alerts[a].group].status != Resolved
    && forall k :: k in w.apps && k.alert == a ==> !w.apps[k].active
  }

  /** Repair reactivates exactly the unexplained alerts that no silence covers. */
  lemma RepairReactivatesExactly(m: Matching, w: World, now: int, a: int)
    requires a in w.alerts
    ensures var alert, w' := w.alerts[a], Repair(m, w, now);
            && a in w'.alerts
            && w'.alerts[a] == if Unexplained(w, a) && forall sid :: sid in w.silences ==> !CoversNow(m, w, sid, alert, now)
                               then Alert(alert.team, alert.group, Firing, Some(Silenced), false, alert.facts)
                               else alert
  {
    assert Orphan(w, a) <==> Unexplained(w, a);
    assert AnyMatch(m, w, w.alerts[a], now) <==> exists sid :: sid in w.silences && CoversNow(m, w, sid, w.alerts[a], now);
  }

  /** It records an application for exactly the silences covering an unexplained alert. */
  lemma RepairRecordsExactly(m: Matching, w: World, now: int, k: AppKey)
    ensures var w' := Repair(m, w, now);
            var recorded := k.alert in w.alerts && Unexplained(w, k.alert) && CoversNow(m, w, k.silence, w.alerts[k.alert], now);
            && (k in w'.apps <==> k in w.apps || recorded)
            && (k in w'.apps ==> w'.apps[k] == if recorded then Application(Firing, NewAlert, true) else w.apps[k])
            && w'.silences == w.silences
  {
    if k.alert in w.alerts {
      assert Orphan(w, k.alert) <==> Unexplained(w, k.alert);
    }
  }

  // ----- intake

  /** A new alert is born silenced exactly when it arrives firing and some silence covers it, and gets an
      application from exactly those. */
  lemma IntakeSilencesExactly(m: Matching, w: World, step: Step, sid: int)
    requires References(w) && step.CreateAlert? && step.id !in w.alerts
    ensures var w' := Created(m, w, step);
            var plain := Alert(step.team, step.group, step.incoming, None, false, step.facts);
            var covered := exists c :: c in w.silences && CoversNow(m, w, c, plain, step.at);
            && step.id in w'.alerts
            && w'.alerts[step.id] == plain.(status := if covered && step.incoming == Firing then Silenced else step.incoming,
                                            quiet := covered)
            && (AppKey(sid, step.id) in w'.apps <==> CoversNow(m, w, sid, plain, step.at))
            && (AppKey(sid, step.id) in w'.apps ==> w'.apps[AppKey(sid, step.id)] == Application(Firing, NewAlert, true))
            && (forall a :: a in w.alerts ==> a in w'.alerts && w'.alerts[a] == w.alerts[a])
            && w'.groups == w.groups[step.group := Group(Recalculated(w'.alerts, step.group, step.groupBefore.status), step.groupBefore.merged)]
            && w'.silences == w.silences
            && forall k :: k in w.apps ==> k in w'.apps && w'.apps[k] == w.apps[k]
  {
    var plain := Alert(step.team, step.group, step.incoming, None, false, step.facts);
    var matched := MatchingSilences(m, w, plain, step.at);
    assert forall c :: c in matched <==> c in w.silences && CoversNow(m, w, c, plain, step.at);
    assert AppKey(sid, step.id) !in w.apps;
    if matched == {} {
      assert forall c :: c !in matched;
    } else {
      var c :| c in matched;
      assert c in w.silences && CoversNow(m, w, c, plain, step.at);
    }
  }

  /** A repeated payload takes effect unless it is firing and the alert is acknowledged or silenced. */
  lemma UpdateKeepsQuiet(w: World, step: Step)
    requires step.UpdateAlert? && step.id in w.alerts
    ensures var alert, alert' := w.alerts[step.id], Updated(w, step).alerts[step.id];
            && alert'.status == (if step.incoming == Firing && (alert.status == Acknowledged || alert.status == Silenced)
                                 then alert.status else step.incoming)
            && alert' == Alert(step.team, alert.group, alert'.status, Some(alert.status), alert.quiet, step.facts)
            && Updated(w, step).apps == w.apps && Updated(w, step).silences == w.silences
            && Updated(w, step).groups.Keys == w.groups.Keys
            && forall g :: g in w.groups ==>
                 Updated(w, step).groups[g] ==
                 if g == alert.group then Group(Recalculated(Updated(w, step).alerts, g, w.groups[g].status), w.groups[g].merged)
                 else w.groups[g]
  {
  }

  // ----- groups

  ghost predicate HasChild(alerts: map<int, Alert>, g: int, s: Status) {
    exists a :: a in alerts && alerts[a].group == g && alerts[a].status == s
  }

  ghost predicate HasUnresolved(alerts: map<int, Alert>, g: int) {
    exists a :: a in alerts && alerts[a].group == g && alerts[a].status != Resolved
  }

  /** A recalculated group is resolved, firing, silenced or acknowledged by the most urgent of its children;
      acknowledgement outlives a firing child, and nothing changes without children to tell. */
  lemma GroupFollowsChildren(alerts: map<int, Alert>, g: int, before: Status)
    ensures var after := Recalculated(alerts, g, before);
            && (HasChild(alerts, g, Firing) ==> after == if before == Acknowledged then Acknowledged else Firing)
            && (!HasChild(alerts, g, Firing) && HasChild(alerts, g, Silenced) ==> after == Silenced)
            && (!HasChild(alerts, g, Firing) && !HasChild(alerts, g, Silenced) && HasChild(alerts, g, Acknowledged) ==>
                  after == Acknowledged)
            && (!HasUnresolved(alerts, g) && HasChild(alerts, g, Resolved) ==> after == Resolved)
            && (!HasUnresolved(alerts, g) && !HasChild(alerts, g, Resolved) ==> after == before)
            && ((forall s :: HasChild(alerts, g, s) ==> s == OtherStatus || s == Resolved) && HasChild(alerts, g, OtherStatus) ==>
                  after == before)
  {
    assert forall s :: AnyChild(alerts, g, s) <==> HasChild(alerts, g, s);
    if !HasUnresolved(alerts, g) && HasChild(alerts, g, Resolved) {
      assert forall a :: a in alerts && alerts[a].group == g ==> alerts[a].status == Resolved;
    }
    if HasUnresolved(alerts, g) {
      assert !(forall a :: a in alerts && alerts[a].group == g ==> alerts[a].status == Resolved);
    }
  }

  /** Exactly the groups with a child whose status changed are recalculated; only their status can change. */
  lemma OnlyTouchedGroupsMove(before: World, after: World, g: int)
    requires g in after.groups
    ensures var w' := Regrouped(before, after);
            && g in w'.groups
            && w'.groups[g] == Group(
                 if exists a :: a in before.alerts && a in after.alerts && before.alerts[a].group == g
                                && before.alerts[a].status != after.alerts[a].status
                 then Recalculated(after.alerts, g, after.groups[g].status) else after.groups[g].status,
                 after.groups[g].merged)
            && w'.alerts == after.alerts && w'.apps == after.apps && w'.silences == after.silences
  {
  }

  // ----- the scheduler pass

  lemma {:induction false} StartAllKeepsColumns(m: Matching, w: World, order: seq<int>, now: int, sid: int)
    requires sid in w.silences && forall x :: x in order ==> x in w.silences
    ensures StartAll(m, w, order, now).silences[sid].(reconciledAt := None) == w.silences[sid].(reconciledAt := None)
    decreases |order|
  {
    if order != [] {
      StartAllKeepsColumns(m, w, order[..|order| - 1], now, sid);
    }
  }

  lemma {:induction false} EndAllKeepsColumns(w: World, order: seq<int>, now: int, sid: int)
    requires sid in w.silences && forall x :: x in order ==> x in w.silences
    ensures EndAll(w, order, now).silences[sid].(reconciledAt := None) == w.silences[sid].(reconciledAt := None)
    decreases |order|
  {
    if order != [] {
      EndAllKeepsColumns(w, order[..|order| - 1], now, sid);
    }
  }

  /** After a pass, an application is still active only if its silence keeps alerts quiet or has not ended. */
  lemma EndedSilencesAreReleased(m: Matching, w: World, now: int, w': World, k: AppKey)
    requires Processed(m, w, now, w') && k in w'.apps && w'.apps[k].active && k.silence in w'.silences
    requires w'.silences[k.silence].reactivateOnEnd
    ensures var s := w'.silences[k.silence];
            s.enabled && !s.deleted && now < s.endsAt
  {
    NothingLeftDue(m, w, now, w');
    assert k.alert in AppliedTo(w', k.silence);
    assert k.silence !in ReleasingNow(w', now);
  }

  /** After a pass, every opted-in silence in its period has been applied. */
  lemma RunningSilencesAreStarted(m: Matching, w: World, now: int, w': World, sid: int)
    requires Processed(m, w, now, w') && sid in w'.silences
    requires var s := w'.silences[sid];
             s.applyToExisting && s.enabled && !s.deleted && s.startsAt <= now < s.endsAt
    ensures w'.silences[sid].reconciledAt.Some?
  {
    NothingLeftDue(m, w, now, w');
    assert sid !in StartingNow(w', now);
  }

  /** A pass changes no silence beyond marking it reconciled. */
  lemma PassKeepsColumns(m: Matching, w: World, now: int, w': World, sid: int)
    requires Processed(m, w, now, w') && sid in w.silences
    ensures sid in w'.silences && w'.silences[sid].(reconciledAt := None) == w.silences[sid].(reconciledAt := None)
  {
    var starts: seq<int>, ends: seq<int> :| ProcessedInOrder(m, w, now, starts, ends, w');
    var repaired := Repair(m, w, now);
    StartAllKeepsColumns(m, repaired, starts, now, sid);
    EndAllKeepsColumns(StartAll(m, repaired, starts, now), ends, now, sid);
  }

  /** The silence has been switched off, deleted, or is over, and lets its alerts wake up. */
  predicate HasEnded(s: Silence, now: int) {
    s.reactivateOnEnd && (!s.enabled || s.deleted || s.endsAt <= now)
  }

  /** An application that holds its alert silenced, if the alert is. */
  ghost predicate HoldsQuiet(w: World, k: AppKey, silenced: bool) {
    && References(w)
    && k in w.apps && w.apps[k].active
    && (silenced ==> w.alerts[k.alert].status == Silenced)
  }

  lemma RepairHolds(m: Matching, w: World, now: int, k: AppKey, silenced: bool)
    requires HoldsQuiet(w, k, silenced)
    ensures HoldsQuiet(Repair(m, w, now), k, silenced)
  {
    RepairKeepsReferences(m, w, now);
    assert !Unexplained(w, k.alert);
    assert k in Repair(m, w, now).apps && Repair(m, w, now).apps[k].active by { RepairRecordsExactly(m, w, now, k); }
    if silenced {
      RepairReactivatesExactly(m, w, now, k.alert);
    }
  }

  lemma ApplyHolds(m: Matching, w: World, sid: int, now: int, k: AppKey, silenced: bool)
    requires HoldsQuiet(w, k, silenced) && sid in w.silences
    ensures HoldsQuiet(Apply(m, w, sid, now), k, silenced)
  {
    ApplyKeepsReferences(m, w, sid, now);
    assert k in Apply(m, w, sid, now).apps && Apply(m, w, sid, now).apps[k].active by { ApplyRecordsExactly(m, w, sid, now, k); }
    if silenced {
      ApplySilencesExactly(m, w, sid, now, k.alert);
    }
  }

  lemma ReleaseHolds(w: World, sid: int, now: int, k: AppKey, silenced: bool)
    requires HoldsQuiet(w, k, silenced) && sid in w.silences && k.silence != sid
    ensures HoldsQuiet(ReleaseAll(w, sid, now, true), k, silenced)
  {
    ReleaseKeepsReferences(w, sid, now);
    ReleaseEndsExactly(w, sid, now, true, k);
    ReleaseReactivatesExactly(w, sid, now, true, k.alert);
    assert !LastFor(w.apps, AppKey(sid, k.alert));
  }

  lemma {:induction false} StartAllHolds(m: Matching, w: World, order: seq<int>, now: int, k: AppKey, silenced: bool)
    requires HoldsQuiet(w, k, silenced) && forall sid :: sid in order ==> sid in w.silences
    ensures HoldsQuiet(StartAll(m, w, order, now), k, silenced)
    decreases |order|
  {
    if order != [] {
      StartAllHolds(m, w, order[..|order| - 1], now, k, silenced);
      ApplyHolds(m, StartAll(m, w, order[..|order| - 1], now), order[|order| - 1], now, k, silenced);
    }
  }

  lemma {:induction false} EndAllHolds(w: World, order: seq<int>, now: int, k: AppKey, silenced: bool)
    requires HoldsQuiet(w, k, silenced) && (forall sid :: sid in order ==> sid in w.silences) && k.silence !in order
    ensures HoldsQuiet(EndAll(w, order, now), k, silenced)
    decreases |order|
  {
    if order != [] {
      EndAllHolds(w, order[..|order| - 1], now, k, silenced);
      ReleaseHolds(EndAll(w, order[..|order| - 1], now), order[|order| - 1], now, k, silenced);
    }
  }

  /** A pass ends no application of a silence that has not ended, and wakes no alert that such a silence covers. */
  lemma RunningSilencesHold(m: Matching, w: World, now: int, w': World, k: AppKey)
    requires References(w) && Processed(m, w, now, w')
    requires k in w.apps && w.apps[k].active && !HasEnded(w.silences[k.silence], now)
    ensures k in w'.apps && w'.apps[k].active
    ensures w.alerts[k.alert].status == Silenced ==> k.alert in w'.alerts && w'.alerts[k.alert].status == Silenced
  {
    var starts: seq<int>, ends: seq<int> :| ProcessedInOrder(m, w, now, starts, ends, w');
    var repaired, silenced := Repair(m, w, now), w.alerts[k.alert].status == Silenced;
    var started := StartAll(m, repaired, starts, now);
    RepairHolds(m, w, now, k, silenced);
    StartAllHolds(m, repaired, starts, now, k, silenced);
    StartAllKeepsColumns(m, repaired, starts, now, k.silence);
    assert started.silences[k.silence].(reconciledAt := None) == w.silences[k.silence].(reconciledAt := None);
    assert k.silence !in ReleasingNow(started, now);
    EndAllHolds(started, ends, now, k, silenced);
  }

  /** Due silences are handled by start time and then id, ended ones by id. */
  lemma ListedInOrder(w: World, order: seq<int>)
    requires forall i :: 0 <= i < |order| ==> order[i] in w.silences
    ensures InKeyOrder(order, StartKey(w)) <==>
            forall i, j :: 0 <= i < j < |order| ==>
              || w.silences[order[i]].startsAt < w.silences[order[j]].startsAt
              || (w.silences[order[i]].startsAt == w.silences[order[j]].startsAt && order[i] < order[j])
    ensures InKeyOrder(order, IdKey()) <==> forall i, j :: 0 <= i < j < |order| ==> order[i] < order[j]
  {
    forall i, j | 0 <= i < j < |order|
      ensures KeyBefore(StartKey(w), order[i], order[j]) <==>
              || w.silences[order[i]].startsAt < w.silences[order[j]].startsAt
              || (w.silences[order[i]].startsAt == w.silences[order[j]].startsAt && order[i] < order[j])
      ensures KeyBefore(IdKey(), order[i], order[j]) <==> order[i] < order[j]
    {
    }
  }

  // ----- conservation

  function SilencedIn(w: World): set<int> {
    set a | a in w.alerts && w.alerts[a].status == Silenced
  }

  function ActiveIn(w: World): set<AppKey> {
    set k | k in w.apps && w.apps[k].active
  }

  /** Applying adds to the silenced alerts exactly as many as it reports. */
  lemma ApplyConserves(m: Matching, w: World, sid: int, now: int)
    requires sid in w.silences
    ensures |SilencedIn(Apply(m, w, sid, now))| == |SilencedIn(w)| + ApplyCounts(m, w, sid, now).silenced
  {
    ApplyGrowsSilenced(m, w, sid, now);
    if Apply(m, w, sid, now) == w {
      assert StatusChanges(w.alerts, w.alerts) == {};
    }
  }

  lemma ApplyGrowsSilenced(m: Matching, w: World, sid: int, now: int)
    requires sid in w.silences
    ensures |SilencedIn(Apply(m, w, sid, now))| == |SilencedIn(w)| + |StatusChanges(w.alerts, Apply(m, w, sid, now).alerts)|
  {
    var after := Apply(m, w, sid, now);
    var changes := StatusChanges(w.alerts, after.alerts);
    forall a: int
      ensures a in SilencedIn(after) <==> a in SilencedIn(w) || a in changes
      ensures !(a in SilencedIn(w) && a in changes)
    {
      if a in w.alerts {
        ApplySilencesExactly(m, w, sid, now, a);
      }
    }
    assert SilencedIn(after) == SilencedIn(w) + changes && SilencedIn(w) !! changes;
  }

  /** Releasing takes away exactly as many silenced alerts and active applications as it reports. */
  lemma ReleaseConserves(w: World, sid: int, now: int, respect: bool)
    requires sid in w.silences
    ensures |SilencedIn(ReleaseAll(w, sid, now, respect))| == |SilencedIn(w)| - ReleaseAllCounts(w, sid, now, respect).reactivated
    ensures |ActiveIn(ReleaseAll(w, sid, now, respect))| == |ActiveIn(w)| - ReleaseAllCounts(w, sid, now, respect).released
    ensures ReleaseAllCounts(w, sid, now, respect).retained ==
            if respect && !w.silences[sid].reactivateOnEnd then |AppliedTo(w, sid)| else 0
  {
    var after := ReleaseAll(w, sid, now, respect);
    if respect && !w.silences[sid].reactivateOnEnd {
      assert SilencedIn(after) == SilencedIn(w) && ActiveIn(after) == ActiveIn(w);
    } else {
      ReleaseShrinksAlerts(w, sid, AppliedTo(w, sid), now);
      ReleaseShrinksApps(w, sid, now);
    }
  }

  lemma ReleaseShrinksAlerts(w: World, sid: int, chosen: set<int>, now: int)
    requires sid in w.silences
    ensures |SilencedIn(Release(w, sid, chosen, now))| ==
            |SilencedIn(w)| - |StatusChanges(w.alerts, Release(w, sid, chosen, now).alerts)|
  {
    var after := Release(w, sid, chosen, now);
    var changes := StatusChanges(w.alerts, after.alerts);
    assert SilencedIn(w) == SilencedIn(after) + changes && SilencedIn(after) !! changes;
  }

  lemma ReleaseShrinksApps(w: World, sid: int, now: int)
    requires sid in w.silences
    ensures |ActiveIn(Release(w, sid, AppliedTo(w, sid), now))| == |ActiveIn(w)| - |AppliedTo(w, sid)|
  {
    KeysOfSize(sid, AppliedTo(w, sid));
    SplitSize(ActiveIn(w), ActiveIn(Release(w, sid, AppliedTo(w, sid), now)), KeysOf(sid, AppliedTo(w, sid))) by {
      forall k: AppKey
        ensures k in ActiveIn(w) <==>
                k in ActiveIn(Release(w, sid, AppliedTo(w, sid), now)) || k in KeysOf(sid, AppliedTo(w, sid))
        ensures !(k in ActiveIn(Release(w, sid, AppliedTo(w, sid), now)) && k in KeysOf(sid, AppliedTo(w, sid)))
      {
        ReleaseDropsActive(w, sid, now, k);
      }
    }
  }

  lemma ReleaseDropsActive(w: World, sid: int, now: int, k: AppKey)
    requires sid in w.silences
    ensures k in ActiveIn(w) <==>
            k in ActiveIn(Release(w, sid, AppliedTo(w, sid), now)) || k in KeysOf(sid, AppliedTo(w, sid))
    ensures !(k in ActiveIn(Release(w, sid, AppliedTo(w, sid), now)) && k in KeysOf(sid, AppliedTo(w, sid)))
  {
    ReleaseEndsExactly(w, sid, now, false, k);
  }

  function KeysOf(sid: int, alerts: set<int>): set<AppKey> {
    set a | a in alerts :: AppKey(sid, a)
  }

  lemma {:induction false} KeysOfSize(sid: int, alerts: set<int>)
    ensures |KeysOf(sid, alerts)| == |alerts|
  {
    SomeElement(alerts);
    if alerts != {} {
      var a :| a in alerts;
      KeysOfSize(sid, alerts - {a});
      assert KeysOf(sid, alerts) == KeysOf(sid, alerts - {a}) + {AppKey(sid, a)};
    }
  }

  /** Repair takes away the silenced alerts it reports reactivated and adds the applications it reports backfilled. */
  lemma RepairConserves(m: Matching, w: World, now: int)
    ensures |SilencedIn(Repair(m, w, now))| == |SilencedIn(w)| - RepairCounts(m, w, now).reactivated
    ensures |ActiveIn(Repair(m, w, now))| == |ActiveIn(w)| + RepairCounts(m, w, now).backfilled
  {
    RepairShrinksAlerts(m, w, now);
    RepairGrowsApps(m, w, now);
  }

  lemma RepairShrinksAlerts(m: Matching, w: World, now: int)
    ensures |SilencedIn(Repair(m, w, now))| == |SilencedIn(w)| - |StatusChanges(w.alerts, Repair(m, w, now).alerts)|
  {
    var after := Repair(m, w, now);
    var changes := StatusChanges(w.alerts, after.alerts);
    assert SilencedIn(w) == SilencedIn(after) + changes && SilencedIn(after) !! changes;
  }

  lemma RepairGrowsApps(m: Matching, w: World, now: int)
    ensures |ActiveIn(Repair(m, w, now))| == |ActiveIn(w)| + |BackfillKeys(m, w, now, w.alerts.Keys)|
  {
    SplitSize(ActiveIn(Repair(m, w, now)), ActiveIn(w), BackfillKeys(m, w, now, w.alerts.Keys)) by {
      forall k: AppKey
        ensures k in ActiveIn(Repair(m, w, now)) <==> k in ActiveIn(w) || k in BackfillKeys(m, w, now, w.alerts.Keys)
        ensures !(k in ActiveIn(w) && k in BackfillKeys(m, w, now, w.alerts.Keys))
      {
        RepairAddsActive(m, w, now, k);
      }
    }
  }

  lemma RepairAddsActive(m: Matching, w: World, now: int, k: AppKey)
    ensures k in ActiveIn(Repair(m, w, now)) <==> k in ActiveIn(w) || k in BackfillKeys(m, w, now, w.alerts.Keys)
    ensures !(k in ActiveIn(w) && k in BackfillKeys(m, w, now, w.alerts.Keys))
  {
    RepairRecordsExactly(m, w, now, k);
  }

  lemma SplitSize(all: set<AppKey>, one: set<AppKey>, two: set<AppKey>)
    requires forall k :: k in all <==> k in one || k in two
    requires forall k :: !(k in one && k in two)
    ensures |all| == |one| + |two|
  {
    assert all == one + two && one !! two;
  }

  lemma {:induction false} StartAllConserves(m: Matching, w: World, order: seq<int>, now: int)
    requires forall sid :: sid in order ==> sid in w.silences
    ensures |SilencedIn(StartAll(m, w, order, now))| == |SilencedIn(w)| + StartedSilenced(m, w, order, now)
    decreases |order|
  {
    if order != [] {
      var init := order[..|order| - 1];
      StartAllConserves(m, w, init, now);
      ApplyConserves(m, StartAll(m, w, init, now), order[|order| - 1], now);
    }
  }

  lemma {:induction false} EndAllConserves(w: World, order: seq<int>, now: int)
    requires forall sid :: sid in order ==> sid in w.silences
    ensures |SilencedIn(EndAll(w, order, now))| == |SilencedIn(w)| - EndedReactivated(w, order, now)
    decreases |order|
  {
    if order != [] {
      var init := order[..|order| - 1];
      EndAllConserves(w, init, now);
      ReleaseConserves(EndAll(w, init, now), order[|order| - 1], now, true);
    }
  }

  /** Over a whole pass, the silenced alerts change by exactly the alerts reported silenced less those
      reported reactivated. */
  lemma PassConserves(m: Matching, w: World, now: int, starts: seq<int>, ends: seq<int>, w': World)
    requires ProcessedInOrder(m, w, now, starts, ends, w')
    ensures var report := PassCounts(m, w, now, starts, ends, w');
            |SilencedIn(w')| == |SilencedIn(w)| + report.silenced - report.reactivated
  {
    var repaired := Repair(m, w, now);
    RepairConserves(m, w, now);
    StartAllConserves(m, repaired, starts, now);
    EndAllConserves(StartAll(m, repaired, starts, now), ends, now);
  }

  /** The groups an operation reports are those that went from firing to silenced, or back, and the matches it
      reports are the alerts the silence takes in. */
  lemma GroupsReported(m: Matching, w: World, sid: int, now: int, respect: bool)
    requires sid in w.silences
    ensures ApplyCounts(m, w, sid, now).groupsChanged == |Went(w, Apply(m, w, sid, now), Firing, Silenced)|
    ensures ApplyCounts(m, w, sid, now).matched == |set a | a in w.alerts && TakesIn(m, w, w.silences[sid], a, now)|
    ensures ReleaseAllCounts(w, sid, now, respect).groupsChanged == |Went(w, ReleaseAll(w, sid, now, respect), Silenced, Firing)|
    ensures RepairCounts(m, w, now).groupsChanged == |Went(w, Repair(m, w, now), Silenced, Firing)|
  {
    var takenIn := set a | a in w.alerts && TakesIn(m, w, w.silences[sid], a, now);
    if Apply(m, w, sid, now) == w {
      assert Went(w, w, Firing, Silenced) == {};
    }
    if IsActive(w.silences[sid], now) && w.silences[sid].applyToExisting {
      assert SelectedAlerts(m, w, w.silences[sid]) == takenIn;
    } else {
      assert takenIn == {};
    }
    if respect && !w.silences[sid].reactivateOnEnd {
      assert Went(w, ReleaseAll(w, sid, now, respect), Silenced, Firing) == {};
    }
  }

  /** Reconciling an active silence reports its application after dropping what it no longer fits; otherwise it
      reports a release, of everything if the silence is still pending. */
  lemma ReconcileReportsExactly(m: Matching, w: World, sid: int, now: int)
    requires References(w) && sid in w.silences
    ensures var s, w', report := w.silences[sid], Reconcile(m, w, sid, now), ReconcileCounts(m, w, sid, now);
            if s.enabled && !s.deleted && s.startsAt <= now < s.endsAt then
              var kept := if Unfit(m, w, sid) == {} then w else Release(w, sid, Unfit(m, w, sid), now);
              w' == Apply(m, kept, sid, now) && report == AppliedWith(ApplyCounts(m, kept, sid, now))
            else
              var respect := !(s.enabled && !s.deleted && now < s.startsAt);
              && report == ReleasedWith(ReleaseAllCounts(w, sid, now, respect))
              && w'.alerts == ReleaseAll(w, sid, now, respect).alerts && w'.apps == ReleaseAll(w, sid, now, respect).apps
  {
    forall a
      ensures a in Unfit(m, w, sid) <==> a in Invalid(m, w, sid)
    {
      if a in w.alerts && AppKey(sid, a) in w.apps && w.apps[AppKey(sid, a)].active {
        InvalidIff(m, w, sid, a);
      }
    }
    assert Unfit(m, w, sid) == Invalid(m, w, sid);
  }

  /** The alerts to which the silence applies although its team, matcher or opt-in no longer fits. */
  function Unfit(m: Matching, w: World, sid: int): set<int>
    requires sid in w.silences
  {
    set a | a in w.alerts && AppKey(sid, a) in w.apps && w.apps[AppKey(sid, a)].active
            && !(&& w.alerts[a].team == Some(w.silences[sid].team)
                 && m.existing(w.silences[sid].matcher, w.alerts[a].facts)
                 && (w.apps[AppKey(sid, a)].source == NewAlert || w.silences[sid].applyToExisting))
  }

  function Went(w: World, w': World, from: Status, to: Status): set<int> {
    set g | g in w.groups && g in w'.groups && w.groups[g].status == from && w'.groups[g].status == to
  }
}

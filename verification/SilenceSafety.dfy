/** What every silence operation keeps, over whole runs. */
module SilenceSafety {
  import opened Clock
  import opened SilenceRules

  /** References resolve, and a resolved group holds no silenced alert. */
  ghost predicate Closed(w: World) {
    && References(w)
    && (forall a :: a in w.alerts && w.alerts[a].status == Silenced ==> w.groups[w.alerts[a].group].status != Resolved)
  }

  /** Every silenced alert holds an active application. */
  ghost predicate Safe(w: World) {
    forall a :: a in w.alerts && w.alerts[a].status == Silenced ==> HasActiveApp(w.apps, a)
  }

  /** No orphan: the guarantee for silenced alerts of unresolved groups. */
  ghost predicate NoOrphans(w: World) {
    forall a :: a in w.alerts ==> !Orphan(w, a)
  }

  lemma ActiveAppWitness(apps: map<AppKey, Application>, k: AppKey)
    requires ActiveApp(apps, k)
    ensures HasActiveApp(apps, k.alert)
  {
  }

  // ----- regrouping

  /** A recalculated group that holds a firing or silenced alert is not resolved. */
  lemma RecalculatedOpen(alerts: map<int, Alert>, g: int, before: Status, a: int)
    requires a in alerts && alerts[a].group == g && Open(alerts[a].status)
    ensures Recalculated(alerts, g, before) != Resolved
  {
  }

  /** Only the status of alerts changed, and no alert of a resolved group became silenced. */
  ghost predicate AlertsEvolve(before: World, after: World) {
    && after.alerts.Keys == before.alerts.Keys
    && after.groups == before.groups
    && after.silences == before.silences
    && (forall a :: a in before.alerts ==> after.alerts[a].group == before.alerts[a].group)
    && (forall a :: a in before.alerts && after.alerts[a].status == Silenced && before.alerts[a].status != Silenced ==>
          before.alerts[a].group in before.groups && before.groups[before.alerts[a].group].status != Resolved)
    && (forall k :: k in after.apps ==> k.silence in after.silences && k.alert in after.alerts)
  }

  lemma RegroupingCloses(before: World, after: World)
    requires Closed(before) && AlertsEvolve(before, after)
    ensures Closed(Regrouped(before, after))
  {
  }

  // ----- references

  lemma ApplyKeepsReferences(m: Matching, w: World, sid: int, now: int)
    requires References(w) && sid in w.silences
    ensures References(Apply(m, w, sid, now))
  {
  }

  lemma RepairKeepsReferences(m: Matching, w: World, now: int)
    requires References(w)
    ensures References(Repair(m, w, now))
  {
  }

  lemma ReleaseKeepsReferences(w: World, sid: int, now: int)
    requires References(w) && sid in w.silences
    ensures References(ReleaseAll(w, sid, now, true))
  {
  }

  // ----- apply

  lemma ApplyEvolves(m: Matching, w: World, sid: int, done: set<int>)
    requires Closed(w) && sid in w.silences
    ensures AlertsEvolve(w, ApplyAlerts(m, w, sid, done))
  {
  }

  lemma ApplyKeepsSafe(m: Matching, w: World, sid: int, done: set<int>)
    requires Safe(w) && sid in w.silences
    ensures Safe(ApplyAlerts(m, w, sid, done))
  {
  }

  lemma ApplyKeepsInvariant(m: Matching, w: World, sid: int, now: int)
    requires Closed(w) && sid in w.silences
    ensures Closed(Apply(m, w, sid, now))
    ensures Safe(w) ==> Safe(Apply(m, w, sid, now))
  {
    var applied := ApplyAlerts(m, w, sid, w.alerts.Keys);
    ApplyEvolves(m, w, sid, w.alerts.Keys);
    RegroupingCloses(w, applied);
    if Safe(w) {
      ApplyKeepsSafe(m, w, sid, w.alerts.Keys);
    }
  }

  // ----- release

  lemma ReleaseEvolves(w: World, sid: int, done: set<int>)
    requires Closed(w)
    ensures AlertsEvolve(w, ReleaseAlerts(w, sid, done))
  {
  }

  lemma ReleaseKeepsSafe(w: World, sid: int, done: set<int>)
    requires Safe(w)
    ensures Safe(ReleaseAlerts(w, sid, done))
  {
  }

  lemma ReleaseKeepsInvariant(w: World, sid: int, chosen: set<int>, now: int)
    requires Closed(w) && sid in w.silences
    ensures Closed(Release(w, sid, chosen, now))
    ensures Safe(w) ==> Safe(Release(w, sid, chosen, now))
  {
    ReleaseEvolves(w, sid, chosen);
    RegroupingCloses(w, ReleaseAlerts(w, sid, chosen));
    if Safe(w) {
      ReleaseKeepsSafe(w, sid, chosen);
    }
  }

  lemma ReconciledKeepsInvariant(w: World, sid: int, at: Option<int>)
    requires Closed(w) && sid in w.silences
    ensures Closed(Reconciled(w, sid, at))
    ensures Safe(w) ==> Safe(Reconciled(w, sid, at))
  {
  }

  lemma ReleaseAllKeepsInvariant(w: World, sid: int, now: int, respect: bool)
    requires Closed(w) && sid in w.silences
    ensures Closed(ReleaseAll(w, sid, now, respect))
    ensures Safe(w) ==> Safe(ReleaseAll(w, sid, now, respect))
  {
    if respect && !w.silences[sid].reactivateOnEnd {
      ReconciledKeepsInvariant(w, sid, Some(now));
    } else {
      ReleaseKeepsInvariant(w, sid, AppliedTo(w, sid), now);
    }
  }

  lemma ReconcileKeepsInvariant(m: Matching, w: World, sid: int, now: int)
    requires Closed(w) && sid in w.silences
    ensures Closed(Reconcile(m, w, sid, now))
    ensures Safe(w) ==> Safe(Reconcile(m, w, sid, now))
  {
    if !IsActive(w.silences[sid], now) {
      ReleaseAllKeepsInvariant(w, sid, now, true);
      ReleaseAllKeepsInvariant(w, sid, now, false);
      ReconciledKeepsInvariant(ReleaseAll(w, sid, now, false), sid, None);
    } else {
      var kept := if Invalid(m, w, sid) == {} then w else Release(w, sid, Invalid(m, w, sid), now);
      ReleaseKeepsInvariant(w, sid, Invalid(m, w, sid), now);
      ApplyKeepsInvariant(m, kept, sid, now);
    }
  }

  // ----- orphan repair

  lemma RepairEvolves(m: Matching, w: World, now: int, done: set<int>)
    requires Closed(w)
    ensures AlertsEvolve(w, RepairAlerts(m, w, now, done))
  {
  }

  /** After the repair of all alerts, an alert still silenced in an unresolved group has an application. */
  lemma RepairedIsCovered(m: Matching, w: World, now: int, a: int)
    requires a in w.alerts && w.alerts[a].group in w.groups
    requires w.groups[w.alerts[a].group].status != Resolved
    requires RepairAlerts(m, w, now, w.alerts.Keys).alerts[a].status == Silenced
    ensures HasActiveApp(RepairAlerts(m, w, now, w.alerts.Keys).apps, a)
  {
    var w' := RepairAlerts(m, w, now, w.alerts.Keys);
    if Orphan(w, a) {
      var sid :| sid in w.silences && MatchesAtIntake(m, w, sid, w.alerts[a], now);
      assert AppKey(sid, a) in BackfillKeys(m, w, now, w.alerts.Keys);
      ActiveAppWitness(w'.apps, AppKey(sid, a));
    } else {
      var k :| k in w.apps && k.alert == a && w.apps[k].active;
      ActiveAppWitness(w'.apps, k);
    }
  }

  /** Orphan repair leaves no orphan, from any starting state whatever. */
  lemma RepairEstablishesCoverage(m: Matching, w: World, now: int)
    ensures NoOrphans(Repair(m, w, now))
  {
    var repaired := RepairAlerts(m, w, now, w.alerts.Keys);
    var r := Repair(m, w, now);
    forall a | a in r.alerts
      ensures !Orphan(r, a)
    {
      var g := w.alerts[a].group;
      if repaired.alerts[a].status == Silenced && g in w.groups {
        if w.groups[g].status != Resolved {
          RepairedIsCovered(m, w, now, a);
        } else {
          NothingTouchesResolved(m, w, now, g);
        }
      }
    }
  }

  lemma NothingTouchesResolved(m: Matching, w: World, now: int, g: int)
    requires g in w.groups && w.groups[g].status == Resolved
    ensures !Touched(w.alerts, RepairAlerts(m, w, now, w.alerts.Keys).alerts, g)
  {
  }

  lemma RepairKeepsInvariant(m: Matching, w: World, now: int)
    requires Closed(w)
    ensures Closed(Repair(m, w, now)) && Safe(Repair(m, w, now))
  {
    var repaired := RepairAlerts(m, w, now, w.alerts.Keys);
    RepairEvolves(m, w, now, w.alerts.Keys);
    RegroupingCloses(w, repaired);
    RepairEstablishesCoverage(m, w, now);
    var r := Repair(m, w, now);
    forall a | a in r.alerts && r.alerts[a].status == Silenced
      ensures HasActiveApp(r.apps, a)
    {
      assert !Orphan(r, a);
    }
  }

  // ----- the scheduler pass

  lemma {:induction false} StartAllKeepsInvariant(m: Matching, w: World, order: seq<int>, now: int)
    requires Closed(w) && Safe(w) && forall sid :: sid in order ==> sid in w.silences
    ensures Closed(StartAll(m, w, order, now)) && Safe(StartAll(m, w, order, now))
    decreases |order|
  {
    if order != [] {
      var init := order[..|order| - 1];
      StartAllKeepsInvariant(m, w, init, now);
      ApplyKeepsInvariant(m, StartAll(m, w, init, now), order[|order| - 1], now);
    }
  }

  lemma {:induction false} EndAllKeepsInvariant(w: World, order: seq<int>, now: int)
    requires Closed(w) && Safe(w) && forall sid :: sid in order ==> sid in w.silences
    ensures Closed(EndAll(w, order, now)) && Safe(EndAll(w, order, now))
    decreases |order|
  {
    if order != [] {
      var init := order[..|order| - 1];
      EndAllKeepsInvariant(w, init, now);
      ReleaseAllKeepsInvariant(EndAll(w, init, now), order[|order| - 1], now, true);
    }
  }

  lemma ProcessKeepsInvariant(m: Matching, w: World, now: int, w': World)
    requires Closed(w) && Processed(m, w, now, w')
    ensures Closed(w') && Safe(w')
  {
    var starts: seq<int>, ends: seq<int> :| ProcessedInOrder(m, w, now, starts, ends, w');
    var repaired := Repair(m, w, now);
    RepairKeepsInvariant(m, w, now);
    StartAllKeepsInvariant(m, repaired, starts, now);
    EndAllKeepsInvariant(StartAll(m, repaired, starts, now), ends, now);
  }
}

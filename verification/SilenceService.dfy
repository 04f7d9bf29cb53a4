/** The lifecycle operations as they run, updating the store row by row. */
module SilenceService {
  import opened Clock
  import opened SilenceRules
  import opened SilenceSafety

  /** The four tables and the loops over them; each method is proved against the value-level rules. */
  class Service {
    const matching: Matching
    var alerts: map<int, Alert>
    var groups: map<int, Group>
    var silences: map<int, Silence>
    var apps: map<AppKey, Application>

    constructor (matching: Matching, w: World)
      ensures this.matching == matching && Value() == w
    {
      this.matching := matching;
      alerts, groups, silences, apps := w.alerts, w.groups, w.silences, w.apps;
    }

    ghost function Value(): World
      reads this
    {
      World(alerts, groups, silences, apps)
    }

    /** Return the active application row, or create or revive it. */
    method GetOrCreateApplication(k: AppKey, previous: Status, source: Source) returns (created: bool)
      modifies this`apps
      ensures created == !ActiveApp(old(apps), k)
      ensures apps == if created then old(apps)[k := Application(previous, source, true)] else old(apps)
    {
      created := !(k in apps && apps[k].active);
      if created {
        apps := apps[k := Application(previous, source, true)];
      }
    }

    /** Recalculate the groups whose children changed, one after another. */
    method RegroupChanged(changed: set<int>, from: Status, to: Status, ghost before: World) returns (moved: nat)
      requires before.groups == groups && from != to
      requires forall g :: g in changed ==> g in groups
      requires forall g :: g in groups ==> (g in changed <==> Touched(before.alerts, alerts, g))
      modifies this`groups
      ensures Value() == Regrouped(before, old(Value()))
      ensures moved == |GroupMoves(before.groups, groups, from, to)|
    {
      var done: set<int> := {};
      moved := 0;
      assert GroupMoves(before.groups, groups, from, to) == {};
      while done != changed
        invariant done <= changed && groups.Keys == before.groups.Keys
        invariant forall g :: g in groups ==>
                    groups[g] == if g in done
                                 then before.groups[g].(status := Recalculated(alerts, g, before.groups[g].status))
                                 else before.groups[g]
        invariant moved == |GroupMoves(before.groups, groups, from, to)|
        decreases changed - done
      {
        SomeLeft(changed, done);
        var g :| g in changed - done;
        var previous, status := groups[g].status, Recalculated(alerts, g, groups[g].status);
        GroupMovesNext(before.groups, groups, g, status, from, to);
        groups := groups[g := groups[g].(status := status)];
        if previous == from && status == to {
          moved := moved + 1;
        }
        done := done + {g};
      }
      assert groups == Regrouped(before, old(Value())).groups;
    }

    /** Record the application of a silence to one matching alert and, if it is new, silence the alert. */
    method ApplyToAlert(sid: int, a: int) returns (changed: bool)
      requires a in alerts
      modifies this`apps, this`alerts
      ensures changed == (!ActiveApp(old(apps), AppKey(sid, a)) && old(alerts)[a].status != Silenced)
      ensures apps == if ActiveApp(old(apps), AppKey(sid, a)) then old(apps)
                      else old(apps)[AppKey(sid, a) := Application(Origin(old(alerts)[a]), Retroactive, true)]
      ensures alerts == if changed then old(alerts)[a := Quieted(old(alerts)[a])] else old(alerts)
    {
      var created := GetOrCreateApplication(AppKey(sid, a), Origin(alerts[a]), Retroactive);
      changed := created && alerts[a].status != Silenced;
      if changed {
        alerts := alerts[a := Quieted(alerts[a])];
      }
    }

    method ApplyToEach(sid: int, selected: set<int>) returns (changed: set<int>, silenced: nat)
      requires sid in silences && forall a :: a in selected <==> Selected(matching, Value(), silences[sid], a)
      modifies this`apps, this`alerts
      ensures Value() == ApplyAlerts(matching, old(Value()), sid, selected)
      ensures forall g :: g in changed <==> Touched(old(alerts), alerts, g)
      ensures silenced == |StatusChanges(old(alerts), alerts)|
    {
      ghost var w := Value();
      var done: set<int> := {};
      changed, silenced := {}, 0;
      assert StatusChanges(w.alerts, alerts) == {};
      ApplyNothing(matching, w, sid);
      while done != selected
        invariant done <= selected
        invariant Value() == ApplyAlerts(matching, w, sid, done)
        invariant forall g :: g in changed <==> Touched(w.alerts, alerts, g)
        invariant silenced == |StatusChanges(w.alerts, alerts)|
        decreases selected - done
      {
        SomeLeft(selected, done);
        var a :| a in selected - done;
        ApplyNext(matching, w, sid, done, a);
        var changes := ApplyToAlert(sid, a);
        if changes {
          changed := changed + {alerts[a].group};
          silenced := silenced + 1;
        }
        done := done + {a};
      }
    }

    /** Apply an opted-in active silence to the stored alerts it matches. */
    method ApplySilenceToExistingAlerts(sid: int, now: int) returns (report: ApplyReport)
      requires sid in silences
      requires forall a :: a in alerts ==> alerts[a].group in groups
      modifies this
      ensures Value() == Apply(matching, old(Value()), sid, now)
      ensures report == ApplyCounts(matching, old(Value()), sid, now)
    {
      var s := silences[sid];
      if !s.applyToExisting || !IsActive(s, now) {
        return ApplyReport(0, 0, 0);
      }
      ghost var w := Value();
      var selected := SelectedAlerts(matching, World(alerts, groups, silences, apps), s);
      var changed, silenced := ApplyToEach(sid, selected);
      ApplyOnlySelected(matching, w, sid, selected);
      var moved := RegroupChanged(changed, Firing, Silenced, w);
      report := ApplyReport(|selected|, silenced, moved);
      silences := silences[sid := silences[sid].(reconciledAt := Some(now))];
    }

    /** Release one application and, if it was the last, reactivate its alert. */
    method ReleaseApplicationAlert(k: AppKey) returns (changed: bool)
      requires k in apps && k.alert in alerts
      modifies this`apps, this`alerts
      ensures apps == old(apps)[k := old(apps)[k].(active := false)]
      ensures changed == (old(alerts)[k.alert].status == Silenced && !CoveredByOther(old(apps), k))
      ensures alerts == if changed
                        then old(alerts)[k.alert := Reactivated(old(alerts)[k.alert], Restorable(old(apps)[k].previous))]
                        else old(alerts)
    {
      var application := apps[k];
      apps := apps[k := application.(active := false)];
      assert HasActiveApp(apps, k.alert) <==> CoveredByOther(old(apps), k) by {
        if HasActiveApp(apps, k.alert) {
          var o :| o in apps && o.alert == k.alert && apps[o].active;
          assert o in old(apps) && o != k;
        }
        if CoveredByOther(old(apps), k) {
          var o :| o in old(apps) && o.alert == k.alert && o != k && old(apps)[o].active;
          assert o in apps && apps[o].active;
        }
      }
      var alert := alerts[k.alert];
      if alert.status == Resolved || HasActiveApp(apps, k.alert) || alert.status != Silenced {
        return false;
      }
      alerts := alerts[k.alert := Reactivated(alert, Restorable(application.previous))];
      return true;
    }

    method ReleaseEachOf(sid: int, chosen: set<int>) returns (changed: set<int>, reactivated: nat)
      requires forall a :: a in chosen ==> a in alerts && AppKey(sid, a) in apps
      modifies this`apps, this`alerts
      ensures Value() == ReleaseAlerts(old(Value()), sid, chosen)
      ensures forall g :: g in changed <==> Touched(old(alerts), alerts, g)
      ensures reactivated == |StatusChanges(old(alerts), alerts)|
    {
      ghost var w := Value();
      var done: set<int> := {};
      changed, reactivated := {}, 0;
      assert StatusChanges(w.alerts, alerts) == {};
      ReleaseNothing(w, sid);
      while done != chosen
        invariant done <= chosen
        invariant Value() == ReleaseAlerts(w, sid, done)
        invariant forall g :: g in changed <==> Touched(w.alerts, alerts, g)
        invariant reactivated == |StatusChanges(w.alerts, alerts)|
        decreases chosen - done
      {
        SomeLeft(chosen, done);
        var a :| a in chosen - done;
        ReleaseNext(w, sid, done, a);
        var wasLast := ReleaseApplicationAlert(AppKey(sid, a));
        if wasLast {
          changed := changed + {alerts[a].group};
          reactivated := reactivated + 1;
        }
        done := done + {a};
      }
    }

    /** Release the given applications of a silence, recalculate the affected groups, mark it reconciled. */
    method ReleaseChosen(sid: int, chosen: set<int>, now: int) returns (report: ReleaseReport)
      requires sid in silences
      requires forall a :: a in alerts ==> alerts[a].group in groups
      requires forall a :: a in chosen ==> a in alerts && AppKey(sid, a) in apps
      modifies this
      ensures Value() == Release(old(Value()), sid, chosen, now)
      ensures report == ReleaseCounts(old(Value()), sid, chosen, now)
    {
      ghost var w := Value();
      var changed, reactivated := ReleaseEachOf(sid, chosen);
      var moved := RegroupChanged(changed, Silenced, Firing, w);
      report := ReleaseReport(|chosen|, reactivated, moved, 0);
      silences := silences[sid := silences[sid].(reconciledAt := Some(now))];
    }

    method ReleaseSilenceApplications(sid: int, now: int, respectRetention: bool) returns (report: ReleaseReport)
      requires sid in silences
      requires forall a :: a in alerts ==> alerts[a].group in groups
      requires forall k :: k in apps ==> k.alert in alerts
      modifies this
      ensures Value() == ReleaseAll(old(Value()), sid, now, respectRetention)
      ensures report == ReleaseAllCounts(old(Value()), sid, now, respectRetention)
    {
      var chosen := AppliedTo(World(alerts, groups, silences, apps), sid);
      if respectRetention && !silences[sid].reactivateOnEnd {
        silences := silences[sid := silences[sid].(reconciledAt := Some(now))];
        return ReleaseReport(0, 0, 0, |chosen|);
      }
      report := ReleaseChosen(sid, chosen, now);
    }

    method ReconcileSilence(sid: int, now: int) returns (report: ReconcileReport)
      requires sid in silences
      requires forall a :: a in alerts ==> alerts[a].group in groups
      requires forall k :: k in apps ==> k.alert in alerts
      modifies this
      ensures Value() == Reconcile(matching, old(Value()), sid, now)
      ensures report == ReconcileCounts(matching, old(Value()), sid, now)
    {
      var s := silences[sid];
      if !IsActive(s, now) {
        var release;
        if s.enabled && !s.deleted && now < s.startsAt {
          release := ReleaseSilenceApplications(sid, now, false);
          silences := silences[sid := silences[sid].(reconciledAt := None)];
        } else {
          release := ReleaseSilenceApplications(sid, now, true);
        }
        return ReleasedWith(release);
      }
      var invalid := Invalid(matching, World(alerts, groups, silences, apps), sid);
      if invalid != {} {
        var _ := ReleaseChosen(sid, invalid, now);
      }
      var apply := ApplySilenceToExistingAlerts(sid, now);
      report := AppliedWith(apply);
    }

    /** Record an application for every silence that matched one alert. */
    method RecordNewAlertSilences(a: int, matched: set<int>) returns (created: nat)
      modifies this`apps
      ensures apps.Keys == old(apps).Keys + set sid | sid in matched :: AppKey(sid, a)
      ensures forall k :: k in apps ==>
                apps[k] == if k.alert == a && k.silence in matched && !ActiveApp(old(apps), k)
                           then Application(Firing, NewAlert, true)
                           else old(apps)[k]
      ensures created == |NotYetApplied(old(apps), matched, a)|
    {
      created := 0;
      var done: set<int> := {};
      ghost var before := apps;
      assert NotYetApplied(before, done, a) == {};
      while done != matched
        invariant done <= matched
        invariant forall k :: k in apps <==> k in old(apps) || (k.alert == a && k.silence in done)
        invariant forall k :: k in apps ==>
                    apps[k] == if k.alert == a && k.silence in done && !ActiveApp(old(apps), k)
                               then Application(Firing, NewAlert, true)
                               else old(apps)[k]
        invariant created == |NotYetApplied(before, done, a)|
        decreases matched - done
      {
        SomeLeft(matched, done);
        var sid :| sid in matched - done;
        NotYetAppliedNext(before, done, sid, a);
        var isNew := GetOrCreateApplication(AppKey(sid, a), Firing, NewAlert);
        if isNew {
          created := created + 1;
        }
        done := done + {sid};
      }
    }

    /** Backfill one orphan from its matching silences, or reactivate it if there is none. */
    method RepairOrphan(a: int, now: int) returns (changed: bool, made: nat)
      requires a in alerts
      modifies this`apps, this`alerts
      ensures changed == !AnyMatch(matching, old(Value()), old(alerts)[a], now)
      ensures alerts == if changed then old(alerts)[a := Reactivated(old(alerts)[a], Firing)] else old(alerts)
      ensures forall k :: k in apps <==>
                k in old(apps) || (k.alert == a && MatchesAtIntake(matching, old(Value()), k.silence, old(alerts)[a], now))
      ensures forall k :: k in apps ==>
                apps[k] == if k.alert == a && MatchesAtIntake(matching, old(Value()), k.silence, old(alerts)[a], now)
                              && !ActiveApp(old(apps), k)
                           then Application(Firing, NewAlert, true)
                           else old(apps)[k]
      ensures made == |NotYetApplied(old(apps), MatchingSilences(matching, old(Value()), old(alerts)[a], now), a)|
    {
      var w := World(alerts, groups, silences, apps);
      var matched := MatchingSilences(matching, w, alerts[a], now);
      AnyMatchIff(matching, w, alerts[a], now);
      changed := matched == {};
      if changed {
        alerts := alerts[a := Reactivated(alerts[a], Firing)];
        made := 0;
        assert NotYetApplied(old(apps), matched, a) == {};
      } else {
        made := RecordNewAlertSilences(a, matched);
      }
    }

    /** Repairing one more of the orphans moves the store to the next value of the rules. */
    method RepairOneOf(a: int, now: int, ghost w: World, ghost done: set<int>)
      returns (changed: bool, made: nat)
      requires a !in done && Orphan(w, a) && a in alerts
      requires Value() == RepairAlerts(matching, w, now, done)
      modifies this`apps, this`alerts
      ensures Value() == RepairAlerts(matching, w, now, done + {a})
      ensures a in alerts && alerts[a].group == w.alerts[a].group
      ensures forall g :: Touched(w.alerts, alerts, g) <==> Touched(w.alerts, old(alerts), g) || (changed && g == alerts[a].group)
      ensures |StatusChanges(w.alerts, alerts)| == |StatusChanges(w.alerts, old(alerts))| + if changed then 1 else 0
      ensures |BackfillKeys(matching, w, now, done + {a})| ==
              |BackfillKeys(matching, w, now, done)| + made
    {
      ghost var before := Value();
      RepairNext(matching, w, now, done, a);
      BackfillNext(matching, w, now, done, a, before);
      changed, made := RepairOrphan(a, now);
      RepairedEqual(matching, w, now, done, a, before, Value());
    }

    method RepairEach(orphans: set<int>, now: int) returns (changed: set<int>, reactivated: nat, backfilled: nat)
      requires forall a :: a in orphans <==> Orphan(Value(), a)
      modifies this`apps, this`alerts
      ensures Value() == RepairAlerts(matching, old(Value()), now, orphans)
      ensures forall g :: g in changed <==> Touched(old(alerts), alerts, g)
      ensures reactivated == |StatusChanges(old(alerts), alerts)|
      ensures backfilled == |BackfillKeys(matching, old(Value()), now, orphans)|
    {
      ghost var w := Value();
      var done: set<int> := {};
      changed, reactivated, backfilled := {}, 0, 0;
      RepairNothing(matching, w, now);
      while done != orphans
        invariant done <= orphans
        invariant Value() == RepairAlerts(matching, w, now, done)
        invariant forall g :: g in changed <==> Touched(w.alerts, alerts, g)
        invariant reactivated == |StatusChanges(w.alerts, alerts)|
        invariant backfilled == |BackfillKeys(matching, w, now, done)|
        decreases orphans - done
      {
        SomeLeft(orphans, done);
        var a :| a in orphans - done;
        var wakes, made := RepairOneOf(a, now, w, done);
        if wakes {
          changed := changed + {alerts[a].group};
          reactivated := reactivated + 1;
        }
        backfilled := backfilled + made;
        done := done + {a};
      }
    }

    /** Backfill or reactivate every orphan. */
    method ReconcileOrphanSilencedAlerts(now: int) returns (report: RepairReport)
      requires forall a :: a in alerts ==> alerts[a].group in groups
      modifies this
      ensures Value() == Repair(matching, old(Value()), now)
      ensures report == RepairCounts(matching, old(Value()), now)
    {
      ghost var w := Value();
      var orphans := set a | a in alerts && Orphan(World(alerts, groups, silences, apps), a);
      var changed, reactivated, backfilled := RepairEach(orphans, now);
      RepairOnlyOrphans(matching, w, now, orphans);
      var moved := RegroupChanged(changed, Silenced, Firing, w);
      report := RepairReport(backfilled, reactivated, moved);
    }

    method StartDue(now: int) returns (silenced: nat, starts: seq<int>)
      requires References(Value())
      modifies this
      ensures References(Value())
      ensures Lists(starts, StartingNow(old(Value()), now)) && InKeyOrder(starts, StartKey(old(Value())))
      ensures forall sid :: sid in starts ==> sid in old(Value()).silences
      ensures Value() == StartAll(matching, old(Value()), starts, now)
      ensures silenced == StartedSilenced(matching, old(Value()), starts, now)
    {
      ghost var w := Value();
      var current := World(alerts, groups, silences, apps);
      var due := ListInOrder(StartingNow(current, now), StartKey(current));
      silenced := 0;
      for i := 0 to |due|
        invariant forall sid :: sid in due[..i] ==> sid in w.silences
        invariant Value() == StartAll(matching, w, due[..i], now) && References(Value())
        invariant silenced == StartedSilenced(matching, w, due[..i], now)
      {
        var sid := due[i];
        assert sid in due;
        assert due[..i + 1][..i] == due[..i];
        ApplyKeepsReferences(matching, Value(), sid, now);
        var report := ApplySilenceToExistingAlerts(sid, now);
        silenced := silenced + report.silenced;
      }
      assert due[..|due|] == due;
      starts := due;
    }

    method ReleaseDue(now: int) returns (reactivated: nat, ends: seq<int>)
      requires References(Value())
      modifies this
      ensures Lists(ends, ReleasingNow(old(Value()), now)) && InKeyOrder(ends, IdKey())
      ensures forall sid :: sid in ends ==> sid in old(Value()).silences
      ensures Value() == EndAll(old(Value()), ends, now)
      ensures reactivated == EndedReactivated(old(Value()), ends, now)
    {
      ghost var w := Value();
      var due := ListInOrder(ReleasingNow(World(alerts, groups, silences, apps), now), IdKey());
      reactivated := 0;
      for i := 0 to |due|
        invariant forall sid :: sid in due[..i] ==> sid in w.silences
        invariant Value() == EndAll(w, due[..i], now) && References(Value())
        invariant reactivated == EndedReactivated(w, due[..i], now)
      {
        var sid := due[i];
        assert sid in due;
        assert due[..i + 1][..i] == due[..i];
        ReleaseKeepsReferences(Value(), sid, now);
        var report := ReleaseSilenceApplications(sid, now, true);
        reactivated := reactivated + report.reactivated;
      }
      assert due[..|due|] == due;
      ends := due;
    }

    /** One scheduler pass: repair orphans, start the due silences by start time and id, release the ended
        ones by id, and report what was done. */
    method ProcessSilenceLifecycle(now: int) returns (report: PassReport, starts: seq<int>, ends: seq<int>)
      requires References(Value())
      modifies this
      ensures ProcessedInOrder(matching, old(Value()), now, starts, ends, Value())
      ensures Processed(matching, old(Value()), now, Value())
      ensures InKeyOrder(starts, StartKey(Repair(matching, old(Value()), now))) && InKeyOrder(ends, IdKey())
      ensures report == PassCounts(matching, old(Value()), now, starts, ends, Value())
    {
      ghost var w := Value();
      var orphaned := ReconcileOrphanSilencedAlerts(now);
      RepairKeepsReferences(matching, w, now);
      ghost var repaired := Value();
      var silenced, reactivated;
      silenced, starts := StartDue(now);
      ghost var started := Value();
      reactivated, ends := ReleaseDue(now);
      report := PassReport(|starts|, |ends|, silenced, orphaned.reactivated + reactivated, orphaned.backfilled);
      PassDone(matching, w, now, repaired, starts, started, ends, Value());
    }
  }

  lemma PassDone(m: Matching, w: World, now: int, repaired: World, starts: seq<int>, started: World, ends: seq<int>, w': World)
    requires repaired == Repair(m, w, now)
    requires Lists(starts, StartingNow(repaired, now)) && started == StartAll(m, repaired, starts, now)
    requires Lists(ends, ReleasingNow(started, now)) && w' == EndAll(started, ends, now)
    ensures ProcessedInOrder(m, w, now, starts, ends, w') && Processed(m, w, now, w')
  {
    assert ProcessedInOrder(m, w, now, starts, ends, w');
  }

  lemma LastInOrder(order: seq<int>, last: int, key: int -> int)
    requires InKeyOrder(order, key) && forall y :: y in order ==> KeyBefore(key, y, last)
    ensures InKeyOrder(order + [last], key)
  {
  }

  function InsertByKey(x: int, order: seq<int>, key: int -> int): (r: seq<int>)
    requires InKeyOrder(order, key) && x !in order
    ensures InKeyOrder(r, key)
    ensures forall y :: y in r <==> y in order || y == x
  {
    if order == [] then [x]
    else
      var init, last := order[..|order| - 1], order[|order| - 1];
      assert order == init + [last];
      if KeyBefore(key, last, x) then
        LastInOrder(order, x, key);
        order + [x]
      else
        LastInOrder(InsertByKey(x, init, key), last, key);
        InsertByKey(x, init, key) + [last]
  }

  /** The ids by ascending key, then by ascending id. */
  method ListInOrder(ids: set<int>, key: int -> int) returns (order: seq<int>)
    ensures Lists(order, ids) && InKeyOrder(order, key)
  {
    order := [];
    var done: set<int> := {};
    while done != ids
      invariant done <= ids
      invariant InKeyOrder(order, key) && forall x :: x in order <==> x in done
      decreases ids - done
    {
      SomeLeft(ids, done);
      var x :| x in ids - done;
      order := InsertByKey(x, order, key);
      done := done + {x};
    }
  }

  lemma SomeLeft(all: set<int>, done: set<int>)
    requires done <= all && done != all
    ensures exists x :: x in all - done
  {
    SomeElement(all - done);
    assert all == (all - done) + done;
  }

  // ----- counting the changes one at a time

  lemma CountNext(before: set<int>, after: set<int>, x: int)
    requires x !in before && after - {x} == before
    ensures |after| == |before| + if x in after then 1 else 0
  {
  }

  lemma GroupMovesNext(first: map<int, Group>, before: map<int, Group>, g: int, status: Status, from: Status, to: Status)
    requires g in first && g in before && before[g] == first[g] && from != to
    ensures |GroupMoves(first, before[g := before[g].(status := status)], from, to)| ==
            |GroupMoves(first, before, from, to)| + if first[g].status == from && status == to then 1 else 0
  {
    var after := before[g := before[g].(status := status)];
    CountNext(GroupMoves(first, before, from, to), GroupMoves(first, after, from, to), g);
  }

  function KeysFor(sids: set<int>, a: int): set<AppKey> {
    set sid | sid in sids :: AppKey(sid, a)
  }

  lemma {:induction false} KeysForSize(sids: set<int>, a: int)
    ensures |KeysFor(sids, a)| == |sids|
  {
    SomeElement(sids);
    if sids != {} {
      var sid :| sid in sids;
      KeysForSize(sids - {sid}, a);
      assert KeysFor(sids, a) == KeysFor(sids - {sid}, a) + {AppKey(sid, a)};
    }
  }

  lemma BackfillKeysNext(m: Matching, w: World, now: int, done: set<int>, a: int)
    requires a !in done && Orphan(w, a)
    ensures |BackfillKeys(m, w, now, done + {a})| ==
            |BackfillKeys(m, w, now, done)| + |MatchingSilences(m, w, w.alerts[a], now)|
  {
    var matched := MatchingSilences(m, w, w.alerts[a], now);
    KeysForSize(matched, a);
    var p, q := BackfillKeys(m, w, now, done), BackfillKeys(m, w, now, done + {a});
    assert q == p + KeysFor(matched, a);
    assert p !! KeysFor(matched, a);
  }

  /** Repairing one more orphan backfills exactly its matching silences. */
  lemma BackfillNext(m: Matching, w: World, now: int, done: set<int>, a: int, before: World)
    requires a !in done && Orphan(w, a)
    requires before.silences == w.silences && a in before.alerts && before.alerts[a] == w.alerts[a]
    requires forall k: AppKey :: k.alert == a ==> !ActiveApp(before.apps, k)
    ensures |BackfillKeys(m, w, now, done + {a})| ==
            |BackfillKeys(m, w, now, done)| + |NotYetApplied(before.apps, MatchingSilences(m, before, before.alerts[a], now), a)|
  {
    BackfillKeysNext(m, w, now, done, a);
    var matched := MatchingSilences(m, w, w.alerts[a], now);
    assert MatchingSilences(m, before, before.alerts[a], now) == matched;
    assert NotYetApplied(before.apps, matched, a) == matched;
  }

  ghost function NotYetApplied(apps: map<AppKey, Application>, matched: set<int>, a: int): set<int> {
    set sid | sid in matched && !ActiveApp(apps, AppKey(sid, a))
  }

  lemma NotYetAppliedNext(apps: map<AppKey, Application>, done: set<int>, sid: int, a: int)
    requires sid !in done
    ensures |NotYetApplied(apps, done + {sid}, a)| ==
            |NotYetApplied(apps, done, a)| + if ActiveApp(apps, AppKey(sid, a)) then 0 else 1
  {
    var before, after := NotYetApplied(apps, done, a), NotYetApplied(apps, done + {sid}, a);
    if ActiveApp(apps, AppKey(sid, a)) {
      assert after == before;
    } else {
      assert after == before + {sid} && sid !in before;
    }
  }

  lemma AnyMatchIff(m: Matching, w: World, alert: Alert, now: int)
    ensures AnyMatch(m, w, alert, now) <==> MatchingSilences(m, w, alert, now) != {}
  {
    if AnyMatch(m, w, alert, now) {
      var sid :| sid in w.silences && MatchesAtIntake(m, w, sid, alert, now);
      assert sid in MatchingSilences(m, w, alert, now);
    } else {
      SomeElement(MatchingSilences(m, w, alert, now));
    }
  }

  lemma StatusChangesElsewhere(first: map<int, Alert>, before: map<int, Alert>, after: map<int, Alert>, a: int)
    requires first.Keys == before.Keys == after.Keys && a in first && first[a].status == before[a].status
    requires forall b :: b in before && b != a ==> after[b] == before[b]
    ensures StatusChanges(first, after) - {a} == StatusChanges(first, before)
  {
    forall b | b != a
      ensures b in StatusChanges(first, before) <==> b in StatusChanges(first, after)
    {
      assert b in first <==> b in before.Keys && b in after.Keys;
    }
  }

  /** Changing one alert touches at most that alert's group and counts at most once. */
  lemma OneAlertChanged(first: map<int, Alert>, before: map<int, Alert>, after: map<int, Alert>, a: int)
    requires first.Keys == before.Keys == after.Keys && a in first
    requires forall b :: b in before && b != a ==> after[b] == before[b]
    requires first[a].status == before[a].status && first[a].group == before[a].group == after[a].group
    ensures ChangedNext(first, before, after, a)
  {
    StatusChangesElsewhere(first, before, after, a);
    CountNext(StatusChanges(first, before), StatusChanges(first, after), a);
  }

  /** Since `first`, `after` has the changes of `before` and that of alert a, if its status changed. */
  ghost predicate ChangedNext(first: map<int, Alert>, before: map<int, Alert>, after: map<int, Alert>, a: int)
    requires a in first && a in after
  {
    var changes := after[a].status != first[a].status;
    && (forall g :: Touched(first, after, g) <==> Touched(first, before, g) || (g == first[a].group && changes))
    && |StatusChanges(first, after)| == |StatusChanges(first, before)| + if changes then 1 else 0
  }

  // ----- processing alerts one at a time equals processing them at once

  lemma ApplyNothing(m: Matching, w: World, sid: int)
    requires sid in w.silences
    ensures ApplyAlerts(m, w, sid, {}) == w
  {
  }

  lemma ApplyNext(m: Matching, w: World, sid: int, done: set<int>, a: int)
    requires sid in w.silences && a !in done && Selected(m, w, w.silences[sid], a)
    ensures var p, q := ApplyAlerts(m, w, sid, done), ApplyAlerts(m, w, sid, done + {a});
            var isNew := !ActiveApp(p.apps, AppKey(sid, a));
            && p.alerts[a] == w.alerts[a]
            && q == p.(alerts := if isNew && w.alerts[a].status != Silenced then p.alerts[a := Quieted(w.alerts[a])] else p.alerts,
                       apps := if isNew then p.apps[AppKey(sid, a) := Application(Origin(w.alerts[a]), Retroactive, true)] else p.apps)
            && ChangedNext(w.alerts, p.alerts, q.alerts, a)
  {
    var p, q := ApplyAlerts(m, w, sid, done), ApplyAlerts(m, w, sid, done + {a});
    ApplyNextApps(m, w, sid, done, a);
    assert q.alerts == if !ActiveApp(p.apps, AppKey(sid, a)) && w.alerts[a].status != Silenced
                       then p.alerts[a := Quieted(w.alerts[a])] else p.alerts;
    OneAlertChanged(w.alerts, p.alerts, q.alerts, a);
  }

  lemma ApplyNextApps(m: Matching, w: World, sid: int, done: set<int>, a: int)
    requires sid in w.silences && a !in done && Selected(m, w, w.silences[sid], a)
    ensures var p, q := ApplyAlerts(m, w, sid, done), ApplyAlerts(m, w, sid, done + {a});
            && ActiveApp(p.apps, AppKey(sid, a)) == ActiveApp(w.apps, AppKey(sid, a))
            && q.apps == if ActiveApp(p.apps, AppKey(sid, a)) then p.apps
                         else p.apps[AppKey(sid, a) := Application(Origin(w.alerts[a]), Retroactive, true)]
  {
  }

  lemma ApplyOnlySelected(m: Matching, w: World, sid: int, all: set<int>)
    requires sid in w.silences && forall a :: a in all <==> Selected(m, w, w.silences[sid], a)
    ensures ApplyAlerts(m, w, sid, all) == ApplyAlerts(m, w, sid, w.alerts.Keys)
  {
  }

  lemma ReleaseNothing(w: World, sid: int)
    ensures ReleaseAlerts(w, sid, {}) == w
  {
  }

  lemma ReleaseNext(w: World, sid: int, done: set<int>, a: int)
    requires a !in done && a in w.alerts && AppKey(sid, a) in w.apps
    ensures var p, q := ReleaseAlerts(w, sid, done), ReleaseAlerts(w, sid, done + {a});
            var k := AppKey(sid, a);
            var last := p.alerts[a].status == Silenced && !CoveredByOther(p.apps, k);
            && p.alerts[a] == w.alerts[a]
            && q == p.(alerts := if last then p.alerts[a := Reactivated(p.alerts[a], Restorable(p.apps[k].previous))] else p.alerts,
                       apps := p.apps[k := p.apps[k].(active := false)])
            && ChangedNext(w.alerts, p.alerts, q.alerts, a)
  {
    var p, q := ReleaseAlerts(w, sid, done), ReleaseAlerts(w, sid, done + {a});
    var k := AppKey(sid, a);
    ReleaseNextApps(w, sid, done, a);
    assert q.alerts == if p.alerts[a].status == Silenced && !CoveredByOther(p.apps, k)
                       then p.alerts[a := Reactivated(p.alerts[a], Restorable(p.apps[k].previous))] else p.alerts;
    OneAlertChanged(w.alerts, p.alerts, q.alerts, a);
  }

  lemma ReleaseNextApps(w: World, sid: int, done: set<int>, a: int)
    requires a !in done && AppKey(sid, a) in w.apps
    ensures var p, q := ReleaseAlerts(w, sid, done), ReleaseAlerts(w, sid, done + {a});
            var k := AppKey(sid, a);
            && p.apps[k] == w.apps[k]
            && CoveredByOther(p.apps, k) == CoveredByOther(w.apps, k)
            && q.apps == p.apps[k := p.apps[k].(active := false)]
  {
    var p := ReleaseAlerts(w, sid, done);
    assert p.apps.Keys == w.apps.Keys && forall o :: o in w.apps && o.alert == a ==> p.apps[o] == w.apps[o];
  }

  lemma RepairNothing(m: Matching, w: World, now: int)
    ensures RepairAlerts(m, w, now, {}) == w && BackfillKeys(m, w, now, {}) == {} && StatusChanges(w.alerts, w.alerts) == {}
  {
  }

  lemma RepairNext(m: Matching, w: World, now: int, done: set<int>, a: int)
    requires a !in done && Orphan(w, a)
    ensures var p, q := RepairAlerts(m, w, now, done), RepairAlerts(m, w, now, done + {a});
            && p.alerts[a] == w.alerts[a]
            && (forall k: AppKey :: k.alert == a ==> !ActiveApp(p.apps, k))
            && q == p.(alerts := if AnyMatch(m, w, w.alerts[a], now) then p.alerts else p.alerts[a := Reactivated(w.alerts[a], Firing)],
                       apps := q.apps)
            && ChangedNext(w.alerts, p.alerts, q.alerts, a)
  {
    OneAlertChanged(w.alerts, RepairAlerts(m, w, now, done).alerts, RepairAlerts(m, w, now, done + {a}).alerts, a);
  }

  lemma RepairNextApps(m: Matching, w: World, now: int, done: set<int>, a: int)
    requires a !in done && Orphan(w, a)
    ensures var p, q := RepairAlerts(m, w, now, done), RepairAlerts(m, w, now, done + {a});
            && (forall k: AppKey :: k.alert == a ==> !ActiveApp(p.apps, k))
            && (forall k :: k in q.apps <==> k in p.apps || (k.alert == a && MatchesAtIntake(m, w, k.silence, w.alerts[a], now)))
            && (forall k :: k in q.apps ==>
                  q.apps[k] == if k.alert == a && MatchesAtIntake(m, w, k.silence, w.alerts[a], now)
                               then Application(Firing, NewAlert, true) else p.apps[k])
  {
  }

  /** The repaired store is the next value of the rules. */
  lemma RepairedEqual(m: Matching, w: World, now: int, done: set<int>, a: int, before: World, after: World)
    requires a !in done && Orphan(w, a)
    requires before == RepairAlerts(m, w, now, done)
    requires after == before.(alerts := RepairAlerts(m, w, now, done + {a}).alerts, apps := after.apps)
    requires forall k :: k in after.apps <==>
               k in before.apps || (k.alert == a && MatchesAtIntake(m, before, k.silence, w.alerts[a], now))
    requires forall k :: k in after.apps ==>
               after.apps[k] == if k.alert == a && MatchesAtIntake(m, before, k.silence, w.alerts[a], now) && !ActiveApp(before.apps, k)
                                then Application(Firing, NewAlert, true) else before.apps[k]
    ensures after == RepairAlerts(m, w, now, done + {a})
  {
    RepairNextApps(m, w, now, done, a);
    assert after.apps == RepairAlerts(m, w, now, done + {a}).apps;
  }

  lemma RepairOnlyOrphans(m: Matching, w: World, now: int, all: set<int>)
    requires forall a :: a in all <==> Orphan(w, a)
    ensures BackfillKeys(m, w, now, all) == BackfillKeys(m, w, now, w.alerts.Keys)
    ensures RepairAlerts(m, w, now, all) == RepairAlerts(m, w, now, w.alerts.Keys)
  {
  }
}

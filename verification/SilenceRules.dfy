/** The silence lifecycle on values: what each operation does to every alert, application and group. */
module SilenceRules {
  import opened Clock

  datatype Status = Firing | Acknowledged | Silenced | Resolved | OtherStatus

  /** `facts` stands for everything the matchers look at. */
  datatype Alert = Alert(team: Option<int>, group: int, status: Status, previous: Option<Status>, quiet: bool, facts: int)

  datatype Group = Group(status: Status, merged: bool)

  datatype Silence = Silence(
    team: int,
    enabled: bool,
    deleted: bool,
    startsAt: int,
    endsAt: int,
    applyToExisting: bool,
    reactivateOnEnd: bool,
    matcher: int,
    reconciledAt: Option<int>)

  datatype Source = NewAlert | Retroactive

  datatype Application = Application(previous: Status, source: Source, active: bool)

  /** At most one application row exists for a silence and an alert. */
  datatype AppKey = AppKey(silence: int, alert: int)

  datatype World = World(
    alerts: map<int, Alert>,
    groups: map<int, Group>,
    silences: map<int, Silence>,
    apps: map<AppKey, Application>)

  /** Rule matching at intake and against stored alerts, by matcher and facts. */
  datatype Matching = Matching(intake: (int, int) -> bool, existing: (int, int) -> bool)

  /** Applications and alerts refer to rows that exist. */
  ghost predicate References(w: World) {
    && (forall a :: a in w.alerts ==> w.alerts[a].group in w.groups)
    && (forall k :: k in w.apps ==> k.alert in w.alerts && k.silence in w.silences)
  }

  predicate IsActive(s: Silence, now: int) {
    s.enabled && !s.deleted && s.startsAt <= now < s.endsAt
  }

  predicate ActiveApp(apps: map<AppKey, Application>, k: AppKey) {
    k in apps && apps[k].active
  }

  predicate HasActiveApp(apps: map<AppKey, Application>, a: int) {
    exists k :: k in apps && k.alert == a && apps[k].active
  }

  predicate Open(s: Status) {
    s == Firing || s == Silenced
  }

  function Restorable(s: Status): Status {
    if s == Acknowledged then Acknowledged else Firing
  }

  /** The status an alert returns to: its own if it is not silenced, else the one it had before. */
  function Origin(alert: Alert): Status {
    if alert.status == Firing || alert.status == Acknowledged then alert.status
    else if alert.previous.Some? then Restorable(alert.previous.value)
    else Firing
  }

  // ----- group status

  predicate AnyChild(alerts: map<int, Alert>, g: int, s: Status) {
    exists a :: a in alerts && alerts[a].group == g && alerts[a].status == s
  }

  function Recalculated(alerts: map<int, Alert>, g: int, before: Status): Status {
    if forall a :: a in alerts ==> alerts[a].group != g then before
    else if forall a :: a in alerts && alerts[a].group == g ==> alerts[a].status == Resolved then Resolved
    else if AnyChild(alerts, g, Firing) then (if before == Acknowledged then Acknowledged else Firing)
    else if AnyChild(alerts, g, Silenced) then Silenced
    else if AnyChild(alerts, g, Acknowledged) then Acknowledged
    else before
  }

  predicate Touched(before: map<int, Alert>, after: map<int, Alert>, g: int) {
    exists a :: a in before && a in after && before[a].group == g && before[a].status != after[a].status
  }

  /** Groups with a changed child are recalculated from their children. */
  function Regrouped(before: World, after: World): World {
    after.(groups := map g | g in after.groups ::
      if Touched(before.alerts, after.alerts, g)
      then after.groups[g].(status := Recalculated(after.alerts, g, after.groups[g].status))
      else after.groups[g])
  }

  function Reconciled(w: World, sid: int, at: Option<int>): World
    requires sid in w.silences
  {
    w.(silences := w.silences[sid := w.silences[sid].(reconciledAt := at)])
  }

  // ----- applying a silence to stored alerts

  predicate Selected(m: Matching, w: World, s: Silence, a: int) {
    && a in w.alerts
    && w.alerts[a].team == Some(s.team)
    && Open(w.alerts[a].status)
    && w.alerts[a].group in w.groups
    && Open(w.groups[w.alerts[a].group].status)
    && !w.groups[w.alerts[a].group].merged
    && m.existing(s.matcher, w.alerts[a].facts)
  }

  function Quieted(alert: Alert): Alert {
    alert.(previous := Some(alert.status), status := Silenced, quiet := true)
  }

  /** Apply one silence to those of the given alerts it selects. */
  function ApplyAlerts(m: Matching, w: World, sid: int, done: set<int>): World
    requires sid in w.silences
  {
    var s := w.silences[sid];
    w.(alerts := map a | a in w.alerts ::
         if a in done && Selected(m, w, s, a) && !ActiveApp(w.apps, AppKey(sid, a)) && w.alerts[a].status == Firing
         then Quieted(w.alerts[a])
         else w.alerts[a],
       apps := map k | k in w.apps.Keys + set a | a in done && Selected(m, w, s, a) :: AppKey(sid, a) ::
         if k.silence == sid && k.alert in done && Selected(m, w, s, k.alert) && !ActiveApp(w.apps, k)
         then Application(Origin(w.alerts[k.alert]), Retroactive, true)
         else w.apps[k])
  }

  function Apply(m: Matching, w: World, sid: int, now: int): World
    requires sid in w.silences
  {
    var s := w.silences[sid];
    if !s.applyToExisting || !IsActive(s, now) then w
    else Reconciled(Regrouped(w, ApplyAlerts(m, w, sid, w.alerts.Keys)), sid, Some(now))
  }

  // ----- releasing applications

  function Reactivated(alert: Alert, status: Status): Alert {
    alert.(previous := Some(alert.status), status := status, quiet := false)
  }

  predicate CoveredByOther(apps: map<AppKey, Application>, k: AppKey) {
    exists o :: o in apps && o.alert == k.alert && o != k && apps[o].active
  }

  /** Release the silence's applications to the given alerts. */
  function ReleaseAlerts(w: World, sid: int, done: set<int>): World {
    w.(alerts := map a | a in w.alerts ::
         if a in done && AppKey(sid, a) in w.apps && w.alerts[a].status == Silenced
            && !CoveredByOther(w.apps, AppKey(sid, a))
         then Reactivated(w.alerts[a], Restorable(w.apps[AppKey(sid, a)].previous))
         else w.alerts[a],
       apps := map k | k in w.apps ::
         if k.silence == sid && k.alert in done then w.apps[k].(active := false) else w.apps[k])
  }

  /** The alerts to which the silence currently applies. */
  function AppliedTo(w: World, sid: int): set<int> {
    set k | k in w.apps && k.silence == sid && w.apps[k].active :: k.alert
  }

  function Release(w: World, sid: int, chosen: set<int>, now: int): World
    requires sid in w.silences
  {
    Reconciled(Regrouped(w, ReleaseAlerts(w, sid, chosen)), sid, Some(now))
  }

  /** Release everything, unless the silence keeps its alerts quiet after it ends. */
  function ReleaseAll(w: World, sid: int, now: int, respectRetention: bool): World
    requires sid in w.silences
  {
    if respectRetention && !w.silences[sid].reactivateOnEnd then Reconciled(w, sid, Some(now))
    else Release(w, sid, AppliedTo(w, sid), now)
  }

  // ----- reconciling one silence

  /** Applications that the silence, as it stands now, no longer justifies. */
  function Invalid(m: Matching, w: World, sid: int): set<int>
    requires sid in w.silences
  {
    var s := w.silences[sid];
    set a | a in AppliedTo(w, sid) && !Justified(m, w, s, AppKey(sid, a)) :: a
  }

  predicate Justified(m: Matching, w: World, s: Silence, k: AppKey) {
    && k.alert in w.alerts
    && w.alerts[k.alert].team == Some(s.team)
    && m.existing(s.matcher, w.alerts[k.alert].facts)
    && k in w.apps
    && (w.apps[k].source == NewAlert || s.applyToExisting)
  }

  function Reconcile(m: Matching, w: World, sid: int, now: int): World
    requires sid in w.silences
  {
    var s := w.silences[sid];
    if !IsActive(s, now) then
      if s.enabled && !s.deleted && now < s.startsAt
      then Reconciled(ReleaseAll(w, sid, now, false), sid, None)
      else ReleaseAll(w, sid, now, true)
    else
      var kept := if Invalid(m, w, sid) == {} then w else Release(w, sid, Invalid(m, w, sid), now);
      Apply(m, kept, sid, now)
  }

  // ----- orphan repair

  /** A silenced alert of an unresolved group that no active application explains. */
  predicate Orphan(w: World, a: int) {
    && a in w.alerts
    && w.alerts[a].status == Silenced
    && w.alerts[a].group in w.groups
    && w.groups[w.alerts[a].group].status != Resolved
    && !HasActiveApp(w.apps, a)
  }

  predicate MatchesAtIntake(m: Matching, w: World, sid: int, alert: Alert, now: int) {
    && sid in w.silences
    && alert.team == Some(w.silences[sid].team)
    && IsActive(w.silences[sid], now)
    && m.intake(w.silences[sid].matcher, alert.facts)
  }

  predicate AnyMatch(m: Matching, w: World, alert: Alert, now: int) {
    exists sid :: sid in w.silences && MatchesAtIntake(m, w, sid, alert, now)
  }

  function MatchingSilences(m: Matching, w: World, alert: Alert, now: int): set<int> {
    set sid | sid in w.silences && MatchesAtIntake(m, w, sid, alert, now)
  }

  /** Backfill the given orphans that some active silence matches; reactivate the others. */
  function RepairAlerts(m: Matching, w: World, now: int, done: set<int>): World {
    w.(alerts := map a | a in w.alerts ::
         if a in done && Orphan(w, a) && !AnyMatch(m, w, w.alerts[a], now)
         then Reactivated(w.alerts[a], Firing)
         else w.alerts[a],
       apps := map k | k in w.apps.Keys + BackfillKeys(m, w, now, done) ::
         if k in BackfillKeys(m, w, now, done) then Application(Firing, NewAlert, true) else w.apps[k])
  }

  function BackfillKeys(m: Matching, w: World, now: int, done: set<int>): set<AppKey> {
    set a, sid | a in done && Orphan(w, a) && sid in w.silences && MatchesAtIntake(m, w, sid, w.alerts[a], now)
      :: AppKey(sid, a)
  }

  function Repair(m: Matching, w: World, now: int): World {
    Regrouped(w, RepairAlerts(m, w, now, w.alerts.Keys))
  }

  // ----- the scheduler pass

  predicate DueToStart(w: World, sid: int, now: int) {
    sid in w.silences && w.silences[sid].applyToExisting && IsActive(w.silences[sid], now) && w.silences[sid].reconciledAt.None?
  }

  predicate DueToRelease(w: World, sid: int, now: int) {
    && sid in w.silences
    && w.silences[sid].reactivateOnEnd
    && (!w.silences[sid].enabled || w.silences[sid].deleted || w.silences[sid].endsAt <= now)
    && AppliedTo(w, sid) != {}
  }

  ghost predicate Lists(order: seq<int>, ids: set<int>) {
    && (forall i, j :: 0 <= i < j < |order| ==> order[i] != order[j])
    && (forall x :: x in order <==> x in ids)
  }

  function StartingNow(w: World, now: int): set<int> {
    set sid | sid in w.silences && DueToStart(w, sid, now)
  }

  function ReleasingNow(w: World, now: int): set<int> {
    set sid | sid in w.silences && DueToRelease(w, sid, now)
  }

  function StartAll(m: Matching, w: World, order: seq<int>, now: int): (r: World)
    requires forall sid :: sid in order ==> sid in w.silences
    ensures r.silences.Keys == w.silences.Keys
    decreases |order|
  {
    if order == [] then w
    else Apply(m, StartAll(m, w, order[..|order| - 1], now), order[|order| - 1], now)
  }

  function EndAll(w: World, order: seq<int>, now: int): (r: World)
    requires forall sid :: sid in order ==> sid in w.silences
    ensures r.silences.Keys == w.silences.Keys
    decreases |order|
  {
    if order == [] then w
    else ReleaseAll(EndAll(w, order[..|order| - 1], now), order[|order| - 1], now, true)
  }

  /** One scheduler pass, for some order in which the due silences are listed. */
  ghost predicate Processed(m: Matching, w: World, now: int, w': World) {
    exists starts: seq<int>, ends: seq<int> :: ProcessedInOrder(m, w, now, starts, ends, w')
  }

  ghost predicate ProcessedInOrder(m: Matching, w: World, now: int, starts: seq<int>, ends: seq<int>, w': World) {
    var repaired := Repair(m, w, now);
    && Lists(starts, StartingNow(repaired, now))
    && var started := StartAll(m, repaired, starts, now);
       && Lists(ends, ReleasingNow(started, now))
       && w' == EndAll(started, ends, now)
  }

  // ----- what the operations report

  datatype ApplyReport = ApplyReport(matched: nat, silenced: nat, groupsChanged: nat)

  datatype ReleaseReport = ReleaseReport(released: nat, reactivated: nat, groupsChanged: nat, retained: nat)

  datatype ReconcileReport = ReleasedWith(release: ReleaseReport) | AppliedWith(apply: ApplyReport)

  datatype RepairReport = RepairReport(backfilled: nat, reactivated: nat, groupsChanged: nat)

  datatype PassReport = PassReport(started: nat, released: nat, silenced: nat, reactivated: nat, backfilled: nat)

  function StatusChanges(before: map<int, Alert>, after: map<int, Alert>): set<int> {
    set a | a in before && a in after && before[a].status != after[a].status
  }

  function GroupMoves(before: map<int, Group>, after: map<int, Group>, from: Status, to: Status): set<int> {
    set g | g in before && g in after && before[g].status == from && after[g].status == to
  }

  function SelectedAlerts(m: Matching, w: World, s: Silence): set<int> {
    set a | a in w.alerts && Selected(m, w, s, a)
  }

  /** Matching alerts, alerts whose status changed, and groups that went from firing to silenced. */
  function ApplyCounts(m: Matching, w: World, sid: int, now: int): ApplyReport
    requires sid in w.silences
  {
    var s := w.silences[sid];
    if !s.applyToExisting || !IsActive(s, now) then ApplyReport(0, 0, 0)
    else
      var after := Apply(m, w, sid, now);
      ApplyReport(|SelectedAlerts(m, w, s)|, |StatusChanges(w.alerts, after.alerts)|,
                  |GroupMoves(w.groups, after.groups, Firing, Silenced)|)
  }

  function ReleaseCounts(w: World, sid: int, chosen: set<int>, now: int): ReleaseReport
    requires sid in w.silences
  {
    var after := Release(w, sid, chosen, now);
    ReleaseReport(|chosen|, |StatusChanges(w.alerts, after.alerts)|, |GroupMoves(w.groups, after.groups, Silenced, Firing)|, 0)
  }

  function ReleaseAllCounts(w: World, sid: int, now: int, respectRetention: bool): ReleaseReport
    requires sid in w.silences
  {
    if respectRetention && !w.silences[sid].reactivateOnEnd then ReleaseReport(0, 0, 0, |AppliedTo(w, sid)|)
    else ReleaseCounts(w, sid, AppliedTo(w, sid), now)
  }

  /** An active silence reports its application only, after dropping what it no longer justifies. */
  function ReconcileCounts(m: Matching, w: World, sid: int, now: int): ReconcileReport
    requires sid in w.silences
  {
    var s := w.silences[sid];
    if !IsActive(s, now) then ReleasedWith(ReleaseAllCounts(w, sid, now, !(s.enabled && !s.deleted && now < s.startsAt)))
    else
      var kept := if Invalid(m, w, sid) == {} then w else Release(w, sid, Invalid(m, w, sid), now);
      AppliedWith(ApplyCounts(m, kept, sid, now))
  }

  function RepairCounts(m: Matching, w: World, now: int): RepairReport {
    var after := Repair(m, w, now);
    RepairReport(|BackfillKeys(m, w, now, w.alerts.Keys)|, |StatusChanges(w.alerts, after.alerts)|,
                 |GroupMoves(w.groups, after.groups, Silenced, Firing)|)
  }

  function StartedSilenced(m: Matching, w: World, order: seq<int>, now: int): nat
    requires forall sid :: sid in order ==> sid in w.silences
    decreases |order|
  {
    if order == [] then 0
    else
      var init, last := order[..|order| - 1], order[|order| - 1];
      StartedSilenced(m, w, init, now) + ApplyCounts(m, StartAll(m, w, init, now), last, now).silenced
  }

  function EndedReactivated(w: World, order: seq<int>, now: int): nat
    requires forall sid :: sid in order ==> sid in w.silences
    decreases |order|
  {
    if order == [] then 0
    else
      var init, last := order[..|order| - 1], order[|order| - 1];
      EndedReactivated(w, init, now) + ReleaseAllCounts(EndAll(w, init, now), last, now, true).reactivated
  }

  ghost function PassCounts(m: Matching, w: World, now: int, starts: seq<int>, ends: seq<int>, w': World): PassReport
    requires ProcessedInOrder(m, w, now, starts, ends, w')
  {
    var repaired := Repair(m, w, now);
    var started := StartAll(m, repaired, starts, now);
    var repair := RepairCounts(m, w, now);
    PassReport(|starts|, |ends|, StartedSilenced(m, repaired, starts, now),
               repair.reactivated + EndedReactivated(started, ends, now), repair.backfilled)
  }

  predicate KeyBefore(key: int -> int, x: int, y: int) {
    key(x) < key(y) || (key(x) == key(y) && x < y)
  }

  /** Listed by ascending key, then by ascending id. */
  predicate InKeyOrder(order: seq<int>, key: int -> int) {
    forall i, j :: 0 <= i < j < |order| ==> KeyBefore(key, order[i], order[j])
  }

  function StartKey(w: World): int -> int {
    sid => if sid in w.silences then w.silences[sid].startsAt else 0
  }

  function IdKey(): int -> int {
    sid => sid
  }
}

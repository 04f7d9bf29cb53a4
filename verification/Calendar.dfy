/** The rotation calendar, and why it agrees with the point query. */
module Calendar {
  import opened Clock
  import opened RotationSchedule
  import opened OnCall
  import opened Events
  import opened Windows
  import opened LayerSweep
  import opened Collapse

  /** The first layer, in listed order, that puts somebody on call. */
  function LayersIdentAt(layers: seq<Layer>, rot: Rotation, t: int): Option<Ident> {
    if layers == [] then None
    else if LayerIdentAt(rot, layers[0], t).Some? then LayerIdentAt(rot, layers[0], t)
    else LayersIdentAt(layers[1..], rot, t)
  }

  /** Who the calendar should show at an instant, independently of any query range. */
  function CalendarIdentAt(rot: Rotation, t: int): Option<Ident> {
    var o := ActiveOverride(rot.overrides, t);
    if o.Some? then Some(OverrideShift(o.value.id, o.value.user.id))
    else LayersIdentAt(rot.layers, rot, t)
  }

  /** The handoffs and restrictions of the layers in use avoid irregular wall-clock readings. */
  ghost predicate RotationRegular(rot: Rotation)
    requires rot.defaults.startAt.Some?
  {
    forall i :: 0 <= i < |rot.layers| ==> LayerRegular(rot, rot.layers[i])
  }

  /** `events` is the canonical calendar of the rotation on [lo, hi). */
  ghost predicate IsCalendar(rot: Rotation, lo: int, hi: int, events: seq<Event>) {
    && Canonical(events)
    && Within(events, lo, hi)
    && forall t: int :: lo <= t < hi ==> IdentAt(events, t) == CalendarIdentAt(rot, t)
  }

  // ----- candidates

  /** The events built for the first layers, one list per layer in listed order. */
  type LayerEvents = seq<seq<Event>>

  /** The first layer whose own events cover the instant. */
  function FirstShown(shown: LayerEvents, t: int): Option<Ident> {
    if shown == [] then None
    else if IdentAt(shown[0], t).Some? then IdentAt(shown[0], t)
    else FirstShown(shown[1..], t)
  }

  /** What overrides and the layers' own events amount to at an instant. */
  function ShownAt(rot: Rotation, shown: LayerEvents, t: int): Option<Ident> {
    var o := ActiveOverride(rot.overrides, t);
    if o.Some? then Some(OverrideShift(o.value.id, o.value.user.id)) else FirstShown(shown, t)
  }

  function LayerCandidates(layer: Layer, events: seq<Event>): seq<Candidate> {
    seq(|events|, i requires 0 <= i < |events| => Candidate(events[i], layer.priority, layer.id))
  }

  /** A candidate that correctly states what one of the layers shows at t. */
  ghost predicate FromLayer(rot: Rotation, shown: LayerEvents, c: Candidate, t: int) {
    exists k :: 0 <= k < |shown| && k < |rot.layers| && IsLayerCandidate(rot.layers[k], shown[k], c, t)
  }

  ghost predicate IsLayerCandidate(layer: Layer, events: seq<Event>, c: Candidate, t: int) {
    c.priority == layer.priority && c.order == layer.id && IdentAt(events, t) == Some(c.event.ident)
  }

  ghost predicate FromOverride(rot: Rotation, m: int, c: Candidate, t: int) {
    exists k :: 0 <= k < m && k < |rot.overrides| && IsOverrideCandidate(rot.overrides[k], c, t)
  }

  ghost predicate IsOverrideCandidate(o: Override, c: Candidate, t: int) {
    && OverrideCovers(o, t)
    && c.priority == OVERRIDE_PRIORITY
    && c.order == o.id
    && c.event.ident == OverrideShift(o.id, o.user.id)
  }

  ghost predicate HasCandidate(cands: seq<Candidate>, t: int, priority: int, order: int) {
    exists i :: 0 <= i < |cands| && Covers(cands[i].event, t) && cands[i].priority == priority && cands[i].order == order
  }

  /** The candidates at t come from the layers shown and the first m overrides, and represent each that covers t. */
  ghost predicate Faithful(rot: Rotation, shown: LayerEvents, m: int, cands: seq<Candidate>, t: int) {
    && (forall i :: 0 <= i < |cands| && Covers(cands[i].event, t) ==>
          FromLayer(rot, shown, cands[i], t) || FromOverride(rot, m, cands[i], t))
    && (forall k :: 0 <= k < |shown| && k < |rot.layers| && IdentAt(shown[k], t).Some? ==>
          HasCandidate(cands, t, rot.layers[k].priority, rot.layers[k].id))
    && (forall k :: 0 <= k < m && k < |rot.overrides| && OverrideCovers(rot.overrides[k], t) ==>
          HasCandidate(cands, t, OVERRIDE_PRIORITY, rot.overrides[k].id))
  }

  ghost predicate FaithfulOn(rot: Rotation, shown: LayerEvents, m: int, cands: seq<Candidate>, lo: int, hi: int) {
    forall t: int :: lo <= t < hi ==> Faithful(rot, shown, m, cands, t)
  }

  lemma HasCandidateGrows(cands: seq<Candidate>, more: seq<Candidate>, t: int, priority: int, order: int)
    requires HasCandidate(cands, t, priority, order)
    ensures HasCandidate(cands + more, t, priority, order)
  {
    var i :| 0 <= i < |cands| && Covers(cands[i].event, t) && cands[i].priority == priority && cands[i].order == order;
    assert (cands + more)[i] == cands[i];
  }

  /** Adding a layer's ordered events keeps the candidates faithful. */
  lemma AddLayer(rot: Rotation, shown: LayerEvents, cands: seq<Candidate>, events: seq<Event>, t: int)
    requires |shown| < |rot.layers| && Faithful(rot, shown, 0, cands, t)
    requires NonEmpty(events) && Ordered(events)
    ensures Faithful(rot, shown + [events], 0, cands + LayerCandidates(rot.layers[|shown|], events), t)
  {
    var n := |shown|;
    var layer := rot.layers[n];
    var more := LayerCandidates(layer, events);
    var all, shown' := cands + more, shown + [events];
    forall i | 0 <= i < |all| && Covers(all[i].event, t)
      ensures FromLayer(rot, shown', all[i], t)
    {
      if i < |cands| {
        assert all[i] == cands[i];
        var k :| 0 <= k < n && IsLayerCandidate(rot.layers[k], shown[k], cands[i], t);
        assert shown'[k] == shown[k];
      } else {
        IdentAtCovering(events, i - |cands|, t);
        assert shown'[n] == events && IsLayerCandidate(rot.layers[n], shown'[n], all[i], t);
      }
    }
    forall k | 0 <= k < n + 1 && IdentAt(shown'[k], t).Some?
      ensures HasCandidate(all, t, rot.layers[k].priority, rot.layers[k].id)
    {
      if k < n {
        assert shown'[k] == shown[k];
        HasCandidateGrows(cands, more, t, rot.layers[k].priority, rot.layers[k].id);
      } else {
        IdentAtNone(events, t);
        var i :| 0 <= i < |events| && Covers(events[i], t);
        assert all[|cands| + i] == more[i];
      }
    }
  }

  lemma AddLayerOn(rot: Rotation, shown: LayerEvents, cands: seq<Candidate>, events: seq<Event>, lo: int, hi: int)
    requires |shown| < |rot.layers| && FaithfulOn(rot, shown, 0, cands, lo, hi)
    requires NonEmpty(events) && Ordered(events)
    ensures FaithfulOn(rot, shown + [events], 0, cands + LayerCandidates(rot.layers[|shown|], events), lo, hi)
  {
    var all, shown' := cands + LayerCandidates(rot.layers[|shown|], events), shown + [events];
    forall t: int | lo <= t < hi
      ensures Faithful(rot, shown', 0, all, t)
    {
      AddLayer(rot, shown, cands, events, t);
    }
  }

  /** The clipped candidate of an override, unless it misses the range. */
  function OverrideCandidate(o: Override, lo: int, hi: int): Option<Candidate> {
    if !(o.startsAt < hi && o.endsAt > lo) then None
    else
      var start, end := Max(o.startsAt, lo), Min(o.endsAt, hi);
      if end <= start then None
      else Some(Candidate(Event(start, end, OverrideShift(o.id, o.user.id)), OVERRIDE_PRIORITY, o.id))
  }

  lemma AddOverride(rot: Rotation, shown: LayerEvents, m: int, cands: seq<Candidate>, lo: int, hi: int, t: int)
    requires 0 <= m < |rot.overrides| && lo <= t < hi && Faithful(rot, shown, m, cands, t)
    ensures var c := OverrideCandidate(rot.overrides[m], lo, hi);
            Faithful(rot, shown, m + 1, if c.Some? then cands + [c.value] else cands, t)
  {
    var o := rot.overrides[m];
    var c := OverrideCandidate(o, lo, hi);
    var all := if c.Some? then cands + [c.value] else cands;
    forall i | 0 <= i < |all| && Covers(all[i].event, t)
      ensures FromLayer(rot, shown, all[i], t) || FromOverride(rot, m + 1, all[i], t)
    {
      if i < |cands| {
        assert all[i] == cands[i];
        if FromOverride(rot, m, cands[i], t) {
          var k :| 0 <= k < m && IsOverrideCandidate(rot.overrides[k], cands[i], t);
          assert k < m + 1;
        }
      } else {
        assert IsOverrideCandidate(rot.overrides[m], all[i], t);
      }
    }
    forall p: int, q: int | HasCandidate(cands, t, p, q)
      ensures HasCandidate(all, t, p, q)
    {
      HasCandidateGrows(cands, all[|cands|..], t, p, q);
      assert all == cands + all[|cands|..];
    }
    if OverrideCovers(o, t) {
      assert all[|cands|] == c.value;
    }
  }

  lemma AddOverrideOn(rot: Rotation, shown: LayerEvents, m: int, cands: seq<Candidate>, lo: int, hi: int)
    requires 0 <= m < |rot.overrides| && FaithfulOn(rot, shown, m, cands, lo, hi)
    ensures var c := OverrideCandidate(rot.overrides[m], lo, hi);
            FaithfulOn(rot, shown, m + 1, if c.Some? then cands + [c.value] else cands, lo, hi)
  {
    var c := OverrideCandidate(rot.overrides[m], lo, hi);
    var all, next := if c.Some? then cands + [c.value] else cands, m + 1;
    forall t: int | lo <= t < hi
      ensures Faithful(rot, shown, next, all, t)
    {
      AddOverride(rot, shown, m, cands, lo, hi, t);
    }
  }

  // ----- the winner is the calendar's answer

  lemma {:induction false} FirstShownIs(shown: LayerEvents, t: int, k: int)
    requires 0 <= k <= |shown| && forall j :: 0 <= j < k ==> IdentAt(shown[j], t).None?
    requires k < |shown| ==> IdentAt(shown[k], t).Some?
    ensures FirstShown(shown, t) == if k < |shown| then IdentAt(shown[k], t) else None
  {
    if k > 0 {
      FirstShownIs(shown[1..], t, k - 1);
    }
  }

  lemma OverrideWins(rot: Rotation, shown: LayerEvents, cands: seq<Candidate>, t: int, i: int)
    requires WellFormed(rot) && Faithful(rot, shown, |rot.overrides|, cands, t)
    requires IsWinner(cands, t, i) && ActiveOverride(rot.overrides, t).Some?
    ensures ShownAt(rot, shown, t) == Some(cands[i].event.ident)
  {
    var w, o := cands[i], ActiveOverride(rot.overrides, t).value;
    var m :| 0 <= m < |rot.overrides| && rot.overrides[m] == o;
    assert HasCandidate(cands, t, OVERRIDE_PRIORITY, o.id);
    assert w.priority >= OVERRIDE_PRIORITY;
    assert !FromLayer(rot, shown, w, t);
    assert FromOverride(rot, |rot.overrides|, cands[i], t);
    var k :| 0 <= k < |rot.overrides| && IsOverrideCandidate(rot.overrides[k], w, t);
    assert rot.overrides[k] in rot.overrides;
    assert rot.overrides[k].id == o.id;
    assert k == m;
  }

  lemma LayerWins(rot: Rotation, shown: LayerEvents, cands: seq<Candidate>, t: int, i: int)
    requires WellFormed(rot) && |shown| == |rot.layers| && Faithful(rot, shown, |rot.overrides|, cands, t)
    requires IsWinner(cands, t, i) && ActiveOverride(rot.overrides, t).None?
    ensures ShownAt(rot, shown, t) == Some(cands[i].event.ident)
  {
    assert !FromOverride(rot, |rot.overrides|, cands[i], t);
    var k :| 0 <= k < |shown| && IsLayerCandidate(rot.layers[k], shown[k], cands[i], t);
    forall j | 0 <= j < k
      ensures IdentAt(shown[j], t).None?
    {
      assert Outranks(rot.layers[j], rot.layers[k]);
      assert !HasCandidate(cands, t, rot.layers[j].priority, rot.layers[j].id);
    }
    FirstShownIs(shown, t, k);
  }

  /** Among faithful candidates the winner is an override if one covers, else the first layer shown. */
  lemma WinnerIsCalendarAnswer(rot: Rotation, shown: LayerEvents, cands: seq<Candidate>, t: int)
    requires WellFormed(rot) && |shown| == |rot.layers| && Faithful(rot, shown, |rot.overrides|, cands, t)
    ensures WinnerIdent(cands, t) == ShownAt(rot, shown, t)
  {
    var i := WinnerIsMaximum(cands, t);
    if WinnerAt(cands, t).Some? {
      if ActiveOverride(rot.overrides, t).Some? {
        OverrideWins(rot, shown, cands, t, i);
      } else {
        LayerWins(rot, shown, cands, t, i);
      }
    } else {
      forall k | 0 <= k < |shown|
        ensures IdentAt(shown[k], t).None?
      {
        assert !HasCandidate(cands, t, rot.layers[k].priority, rot.layers[k].id);
      }
      forall k | 0 <= k < |rot.overrides|
        ensures !OverrideCovers(rot.overrides[k], t)
      {
        assert !HasCandidate(cands, t, OVERRIDE_PRIORITY, rot.overrides[k].id);
      }
      FirstShownIs(shown, t, |shown|);
    }
  }

  /** One layer's events: exact in a regular zone and, without restrictions, the swept turns in any zone. */
  ghost predicate LayerBuilt(rot: Rotation, layer: Layer, lo: int, hi: int, events: seq<Event>)
    requires rot.defaults.startAt.Some?
  {
    && (LayerRegular(rot, layer) ==> LayerExact(rot, layer, lo, hi, events))
    && (InUse(layer) && layer.restrictions == [] ==> UnrestrictedSwept(rot, layer, lo, hi, events))
  }

  /** `events` is canonical and shows, in any zone, the override or else the first layer whose events cover. */
  ghost predicate Built(rot: Rotation, lo: int, hi: int, shown: LayerEvents, events: seq<Event>)
    requires rot.defaults.startAt.Some?
  {
    && Canonical(events)
    && Within(events, lo, hi)
    && |shown| == |rot.layers|
    && (forall k :: 0 <= k < |shown| ==> LayerBuilt(rot, rot.layers[k], lo, hi, shown[k]))
    && forall t: int :: lo <= t < hi ==> IdentAt(events, t) == ShownAt(rot, shown, t)
  }

  lemma {:induction false} ExactLayersShown(layers: seq<Layer>, rot: Rotation, shown: LayerEvents, t: int)
    requires |shown| == |layers| && forall k :: 0 <= k < |shown| ==> IdentAt(shown[k], t) == LayerIdentAt(rot, layers[k], t)
    ensures FirstShown(shown, t) == LayersIdentAt(layers, rot, t)
  {
    if layers != [] {
      ExactLayersShown(layers[1..], rot, shown[1..], t);
    }
  }

  lemma BuiltIsCalendar(rot: Rotation, lo: int, hi: int, shown: LayerEvents, events: seq<Event>)
    requires rot.defaults.startAt.Some? && RotationRegular(rot) && Built(rot, lo, hi, shown, events)
    ensures IsCalendar(rot, lo, hi, events)
  {
    forall t: int | lo <= t < hi
      ensures IdentAt(events, t) == CalendarIdentAt(rot, t)
    {
      forall k | 0 <= k < |shown|
        ensures IdentAt(shown[k], t) == LayerIdentAt(rot, rot.layers[k], t)
      {
        assert LayerRegular(rot, rot.layers[k]) && LayerBuilt(rot, rot.layers[k], lo, hi, shown[k]);
      }
      ExactLayersShown(rot.layers, rot, shown, t);
    }
  }

  /** The candidates of all layers, with the events each was built from. */
  method CollectLayers(rot: Rotation, lo: int, hi: int) returns (cands: seq<Candidate>, ghost shown: LayerEvents)
    requires WellFormed(rot)
    ensures |shown| == |rot.layers| && FaithfulOn(rot, shown, 0, cands, lo, hi)
    ensures forall k :: 0 <= k < |shown| ==> LayerBuilt(rot, rot.layers[k], lo, hi, shown[k])
  {
    cands, shown := [], [];
    for n := 0 to |rot.layers|
      invariant |shown| == n && FaithfulOn(rot, shown, 0, cands, lo, hi)
      invariant forall k :: 0 <= k < n ==> LayerBuilt(rot, rot.layers[k], lo, hi, shown[k])
    {
      var events := BuildLayerEvents(rot, rot.layers[n], lo, hi);
      AddLayerOn(rot, shown, cands, events, lo, hi);
      cands := cands + LayerCandidates(rot.layers[n], events);
      shown := shown + [events];
    }
  }

  /** Build the calendar of one rotation: canonical, naming the pointwise answer at every instant wherever
      the zones are regular, and in any zone the override or first layer that covers. */
  method BuildRotationCalendar(rot: Rotation, lo: int, hi: int) returns (events: seq<Event>, ghost shown: LayerEvents)
    requires WellFormed(rot)
    ensures Built(rot, lo, hi, shown, events)
    ensures RotationRegular(rot) ==> IsCalendar(rot, lo, hi, events)
  {
    var cands;
    cands, shown := CollectLayers(rot, lo, hi);
    for m := 0 to |rot.overrides|
      invariant FaithfulOn(rot, shown, m, cands, lo, hi)
    {
      AddOverrideOn(rot, shown, m, cands, lo, hi);
      var c := OverrideCandidate(rot.overrides[m], lo, hi);
      if c.Some? {
        cands := cands + [c.value];
      }
    }
    events := CollapseCandidates(cands, lo, hi);
    forall t: int | lo <= t < hi
      ensures IdentAt(events, t) == ShownAt(rot, shown, t)
    {
      WinnerIsCalendarAnswer(rot, shown, cands, t);
    }
    if RotationRegular(rot) {
      BuiltIsCalendar(rot, lo, hi, shown, events);
    }
  }

  /** A fixed-offset zone makes every rotation regular. */
  lemma FixedOffsetRotationRegular(rot: Rotation)
    requires rot.defaults.startAt.Some?
    requires forall i :: 0 <= i < |rot.layers| && InUse(rot.layers[i]) ==>
               exists offset: int :: LayerZone(LayerSettings(rot, rot.layers[i])) == FixedOffset(offset)
    ensures RotationRegular(rot)
  {
    forall i | 0 <= i < |rot.layers|
      ensures LayerRegular(rot, rot.layers[i])
    {
      var s := LayerSettings(rot, rot.layers[i]);
      if InUse(rot.layers[i]) {
        var offset: int :| LayerZone(s) == FixedOffset(offset);
        FixedOffsetIsRegular(s);
        FixedOffsetRestrictionsRegular(rot.layers[i].restrictions, offset);
      }
    }
  }

  // ----- agreement with the point query

  function UserOf(i: Ident): int {
    i.userId
  }

  /** In the layers in use, everybody whose period covers t can take shifts: enabled row, active user. */
  ghost predicate AllOnDuty(rot: Rotation, t: int) {
    forall i :: 0 <= i < |rot.layers| && InUse(rot.layers[i]) ==> MembersOnDuty(rot.layers[i].members, t)
  }

  ghost predicate MembersOnDuty(members: seq<Member>, t: int) {
    forall m :: m in members && EffectiveAt(m, t) ==> OnDuty(m)
  }

  lemma {:induction false} OnDutyIsEffective(members: seq<Member>, t: int)
    requires MembersOnDuty(members, t)
    ensures OnDutyMembersAt(members, t) == EffectiveMembersAt(members, t)
  {
    if members != [] {
      OnDutyIsEffective(members[1..], t);
    }
  }

  lemma {:induction false} LayersAgree(layers: seq<Layer>, rot: Rotation, t: int)
    requires forall i :: 0 <= i < |layers| && InUse(layers[i]) ==> MembersOnDuty(layers[i].members, t)
    ensures var layer := ActiveLayer(layers, rot, t);
            var ident := LayersIdentAt(layers, rot, t);
            && (layer.None? <==> ident.None?)
            && (layer.Some? ==>
                  var user := ScheduledUserForLayer(layer.value, LayerSettings(rot, layer.value), t);
                  user.Some? && user.value.id == UserOf(ident.value))
  {
    if layers != [] {
      if InUse(layers[0]) {
        OnDutyIsEffective(layers[0].members, t);
      }
      LayersAgree(layers[1..], rot, t);
    }
  }

  /** The calendar refines the point query: same user at every instant, and none exactly when there is none. */
  lemma CalendarRefinesPointQuery(rot: Rotation, lo: int, hi: int, events: seq<Event>, t: int)
    requires IsCalendar(rot, lo, hi, events) && lo <= t < hi
    requires rot.enabled && !rot.deleted && AllOnDuty(rot, t)
    ensures IdentAt(events, t).None? <==> CurrentUser(rot, t).None?
    ensures IdentAt(events, t).Some? ==> UserOf(IdentAt(events, t).value) == CurrentUser(rot, t).value.id
  {
    LayersAgree(rot.layers, rot, t);
  }

  /** Rows of distinct users, as adding a user closes that user's open period. */
  ghost predicate DistinctUsers(members: seq<Member>) {
    forall i, j :: 0 <= i < j < |members| ==> members[i].user != members[j].user
  }

  lemma {:induction false} OnDutyIsFiltered(members: seq<Member>, t: int)
    ensures forall m :: m in OnDutyMembersAt(members, t) <==> m in EffectiveMembersAt(members, t) && OnDuty(m)
    ensures forall m :: m in EffectiveMembersAt(members, t) <==> m in members && EffectiveAt(m, t)
  {
    if members != [] {
      OnDutyIsFiltered(members[1..], t);
      assert forall m :: m in members <==> m == members[0] || m in members[1..];
    }
  }

  /** Somebody off duty whose turn it is in the calendar is not whom the point query names. */
  lemma OffDutyTurnDiffers(shown: seq<Member>, asked: seq<Member>, i: int)
    requires DistinctUsers(shown) && 0 <= i < |shown| && !OnDuty(shown[i])
    requires forall m :: m in asked ==> m in shown && OnDuty(m)
    ensures TurnOf(asked, Some(i)) != TurnOf(shown, Some(i))
  {
    forall k | 0 <= k < |asked|
      ensures asked[k].user != shown[i].user
    {
      assert asked[k] in asked;
      var j :| 0 <= j < |shown| && shown[j] == asked[k];
      assert j < i || i < j;
    }
    if asked != [] {
      ModInRange(i, |asked|);
    }
    ModWithin(i, |shown|);
  }

  lemma ModInRange(i: int, n: int)
    requires n > 0
    ensures 0 <= i % n < n
  {
  }

  lemma ModWithin(i: int, n: int)
    requires 0 <= i < n
    ensures i % n == i
  {
  }

  /** The two forms agree on every turn exactly when nobody effective is off duty. */
  lemma TurnsAgreeIffAllOnDuty(members: seq<Member>, t: int)
    requires DistinctUsers(EffectiveMembersAt(members, t))
    ensures (forall slot: nat ::
               TurnOf(OnDutyMembersAt(members, t), Some(slot)) == TurnOf(EffectiveMembersAt(members, t), Some(slot)))
            <==> MembersOnDuty(members, t)
  {
    var shown, asked := EffectiveMembersAt(members, t), OnDutyMembersAt(members, t);
    OnDutyIsFiltered(members, t);
    if MembersOnDuty(members, t) {
      OnDutyIsEffective(members, t);
    } else {
      var m :| m in members && EffectiveAt(m, t) && !OnDuty(m);
      var i: nat :| i < |shown| && shown[i] == m;
      OffDutyTurnDiffers(shown, asked, i);
    }
  }

  /** A rotation with one unrestricted layer and no overrides. */
  function SingleLayer(settings: Settings, members: seq<Member>): Rotation {
    Rotation(true, false, settings, [Layer(1, 0, true, false, settings, members, [])], [])
  }

  lemma SingleLayerWellFormed(settings: Settings, members: seq<Member>)
    requires settings.startAt.Some?
    ensures WellFormed(SingleLayer(settings, members))
    ensures LayerSettings(SingleLayer(settings, members), SingleLayer(settings, members).layers[0]) == settings
  {
    var rot := SingleLayer(settings, members);
    assert forall r :: r !in rot.layers[0].restrictions;
  }

  lemma SingleLayerMeaning(settings: Settings, members: seq<Member>, shown: LayerEvents, t: int)
    requires settings.startAt.Some? && |shown| == 1
    ensures var rot := SingleLayer(settings, members);
            && CurrentUser(rot, t) == TurnOf(OnDutyMembersAt(members, t), SlotIndex(settings, t))
            && CalendarIdentAt(rot, t) == ShiftAt(settings, 1, members, t)
            && ShownAt(rot, shown, t) == IdentAt(shown[0], t)
  {
    SingleLayerWellFormed(settings, members);
    var rot := SingleLayer(settings, members);
    assert ActiveLayer(rot.layers[1..], rot, t) == None && LayersIdentAt(rot.layers[1..], rot, t) == None;
    assert FirstShown(shown[1..], t) == None;
  }

  /** An active user whose row was closed at `until` and disabled, as removing a member does. */
  function Retired(user: User, from: int, until: int): Member {
    Member(user, false, Some(from), Some(until))
  }

  /** Throughout the retired member's past period every calendar shows them and the point query nobody. */
  lemma RetiredMemberDiverges(settings: Settings, user: User, from: int, until: int,
                              lo: int, hi: int, events: seq<Event>, t: int)
    requires settings.startAt.Some? && user.active && !user.deleted
    requires IsCalendar(SingleLayer(settings, [Retired(user, from, until)]), lo, hi, events) && lo <= t < hi
    requires StartUtc(settings) <= t && from <= t < until
    ensures IdentAt(events, t) == Some(LayerShift(1, user.id))
    ensures CurrentUser(SingleLayer(settings, [Retired(user, from, until)]), t) == None
  {
    var members := [Retired(user, from, until)];
    SingleLayerMeaning(settings, members, [[]], t);
    assert EffectiveMembersAt(members[1..], t) == [] && OnDutyMembersAt(members[1..], t) == [];
    assert EffectiveMembersAt(members, t) == members;
  }

  // ----- range independence

  /** The calendar of a smaller range is the larger one cut to it, event for event. */
  lemma RangeIndependence(rot: Rotation, lo: int, hi: int, large: seq<Event>, lo': int, hi': int, small: seq<Event>)
    requires IsCalendar(rot, lo, hi, large) && IsCalendar(rot, lo', hi', small)
    requires lo <= lo' && hi' <= hi
    ensures small == Clip(large, lo', hi')
  {
    var cut := Clip(large, lo', hi');
    var _ := ClipIsCanonical(large, lo', hi');
    forall t: int
      ensures IdentAt(small, t) == IdentAt(cut, t)
    {
      ClipIdentAt(large, lo', hi', t);
      if lo' <= t < hi' {
        assert IdentAt(large, t) == CalendarIdentAt(rot, t);
      } else {
        IdentAtOutside(small, lo', hi', t);
      }
    }
    CanonicalIsUnique(small, cut);
  }
}

/** The direct answer to "who is on call at t?": override first, then the best active layer. */
module OnCall {
  import opened Clock
  import opened RotationSchedule

  datatype User = User(id: int, active: bool, deleted: bool)

  /** One membership period of a layer; `None` bounds are open. */
  datatype Member = Member(user: User, active: bool, startsAt: Option<int>, endsAt: Option<int>)

  /** A weekly active window in local minutes since midnight; no weekday means every day. */
  datatype Restriction = Restriction(weekday: Option<int>, start: int, end: int) {
    predicate Valid() {
      && 0 <= start < 1440
      && 0 <= end < 1440
      && (weekday.Some? ==> 0 <= weekday.value < 7)
    }
  }

  datatype Layer = Layer(
    id: int,
    priority: int,
    enabled: bool,
    deleted: bool,
    own: Settings,
    members: seq<Member>,
    restrictions: seq<Restriction>)

  datatype Override = Override(id: int, user: User, startsAt: int, endsAt: int)

  /** Layers are listed by descending (priority, id); member rows by position. */
  datatype Rotation = Rotation(
    enabled: bool,
    deleted: bool,
    defaults: Settings,
    layers: seq<Layer>,
    overrides: seq<Override>)

  const OVERRIDE_PRIORITY: int := 1_000_000

  /** What the database and the input schemas guarantee of a stored rotation. */
  ghost predicate WellFormed(rot: Rotation) {
    && rot.defaults.startAt.Some?
    && (forall i :: 0 <= i < |rot.layers| ==> rot.layers[i].priority < OVERRIDE_PRIORITY)
    && (forall i, j :: 0 <= i < j < |rot.layers| ==> Outranks(rot.layers[i], rot.layers[j]))
    && (forall i, r :: 0 <= i < |rot.layers| && r in rot.layers[i].restrictions ==> r.Valid())
    && (forall i, j :: 0 <= i < j < |rot.overrides| ==> rot.overrides[i].id != rot.overrides[j].id)
  }

  predicate Outranks(l: Layer, k: Layer) {
    l.priority > k.priority || (l.priority == k.priority && l.id > k.id)
  }

  function LayerSettings(rot: Rotation, layer: Layer): Settings {
    Effective(layer.own, rot.defaults)
  }

  predicate RestrictionMatches(r: Restriction, local: int) {
    var current := MinuteOfDay(local);
    var weekday := Weekday(Day(local));
    if r.start == r.end then
      r.weekday.None? || weekday == r.weekday.value
    else if r.start < r.end then
      (r.weekday.None? || weekday == r.weekday.value) && r.start <= current < r.end
    else if r.weekday.None? then
      current >= r.start || current < r.end
    else
      || (weekday == r.weekday.value && current >= r.start)
      || (weekday == (r.weekday.value + 1) % 7 && current < r.end)
  }

  predicate SomeRestrictionMatches(rs: seq<Restriction>, local: int) {
    exists i :: 0 <= i < |rs| && RestrictionMatches(rs[i], local)
  }

  predicate InUse(layer: Layer) {
    layer.enabled && !layer.deleted
  }

  predicate LayerActiveNow(layer: Layer, s: Settings, now: int) {
    && InUse(layer)
    && (layer.restrictions == [] || SomeRestrictionMatches(layer.restrictions, LayerZone(s).toLocal(now)))
  }

  predicate EffectiveAt(m: Member, at: int) {
    && (m.startsAt.Some? ==> m.startsAt.value <= at)
    && (m.endsAt.Some? ==> at < m.endsAt.value)
  }

  /** Only enabled rows of active users take shifts in the point query. */
  predicate OnDuty(m: Member) {
    m.active && m.user.active && !m.user.deleted
  }

  function OnDutyMembersAt(members: seq<Member>, at: int): seq<Member> {
    if members == [] then []
    else
      var rest := OnDutyMembersAt(members[1..], at);
      if EffectiveAt(members[0], at) && OnDuty(members[0]) then [members[0]] + rest else rest
  }

  /** The member whose turn the slot is. */
  function TurnOf(members: seq<Member>, slot: Option<int>): Option<User> {
    if members == [] || slot.None? then None
    else Some(members[slot.value % |members|].user)
  }

  function ScheduledUserForLayer(layer: Layer, s: Settings, now: int): Option<User> {
    TurnOf(OnDutyMembersAt(layer.members, now), SlotIndex(s, now))
  }

  /** The first layer, in listed order, that is active and has somebody scheduled. */
  function ActiveLayer(layers: seq<Layer>, rot: Rotation, now: int): Option<Layer> {
    if layers == [] then None
    else if LayerActiveNow(layers[0], LayerSettings(rot, layers[0]), now)
         && ScheduledUserForLayer(layers[0], LayerSettings(rot, layers[0]), now).Some?
    then Some(layers[0])
    else ActiveLayer(layers[1..], rot, now)
  }

  function ScheduledUser(rot: Rotation, now: int): Option<User> {
    var layer := ActiveLayer(rot.layers, rot, now);
    if layer.None? then None
    else ScheduledUserForLayer(layer.value, LayerSettings(rot, layer.value), now)
  }

  predicate OverrideCovers(o: Override, at: int) {
    o.startsAt <= at < o.endsAt
  }

  /** The covering override with the highest id. */
  function ActiveOverride(overrides: seq<Override>, at: int): (r: Option<Override>)
    ensures r.None? <==> forall o :: o in overrides ==> !OverrideCovers(o, at)
    ensures r.Some? ==> r.value in overrides && OverrideCovers(r.value, at)
    ensures r.Some? ==> forall o :: o in overrides && OverrideCovers(o, at) ==> o.id <= r.value.id
  {
    if overrides == [] then None
    else
      var rest := ActiveOverride(overrides[1..], at);
      if OverrideCovers(overrides[0], at) && (rest.None? || rest.value.id <= overrides[0].id)
      then Some(overrides[0])
      else rest
  }

  function CurrentUser(rot: Rotation, now: int): Option<User> {
    if !rot.enabled || rot.deleted then None
    else
      var o := ActiveOverride(rot.overrides, now);
      if o.Some? then Some(o.value.user) else ScheduledUser(rot, now)
  }

  // ----- what the point query answers

  /** Whether a row takes turns at an instant: enabled, its user active and not deleted, its period open. */
  predicate TakesTurns(m: Member, at: int) {
    && m.active && m.user.active && !m.user.deleted
    && (m.startsAt.None? || m.startsAt.value <= at)
    && (m.endsAt.None? || at < m.endsAt.value)
  }

  /** The crew keeps the listed order and holds exactly the rows that take turns. */
  lemma {:induction false} CrewFilters(a: seq<Member>, m: Member, b: seq<Member>, at: int)
    ensures OnDutyMembersAt(a + [m] + b, at) ==
            OnDutyMembersAt(a, at) + (if TakesTurns(m, at) then [m] else []) + OnDutyMembersAt(b, at)
    ensures OnDutyMembersAt([], at) == []
  {
    if a == [] {
      assert ([m] + b)[1..] == b;
      assert a + [m] + b == [m] + b;
    } else {
      CrewFilters(a[1..], m, b, at);
      assert (a + [m] + b)[1..] == a[1..] + [m] + b;
    }
  }

  /** A layer names a user: it is in use, unrestricted or inside a restriction, begun, and it is the user's turn. */
  ghost predicate LayerNames(rot: Rotation, layer: Layer, now: int, u: User) {
    var s := LayerSettings(rot, layer);
    var crew, slot := OnDutyMembersAt(layer.members, now), SlotIndex(s, now);
    && layer.enabled && !layer.deleted
    && (layer.restrictions == [] || exists r :: r in layer.restrictions && RestrictionMatches(r, LayerZone(s).toLocal(now)))
    && crew != [] && slot.Some? && u == crew[slot.value % |crew|].user
  }

  lemma LayerNamesIff(rot: Rotation, layer: Layer, now: int, u: User)
    ensures LayerNames(rot, layer, now, u) <==>
            LayerActiveNow(layer, LayerSettings(rot, layer), now)
            && ScheduledUserForLayer(layer, LayerSettings(rot, layer), now) == Some(u)
  {
    var rs, local := layer.restrictions, LayerZone(LayerSettings(rot, layer)).toLocal(now);
    if r :| r in rs && RestrictionMatches(r, local) {
      var i :| 0 <= i < |rs| && rs[i] == r;
      assert RestrictionMatches(rs[i], local);
    }
  }

  ghost predicate NamesSomebody(rot: Rotation, layer: Layer, now: int) {
    exists u :: LayerNames(rot, layer, now, u)
  }

  /** Some layer names the user and no layer listed before it names anybody. */
  ghost predicate FirstNames(layers: seq<Layer>, rot: Rotation, now: int, u: User) {
    exists i :: NamesFirst(layers, rot, now, u, i)
  }

  ghost predicate NamesFirst(layers: seq<Layer>, rot: Rotation, now: int, u: User, i: int) {
    && 0 <= i < |layers|
    && LayerNames(rot, layers[i], now, u)
    && forall j :: 0 <= j < i ==> !NamesSomebody(rot, layers[j], now)
  }

  lemma FirstNamesStep(layers: seq<Layer>, rot: Rotation, now: int, u: User)
    requires layers != []
    ensures FirstNames(layers, rot, now, u) <==>
            || LayerNames(rot, layers[0], now, u)
            || (!NamesSomebody(rot, layers[0], now) && FirstNames(layers[1..], rot, now, u))
  {
    if FirstNames(layers, rot, now, u) {
      var i :| NamesFirst(layers, rot, now, u, i);
      if i > 0 {
        assert NamesFirst(layers[1..], rot, now, u, i - 1);
      }
    }
    if LayerNames(rot, layers[0], now, u) {
      assert NamesFirst(layers, rot, now, u, 0);
    }
    if !NamesSomebody(rot, layers[0], now) && FirstNames(layers[1..], rot, now, u) {
      var i :| NamesFirst(layers[1..], rot, now, u, i);
      assert forall j :: 0 < j < i + 1 ==> layers[j] == layers[1..][j - 1];
      assert NamesFirst(layers, rot, now, u, i + 1);
    }
  }

  /** The scheduled user is the one named by the first layer that names anybody. */
  lemma {:induction false} FirstLayerDecides(layers: seq<Layer>, rot: Rotation, now: int, u: User)
    ensures var layer := ActiveLayer(layers, rot, now);
            layer.Some? && ScheduledUserForLayer(layer.value, LayerSettings(rot, layer.value), now) == Some(u) <==>
            FirstNames(layers, rot, now, u)
  {
    if layers != [] {
      FirstLayerDecides(layers[1..], rot, now, u);
      LayerNamesIff(rot, layers[0], now, u);
      var scheduled := ScheduledUserForLayer(layers[0], LayerSettings(rot, layers[0]), now);
      if scheduled.Some? {
        LayerNamesIff(rot, layers[0], now, scheduled.value);
      }
      FirstNamesStep(layers, rot, now, u);
    }
  }

  /** The override with the highest id among those covering the instant. */
  ghost predicate TopOverride(rot: Rotation, o: Override, now: int) {
    && o in rot.overrides && o.startsAt <= now < o.endsAt
    && forall p :: p in rot.overrides && p.startsAt <= now < p.endsAt ==> p.id <= o.id
  }

  /** Who is on call: nobody in a disabled or deleted rotation; else the covering override with the highest
      id; else whom the first layer that names somebody names. */
  lemma PointQueryAnswers(rot: Rotation, now: int, u: User)
    requires WellFormed(rot)
    ensures CurrentUser(rot, now) == Some(u) <==>
            && rot.enabled && !rot.deleted
            && (if exists o :: o in rot.overrides && o.startsAt <= now < o.endsAt
                then exists o :: TopOverride(rot, o, now) && o.user == u
                else FirstNames(rot.layers, rot, now, u))
  {
    FirstLayerDecides(rot.layers, rot, now, u);
    var chosen := ActiveOverride(rot.overrides, now);
    if chosen.Some? {
      assert TopOverride(rot, chosen.value, now);
      forall o | TopOverride(rot, o, now)
        ensures o == chosen.value
      {
        var i :| 0 <= i < |rot.overrides| && rot.overrides[i] == o;
        var j :| 0 <= j < |rot.overrides| && rot.overrides[j] == chosen.value;
      }
    }
  }
}

/** The interval sweep that lays one layer's shifts out over a query range. */
module LayerSweep {
  import opened Clock
  import opened RotationSchedule
  import opened OnCall
  import opened Events
  import opened Windows

  // ----- the pointwise meaning of a layer in the calendar

  function EffectiveMembersAt(members: seq<Member>, at: int): seq<Member> {
    if members == [] then []
    else
      var rest := EffectiveMembersAt(members[1..], at);
      if EffectiveAt(members[0], at) then [members[0]] + rest else rest
  }

  /** The calendar's choice: inactive users and closed rows take their historical turns. */
  function LayerUserAt(s: Settings, members: seq<Member>, at: int): Option<User> {
    TurnOf(EffectiveMembersAt(members, at), SlotIndex(s, at))
  }

  function ShiftAt(s: Settings, layerId: int, members: seq<Member>, at: int): Option<Ident> {
    var user := LayerUserAt(s, members, at);
    if user.Some? then Some(LayerShift(layerId, user.value.id)) else None
  }

  /** Who a layer puts on call at an instant, as the calendar shows it. */
  function LayerIdentAt(rot: Rotation, layer: Layer, at: int): Option<Ident> {
    var s := LayerSettings(rot, layer);
    if LayerActiveNow(layer, s, at) then ShiftAt(s, layer.id, layer.members, at) else None
  }

  /** The zone is regular at every handoff of a layer in use and, if the layer is restricted, at its
      restriction boundaries and local midnights. */
  ghost predicate LayerRegular(rot: Rotation, layer: Layer)
    requires rot.defaults.startAt.Some?
  {
    var s := LayerSettings(rot, layer);
    InUse(layer) ==>
      && HandoffsRegular(s)
      && (layer.restrictions != [] ==> RestrictionsRegular(layer.restrictions, LayerZone(s)))
  }

  // ----- membership periods

  /** The rows fetched for a range: periods that overlap it. */
  function PeriodsOverlapping(members: seq<Member>, lo: int, hi: int): seq<Member> {
    if members == [] then []
    else
      var m := members[0];
      var rest := PeriodsOverlapping(members[1..], lo, hi);
      if (m.endsAt.None? || m.endsAt.value > lo) && (m.startsAt.None? || m.startsAt.value < hi)
      then [m] + rest
      else rest
  }

  lemma {:induction false} OverlapKeepsEffective(members: seq<Member>, lo: int, hi: int, t: int)
    requires lo <= t < hi
    ensures EffectiveMembersAt(PeriodsOverlapping(members, lo, hi), t) == EffectiveMembersAt(members, t)
  {
    if members != [] {
      OverlapKeepsEffective(members[1..], lo, hi, t);
      var rest := PeriodsOverlapping(members[1..], lo, hi);
      assert ([members[0]] + rest)[1..] == rest;
    }
  }

  predicate Fetched(m: Member, lo: int, hi: int) {
    !(m.endsAt.Some? && m.endsAt.value <= lo) && !(m.startsAt.Some? && hi <= m.startsAt.value)
  }

  lemma PeriodsPrepend(m: Member, rest: seq<Member>, all: seq<Member>, lo: int, hi: int)
    requires all == [m] + rest
    ensures PeriodsOverlapping(all, lo, hi) == (if Fetched(m, lo, hi) then [m] else []) + PeriodsOverlapping(rest, lo, hi)
  {
    assert all[1..] == rest;
  }

  lemma Regroup(x: seq<Member>, y: seq<Member>, z: seq<Member>)
    ensures x + (y + z) == x + y + z
  {
  }

  lemma {:induction false} PeriodsConcat(a: seq<Member>, b: seq<Member>, lo: int, hi: int)
    ensures PeriodsOverlapping(a + b, lo, hi) == PeriodsOverlapping(a, lo, hi) + PeriodsOverlapping(b, lo, hi)
  {
    if a == [] {
      assert a + b == b;
    } else {
      PeriodsConcat(a[1..], b, lo, hi);
      PeriodsPrepend(a[0], a[1..], a, lo, hi);
      PeriodsPrepend(a[0], a[1..] + b, a + b, lo, hi);
      Regroup(if Fetched(a[0], lo, hi) then [a[0]] else [], PeriodsOverlapping(a[1..], lo, hi), PeriodsOverlapping(b, lo, hi));
    }
  }

  /** The fetched rows keep the listed order and are exactly the periods that end after the range begins and
      begin before it ends. */
  lemma PeriodsFilter(a: seq<Member>, b: seq<Member>, m: Member, lo: int, hi: int)
    ensures PeriodsOverlapping(a + b, lo, hi) == PeriodsOverlapping(a, lo, hi) + PeriodsOverlapping(b, lo, hi)
    ensures PeriodsOverlapping([m], lo, hi) == if Fetched(m, lo, hi) then [m] else []
  {
    PeriodsConcat(a, b, lo, hi);
    PeriodsPrepend(m, [], [m], lo, hi);
  }

  predicate HasBoundary(m: Member, v: int) {
    m.startsAt == Some(v) || m.endsAt == Some(v)
  }

  ghost predicate NoBoundaryBetween(members: seq<Member>, at: int, until: int) {
    forall i: int, v: int :: 0 <= i < |members| && HasBoundary(members[i], v) ==> !(at < v < until)
  }

  function Sooner(boundary: int, at: int, value: Option<int>): int {
    if value.Some? && at < value.value < boundary then value.value else boundary
  }

  function MemberBoundary(members: seq<Member>, at: int, fallback: int): int {
    if members == [] then fallback
    else
      var m := members[|members| - 1];
      Sooner(Sooner(MemberBoundary(members[..|members| - 1], at, fallback), at, m.startsAt), at, m.endsAt)
  }

  /** The earliest membership boundary after `at`, or `fallback` if none comes sooner. */
  method NextMemberBoundary(members: seq<Member>, at: int, fallback: int) returns (boundary: int)
    ensures boundary == MemberBoundary(members, at, fallback)
    ensures boundary <= fallback
    ensures at < fallback ==> at < boundary
    ensures NoBoundaryBetween(members, at, boundary)
    ensures boundary == fallback || exists i :: 0 <= i < |members| && HasBoundary(members[i], boundary)
  {
    boundary := fallback;
    for k := 0 to |members|
      invariant boundary == MemberBoundary(members[..k], at, fallback)
      invariant boundary <= fallback
      invariant at < fallback ==> at < boundary
      invariant NoBoundaryBetween(members[..k], at, boundary)
      invariant boundary == fallback || exists i :: 0 <= i < k && HasBoundary(members[i], boundary)
    {
      var m := members[k];
      if m.startsAt.Some? && at < m.startsAt.value < boundary {
        boundary := m.startsAt.value;
      }
      if m.endsAt.Some? && at < m.endsAt.value < boundary {
        boundary := m.endsAt.value;
      }
      assert members[..k + 1] == members[..k] + [m];
    }
    assert members[..|members|] == members;
  }

  lemma {:induction false} MembersConstant(members: seq<Member>, at: int, until: int, t: int)
    requires NoBoundaryBetween(members, at, until) && at <= t < until
    ensures EffectiveMembersAt(members, t) == EffectiveMembersAt(members, at)
  {
    if members != [] {
      var m := members[0];
      assert m.startsAt.Some? ==> HasBoundary(members[0], m.startsAt.value);
      assert m.endsAt.Some? ==> HasBoundary(members[0], m.endsAt.value);
      assert EffectiveAt(m, t) == EffectiveAt(m, at);
      assert NoBoundaryBetween(members[1..], at, until) by {
        assert forall i :: 0 <= i < |members| - 1 ==> members[1..][i] == members[i + 1];
      }
      MembersConstant(members[1..], at, until, t);
    }
  }

  /** A handoff passes the duty to the next member in listed order, wrapping round at the end. */
  lemma HandoffPassesTurn(s: Settings, members: seq<Member>, at: int) returns (i: int)
    requires s.startAt.Some? && HandoffsRegular(s) && at >= StartUtc(s)
    requires EffectiveMembersAt(members, at) == EffectiveMembersAt(members, NextBoundary(s, at).value) != []
    ensures var crew := EffectiveMembersAt(members, at);
            && 0 <= i < |crew|
            && LayerUserAt(s, members, at) == Some(crew[i].user)
            && LayerUserAt(s, members, NextBoundary(s, at).value) == Some(crew[if i + 1 < |crew| then i + 1 else 0].user)
  {
    RegularImpliesLawAt(s, at);
    i := NextTurn(EffectiveMembersAt(members, at), SlotIndex(s, at).value);
  }

  lemma NextTurn(crew: seq<Member>, slot: int) returns (i: int)
    requires crew != [] && slot >= 0
    ensures 0 <= i < |crew| && TurnOf(crew, Some(slot)) == Some(crew[i].user)
    ensures TurnOf(crew, Some(slot + 1)) == Some(crew[if i + 1 < |crew| then i + 1 else 0].user)
  {
    NextRemainder(slot, |crew|);
    i := slot % |crew|;
  }

  lemma NextRemainder(k: int, n: int)
    requires n >= 1
    ensures 0 <= k % n < n
    ensures (k + 1) % n == if k % n + 1 < n then k % n + 1 else 0
  {
    var q, r := k / n, k % n;
    if r + 1 < n {
      UniqueDivMod(k + 1, n, q, r + 1);
    } else {
      assert n * (q + 1) == n * q + n;
      UniqueDivMod(k + 1, n, q + 1, 0);
    }
  }

  // ----- the sweep

  /** Nobody changes between a cursor and the earlier of the next handoff and membership boundary. */
  lemma SegmentConstant(s: Settings, members: seq<Member>, at: int, until: int, t: int)
    requires s.startAt.Some? && HandoffsRegular(s) && at >= StartUtc(s)
    requires until <= NextBoundary(s, at).value
    requires NoBoundaryBetween(members, at, until)
    requires at <= t < until
    ensures LayerUserAt(s, members, t) == LayerUserAt(s, members, at)
  {
    RegularImpliesLawAt(s, at);
    MembersConstant(members, at, until, t);
  }

  lemma {:induction false} MemberBoundaryBounds(members: seq<Member>, at: int, fallback: int)
    ensures MemberBoundary(members, at, fallback) <= fallback
    ensures at < fallback ==> at < MemberBoundary(members, at, fallback)
    ensures NoBoundaryBetween(members, at, MemberBoundary(members, at, fallback))
  {
    if members != [] {
      var n := |members| - 1;
      MemberBoundaryBounds(members[..n], at, fallback);
      assert members == members[..n] + [members[n]];
    }
  }

  /** Where the segment that begins at the cursor ends: the next boundary, or a fixed step when that
      does not lie ahead. */
  function SegmentEnd(s: Settings, members: seq<Member>, cursor: int, windowEnd: int): (end: int)
    requires s.startAt.Some? && StartUtc(s) <= cursor < windowEnd
    ensures cursor < end <= windowEnd
  {
    var end := Min(NextBoundary(s, cursor).value, Min(MemberBoundary(members, cursor, windowEnd), windowEnd));
    if end <= cursor then Min(cursor + DurationSeconds(s) * SECOND, windowEnd) else end
  }

  /** The cursor whose segment holds t, when the sweep starts at `cursor`. */
  function CursorAt(s: Settings, members: seq<Member>, cursor: int, windowEnd: int, t: int): (c: int)
    requires s.startAt.Some? && StartUtc(s) <= cursor <= t < windowEnd
    ensures cursor <= c <= t
    decreases windowEnd - cursor
  {
    var end := SegmentEnd(s, members, cursor, windowEnd);
    if t < end then cursor else CursorAt(s, members, end, windowEnd, t)
  }

  /** What the sweep of one window shows at an instant of it, in any zone: the turn at the cursor. */
  function SweptIn(s: Settings, layerId: int, members: seq<Member>, w: Window, t: int): Option<Ident>
    requires s.startAt.Some? && Inside(w, t)
  {
    if t < StartUtc(s) then None
    else ShiftAt(s, layerId, members, CursorAt(s, members, Max(w.start, StartUtc(s)), w.end, t))
  }

  /** At regular handoffs the turn at the cursor is the turn at the instant. */
  lemma {:induction false} CursorExact(s: Settings, members: seq<Member>, cursor: int, windowEnd: int, t: int)
    requires s.startAt.Some? && StartUtc(s) <= cursor <= t < windowEnd && HandoffsRegular(s)
    ensures LayerUserAt(s, members, CursorAt(s, members, cursor, windowEnd, t)) == LayerUserAt(s, members, t)
    decreases windowEnd - cursor
  {
    var end := SegmentEnd(s, members, cursor, windowEnd);
    if t < end {
      MemberBoundaryBounds(members, cursor, windowEnd);
      RegularImpliesLawAt(s, cursor);
      SegmentConstant(s, members, cursor, end, t);
    } else {
      CursorExact(s, members, end, windowEnd, t);
    }
  }

  /** Sweep one window. It terminates for every zone and shows at each instant the turn at its cursor. */
  method SweepWindow(s: Settings, layerId: int, members: seq<Member>, from: int, windowEnd: int)
    returns (events: seq<Event>)
    requires s.startAt.Some? && from >= StartUtc(s)
    ensures NonEmpty(events) && Ordered(events) && Within(events, from, windowEnd)
    ensures forall t: int :: from <= t < windowEnd ==>
              IdentAt(events, t) == ShiftAt(s, layerId, members, CursorAt(s, members, from, windowEnd, t))
    ensures HandoffsRegular(s) ==> forall t: int :: from <= t < windowEnd ==>
              IdentAt(events, t) == ShiftAt(s, layerId, members, t)
  {
    events := [];
    var cursor := from;
    while cursor < windowEnd
      invariant from <= cursor && (cursor <= windowEnd || cursor == from)
      invariant NonEmpty(events) && Ordered(events) && Within(events, from, cursor)
      invariant from <= windowEnd ==> Within(events, from, windowEnd)
      invariant forall t: int :: cursor <= t < windowEnd ==>
                  CursorAt(s, members, from, windowEnd, t) == CursorAt(s, members, cursor, windowEnd, t)
      invariant forall t: int :: from <= t < cursor ==>
                  IdentAt(events, t) == ShiftAt(s, layerId, members, CursorAt(s, members, from, windowEnd, t))
      decreases windowEnd - cursor
    {
      var user := LayerUserAt(s, members, cursor);
      var nextBoundary := NextBoundary(s, cursor).value;
      var memberBoundary := NextMemberBoundary(members, cursor, windowEnd);
      var segmentEnd := Min(nextBoundary, Min(memberBoundary, windowEnd));
      if segmentEnd <= cursor {
        segmentEnd := Min(cursor + DurationSeconds(s) * SECOND, windowEnd);
      }
      assert segmentEnd == SegmentEnd(s, members, cursor, windowEnd);
      ghost var before := events;
      if user.Some? && segmentEnd > cursor {
        events := events + [Event(cursor, segmentEnd, LayerShift(layerId, user.value.id))];
      }
      forall t: int | from <= t < segmentEnd
        ensures IdentAt(events, t) == ShiftAt(s, layerId, members, CursorAt(s, members, from, windowEnd, t))
      {
        SegmentShown(before, events, from, cursor, segmentEnd, ShiftAt(s, layerId, members, cursor), t);
      }
      cursor := segmentEnd;
    }
    if HandoffsRegular(s) {
      forall t: int | from <= t < windowEnd
        ensures IdentAt(events, t) == ShiftAt(s, layerId, members, t)
      {
        CursorExact(s, members, from, windowEnd, t);
      }
    }
  }

  /** Appending a segment's event, or none, shows its shift on the segment and leaves the rest alone. */
  lemma SegmentShown(before: seq<Event>, after: seq<Event>, from: int, at: int, until: int, shift: Option<Ident>, t: int)
    requires Within(before, from, at)
    requires after == if shift.Some? then before + [Event(at, until, shift.value)] else before
    ensures t < at ==> IdentAt(after, t) == IdentAt(before, t)
    ensures at <= t < until ==> IdentAt(after, t) == shift
  {
    if shift.Some? {
      IdentAtAppend(before, Event(at, until, shift.value), t);
    }
    if at <= t {
      IdentAtOutside(before, from, at, t);
    }
  }

  /** The events show what the sweep of each window shows, and nothing outside the windows. */
  ghost predicate WindowsSwept(s: Settings, layerId: int, members: seq<Member>, windows: seq<Window>, events: seq<Event>)
    requires s.startAt.Some?
  {
    && (forall k: int, t: int :: 0 <= k < |windows| && Inside(windows[k], t) ==>
          IdentAt(events, t) == SweptIn(s, layerId, members, windows[k], t))
    && (forall t: int :: !Somewhere(windows, t) ==> IdentAt(events, t).None?)
  }

  predicate InOrder(windows: seq<Window>) {
    SortedByStart(windows) && forall i, j :: 0 <= i < j < |windows| ==> windows[i].end <= windows[j].start
  }

  /** Sweep the windows in order, each from the later of its start and the layer's. */
  method SweepWindows(s: Settings, layerId: int, members: seq<Member>, windows: seq<Window>, lo: int, hi: int)
    returns (events: seq<Event>)
    requires s.startAt.Some? && AllWithin(windows, lo, hi) && InOrder(windows)
    ensures NonEmpty(events) && Ordered(events) && Within(events, lo, hi)
    ensures WindowsSwept(s, layerId, members, windows, events)
  {
    events := [];
    var layerStart := StartUtc(s);
    ghost var frontier := lo;
    for k := 0 to |windows|
      invariant NonEmpty(events) && Ordered(events) && Within(events, lo, frontier) && Within(events, lo, hi)
      invariant k < |windows| ==> frontier <= windows[k].start
      invariant WindowsSwept(s, layerId, members, windows[..k], events)
    {
      var w := windows[k];
      var from := Max(w.start, Max(layerStart, lo));
      var windowEnd := Min(w.end, hi);
      var swept := SweepWindow(s, layerId, members, from, windowEnd);
      WindowAdded(s, layerId, members, windows, k, from, events, swept);
      events := events + swept;
      frontier := Max(frontier, windowEnd);
    }
    assert windows[..|windows|] == windows;
  }

  /** A swept window adds what it shows and leaves the earlier windows alone. */
  lemma WindowAdded(s: Settings, layerId: int, members: seq<Member>, windows: seq<Window>, k: int, from: int,
                    before: seq<Event>, swept: seq<Event>)
    requires s.startAt.Some? && 0 <= k < |windows| && InOrder(windows)
    requires from == Max(windows[k].start, StartUtc(s)) && Within(swept, from, windows[k].end)
    requires WindowsSwept(s, layerId, members, windows[..k], before)
    requires forall t: int :: from <= t < windows[k].end ==>
               IdentAt(swept, t) == ShiftAt(s, layerId, members, CursorAt(s, members, from, windows[k].end, t))
    ensures WindowsSwept(s, layerId, members, windows[..k + 1], before + swept)
  {
    var seen, w := windows[..k + 1], windows[k];
    assert seen == windows[..k] + [w];
    forall t: int
      ensures IdentAt(before + swept, t) == if from <= t < w.end then IdentAt(swept, t) else IdentAt(before, t)
      ensures Somewhere(seen, t) <==> Somewhere(windows[..k], t) || Inside(w, t)
    {
      IdentAtConcat(before, swept, t);
      SomewhereAppend(windows[..k], w, t);
      if from <= t < w.end {
        assert !Somewhere(windows[..k], t);
      } else {
        IdentAtOutside(swept, from, w.end, t);
      }
    }
    forall j: int, t: int | 0 <= j < |seen| && Inside(seen[j], t)
      ensures IdentAt(before + swept, t) == SweptIn(s, layerId, members, seen[j], t)
    {
      if j < k {
        assert seen[j] == windows[..k][j] && t < w.start;
      } else {
        assert !Somewhere(windows[..k], t);
      }
    }
  }

  /** What a layer contributes: at each instant of the range, its shift and nothing else. */
  ghost predicate LayerExact(rot: Rotation, layer: Layer, lo: int, hi: int, events: seq<Event>) {
    forall t: int :: lo <= t < hi ==> IdentAt(events, t) == LayerIdentAt(rot, layer, t)
  }

  /** What an unrestricted layer shows in any zone: before its start nothing, then the turn at the cursor. */
  ghost predicate UnrestrictedSwept(rot: Rotation, layer: Layer, lo: int, hi: int, events: seq<Event>)
    requires rot.defaults.startAt.Some?
  {
    var s := LayerSettings(rot, layer);
    forall t: int :: lo <= t < hi ==>
      IdentAt(events, t) == SweptIn(s, layer.id, PeriodsOverlapping(layer.members, lo, hi), Window(lo, hi), t)
  }

  method BuildLayerEvents(rot: Rotation, layer: Layer, lo: int, hi: int) returns (events: seq<Event>)
    requires rot.defaults.startAt.Some?
    requires forall r :: r in layer.restrictions ==> r.Valid()
    ensures NonEmpty(events) && Ordered(events) && Within(events, lo, hi)
    ensures LayerRegular(rot, layer) ==> LayerExact(rot, layer, lo, hi, events)
    ensures InUse(layer) && layer.restrictions == [] ==> UnrestrictedSwept(rot, layer, lo, hi, events)
  {
    events := [];
    if !InUse(layer) {
      return;
    }
    var s := LayerSettings(rot, layer);
    var members := PeriodsOverlapping(layer.members, lo, hi);
    forall t: int | lo <= t < hi
      ensures EffectiveMembersAt(members, t) == EffectiveMembersAt(layer.members, t)
    {
      OverlapKeepsEffective(layer.members, lo, hi, t);
    }
    if members == [] {
      return;
    }
    var windows := LayerActiveWindows(layer.restrictions, LayerZone(s), lo, hi);
    events := SweepWindows(s, layer.id, members, windows, lo, hi);
    if LayerRegular(rot, layer) {
      SweptIsExact(rot, layer, lo, hi, windows, events);
    }
  }

  /** Where everything is regular, the swept windows are the layer's shifts. */
  lemma SweptIsExact(rot: Rotation, layer: Layer, lo: int, hi: int, windows: seq<Window>, events: seq<Event>)
    requires rot.defaults.startAt.Some? && InUse(layer) && LayerRegular(rot, layer)
    requires var s := LayerSettings(rot, layer);
             && WindowsSwept(s, layer.id, PeriodsOverlapping(layer.members, lo, hi), windows, events)
             && forall t: int :: lo <= t < hi ==>
                  (Somewhere(windows, t) <==> LayerActiveNow(layer, s, t))
    ensures LayerExact(rot, layer, lo, hi, events)
  {
    var s := LayerSettings(rot, layer);
    var members := PeriodsOverlapping(layer.members, lo, hi);
    forall t: int | lo <= t < hi
      ensures IdentAt(events, t) == LayerIdentAt(rot, layer, t)
    {
      OverlapKeepsEffective(layer.members, lo, hi, t);
      if Somewhere(windows, t) {
        var k :| 0 <= k < |windows| && Inside(windows[k], t);
        if t >= StartUtc(s) {
          CursorExact(s, members, Max(windows[k].start, StartUtc(s)), windows[k].end, t);
        }
      }
    }
  }
}

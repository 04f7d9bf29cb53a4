/** What a clock change does to the calendar of one unrestricted layer, and exactly when it does anything. */
module ClockChange {
  import opened Clock
  import opened RotationSchedule
  import opened OnCall
  import opened Events
  import opened Windows
  import opened LayerSweep
  import opened Calendar

  /** What the calendar of a range shows at t: the turn at the sweep's cursor. */
  function Shown(s: Settings, members: seq<Member>, lo: int, hi: int, t: int): Option<Ident>
    requires s.startAt.Some? && lo <= t < hi
  {
    SweptIn(s, 1, PeriodsOverlapping(members, lo, hi), Window(lo, hi), t)
  }

  function ShiftOf(user: User): Ident {
    LayerShift(1, user.id)
  }

  /** What the point query answers at t. */
  function Asked(s: Settings, members: seq<Member>, t: int): Option<Ident> {
    var user := CurrentUser(SingleLayer(s, members), t);
    if user.Some? then Some(ShiftOf(user.value)) else None
  }

  /** Every calendar built for the rotation shows this. */
  lemma BuiltShows(s: Settings, members: seq<Member>, lo: int, hi: int, shown: LayerEvents, events: seq<Event>, t: int)
    requires s.startAt.Some? && Built(SingleLayer(s, members), lo, hi, shown, events) && lo <= t < hi
    ensures IdentAt(events, t) == Shown(s, members, lo, hi, t)
  {
    var rot := SingleLayer(s, members);
    SingleLayerWellFormed(s, members);
    SingleLayerMeaning(s, members, shown, t);
    assert LayerBuilt(rot, rot.layers[0], lo, hi, shown[0]);
  }

  // ----- range independence, in any zone

  ghost predicate RangeIndependent(s: Settings, members: seq<Member>)
    requires s.startAt.Some?
  {
    forall lo: int, hi: int, lo': int, hi': int, t: int :: lo <= lo' <= t < hi' <= hi ==>
      Shown(s, members, lo, hi, t) == Shown(s, members, lo', hi', t)
  }

  ghost predicate Exact(s: Settings, members: seq<Member>)
    requires s.startAt.Some?
  {
    forall lo: int, hi: int, t: int :: lo <= t < hi ==> Shown(s, members, lo, hi, t) == ShiftAt(s, 1, members, t)
  }

  /** A range of one instant always shows the turn of that instant. */
  lemma InstantIsExact(s: Settings, members: seq<Member>, t: int)
    requires s.startAt.Some?
    ensures Shown(s, members, t, t + 1, t) == ShiftAt(s, 1, members, t)
  {
    OverlapKeepsEffective(members, t, t + 1, t);
  }

  /** For any crew in any zone, the calendar does not depend on the queried range if and only if it is exact. */
  lemma RangeIndependentIffExact(s: Settings, members: seq<Member>)
    requires s.startAt.Some?
    ensures RangeIndependent(s, members) <==> Exact(s, members)
  {
    if RangeIndependent(s, members) {
      forall lo: int, hi: int, t: int | lo <= t < hi
        ensures Shown(s, members, lo, hi, t) == ShiftAt(s, 1, members, t)
      {
        InstantIsExact(s, members, t);
        assert Shown(s, members, lo, hi, t) == Shown(s, members, t, t + 1, t);
      }
    }
  }

  /** Where the sweep is exact, calendars of nested ranges agree event for event. */
  lemma ExactCalendarsNest(s: Settings, members: seq<Member>, lo: int, hi: int, shown: LayerEvents, large: seq<Event>,
                           lo': int, hi': int, shown': LayerEvents, small: seq<Event>)
    requires s.startAt.Some? && Exact(s, members) && lo <= lo' && hi' <= hi
    requires Built(SingleLayer(s, members), lo, hi, shown, large)
    requires Built(SingleLayer(s, members), lo', hi', shown', small)
    ensures small == Clip(large, lo', hi')
  {
    ExactIsCalendar(s, members, lo, hi, shown, large);
    ExactIsCalendar(s, members, lo', hi', shown', small);
    RangeIndependence(SingleLayer(s, members), lo, hi, large, lo', hi', small);
  }

  lemma ExactIsCalendar(s: Settings, members: seq<Member>, lo: int, hi: int, shown: LayerEvents, events: seq<Event>)
    requires s.startAt.Some? && Exact(s, members) && Built(SingleLayer(s, members), lo, hi, shown, events)
    ensures IsCalendar(SingleLayer(s, members), lo, hi, events)
  {
    forall t: int | lo <= t < hi
      ensures IdentAt(events, t) == CalendarIdentAt(SingleLayer(s, members), t)
    {
      BuiltShows(s, members, lo, hi, shown, events, t);
      SingleLayerMeaning(s, members, shown, t);
    }
  }

  // ----- a crew that never changes

  /** Everybody may take shifts, for good. */
  predicate OpenCrew(members: seq<Member>) {
    forall i :: 0 <= i < |members| ==> OnDuty(members[i]) && members[i].startsAt.None? && members[i].endsAt.None?
  }

  /** At least two people, all different. */
  predicate Distinct(members: seq<Member>) {
    |members| >= 2 && forall i, j :: 0 <= i < j < |members| ==> members[i].user.id != members[j].user.id
  }

  lemma {:induction false} OpenCrewIsWhole(members: seq<Member>, lo: int, hi: int, t: int)
    requires OpenCrew(members)
    ensures PeriodsOverlapping(members, lo, hi) == members
    ensures EffectiveMembersAt(members, t) == members && OnDutyMembersAt(members, t) == members
  {
    if members != [] {
      OpenCrewIsWhole(members[1..], lo, hi, t);
    }
  }

  lemma {:induction false} OpenCrewHasNoBoundary(members: seq<Member>, at: int, fallback: int)
    requires OpenCrew(members)
    ensures MemberBoundary(members, at, fallback) == fallback
  {
    if members != [] {
      OpenCrewHasNoBoundary(members[..|members| - 1], at, fallback);
    }
  }

  function InTurn(members: seq<Member>, slot: int): User
    requires members != []
  {
    members[slot % |members|].user
  }

  lemma NeighboursDiffer(members: seq<Member>, k: int)
    requires Distinct(members)
    ensures ShiftOf(InTurn(members, k - 1)) != ShiftOf(InTurn(members, k))
  {
    NextRemainder(k - 1, |members|);
  }

  /** The point query names the turn of the slot. */
  lemma AskedInSlot(s: Settings, members: seq<Member>, t: int)
    requires s.startAt.Some? && OpenCrew(members) && members != []
    ensures Asked(s, members, t) == ShiftAt(s, 1, members, t)
    ensures SlotIndex(s, t).Some? ==> Asked(s, members, t) == Some(ShiftOf(InTurn(members, SlotIndex(s, t).value)))
  {
    SingleLayerMeaning(s, members, [[]], t);
    OpenCrewIsWhole(members, t, t, t);
  }

  /** The calendar names the turn of the slot at its cursor. */
  lemma ShownInCursorSlot(s: Settings, members: seq<Member>, lo: int, hi: int, t: int, slot: int)
    requires s.startAt.Some? && OpenCrew(members) && members != [] && lo <= t < hi && StartUtc(s) <= t
    requires SlotIndex(s, CursorAt(s, members, Max(lo, StartUtc(s)), hi, t)) == Some(slot)
    ensures Shown(s, members, lo, hi, t) == Some(ShiftOf(InTurn(members, slot)))
  {
    OpenCrewIsWhole(members, lo, hi, CursorAt(s, members, Max(lo, StartUtc(s)), hi, t));
  }

  /** Calendar and point query agree at every instant of every range. */
  ghost predicate Agrees(s: Settings, members: seq<Member>)
    requires s.startAt.Some?
  {
    forall lo: int, hi: int, t: int :: lo <= t < hi ==> Shown(s, members, lo, hi, t) == Asked(s, members, t)
  }

  /** In any zone, the calendar of an open crew agrees with the point query if and only if it does not depend
      on the queried range. */
  lemma AgreesIffRangeIndependent(s: Settings, members: seq<Member>)
    requires s.startAt.Some? && OpenCrew(members) && members != []
    ensures Agrees(s, members) <==> RangeIndependent(s, members)
  {
    forall t: int
      ensures Asked(s, members, t) == ShiftAt(s, 1, members, t)
    {
      AskedInSlot(s, members, t);
    }
    RangeIndependentIffExact(s, members);
  }

  lemma RegularAgrees(s: Settings, members: seq<Member>)
    requires s.startAt.Some? && OpenCrew(members) && members != [] && HandoffsRegular(s)
    ensures Agrees(s, members)
  {
    forall lo: int, hi: int, t: int | lo <= t < hi
      ensures Shown(s, members, lo, hi, t) == Asked(s, members, t)
    {
      AskedInSlot(s, members, t);
      OpenCrewIsWhole(members, lo, hi, t);
      if StartUtc(s) <= t {
        CursorExact(s, members, Max(lo, StartUtc(s)), hi, t);
      }
    }
  }

  // ----- a skipped handoff

  /** Before the jump the slot counts the handoff readings passed; from the jump to the advertised
      boundary it is already k. */
  lemma SlotsAroundSkip(s: Settings, offset: int, jump: int, width: int, k: int, t: int, j: int)
    requires SkippedHandoff(s, offset, jump, width, k) && StartUtc(s) <= t && j >= 1
    ensures StartUtc(s) < jump
    ensures t < jump ==> (SlotIndex(s, t).value >= j <==> t + offset >= HandoffLocal(s, j)) && SlotIndex(s, t).value >= 0
    ensures jump <= t < Handoff(s, k) ==> SlotIndex(s, t) == Some(k)
  {
    StartBeforeHandoff(s, k);
    HandoffLocalStep(s, k);
    var local := LayerZone(s).toLocal(t);
    SlotReaches(local - StartLocal(s), StepSeconds(s), j);
    SlotReaches(local - StartLocal(s), StepSeconds(s), k);
    SlotReaches(local - StartLocal(s), StepSeconds(s), k + 1);
  }

  /** From a cursor before the jump, the next boundary lies before it too, or is the skipped handoff. */
  lemma BoundaryBeforeSkip(s: Settings, offset: int, jump: int, width: int, k: int, cursor: int)
    requires SkippedHandoff(s, offset, jump, width, k) && StartUtc(s) <= cursor < jump
    ensures 0 <= SlotIndex(s, cursor).value < k
    ensures SlotIndex(s, cursor).value < k - 1 ==> cursor < NextBoundary(s, cursor).value < jump
  {
    SlotsAroundSkip(s, offset, jump, width, k, cursor, k);
    var j := SlotIndex(s, cursor).value;
    if j + 1 < k {
      SlotsAroundSkip(s, offset, jump, width, k, cursor, j + 1);
      HandoffReadingsInOrder(s, j + 1, k);
    }
  }

  /** Swept from before the jump, the stretch between jump and boundary belongs to a cursor in slot k - 1. */
  lemma {:induction false} CursorStaysBehind(s: Settings, offset: int, jump: int, width: int, k: int,
                                             members: seq<Member>, cursor: int, windowEnd: int, t: int)
    requires SkippedHandoff(s, offset, jump, width, k) && OpenCrew(members)
    requires StartUtc(s) <= cursor < jump <= t < Handoff(s, k) && t < windowEnd
    ensures SlotIndex(s, CursorAt(s, members, cursor, windowEnd, t)) == Some(k - 1)
    decreases windowEnd - cursor
  {
    OpenCrewHasNoBoundary(members, cursor, windowEnd);
    BoundaryBeforeSkip(s, offset, jump, width, k, cursor);
    if SlotIndex(s, cursor).value < k - 1 {
      CursorStaysBehind(s, offset, jump, width, k, members, NextBoundary(s, cursor).value, windowEnd, t);
    }
  }

  /** Between the jump and the advertised boundary the point query names member k; so does a calendar queried
      from after the jump, but one queried from before it names member k - 1. */
  lemma ShownAfterSkip(s: Settings, offset: int, jump: int, width: int, k: int, members: seq<Member>, lo: int, hi: int, t: int)
    requires SkippedHandoff(s, offset, jump, width, k) && OpenCrew(members) && members != []
    requires lo <= t < hi && jump <= t < Handoff(s, k)
    ensures Asked(s, members, t) == Some(ShiftOf(InTurn(members, k)))
    ensures Shown(s, members, lo, hi, t) == Some(ShiftOf(InTurn(members, if lo < jump then k - 1 else k)))
  {
    StartBeforeHandoff(s, k);
    var from := Max(lo, StartUtc(s));
    var cursor := CursorAt(s, members, from, hi, t);
    SlotsAroundSkip(s, offset, jump, width, k, t, 1);
    AskedInSlot(s, members, t);
    if lo < jump {
      CursorStaysBehind(s, offset, jump, width, k, members, from, hi, t);
    } else {
      SlotsAroundSkip(s, offset, jump, width, k, cursor, 1);
    }
    ShownInCursorSlot(s, members, lo, hi, t, if lo < jump then k - 1 else k);
  }

  // ----- a repeated handoff

  /** Before the clocks go back the slot counts the handoff readings passed; afterwards, until the reading
      comes again, it has fallen back to k - 1. */
  lemma SlotsAroundRepeat(s: Settings, offset: int, jump: int, width: int, k: int, t: int, j: int)
    requires RepeatedHandoff(s, offset, jump, width, k) && StartUtc(s) <= t && j >= 1
    ensures t < jump ==> (SlotIndex(s, t).value >= j <==> t + offset >= HandoffLocal(s, j)) && SlotIndex(s, t).value >= 0
    ensures jump <= t && t + offset - width + Slack(k) <= HandoffLocal(s, k) ==> SlotIndex(s, t) == Some(k - 1)
  {
    StartBeforeHandoff(s, k);
    var elapsed := LayerZone(s).toLocal(t) - StartLocal(s);
    if t < jump {
      SlotReaches(elapsed, StepSeconds(s), j);
    } else if t + offset - width + Slack(k) <= HandoffLocal(s, k) {
      if k == 0 {
        JustBeforeStart(elapsed, StepSeconds(s));
      } else {
        HandoffLocalStep(s, k - 1);
        SlotReaches(elapsed, StepSeconds(s), k);
        if k >= 2 {
          SlotReaches(elapsed, StepSeconds(s), k - 1);
        }
      }
    }
  }

  /** Less than a day, but a second or more, before the start is slot -1. */
  lemma JustBeforeStart(elapsed: int, step: int)
    requires -DAY < elapsed <= -SECOND && step >= DAY_SECONDS
    ensures WholeSeconds(elapsed) / step == -1
  {
    DivReaches(WholeSeconds(elapsed), step, -1);
    DivReaches(WholeSeconds(elapsed), step, 0);
  }

  /** From a cursor before the change, the next boundary lies before it too, or beyond the repeated stretch. */
  lemma BoundaryBeforeRepeat(s: Settings, offset: int, jump: int, width: int, k: int, cursor: int)
    requires RepeatedHandoff(s, offset, jump, width, k) && StartUtc(s) <= cursor < jump
    ensures 0 <= SlotIndex(s, cursor).value <= k
    ensures SlotIndex(s, cursor).value < k ==> cursor < NextBoundary(s, cursor).value < jump
    ensures SlotIndex(s, cursor).value == k ==> HandoffLocal(s, k) - offset + width < NextBoundary(s, cursor).value
  {
    SlotsAroundRepeat(s, offset, jump, width, k, cursor, k + 1);
    HandoffLocalStep(s, k);
    var j := SlotIndex(s, cursor).value;
    if j < k {
      SlotsAroundRepeat(s, offset, jump, width, k, cursor, j + 1);
      HandoffReadingsInOrder(s, j + 1, k);
    }
  }

  /** Swept from before the change, the repeated stretch belongs to a cursor in slot k. */
  lemma {:induction false} CursorStaysAhead(s: Settings, offset: int, jump: int, width: int, k: int,
                                            members: seq<Member>, cursor: int, windowEnd: int, t: int)
    requires RepeatedHandoff(s, offset, jump, width, k) && OpenCrew(members)
    requires StartUtc(s) <= cursor < jump <= t < windowEnd && t + offset - width < HandoffLocal(s, k)
    ensures SlotIndex(s, CursorAt(s, members, cursor, windowEnd, t)) == Some(k)
    decreases windowEnd - cursor
  {
    OpenCrewHasNoBoundary(members, cursor, windowEnd);
    BoundaryBeforeRepeat(s, offset, jump, width, k, cursor);
    if SlotIndex(s, cursor).value < k {
      CursorStaysAhead(s, offset, jump, width, k, members, NextBoundary(s, cursor).value, windowEnd, t);
    }
  }

  /** Until the repeated reading comes again the point query names member k - 1; so does a calendar queried
      from after the change, but one queried from before it names member k. */
  lemma ShownAfterRepeat(s: Settings, offset: int, jump: int, width: int, k: int, members: seq<Member>, lo: int, hi: int, t: int)
    requires RepeatedHandoff(s, offset, jump, width, k) && OpenCrew(members) && members != []
    requires lo <= t < hi && jump <= t && t + offset - width + Slack(k) <= HandoffLocal(s, k)
    ensures Asked(s, members, t) == Some(ShiftOf(InTurn(members, k - 1)))
    ensures Shown(s, members, lo, hi, t) == Some(ShiftOf(InTurn(members, if lo < jump then k else k - 1)))
  {
    var from := Max(lo, StartUtc(s));
    var cursor := CursorAt(s, members, from, hi, t);
    SlotsAroundRepeat(s, offset, jump, width, k, t, 1);
    AskedInSlot(s, members, t);
    if lo < jump {
      CursorStaysAhead(s, offset, jump, width, k, members, from, hi, t);
    } else {
      SlotsAroundRepeat(s, offset, jump, width, k, cursor, 1);
    }
    ShownInCursorSlot(s, members, lo, hi, t, if lo < jump then k else k - 1);
  }

  // ----- exactly when a clock change matters

  /** Across a jump ahead of less than a day the calendar agrees with the point query, and calendars of nested
      ranges with each other, if and only if no handoff is skipped. */
  lemma SpringForwardAgreesIff(s: Settings, offset: int, jump: int, width: int, members: seq<Member>)
    requires s.zone == Some(SpringForward(offset, jump, width)) && 0 < width < DAY
    requires CalendarInterval(s).Some? && s.startAt.Some? && OpenCrew(members) && Distinct(members)
    ensures Agrees(s, members) <==> !HandoffBetween(s, jump + offset, jump + offset + width)
    ensures RangeIndependent(s, members) <==> !HandoffBetween(s, jump + offset, jump + offset + width)
  {
    AgreesIffRangeIndependent(s, members);
    if HandoffBetween(s, jump + offset, jump + offset + width) {
      var k: int :| k >= 1 && jump + offset < HandoffLocal(s, k) < jump + offset + width;
      ShownAfterSkip(s, offset, jump, width, k, members, jump - 1, jump + 1, jump);
      NeighboursDiffer(members, k);
    } else {
      SpringForwardLawIff(s, offset, jump, width);
      SlotLawIffRegular(s);
      RegularAgrees(s, members);
    }
  }

  /** Across a jump back of less than a day both hold if and only if no handoff is repeated. */
  lemma FallBackAgreesIff(s: Settings, offset: int, jump: int, width: int, members: seq<Member>)
    requires s.zone == Some(FallBack(offset, jump, width)) && 0 < width < DAY
    requires CalendarInterval(s).Some? && s.startAt.Some? && OpenCrew(members) && Distinct(members)
    ensures Agrees(s, members) <==> !HandoffRepeated(s, offset, jump, width)
    ensures RangeIndependent(s, members) <==> !HandoffRepeated(s, offset, jump, width)
  {
    AgreesIffRangeIndependent(s, members);
    if HandoffRepeated(s, offset, jump, width) {
      var k: int :| RepeatedHandoff(s, offset, jump, width, k);
      ShownAfterRepeat(s, offset, jump, width, k, members, jump - 1, jump + 1, jump);
      NeighboursDiffer(members, k);
    } else {
      FallBackLawIff(s, offset, jump, width);
      SlotLawIffRegular(s);
      RegularAgrees(s, members);
    }
  }

  // ----- what every built calendar shows there

  /** Every calendar queried from before a skipped handoff names the previous member between the jump and the
      advertised boundary, where the point query already names the next. */
  lemma SkippedHandoffDiverges(s: Settings, offset: int, jump: int, width: int, k: int, members: seq<Member>,
                               lo: int, hi: int, shown: LayerEvents, events: seq<Event>, t: int)
    requires SkippedHandoff(s, offset, jump, width, k) && OpenCrew(members) && Distinct(members)
    requires Built(SingleLayer(s, members), lo, hi, shown, events)
    requires lo < jump <= t < Handoff(s, k) && t < hi
    ensures IdentAt(events, t) == Some(ShiftOf(InTurn(members, k - 1)))
    ensures Asked(s, members, t) == Some(ShiftOf(InTurn(members, k)))
    ensures IdentAt(events, t) != Asked(s, members, t)
  {
    BuiltShows(s, members, lo, hi, shown, events, t);
    ShownAfterSkip(s, offset, jump, width, k, members, lo, hi, t);
    NeighboursDiffer(members, k);
  }

  /** Every calendar queried from before a repeated handoff keeps naming the next member until the reading
      comes again, where the point query is back at the previous one. */
  lemma RepeatedHandoffDiverges(s: Settings, offset: int, jump: int, width: int, k: int, members: seq<Member>,
                                lo: int, hi: int, shown: LayerEvents, events: seq<Event>, t: int)
    requires RepeatedHandoff(s, offset, jump, width, k) && OpenCrew(members) && Distinct(members)
    requires Built(SingleLayer(s, members), lo, hi, shown, events)
    requires lo < jump <= t < hi && t + offset - width + Slack(k) <= HandoffLocal(s, k)
    ensures IdentAt(events, t) == Some(ShiftOf(InTurn(members, k)))
    ensures Asked(s, members, t) == Some(ShiftOf(InTurn(members, k - 1)))
    ensures IdentAt(events, t) != Asked(s, members, t)
  {
    BuiltShows(s, members, lo, hi, shown, events, t);
    ShownAfterRepeat(s, offset, jump, width, k, members, lo, hi, t);
    NeighboursDiffer(members, k);
  }

  /** A calendar queried from inside the repeated stretch finds its next boundary in the past and takes the
      fixed step instead: it names the previous member for a whole duration, long after the handoff came again. */
  lemma RepeatedHandoffLingers(s: Settings, offset: int, jump: int, width: int, k: int, members: seq<Member>,
                               lo: int, hi: int, shown: LayerEvents, events: seq<Event>, t: int)
    requires RepeatedHandoff(s, offset, jump, width, k) && OpenCrew(members) && Distinct(members)
    requires Built(SingleLayer(s, members), lo, hi, shown, events)
    requires jump <= lo && lo + offset - width + Slack(k) <= HandoffLocal(s, k)
    requires HandoffLocal(s, k) <= t + offset - width < HandoffLocal(s, k + 1)
    requires t < lo + DurationSeconds(s) * SECOND && t < hi
    ensures IdentAt(events, t) == Some(ShiftOf(InTurn(members, k - 1)))
    ensures Asked(s, members, t) == Some(ShiftOf(InTurn(members, k)))
    ensures IdentAt(events, t) != Asked(s, members, t)
  {
    BuiltShows(s, members, lo, hi, shown, events, t);
    SlotsAroundRepeat(s, offset, jump, width, k, lo, 1);
    OpenCrewHasNoBoundary(members, lo, hi);
    ShownInCursorSlot(s, members, lo, hi, t, k - 1);
    SlotAfterRepeat(s, offset, jump, width, k, t);
    AskedInSlot(s, members, t);
    NeighboursDiffer(members, k);
  }

  lemma SlotAfterRepeat(s: Settings, offset: int, jump: int, width: int, k: int, t: int)
    requires RepeatedHandoff(s, offset, jump, width, k) && jump <= t
    requires HandoffLocal(s, k) <= t + offset - width < HandoffLocal(s, k + 1)
    ensures SlotIndex(s, t) == Some(k)
  {
    StartBeforeHandoff(s, k);
    var elapsed := LayerZone(s).toLocal(t) - StartLocal(s);
    SlotReaches(elapsed, StepSeconds(s), k + 1);
    if k >= 1 {
      SlotReaches(elapsed, StepSeconds(s), k);
    }
  }

  /** Calendars queried from before and from after a skipped handoff differ up to the advertised boundary. */
  lemma SkippedHandoffRangesDiffer(s: Settings, offset: int, jump: int, width: int, k: int, members: seq<Member>,
                                   lo: int, hi: int, shown: LayerEvents, large: seq<Event>,
                                   lo': int, hi': int, shown': LayerEvents, small: seq<Event>, t: int)
    requires SkippedHandoff(s, offset, jump, width, k) && OpenCrew(members) && Distinct(members)
    requires Built(SingleLayer(s, members), lo, hi, shown, large)
    requires Built(SingleLayer(s, members), lo', hi', shown', small)
    requires lo < jump <= lo' <= t < hi' <= hi && t < Handoff(s, k)
    ensures IdentAt(large, t) == Some(ShiftOf(InTurn(members, k - 1)))
    ensures IdentAt(small, t) == Some(ShiftOf(InTurn(members, k)))
    ensures small != Clip(large, lo', hi')
  {
    BuiltShows(s, members, lo, hi, shown, large, t);
    BuiltShows(s, members, lo', hi', shown', small, t);
    ShownAfterSkip(s, offset, jump, width, k, members, lo, hi, t);
    ShownAfterSkip(s, offset, jump, width, k, members, lo', hi', t);
    NeighboursDiffer(members, k);
    ClipIdentAt(large, lo', hi', t);
  }

  /** Calendars queried from before and from after a repeated handoff differ until the reading comes again. */
  lemma RepeatedHandoffRangesDiffer(s: Settings, offset: int, jump: int, width: int, k: int, members: seq<Member>,
                                    lo: int, hi: int, shown: LayerEvents, large: seq<Event>,
                                    lo': int, hi': int, shown': LayerEvents, small: seq<Event>, t: int)
    requires RepeatedHandoff(s, offset, jump, width, k) && OpenCrew(members) && Distinct(members)
    requires Built(SingleLayer(s, members), lo, hi, shown, large)
    requires Built(SingleLayer(s, members), lo', hi', shown', small)
    requires lo < jump <= lo' <= t < hi' <= hi && t + offset - width + Slack(k) <= HandoffLocal(s, k)
    ensures IdentAt(large, t) == Some(ShiftOf(InTurn(members, k)))
    ensures IdentAt(small, t) == Some(ShiftOf(InTurn(members, k - 1)))
    ensures small != Clip(large, lo', hi')
  {
    BuiltShows(s, members, lo, hi, shown, large, t);
    BuiltShows(s, members, lo', hi', shown', small, t);
    ShownAfterRepeat(s, offset, jump, width, k, members, lo, hi, t);
    ShownAfterRepeat(s, offset, jump, width, k, members, lo', hi', t);
    NeighboursDiffer(members, k);
    ClipIdentAt(large, lo', hi', t);
  }
}

/** Handoff arithmetic of one rotation layer. */
module RotationSchedule {
  import opened Clock

  /** A schedule anchor is stored either as a local wall-clock reading or as an absolute instant. */
  datatype Anchor = WallClock(local: int) | Instant(utc: int)

  datatype RotationType = Daily | Weekly | Custom | OtherType

  datatype IntervalUnit = Days | Weeks | OtherUnit

  /** Schedule settings of a layer or of its parent rotation; `None` is an unset column. */
  datatype Settings = Settings(
    startAt: Option<Anchor>,
    durationSeconds: Option<int>,
    rotationType: Option<RotationType>,
    intervalUnit: Option<IntervalUnit>,
    intervalValue: Option<int>,
    zone: Option<Zone>)

  function OrElse<T>(own: Option<T>, parent: Option<T>): Option<T> {
    if own.Some? then own else parent
  }

  /** Every unset layer value falls back to the parent rotation. */
  function Effective(own: Settings, parent: Settings): Settings {
    Settings(
      OrElse(own.startAt, parent.startAt),
      OrElse(own.durationSeconds, parent.durationSeconds),
      OrElse(own.rotationType, parent.rotationType),
      OrElse(own.intervalUnit, parent.intervalUnit),
      OrElse(own.intervalValue, parent.intervalValue),
      OrElse(own.zone, parent.zone))
  }

  function LayerZone(s: Settings): Zone {
    if s.zone.Some? then s.zone.value else FixedOffset(0)
  }

  function StartLocal(s: Settings): int
    requires s.startAt.Some?
  {
    match s.startAt.value
    case WallClock(local) => local
    case Instant(utc) => LayerZone(s).toLocal(utc)
  }

  function StartUtc(s: Settings): int
    requires s.startAt.Some?
  {
    match s.startAt.value
    case WallClock(local) => LayerZone(s).toUtc(local)
    case Instant(utc) => utc
  }

  function DurationSeconds(s: Settings): (d: int)
    ensures d > 0
  {
    if s.durationSeconds.Some? && s.durationSeconds.value > 0 then s.durationSeconds.value else DAY_SECONDS
  }

  /** The wall-clock interval, in seconds, of a day or week cadence; `None` for a fixed duration. */
  function CalendarInterval(s: Settings): (r: Option<int>)
    ensures r.Some? ==> r.value > 0 && r.value % DAY_SECONDS == 0
    ensures r.Some? && s.rotationType != Some(Custom) ==> r.value == DurationSeconds(s)
  {
    match if s.rotationType.Some? then s.rotationType.value else Daily
    case Daily => if DurationSeconds(s) == DAY_SECONDS then Some(DAY_SECONDS) else None
    case Weekly => if DurationSeconds(s) == 7 * DAY_SECONDS then Some(7 * DAY_SECONDS) else None
    case OtherType => None
    case Custom =>
      var value := if s.intervalValue.Some? then Max(1, s.intervalValue.value) else 1;
      match if s.intervalUnit.Some? then s.intervalUnit.value else Days
      case Days => Some(value * DAY_SECONDS)
      case Weeks => Some(value * (7 * DAY_SECONDS))
      case OtherUnit => None
  }

  /** Zero-based slot at an instant; `None` before the schedule starts. */
  function SlotIndex(s: Settings, at: int): Option<int> {
    if s.startAt.None? then Some(0)
    else if at < StartUtc(s) then None
    else
      match CalendarInterval(s)
      case Some(interval) => Some(WholeSeconds(LayerZone(s).toLocal(at) - StartLocal(s)) / interval)
      case None => Some(WholeSeconds(at - StartUtc(s)) / DurationSeconds(s))
  }

  /** Seconds between handoffs, on the clock the cadence is measured with. */
  function StepSeconds(s: Settings): (d: int)
    ensures d > 0
  {
    if CalendarInterval(s).Some? then CalendarInterval(s).value else DurationSeconds(s)
  }

  /** The wall-clock reading of the k-th handoff of a calendar cadence. */
  function HandoffLocal(s: Settings, k: int): int
    requires s.startAt.Some?
  {
    StartLocal(s) + StepSeconds(s) * SECOND * k
  }

  /** The instant of the k-th handoff. */
  function Handoff(s: Settings, k: int): int
    requires s.startAt.Some?
  {
    if CalendarInterval(s).Some? then LayerZone(s).toUtc(HandoffLocal(s, k))
    else StartUtc(s) + StepSeconds(s) * SECOND * k
  }

  function NextBoundary(s: Settings, at: int): Option<int> {
    if s.startAt.None? then None
    else if at < StartUtc(s) then Some(StartUtc(s))
    else Some(Handoff(s, SlotIndex(s, at).value + 1))
  }

  // ----- the slot law and exactly when it holds

  /** From any instant after the start, the slot is constant up to the advertised boundary and one larger there. */
  ghost predicate SlotLawAt(s: Settings, at: int)
    requires s.startAt.Some? && at >= StartUtc(s)
  {
    var k := SlotIndex(s, at).value;
    && k >= 0
    && at < Handoff(s, k + 1)
    && (forall t: int :: at <= t < Handoff(s, k + 1) ==> SlotIndex(s, t) == Some(k))
    && SlotIndex(s, Handoff(s, k + 1)) == Some(k + 1)
  }

  ghost predicate SlotLaw(s: Settings)
    requires s.startAt.Some?
  {
    && SlotIndex(s, StartUtc(s)) == Some(0)
    && forall at: int :: at >= StartUtc(s) ==> SlotLawAt(s, at)
  }

  /** No handoff falls where the zone repeats or skips wall-clock time, as seen after the start. */
  ghost predicate HandoffsRegular(s: Settings)
    requires s.startAt.Some?
  {
    CalendarInterval(s).Some? ==>
      && StartUtc(s) < Handoff(s, 1)
      && (forall k: int :: k >= 1 ==> Handoff(s, k) < Handoff(s, k + 1))
      && (forall t: int :: t >= StartUtc(s) ==> LayerZone(s).toLocal(t) > StartLocal(s) - SECOND)
      && (forall k: int, t: int :: k >= 1 && t >= StartUtc(s) ==>
            (t < Handoff(s, k) <==> LayerZone(s).toLocal(t) < HandoffLocal(s, k)))
  }

  /** Truncated seconds divided by the step reach `j` exactly when the elapsed time does. */
  lemma SlotReaches(elapsed: int, step: int, j: int)
    requires elapsed > -SECOND && step > 0 && j >= 1
    ensures WholeSeconds(elapsed) / step >= j <==> elapsed >= step * SECOND * j
    ensures WholeSeconds(elapsed) / step >= 0
  {
    var secs := WholeSeconds(elapsed);
    assert secs >= 0;
    DivReaches(secs, step, j);
    assert secs >= step * j <==> elapsed >= SECOND * (step * j);
    assert SECOND * (step * j) == step * SECOND * j;
  }

  /** Under regularity the slot counts the handoffs reached so far. */
  lemma SlotCountsHandoffs(s: Settings, t: int, j: int)
    requires s.startAt.Some? && HandoffsRegular(s) && t >= StartUtc(s) && j >= 1
    ensures SlotIndex(s, t).value >= j <==> t >= Handoff(s, j)
    ensures SlotIndex(s, t).value >= 0
  {
    if CalendarInterval(s).Some? {
      SlotReaches(LayerZone(s).toLocal(t) - StartLocal(s), StepSeconds(s), j);
    } else {
      SlotReaches(t - StartUtc(s), StepSeconds(s), j);
    }
  }

  lemma HandoffsIncrease(s: Settings, k: int)
    requires s.startAt.Some? && HandoffsRegular(s) && k >= 0
    ensures k >= 1 ==> StartUtc(s) < Handoff(s, k)
    ensures k >= 1 ==> Handoff(s, k) < Handoff(s, k + 1)
    decreases k
  {
    if CalendarInterval(s).Some? {
      if k >= 2 {
        HandoffsIncrease(s, k - 1);
      }
    } else {
      var step := StepSeconds(s) * SECOND;
      assert step * (k + 1) == step * k + step;
      assert k >= 1 ==> step * k >= step;
    }
  }

  lemma RegularImpliesLawAt(s: Settings, at: int)
    requires s.startAt.Some? && HandoffsRegular(s) && at >= StartUtc(s)
    ensures SlotLawAt(s, at)
  {
    SlotCountsHandoffs(s, at, 1);
    var k := SlotIndex(s, at).value;
    var next := Handoff(s, k + 1);
    SlotCountsHandoffs(s, at, k + 1);
    forall t: int | at <= t < next
      ensures SlotIndex(s, t) == Some(k)
    {
      SlotCountsHandoffs(s, t, k + 1);
      if k >= 1 {
        SlotCountsHandoffs(s, at, k);
        SlotCountsHandoffs(s, t, k);
      }
    }
    HandoffsIncrease(s, k + 1);
    SlotCountsHandoffs(s, next, k + 1);
    SlotCountsHandoffs(s, next, k + 2);
  }

  /** Following the advertised boundaries from the start visits the slots one by one. */
  lemma {:induction false} LawVisitsEverySlot(s: Settings, k: nat)
    requires s.startAt.Some? && SlotLaw(s)
    ensures var u := if k == 0 then StartUtc(s) else Handoff(s, k);
            u >= StartUtc(s) + k && SlotIndex(s, u) == Some(k) && u < Handoff(s, k + 1)
  {
    if k == 0 {
      assert SlotLawAt(s, StartUtc(s));
    } else {
      LawVisitsEverySlot(s, k - 1);
      var u := if k == 1 then StartUtc(s) else Handoff(s, k - 1);
      assert SlotLawAt(s, u);
      assert SlotLawAt(s, Handoff(s, k));
    }
  }

  /** Under the law, an instant reaches the j-th handoff exactly when its slot is at least j. */
  lemma {:induction false} LawCountsHandoffs(s: Settings, t: int, j: nat)
    requires s.startAt.Some? && SlotLaw(s) && t >= StartUtc(s) && j >= 1
    ensures t >= Handoff(s, j) <==> SlotIndex(s, t).value >= j
    decreases j
  {
    LawVisitsEverySlot(s, j);
    LawVisitsEverySlot(s, j - 1);
    var before := if j == 1 then StartUtc(s) else Handoff(s, j - 1);
    if t < Handoff(s, j) {
      if t >= before {
        assert SlotLawAt(s, before);
      } else {
        LawCountsHandoffs(s, t, j - 1);
      }
    } else {
      SlotsNeverFallBelow(s, t, j, t - Handoff(s, j));
    }
  }

  lemma {:induction false} SlotsNeverFallBelow(s: Settings, t: int, j: nat, distance: nat)
    requires s.startAt.Some? && SlotLaw(s) && j >= 1 && t >= StartUtc(s)
    requires t >= Handoff(s, j) && t - Handoff(s, j) == distance
    ensures SlotIndex(s, t).value >= j
    decreases distance
  {
    LawVisitsEverySlot(s, j);
    assert SlotLawAt(s, Handoff(s, j));
    if t >= Handoff(s, j + 1) {
      SlotsNeverFallBelow(s, t, j + 1, t - Handoff(s, j + 1));
    }
  }

  lemma LawImpliesRegular(s: Settings)
    requires s.startAt.Some? && SlotLaw(s)
    ensures HandoffsRegular(s)
  {
    if CalendarInterval(s).Some? {
      LawVisitsEverySlot(s, 0);
      forall k: int | k >= 1
        ensures Handoff(s, k) < Handoff(s, k + 1)
      {
        LawVisitsEverySlot(s, k);
      }
      forall t: int | t >= StartUtc(s)
        ensures LayerZone(s).toLocal(t) > StartLocal(s) - SECOND
      {
        assert SlotLawAt(s, t);
        DivReaches(WholeSeconds(LayerZone(s).toLocal(t) - StartLocal(s)), StepSeconds(s), 0);
      }
      forall k: int, t: int | k >= 1 && t >= StartUtc(s)
        ensures t < Handoff(s, k) <==> LayerZone(s).toLocal(t) < HandoffLocal(s, k)
      {
        LawCountsHandoffs(s, t, k);
        SlotReaches(LayerZone(s).toLocal(t) - StartLocal(s), StepSeconds(s), k);
      }
    }
  }

  /** The slot law holds exactly for schedules whose handoffs avoid irregular wall-clock readings. */
  lemma SlotLawIffRegular(s: Settings)
    requires s.startAt.Some?
    ensures SlotLaw(s) <==> HandoffsRegular(s)
  {
    if HandoffsRegular(s) {
      forall at: int | at >= StartUtc(s)
        ensures SlotLawAt(s, at)
      {
        RegularImpliesLawAt(s, at);
      }
      SlotCountsHandoffs(s, StartUtc(s), 1);
      HandoffsIncrease(s, 1);
    }
    if SlotLaw(s) {
      LawImpliesRegular(s);
    }
  }

  /** Fixed durations are regular in every zone, and every cadence is regular in a fixed-offset zone. */
  lemma FixedOffsetIsRegular(s: Settings)
    requires s.startAt.Some?
    requires CalendarInterval(s).None? || exists offset: int :: LayerZone(s) == FixedOffset(offset)
    ensures HandoffsRegular(s)
  {
    if CalendarInterval(s).Some? {
      var offset: int :| LayerZone(s) == FixedOffset(offset);
      var step := StepSeconds(s) * SECOND;
      forall k: int
        ensures Handoff(s, k) == StartUtc(s) + step * k
        ensures step * (k + 1) == step * k + step
      {
      }
      assert Handoff(s, 1) == StartUtc(s) + step * 1;
    }
  }

  /** Every handoff of a calendar cadence shows the start's time of day on the local clock. */
  lemma HandoffKeepsWallClock(s: Settings, k: int)
    requires s.startAt.Some? && CalendarInterval(s).Some?
    requires LayerZone(s).toLocal(Handoff(s, k)) == HandoffLocal(s, k)
    ensures LayerZone(s).toLocal(Handoff(s, k)) % DAY == StartLocal(s) % DAY
  {
    var n := CalendarInterval(s).value / DAY_SECONDS;
    assert CalendarInterval(s).value == DAY_SECONDS * n;
    assert StepSeconds(s) * SECOND * k == DAY * (n * k);
    ShiftByDays(StartLocal(s), n * k);
  }

  lemma ShiftByDays(local: int, days: int)
    ensures (local + DAY * days) % DAY == local % DAY
  {
  }

  // ----- the schedule in terms of the stored columns

  /** A stored interval counts from one; unset or smaller means one. */
  function IntervalOr1(s: Settings): int {
    if s.intervalValue.Some? && s.intervalValue.value >= 1 then s.intervalValue.value else 1
  }

  /** Daily, weekly and custom day or week cadences hand off every so many days at the start's wall-clock
      time: one, seven, n, or seven n. */
  lemma CalendarHandoffs(s: Settings, k: int)
    requires s.startAt.Some?
    ensures (s.rotationType.None? || s.rotationType == Some(Daily))
            && (s.durationSeconds.None? || s.durationSeconds.value <= 0 || s.durationSeconds.value == 86400) ==>
              Handoff(s, k) == LayerZone(s).toUtc(StartLocal(s) + DAY * k)
    ensures s.rotationType == Some(Weekly) && s.durationSeconds == Some(604800) ==>
              Handoff(s, k) == LayerZone(s).toUtc(StartLocal(s) + 7 * DAY * k)
    ensures s.rotationType == Some(Custom) && (s.intervalUnit.None? || s.intervalUnit == Some(Days)) ==>
              Handoff(s, k) == LayerZone(s).toUtc(StartLocal(s) + DAY * (IntervalOr1(s) * k))
    ensures s.rotationType == Some(Custom) && s.intervalUnit == Some(Weeks) ==>
              Handoff(s, k) == LayerZone(s).toUtc(StartLocal(s) + 7 * DAY * (IntervalOr1(s) * k))
  {
    var n := IntervalOr1(s);
    assert n * DAY_SECONDS * SECOND * k == DAY * (n * k);
    assert n * (7 * DAY_SECONDS) * SECOND * k == 7 * DAY * (n * k);
  }

  /** Every other schedule hands off at multiples of the stored duration, or of a day if that is unset or
      not positive, whatever the zone. */
  lemma FixedHandoffs(s: Settings, k: int)
    requires s.startAt.Some?
    requires || s.rotationType == Some(OtherType)
             || (s.rotationType == Some(Custom) && s.intervalUnit == Some(OtherUnit))
             || (s.rotationType == Some(Weekly) && s.durationSeconds != Some(604800))
             || ((s.rotationType.None? || s.rotationType == Some(Daily))
                 && s.durationSeconds.Some? && s.durationSeconds.value > 0 && s.durationSeconds.value != 86400)
    ensures s.durationSeconds.Some? && s.durationSeconds.value > 0 ==>
              Handoff(s, k) == StartUtc(s) + s.durationSeconds.value * SECOND * k
    ensures s.durationSeconds.None? || s.durationSeconds.value <= 0 ==> Handoff(s, k) == StartUtc(s) + DAY * k
  {
  }

  /** The schedule begins at its anchor, given as an instant or as a reading of the layer's clock, UTC if it
      names no zone; without an anchor it is always in its first slot. */
  lemma ScheduleBegins(s: Settings, t: int)
    ensures s.startAt.None? ==> SlotIndex(s, t) == Some(0)
    ensures s.startAt.Some? && s.startAt.value.Instant? ==>
              (SlotIndex(s, t).None? <==> t < s.startAt.value.utc)
              && StartLocal(s) == LayerZone(s).toLocal(s.startAt.value.utc)
    ensures s.startAt.Some? && s.startAt.value.WallClock? ==>
              (SlotIndex(s, t).None? <==> t < LayerZone(s).toUtc(s.startAt.value.local))
              && StartLocal(s) == s.startAt.value.local
    ensures s.zone.None? ==> LayerZone(s).toLocal(t) == t && LayerZone(s).toUtc(t) == t
    ensures s.zone.Some? ==> LayerZone(s) == s.zone.value
  {
  }

  // ----- conditions on the zone

  /** It suffices that every handoff reading, the start included, splits time cleanly and reads back. */
  lemma RegularReadingsSuffice(s: Settings)
    requires s.startAt.Some? && s.startAt.value.WallClock?
    requires forall k: int :: k >= 0 ==>
               && RegularAt(LayerZone(s), HandoffLocal(s, k))
               && LayerZone(s).toLocal(LayerZone(s).toUtc(HandoffLocal(s, k))) == HandoffLocal(s, k)
    ensures HandoffsRegular(s)
  {
    if CalendarInterval(s).Some? {
      var z := LayerZone(s);
      assert HandoffLocal(s, 0) == StartLocal(s);
      assert RegularAt(z, HandoffLocal(s, 0));
      ReadingsAdvance(s, 0);
      forall k: int | k >= 1
        ensures Handoff(s, k) < Handoff(s, k + 1)
      {
        ReadingsAdvance(s, k);
      }
      forall k: int, t: int | k >= 1 && t >= StartUtc(s)
        ensures t < Handoff(s, k) <==> z.toLocal(t) < HandoffLocal(s, k)
      {
        assert RegularAt(z, HandoffLocal(s, k));
      }
    }
  }

  lemma ReadingsAdvance(s: Settings, k: int)
    requires s.startAt.Some? && RegularAt(LayerZone(s), HandoffLocal(s, k + 1))
    requires LayerZone(s).toLocal(LayerZone(s).toUtc(HandoffLocal(s, k))) == HandoffLocal(s, k)
    ensures LayerZone(s).toUtc(HandoffLocal(s, k)) < LayerZone(s).toUtc(HandoffLocal(s, k + 1))
  {
    HandoffLocalStep(s, k);
  }

  lemma HandoffLocalStep(s: Settings, k: int)
    requires s.startAt.Some?
    ensures HandoffLocal(s, k + 1) == HandoffLocal(s, k) + StepSeconds(s) * SECOND
    ensures CalendarInterval(s).Some? ==> StepSeconds(s) * SECOND >= DAY
  {
    var step := StepSeconds(s) * SECOND;
    assert step * (k + 1) == step * k + step;
  }

  lemma {:induction false} HandoffReadingsInOrder(s: Settings, i: int, j: int)
    requires s.startAt.Some? && CalendarInterval(s).Some? && i <= j
    ensures HandoffLocal(s, i) + (j - i) * DAY <= HandoffLocal(s, j)
    decreases j - i
  {
    if i < j {
      HandoffReadingsInOrder(s, i, j - 1);
      HandoffLocalStep(s, j - 1);
    }
  }

  lemma StartBeforeHandoff(s: Settings, k: int)
    requires s.startAt.Some? && CalendarInterval(s).Some? && k >= 0
    ensures HandoffLocal(s, 0) == StartLocal(s)
    ensures k >= 1 ==> StartLocal(s) + DAY <= HandoffLocal(s, k)
  {
    HandoffReadingsInOrder(s, 0, k);
  }

  // ----- clock changes

  /** Some handoff after the start falls strictly between two wall-clock readings. */
  ghost predicate HandoffBetween(s: Settings, lo: int, hi: int)
    requires s.startAt.Some?
  {
    exists k: int :: k >= 1 && lo < HandoffLocal(s, k) < hi
  }

  /** The k-th handoff of a calendar cadence is skipped when the clocks jump ahead. */
  ghost predicate SkippedHandoff(s: Settings, offset: int, jump: int, width: int, k: int) {
    && s.zone == Some(SpringForward(offset, jump, width))
    && 0 < width < DAY
    && CalendarInterval(s).Some?
    && s.startAt.Some?
    && k >= 1
    && jump + offset < HandoffLocal(s, k) < jump + offset + width
  }

  /** Elapsed time is cut to whole seconds, so the clock must fall a second below the start to count. */
  function Slack(k: int): int {
    if k == 0 then SECOND else 1
  }

  /** The k-th handoff of a calendar cadence, or for k = 0 its start, is read again when the clocks go back. */
  ghost predicate RepeatedHandoff(s: Settings, offset: int, jump: int, width: int, k: int) {
    && s.zone == Some(FallBack(offset, jump, width))
    && 0 < width < DAY
    && CalendarInterval(s).Some?
    && s.startAt.Some?
    && StartUtc(s) < jump
    && k >= 0
    && jump + offset - width + Slack(k) <= HandoffLocal(s, k) < jump + offset
  }

  ghost predicate HandoffRepeated(s: Settings, offset: int, jump: int, width: int) {
    exists k: int :: RepeatedHandoff(s, offset, jump, width, k)
  }

  /** A handoff inside a skipped stretch breaks the slot law: the slot changes at the jump, but the
      advertised boundary lies after it. */
  lemma SkippedHandoffBreaksSlotLaw(s: Settings, offset: int, jump: int, width: int, k: int)
    requires SkippedHandoff(s, offset, jump, width, k)
    ensures !SlotLaw(s)
  {
    StartBeforeHandoff(s, k);
    assert StartUtc(s) < jump < Handoff(s, k) && !(LayerZone(s).toLocal(jump) < HandoffLocal(s, k));
    SlotLawIffRegular(s);
  }

  /** A handoff inside a repeated stretch breaks it too: after the change the slot falls back. */
  lemma RepeatedHandoffBreaksSlotLaw(s: Settings, offset: int, jump: int, width: int, k: int)
    requires RepeatedHandoff(s, offset, jump, width, k)
    ensures !SlotLaw(s)
  {
    StartBeforeHandoff(s, k);
    if k >= 1 {
      assert !(jump < Handoff(s, k)) && LayerZone(s).toLocal(jump) < HandoffLocal(s, k);
    } else {
      assert !(LayerZone(s).toLocal(jump) > StartLocal(s) - SECOND);
    }
    SlotLawIffRegular(s);
  }

  /** Across a jump ahead of less than a day, the slot law holds exactly when no handoff is skipped. */
  lemma SpringForwardLawIff(s: Settings, offset: int, jump: int, width: int)
    requires s.zone == Some(SpringForward(offset, jump, width)) && 0 < width < DAY
    requires CalendarInterval(s).Some? && s.startAt.Some?
    ensures SlotLaw(s) <==> !HandoffBetween(s, jump + offset, jump + offset + width)
  {
    if HandoffBetween(s, jump + offset, jump + offset + width) {
      var k: int :| k >= 1 && jump + offset < HandoffLocal(s, k) < jump + offset + width;
      SkippedHandoffBreaksSlotLaw(s, offset, jump, width, k);
    } else {
      HandoffsAdvance(s);
      SlotLawIffRegular(s);
    }
  }

  /** Across a jump back of less than a day, the slot law holds exactly when no handoff is repeated. */
  lemma FallBackLawIff(s: Settings, offset: int, jump: int, width: int)
    requires s.zone == Some(FallBack(offset, jump, width)) && 0 < width < DAY
    requires CalendarInterval(s).Some? && s.startAt.Some?
    ensures SlotLaw(s) <==> !HandoffRepeated(s, offset, jump, width)
  {
    if HandoffRepeated(s, offset, jump, width) {
      var k: int :| RepeatedHandoff(s, offset, jump, width, k);
      RepeatedHandoffBreaksSlotLaw(s, offset, jump, width, k);
    } else {
      assert !RepeatedHandoff(s, offset, jump, width, 0);
      HandoffsAdvance(s);
      forall k: int | k >= 1
        ensures !(jump + offset - width < HandoffLocal(s, k) < jump + offset)
      {
        assert !RepeatedHandoff(s, offset, jump, width, k);
      }
      SlotLawIffRegular(s);
    }
  }

  lemma HandoffsAdvance(s: Settings)
    requires s.startAt.Some? && CalendarInterval(s).Some?
    ensures forall k: int :: k >= 0 ==> HandoffLocal(s, k) + DAY <= HandoffLocal(s, k + 1)
    ensures forall k: int :: k >= 1 ==> StartLocal(s) + DAY <= HandoffLocal(s, k)
    ensures HandoffLocal(s, 0) == StartLocal(s)
  {
    forall k: int | k >= 0
      ensures HandoffLocal(s, k) + DAY <= HandoffLocal(s, k + 1)
      ensures k >= 1 ==> StartLocal(s) + DAY <= HandoffLocal(s, k)
    {
      HandoffLocalStep(s, k);
      StartBeforeHandoff(s, k);
    }
  }
}

/** The schedule-gap scanner of the on-call health report. */
module GapScan {
  import opened Clock
  import opened RotationSchedule
  import opened OnCall
  import opened Windows

  const MAX_GAP_ISSUES: nat := 20

  datatype Issue = ScheduleGap(gap: Window) | OutputTruncated

  /** Somebody active resolves at the instant. */
  predicate Staffed(rot: Rotation, t: int) {
    var user := CurrentUser(rot, t);
    user.Some? && user.value.active && !user.value.deleted
  }

  /** Unstaffed is exactly: nobody on call, or somebody an override put there who is inactive or deleted. */
  lemma UnstaffedExactly(rot: Rotation, t: int)
    requires WellFormed(rot)
    ensures !Staffed(rot, t) <==>
            || CurrentUser(rot, t).None?
            || exists o :: rot.enabled && !rot.deleted && TopOverride(rot, o, t) && (!o.user.active || o.user.deleted)
  {
    var user := CurrentUser(rot, t);
    if user.Some? {
      PointQueryAnswers(rot, t, user.value);
      if FirstNames(rot.layers, rot, t, user.value) && ActiveOverride(rot.overrides, t).None? {
        var i :| NamesFirst(rot.layers, rot, t, user.value, i);
        var crew := OnDutyMembersAt(rot.layers[i].members, t);
        CrewTakesTurns(rot.layers[i].members, t, SlotIndex(LayerSettings(rot, rot.layers[i]), t).value % |crew|);
      }
      forall o | TopOverride(rot, o, t)
        ensures o.user == user.value
      {
        PointQueryAnswers(rot, t, o.user);
      }
    }
  }

  lemma {:induction false} CrewTakesTurns(members: seq<Member>, t: int, i: int)
    requires 0 <= i < |OnDutyMembersAt(members, t)|
    ensures TakesTurns(OnDutyMembersAt(members, t)[i], t)
  {
    var first := EffectiveAt(members[0], t) && OnDuty(members[0]);
    if !first {
      CrewTakesTurns(members[1..], t, i);
    } else if i > 0 {
      CrewTakesTurns(members[1..], t, i - 1);
    }
  }

  /** The scan only needs to know when somebody resolves. */
  function Staffing(rot: Rotation): int -> bool {
    t => Staffed(rot, t)
  }

  /** The scanner looks at `lo` and then every `step`. */
  predicate IsSample(lo: int, step: int, t: int)
    requires step > 0
  {
    lo <= t && (t - lo) % step == 0
  }

  /** Every sampled instant before the limit lies in a gap exactly when nobody resolves there. */
  ghost predicate GapsExact(staffed: int -> bool, lo: int, step: int, limit: int, gaps: seq<Window>)
    requires step > 0
  {
    forall t: int :: t < limit && IsSample(lo, step, t) ==> (Somewhere(gaps, t) <==> !staffed(t))
  }

  /** The gap still open at the cursor, closed there. */
  function WithOpenGap(gaps: seq<Window>, gapStart: Option<int>, end: int): seq<Window> {
    if gapStart.Some? then gaps + [Window(gapStart.value, end)] else gaps
  }

  /** The scanner's state between samples: closed gaps lie apart, the open one began at an earlier sample. */
  ghost predicate Scanning(gaps: seq<Window>, gapStart: Option<int>, lo: int, cursor: int) {
    && Separated(gaps)
    && AllWithin(gaps, lo, cursor)
    && (gapStart.Some? ==> lo <= gapStart.value < cursor && (gaps != [] ==> gaps[|gaps| - 1].end < gapStart.value))
    && (gapStart.None? && gaps != [] ==> gaps[|gaps| - 1].end < cursor)
  }

  lemma WithOpenGapSeparated(gaps: seq<Window>, gapStart: Option<int>, lo: int, cursor: int, end: int)
    requires Scanning(gaps, gapStart, lo, cursor) && (gapStart.Some? ==> gapStart.value < end)
    ensures Separated(WithOpenGap(gaps, gapStart, end))
  {
  }

  /** Open a gap at an unstaffed sample, close it at a staffed one. */
  method ScanSample(gaps: seq<Window>, gapStart: Option<int>, cursor: int, staffed: bool, ghost lo: int, ghost next: int)
    returns (gaps': seq<Window>, gapStart': Option<int>)
    requires Scanning(gaps, gapStart, lo, cursor) && lo <= cursor < next
    ensures Scanning(gaps', gapStart', lo, next)
    ensures Somewhere(WithOpenGap(gaps', gapStart', next), cursor) <==> !staffed
    ensures forall t: int :: t < cursor ==>
              (Somewhere(WithOpenGap(gaps', gapStart', next), t) <==> Somewhere(WithOpenGap(gaps, gapStart, cursor), t))
    ensures gapStart'.Some? ==> gapStart'.value <= cursor
    ensures AllWithin(gaps', lo, cursor)
  {
    gaps', gapStart' := gaps, gapStart;
    ghost var before := WithOpenGap(gaps, gapStart, cursor);
    if !staffed && gapStart.None? {
      gapStart' := Some(cursor);
      assert Inside(WithOpenGap(gaps', gapStart', next)[|gaps|], cursor);
      forall t: int | t < cursor
        ensures Somewhere(WithOpenGap(gaps', gapStart', next), t) <==> Somewhere(before, t)
      {
        SomewhereAppend(gaps, Window(cursor, next), t);
      }
    } else if staffed && gapStart.Some? {
      WithOpenGapSeparated(gaps, gapStart, lo, cursor, cursor);
      gaps' := gaps + [Window(gapStart.value, cursor)];
      gapStart' := None;
    } else if gapStart.Some? {
      assert Inside(WithOpenGap(gaps', gapStart', next)[|gaps|], cursor);
      forall t: int | t < cursor
        ensures Somewhere(WithOpenGap(gaps', gapStart', next), t) <==> Somewhere(before, t)
      {
        SameCoverUpTo(before, WithOpenGap(gaps', gapStart', next), cursor, t);
      }
    }
  }

  /** Visit the samples in turn. */
  method ScanSamples(staffed: int -> bool, lo: int, hi: int, step: int)
    returns (gaps: seq<Window>, gapStart: Option<int>, ghost end: int)
    requires step > 0
    ensures end >= hi && Scanning(gaps, gapStart, lo, end) && AllWithin(gaps, lo, hi)
    ensures gapStart.Some? ==> gapStart.value < hi
    ensures GapsExact(staffed, lo, step, end, WithOpenGap(gaps, gapStart, end))
  {
    gaps := [];
    gapStart := None;
    var cursor := lo;
    while cursor < hi
      invariant IsSample(lo, step, cursor)
      invariant Scanning(gaps, gapStart, lo, cursor) && AllWithin(gaps, lo, hi)
      invariant gapStart.Some? ==> gapStart.value < hi
      invariant GapsExact(staffed, lo, step, cursor, WithOpenGap(gaps, gapStart, cursor))
      decreases hi - cursor
    {
      ghost var before := WithOpenGap(gaps, gapStart, cursor);
      var next := cursor + step;
      gaps, gapStart := ScanSample(gaps, gapStart, cursor, staffed(cursor), lo, next);
      StepExact(staffed, lo, step, cursor, next, before, WithOpenGap(gaps, gapStart, next));
      cursor := next;
    }
    end := cursor;
  }

  /** The gaps found are ordered, strictly apart and exact at every sample. */
  method ScanGaps(staffed: int -> bool, lo: int, hi: int, step: int) returns (gaps: seq<Window>)
    requires step > 0
    ensures Separated(gaps) && AllWithin(gaps, lo, hi)
    ensures GapsExact(staffed, lo, step, hi, gaps)
  {
    var closed, gapStart;
    ghost var end;
    closed, gapStart, end := ScanSamples(staffed, lo, hi, step);
    WithOpenGapSeparated(closed, gapStart, lo, end, hi);
    gaps := WithOpenGap(closed, gapStart, hi);
    CloseAtEnd(staffed, lo, step, hi, end, WithOpenGap(closed, gapStart, end), gaps);
  }

  lemma CloseAtEnd(staffed: int -> bool, lo: int, step: int, hi: int, cursor: int, scanned: seq<Window>, gaps: seq<Window>)
    requires step > 0 && hi <= cursor && GapsExact(staffed, lo, step, cursor, scanned) && |scanned| == |gaps|
    requires forall i :: 0 <= i < |gaps| ==>
               scanned[i].start == gaps[i].start && (scanned[i].end == gaps[i].end || (scanned[i].end >= hi && gaps[i].end >= hi))
    ensures GapsExact(staffed, lo, step, hi, gaps)
  {
  }

  /** Join gaps that touch or overlap, holding the current one back until the next starts later. */
  method MergeGaps(gaps: seq<Window>) returns (merged: seq<Window>)
    requires SortedByStart(gaps) && Proper(gaps)
    ensures Separated(merged)
    ensures forall t: int :: Somewhere(merged, t) <==> Somewhere(gaps, t)
    ensures Separated(gaps) ==> merged == gaps
  {
    if gaps == [] {
      return [];
    }
    merged := [];
    var current := gaps[0];
    assert merged + [current] == gaps[..1];
    for k := 1 to |gaps|
      invariant Separated(merged + [current]) && current.start <= gaps[k - 1].start
      invariant forall t: int :: Somewhere(merged + [current], t) <==> Somewhere(gaps[..k], t)
      invariant Separated(gaps) ==> merged + [current] == gaps[..k]
    {
      ghost var before, seen := merged + [current], gaps[..k + 1];
      assert seen == gaps[..k] + [gaps[k]];
      MergeStepKeeps(before, gaps[k], 0);
      if gaps[k].start <= current.end {
        current := Window(current.start, Max(current.end, gaps[k].end));
      } else {
        merged, current := merged + [current], gaps[k];
      }
      ghost var after := merged + [current];
      assert after == MergeStep(before, gaps[k]);
      forall t: int
        ensures Somewhere(after, t) <==> Somewhere(seen, t)
      {
        MergeStepKeeps(before, gaps[k], t);
        SomewhereAppend(gaps[..k], gaps[k], t);
      }
    }
    merged := merged + [current];
    assert gaps[..|gaps|] == gaps;
  }

  /** Report the gaps of an enabled rotation: exact at the samples, the first 20 and a notice when there are more. */
  method CheckScheduleGaps(rot: Rotation, lo: int, hi: int, sampleMinutes: int) returns (issues: seq<Issue>, ghost gaps: seq<Window>)
    ensures !rot.enabled ==> issues == []
    ensures rot.enabled ==> Separated(gaps) && AllWithin(gaps, lo, hi)
    ensures rot.enabled ==> GapsExact(Staffing(rot), lo, Max(15, sampleMinutes) * MINUTE, hi, gaps)
    ensures rot.enabled ==> |issues| == if |gaps| <= 20 then |gaps| else 21
    ensures forall i :: 0 <= i < |issues| ==>
              if i < 20 then i < |gaps| && issues[i] == ScheduleGap(gaps[i]) else issues[i] == OutputTruncated
  {
    if !rot.enabled {
      return [], [];
    }
    var found := ScanGaps(Staffing(rot), lo, hi, Max(15, sampleMinutes) * MINUTE);
    var merged := MergeGaps(found);
    gaps := found;
    if |merged| <= MAX_GAP_ISSUES {
      issues := seq(|merged|, i requires 0 <= i < |merged| => ScheduleGap(merged[i]));
    } else {
      issues := seq(MAX_GAP_ISSUES, i requires 0 <= i < |merged| => ScheduleGap(merged[i])) + [OutputTruncated];
    }
  }

  /** Lists that differ only in where the last window ends cover the same instants before both ends. */
  lemma SameCoverUpTo(p: seq<Window>, q: seq<Window>, limit: int, t: int)
    requires |p| == |q| && t < limit
    requires forall i :: 0 <= i < |p| ==> p[i].start == q[i].start && (p[i].end == q[i].end || (p[i].end >= limit && q[i].end >= limit))
    ensures Somewhere(p, t) <==> Somewhere(q, t)
  {
  }

  /** The sample after this one is a step later, with none in between. */
  lemma NextSample(lo: int, step: int, cursor: int, t: int)
    requires step > 0 && IsSample(lo, step, cursor)
    ensures IsSample(lo, step, cursor + step)
    ensures cursor <= t < cursor + step && IsSample(lo, step, t) ==> t == cursor
  {
    var q := (cursor - lo) / step;
    assert cursor - lo == step * q;
    assert cursor + step - lo == step * (q + 1);
    MultipleHasNoRemainder(step, q + 1);
    if IsSample(lo, step, t) {
      var p := (t - lo) / step;
      assert t - lo == step * p;
      MulOrder(step, q, p);
      MulOrder(step, p, q);
    }
  }

  lemma MultipleHasNoRemainder(step: int, q: int)
    requires step > 0
    ensures (step * q) % step == 0
  {
    var r := (step * q) % step;
    var d := (step * q) / step;
    assert step * q == step * d + r;
    MulOrder(step, d, q);
    MulOrder(step, q, d);
  }

  /** Between two samples only the sample at the cursor can change its verdict. */
  lemma StepExact(staffed: int -> bool, lo: int, step: int, cursor: int, next: int, before: seq<Window>, after: seq<Window>)
    requires step > 0 && next == cursor + step && IsSample(lo, step, cursor)
    requires GapsExact(staffed, lo, step, cursor, before)
    requires forall t: int :: t < cursor ==> (Somewhere(after, t) <==> Somewhere(before, t))
    requires Somewhere(after, cursor) <==> !staffed(cursor)
    ensures IsSample(lo, step, next)
    ensures GapsExact(staffed, lo, step, next, after)
  {
    NextSample(lo, step, cursor, cursor);
    forall t: int | t < next && IsSample(lo, step, t)
      ensures Somewhere(after, t) <==> !staffed(t)
    {
      NextSample(lo, step, cursor, t);
      if t < cursor {
        assert Somewhere(before, t) <==> !staffed(t);
      }
    }
  }
}

/** Overlapping candidates collapse to one winner per time slice. */
module Collapse {
  import opened Clock
  import opened Events

  datatype Candidate = Candidate(event: Event, priority: int, order: int)

  /** Strictly higher by (priority, order). */
  predicate Beats(c: Candidate, d: Candidate) {
    c.priority > d.priority || (c.priority == d.priority && c.order > d.order)
  }

  /** The winner at an instant: the first of the highest candidates covering it. */
  function WinnerAt(cands: seq<Candidate>, t: int): Option<Candidate> {
    if cands == [] then None
    else
      var best := WinnerAt(cands[..|cands| - 1], t);
      var c := cands[|cands| - 1];
      if Covers(c.event, t) && (best.None? || Beats(c, best.value)) then Some(c) else best
  }

  /** Candidate i covers t, none covering t beats it, and it beats the earlier ones. */
  ghost predicate IsWinner(cands: seq<Candidate>, t: int, i: int) {
    && 0 <= i < |cands|
    && Covers(cands[i].event, t)
    && (forall j :: 0 <= j < |cands| && Covers(cands[j].event, t) ==> !Beats(cands[j], cands[i]))
    && (forall j :: 0 <= j < i && Covers(cands[j].event, t) ==> Beats(cands[i], cands[j]))
  }

  /** `WinnerAt` is the (priority, order) maximum of the covering candidates, the earliest one on ties. */
  lemma {:induction false} WinnerIsMaximum(cands: seq<Candidate>, t: int) returns (i: int)
    ensures WinnerAt(cands, t).None? <==> forall j :: 0 <= j < |cands| ==> !Covers(cands[j].event, t)
    ensures WinnerAt(cands, t).Some? ==> IsWinner(cands, t, i) && cands[i] == WinnerAt(cands, t).value
  {
    i := 0;
    if cands != [] {
      var n := |cands| - 1;
      var init := cands[..n];
      i := WinnerIsMaximum(init, t);
      assert forall j :: 0 <= j < n ==> init[j] == cands[j];
      if Covers(cands[n].event, t) && (WinnerAt(init, t).None? || Beats(cands[n], init[i])) {
        i := n;
      }
    }
  }

  function ClipTo(e: Event, lo: int, hi: int): Event {
    Event(Max(e.start, lo), Min(e.end, hi), e.ident)
  }

  lemma WinnerAppend(cands: seq<Candidate>, c: Candidate, t: int)
    ensures WinnerAt(cands + [c], t) ==
              if Covers(c.event, t) && (WinnerAt(cands, t).None? || Beats(c, WinnerAt(cands, t).value))
              then Some(c) else WinnerAt(cands, t)
  {
  }

  /** The two winners agree up to clipping. */
  ghost predicate SameWinner(p: Option<Candidate>, q: Option<Candidate>, lo: int, hi: int) {
    p == if q.Some? then Some(q.value.(event := ClipTo(q.value.event, lo, hi))) else None
  }

  /** Every endpoint of every candidate is one of the points. */
  ghost predicate Endpoints(cands: seq<Candidate>, points: set<int>) {
    forall i :: 0 <= i < |cands| ==> cands[i].event.start in points && cands[i].event.end in points
  }

  /** Clip the candidates to the range, dropping the empty ones, and collect the cut points. */
  method Normalize(cands: seq<Candidate>, lo: int, hi: int)
    returns (normalized: seq<Candidate>, points: set<int>)
    ensures lo in points && hi in points
    ensures lo <= hi ==> forall p :: p in points ==> lo <= p <= hi
    ensures Endpoints(normalized, points)
    ensures forall i :: 0 <= i < |normalized| ==> lo <= normalized[i].event.start < normalized[i].event.end <= hi
    ensures forall t: int :: lo <= t < hi ==> SameWinner(WinnerAt(normalized, t), WinnerAt(cands, t), lo, hi)
  {
    normalized, points := [], {lo, hi};
    for k := 0 to |cands|
      invariant lo in points && hi in points
      invariant lo <= hi ==> forall p :: p in points ==> lo <= p <= hi
      invariant Endpoints(normalized, points)
      invariant forall i :: 0 <= i < |normalized| ==> lo <= normalized[i].event.start < normalized[i].event.end <= hi
      invariant forall t: int :: lo <= t < hi ==>
                  SameWinner(WinnerAt(normalized, t), WinnerAt(cands[..k], t), lo, hi)
    {
      ghost var before, seen := normalized, cands[..k + 1];
      assert seen == cands[..k] + [cands[k]];
      var event := ClipTo(cands[k].event, lo, hi);
      if event.start < event.end {
        normalized := normalized + [cands[k].(event := event)];
        points := points + {event.start, event.end};
      }
      forall t: int | lo <= t < hi
        ensures SameWinner(WinnerAt(normalized, t), WinnerAt(seen, t), lo, hi)
      {
        WinnerAppend(cands[..k], cands[k], t);
        WinnerAppend(before, cands[k].(event := event), t);
      }
    }
    assert cands[..|cands|] == cands;
  }

  predicate StrictlyIncreasing(s: seq<int>) {
    forall i, j :: 0 <= i < j < |s| ==> s[i] < s[j]
  }

  function InsertPoint(x: int, s: seq<int>): (r: seq<int>)
    requires StrictlyIncreasing(s) && x !in s
    ensures StrictlyIncreasing(r) && r != []
    ensures r[|r| - 1] == if s == [] then x else Max(x, s[|s| - 1])
    ensures forall y :: y in r <==> y in s || y == x
  {
    if s == [] || s[|s| - 1] < x then s + [x]
    else
      assert s == s[..|s| - 1] + [s[|s| - 1]];
      InsertPoint(x, s[..|s| - 1]) + [s[|s| - 1]]
  }

  /** The points in ascending order. */
  method SortPoints(points: set<int>) returns (sorted: seq<int>)
    ensures StrictlyIncreasing(sorted)
    ensures forall p :: p in sorted <==> p in points
  {
    sorted := [];
    var left := points;
    while left != {}
      invariant left <= points
      invariant StrictlyIncreasing(sorted)
      invariant forall q :: q in sorted <==> q in points && q !in left
      decreases left
    {
      SomeElement(left);
      var p :| p in left;
      left := left - {p};
      sorted := InsertPoint(p, sorted);
    }
  }

  predicate Spans(c: Candidate, start: int, end: int) {
    c.event.start <= start && end <= c.event.end
  }

  /** The best candidate spanning a slice, first on ties. */
  method PickWinner(cands: seq<Candidate>, start: int, end: int) returns (winner: Option<Candidate>)
    requires start < end
    requires forall i :: 0 <= i < |cands| ==> !(start < cands[i].event.start < end) && !(start < cands[i].event.end < end)
    ensures forall t: int :: start <= t < end ==> winner == WinnerAt(cands, t)
  {
    winner := None;
    for k := 0 to |cands|
      invariant forall t: int :: start <= t < end ==> winner == WinnerAt(cands[..k], t)
    {
      ghost var seen := cands[..k + 1];
      assert seen == cands[..k] + [cands[k]];
      forall t: int | start <= t < end
        ensures WinnerAt(seen, t) ==
                if Spans(cands[k], start, end) && (winner.None? || Beats(cands[k], winner.value))
                then Some(cands[k]) else winner
      {
        WinnerAppend(cands[..k], cands[k], t);
      }
      if Spans(cands[k], start, end) && (winner.None? || Beats(cands[k], winner.value)) {
        winner := Some(cands[k]);
      }
    }
    assert cands[..|cands|] == cands;
  }

  /** Extend the last event when the new one continues the same shift, else append it. */
  function AppendOrMerge(events: seq<Event>, e: Event): seq<Event> {
    if events == [] then [e]
    else
      var n := |events| - 1;
      if events[n].end == e.start && events[n].ident == e.ident
      then events[n := events[n].(end := e.end)]
      else events + [e]
  }

  lemma ExtendLastKeeps(events: seq<Event>, end: int)
    requires Canonical(events) && events != [] && events[|events| - 1].end <= end
    ensures Canonical(events[|events| - 1 := events[|events| - 1].(end := end)])
  {
  }

  lemma AppendOrMergeKeeps(events: seq<Event>, e: Event, lo: int)
    requires Canonical(events) && e.start < e.end && Within(events, lo, e.start) && lo <= e.start
    ensures Canonical(AppendOrMerge(events, e)) && Within(AppendOrMerge(events, e), lo, e.end)
  {
    if events != [] && events[|events| - 1].end == e.start && events[|events| - 1].ident == e.ident {
      ExtendLastKeeps(events, e.end);
    } else {
      AppendIsCanonical(events, e);
    }
  }

  lemma AppendOrMergeNames(events: seq<Event>, e: Event, lo: int, t: int)
    requires Canonical(events) && e.start < e.end && Within(events, lo, e.start)
    ensures IdentAt(AppendOrMerge(events, e), t) == if Covers(e, t) then Some(e.ident) else IdentAt(events, t)
  {
  }

  function WinnerIdent(cands: seq<Candidate>, t: int): Option<Ident> {
    var w := WinnerAt(cands, t);
    if w.Some? then Some(w.value.event.ident) else None
  }

  /** The output names the winner at every instant of the range, in canonical form. */
  ghost predicate Collapsed(cands: seq<Candidate>, lo: int, hi: int, events: seq<Event>) {
    && Canonical(events)
    && Within(events, lo, hi)
    && NamesWinners(cands, lo, hi, events)
  }

  /** What a slice's winner makes of the events collected so far. */
  function AfterSlice(before: seq<Event>, start: int, end: int, winner: Option<Candidate>): seq<Event> {
    if winner.Some? then AppendOrMerge(before, Event(start, end, winner.value.event.ident)) else before
  }

  ghost predicate NamesWinners(cands: seq<Candidate>, lo: int, hi: int, events: seq<Event>) {
    forall t: int :: lo <= t < hi ==> IdentAt(events, t) == WinnerIdent(cands, t)
  }

  /** Processing a slice extends canonical form and exactness to its end. */
  lemma SliceExact(cands: seq<Candidate>, lo: int, before: seq<Event>, start: int, end: int, winner: Option<Candidate>)
    requires Canonical(before) && Within(before, lo, start) && lo <= start < end && NamesWinners(cands, lo, start, before)
    requires forall t: int :: start <= t < end ==>
               WinnerIdent(cands, t) == if winner.Some? then Some(winner.value.event.ident) else None
    ensures var after := AfterSlice(before, start, end, winner);
            Canonical(after) && Within(after, lo, end) && NamesWinners(cands, lo, end, after)
  {
    var after := AfterSlice(before, start, end, winner);
    if winner.Some? {
      AppendOrMergeKeeps(before, Event(start, end, winner.value.event.ident), lo);
    }
    forall t: int | lo <= t < end
      ensures IdentAt(after, t) == WinnerIdent(cands, t)
    {
      if winner.Some? {
        AppendOrMergeNames(before, Event(start, end, winner.value.event.ident), lo, t);
      } else if start <= t {
        IdentAtOutside(before, lo, start, t);
      }
    }
  }

  method CollapseCandidates(cands: seq<Candidate>, lo: int, hi: int) returns (events: seq<Event>)
    ensures Collapsed(cands, lo, hi, events)
  {
    var normalized, pointSet := Normalize(cands, lo, hi);
    var points := SortPoints(pointSet);
    LastPoint(points, pointSet, lo, hi);
    events := [];
    for k := 0 to |points| - 1
      invariant lo < hi ==> Canonical(events) && Within(events, lo, points[k]) && NamesWinners(cands, lo, points[k], events)
      invariant lo >= hi ==> events == []
    {
      var start, end := points[k], points[k + 1];
      NoPointBetween(points, k, normalized, pointSet);
      var winner := PickWinner(normalized, start, end);
      if lo < hi {
        assert start in pointSet && end in pointSet;
        assert forall t: int :: start <= t < end ==> SameWinner(WinnerAt(normalized, t), WinnerAt(cands, t), lo, hi);
        SliceExact(cands, lo, events, start, end, winner);
      } else {
        assert winner == WinnerAt(normalized, start);
      }
      if winner.Some? {
        events := AppendOrMerge(events, Event(start, end, winner.value.event.ident));
      }
    }
  }

  /** Consecutive points enclose no endpoint. */
  lemma NoPointBetween(points: seq<int>, k: int, cands: seq<Candidate>, pointSet: set<int>)
    requires StrictlyIncreasing(points) && 0 <= k < |points| - 1
    requires forall p :: p in points <==> p in pointSet
    requires Endpoints(cands, pointSet)
    ensures forall i :: 0 <= i < |cands| ==>
              && !(points[k] < cands[i].event.start < points[k + 1])
              && !(points[k] < cands[i].event.end < points[k + 1])
  {
  }

  lemma LastPoint(points: seq<int>, pointSet: set<int>, lo: int, hi: int)
    requires StrictlyIncreasing(points) && (forall p :: p in points <==> p in pointSet)
    requires lo in pointSet && hi in pointSet
    requires lo <= hi ==> forall p :: p in pointSet ==> lo <= p <= hi
    ensures points != []
    ensures lo <= hi ==> points[0] == lo && points[|points| - 1] == hi
  {
    var i :| 0 <= i < |points| && points[i] == lo;
    var j :| 0 <= j < |points| && points[j] == hi;
    assert points[0] in pointSet && points[|points| - 1] in pointSet;
  }

  // ----- conservation of time

  function TotalDuration(events: seq<Event>): int {
    if events == [] then 0
    else TotalDuration(events[..|events| - 1]) + events[|events| - 1].end - events[|events| - 1].start
  }

  predicate InRange(t: int, lo: int, hi: int) {
    lo <= t < hi
  }

  ghost function Interval(lo: int, hi: int): set<int> {
    set t: int | lo <= t < hi && InRange(t, lo, hi)
  }

  lemma {:induction false} IntervalSize(lo: int, hi: int)
    requires lo <= hi
    ensures |Interval(lo, hi)| == hi - lo
    decreases hi - lo
  {
    if lo < hi {
      IntervalSize(lo, hi - 1);
      assert Interval(lo, hi) == Interval(lo, hi - 1) + {hi - 1};
    } else {
      assert Interval(lo, hi) == {};
    }
  }

  ghost function CoveredBy(cands: seq<Candidate>, lo: int, hi: int): set<int> {
    set t: int | lo <= t < hi && Claimed(cands, t)
  }

  predicate Claimed(cands: seq<Candidate>, t: int) {
    exists i :: 0 <= i < |cands| && Covers(cands[i].event, t)
  }

  ghost function NamedInstants(events: seq<Event>, lo: int, hi: int): set<int> {
    set t: int | lo <= t < hi && IdentAt(events, t).Some?
  }

  lemma {:induction false} DurationIsMeasure(events: seq<Event>, lo: int, hi: int)
    requires NonEmpty(events) && Ordered(events) && Within(events, lo, hi)
    ensures TotalDuration(events) == |NamedInstants(events, lo, hi)|
  {
    var covered := NamedInstants(events, lo, hi);
    if events != [] {
      var n := |events| - 1;
      var init, e := events[..n], events[n];
      DurationIsMeasure(init, lo, hi);
      var rest := NamedInstants(init, lo, hi);
      IntervalSize(e.start, e.end);
      forall t | t in rest
        ensures t !in Interval(e.start, e.end)
      {
        IdentAtNone(init, t);
      }
      assert covered == rest + Interval(e.start, e.end);
    } else {
      assert covered == {};
    }
  }

  /** The collapsed events last exactly as long as the union of the candidates. */
  lemma CollapseConservesTime(cands: seq<Candidate>, lo: int, hi: int, events: seq<Event>)
    requires Collapsed(cands, lo, hi, events)
    ensures TotalDuration(events) == |CoveredBy(cands, lo, hi)|
  {
    DurationIsMeasure(events, lo, hi);
    forall t: int | lo <= t < hi
      ensures IdentAt(events, t).Some? <==> t in CoveredBy(cands, lo, hi)
    {
      var _ := WinnerIsMaximum(cands, t);
    }
    assert CoveredBy(cands, lo, hi) == NamedInstants(events, lo, hi);
  }
}

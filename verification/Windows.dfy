/** The active windows of a layer: its weekly restrictions laid out over a query range. */
module Windows {
  import opened Clock
  import opened OnCall

  datatype Window = Window(start: int, end: int)

  predicate Inside(w: Window, t: int) {
    w.start <= t < w.end
  }

  predicate Somewhere(ws: seq<Window>, t: int) {
    exists i :: 0 <= i < |ws| && Inside(ws[i], t)
  }

  predicate Proper(ws: seq<Window>) {
    forall i :: 0 <= i < |ws| ==> ws[i].start < ws[i].end
  }

  predicate SortedByStart(ws: seq<Window>) {
    forall i, j :: 0 <= i < j < |ws| ==> ws[i].start <= ws[j].start
  }

  /** Windows in order with a strict gap between any two. */
  predicate Separated(ws: seq<Window>) {
    Proper(ws) && forall i, j :: 0 <= i < j < |ws| ==> ws[i].end < ws[j].start
  }

  predicate AllWithin(ws: seq<Window>, lo: int, hi: int) {
    forall i :: 0 <= i < |ws| ==> lo <= ws[i].start && ws[i].end <= hi
  }

  // ----- restriction windows

  /** Wall-clock extent of a restriction that begins on the given day. */
  function LocalWindow(r: Restriction, day: int): Window {
    if r.start == r.end then Window(day * DAY, (day + 1) * DAY)
    else
      Window(day * DAY + r.start * MINUTE,
             (if r.start < r.end then day else day + 1) * DAY + r.end * MINUTE)
  }

  predicate StartsOn(r: Restriction, day: int) {
    r.weekday.None? || Weekday(day) == r.weekday.value
  }

  /** The wall-clock window of a day holds a reading. */
  predicate Holds(r: Restriction, day: int, local: int) {
    StartsOn(r, day) && Inside(LocalWindow(r, day), local)
  }

  function RestrictionWindowForDay(r: Restriction, day: int, z: Zone, lo: int, hi: int): Option<Window> {
    if !StartsOn(r, day) then None
    else
      var local := LocalWindow(r, day);
      var start, end := Max(z.toUtc(local.start), lo), Min(z.toUtc(local.end), hi);
      if end <= start then None else Some(Window(start, end))
  }

  /** The zone is regular wherever a restriction opens or closes, and at local midnights. */
  ghost predicate RestrictionsRegular(rs: seq<Restriction>, z: Zone) {
    && (forall day: int :: RegularAt(z, LocalWindow(Restriction(None, 0, 0), day).start))
    && forall i: int, day: int :: 0 <= i < |rs| ==>
         RegularAt(z, LocalWindow(rs[i], day).start) && RegularAt(z, LocalWindow(rs[i], day).end)
  }

  lemma FixedOffsetRestrictionsRegular(rs: seq<Restriction>, offset: int)
    ensures RestrictionsRegular(rs, FixedOffset(offset))
  {
  }

  /** The restriction predicate holds at a reading iff the window of that day or of the day before contains it. */
  lemma MatchesIffInLocalWindow(r: Restriction, local: int, day: int)
    requires r.Valid()
    ensures RestrictionMatches(r, local) <==>
              Holds(r, Day(local), local) || Holds(r, Day(local) - 1, local)
    ensures Holds(r, day, local) ==> day == Day(local) || day == Day(local) - 1
  {
  }

  /** In a regular zone a day's window holds exactly the range's instants whose reading it contains. */
  lemma WindowForDayExact(rs: seq<Restriction>, i: int, day: int, z: Zone, lo: int, hi: int, t: int)
    requires RestrictionsRegular(rs, z) && 0 <= i < |rs| && lo <= t < hi
    ensures InDayWindow(rs[i], day, z, lo, hi, t) <==> Holds(rs[i], day, z.toLocal(t))
  {
  }

  /** In a regular zone local days never run backwards. */
  lemma DaysAdvance(rs: seq<Restriction>, z: Zone, t: int, u: int)
    requires RestrictionsRegular(rs, z) && t <= u
    ensures Day(z.toLocal(t)) <= Day(z.toLocal(u))
  {
    var day := Day(z.toLocal(t));
    var midnight := LocalWindow(Restriction(None, 0, 0), day).start;
    assert RegularAt(z, midnight);
    DayBounds(z.toLocal(t), day);
    DayBounds(z.toLocal(u), day);
    assert !(t < z.toUtc(midnight));
    assert !(u < z.toUtc(midnight));
  }

  /** Some day's window of some restriction, over the days from `first` up to `last` exclusive, holds t. */
  ghost predicate InDays(rs: seq<Restriction>, z: Zone, lo: int, hi: int, first: int, last: int, t: int) {
    exists day: int, i: int :: first <= day < last && 0 <= i < |rs| && InDayWindow(rs[i], day, z, lo, hi, t)
  }

  ghost predicate InDayWindow(r: Restriction, day: int, z: Zone, lo: int, hi: int, t: int) {
    var w := RestrictionWindowForDay(r, day, z, lo, hi);
    w.Some? && Inside(w.value, t)
  }

  /** Some window of the days scanned for a range, one beyond it on each side, holds t. */
  ghost predicate Scanned(rs: seq<Restriction>, z: Zone, lo: int, hi: int, t: int) {
    InDays(rs, z, lo, hi, Day(z.toLocal(lo)) - 1, Day(z.toLocal(hi)) + 2, t)
  }

  /** The scanned days suffice: an instant lies in a scanned window iff some restriction matches there. */
  lemma ScannedDaysExact(rs: seq<Restriction>, z: Zone, lo: int, hi: int, t: int)
    requires forall r :: r in rs ==> r.Valid()
    requires RestrictionsRegular(rs, z) && lo <= t < hi
    ensures Scanned(rs, z, lo, hi, t) <==> SomeRestrictionMatches(rs, z.toLocal(t))
  {
    if Scanned(rs, z, lo, hi, t) {
      ScannedMatches(rs, z, lo, hi, t);
    }
    if SomeRestrictionMatches(rs, z.toLocal(t)) {
      MatchIsScanned(rs, z, lo, hi, t);
    }
  }

  lemma ScannedMatches(rs: seq<Restriction>, z: Zone, lo: int, hi: int, t: int)
    requires forall r :: r in rs ==> r.Valid()
    requires RestrictionsRegular(rs, z) && lo <= t < hi && Scanned(rs, z, lo, hi, t)
    ensures SomeRestrictionMatches(rs, z.toLocal(t))
  {
    var day: int, i: int :| 0 <= i < |rs| && InDayWindow(rs[i], day, z, lo, hi, t);
    WindowForDayExact(rs, i, day, z, lo, hi, t);
    MatchesIffInLocalWindow(rs[i], z.toLocal(t), day);
  }

  lemma MatchIsScanned(rs: seq<Restriction>, z: Zone, lo: int, hi: int, t: int)
    requires forall r :: r in rs ==> r.Valid()
    requires RestrictionsRegular(rs, z) && lo <= t < hi && SomeRestrictionMatches(rs, z.toLocal(t))
    ensures Scanned(rs, z, lo, hi, t)
  {
    var today := Day(z.toLocal(t));
    var i :| 0 <= i < |rs| && RestrictionMatches(rs[i], z.toLocal(t));
    DaysAdvance(rs, z, lo, t);
    DaysAdvance(rs, z, t, hi);
    MatchesIffInLocalWindow(rs[i], z.toLocal(t), today);
    WindowForDayExact(rs, i, today, z, lo, hi, t);
    WindowForDayExact(rs, i, today - 1, z, lo, hi, t);
    assert InDayWindow(rs[i], today, z, lo, hi, t) || InDayWindow(rs[i], today - 1, z, lo, hi, t);
  }

  // ----- merging

  /** Insertion by start, after equal starts: one step of a stable sort. */
  function InsertByStart(w: Window, ws: seq<Window>): (r: seq<Window>)
    requires SortedByStart(ws)
    ensures SortedByStart(r) && r != []
    ensures r[|r| - 1].start == if ws == [] then w.start else Max(w.start, ws[|ws| - 1].start)
    ensures multiset(r) == multiset(ws) + multiset{w}
  {
    if ws == [] || ws[|ws| - 1].start <= w.start then ws + [w]
    else
      assert ws == ws[..|ws| - 1] + [ws[|ws| - 1]];
      InsertByStart(w, ws[..|ws| - 1]) + [ws[|ws| - 1]]
  }

  function SortWindows(ws: seq<Window>): (r: seq<Window>)
    ensures SortedByStart(r)
    ensures multiset(r) == multiset(ws)
  {
    if ws == [] then []
    else
      assert ws == ws[..|ws| - 1] + [ws[|ws| - 1]];
      InsertByStart(ws[|ws| - 1], SortWindows(ws[..|ws| - 1]))
  }

  lemma SameElementsSameCover(p: seq<Window>, q: seq<Window>, t: int)
    requires multiset(p) == multiset(q)
    ensures Somewhere(p, t) <==> Somewhere(q, t)
    ensures Proper(p) <==> Proper(q)
  {
    assert forall w :: w in p <==> w in multiset(p);
    assert forall w :: w in q <==> w in multiset(q);
    assert Somewhere(p, t) <==> exists w :: w in p && Inside(w, t);
    assert Somewhere(q, t) <==> exists w :: w in q && Inside(w, t);
    assert Proper(p) <==> forall w :: w in p ==> w.start < w.end;
    assert Proper(q) <==> forall w :: w in q ==> w.start < w.end;
  }

  /** One pass of the merge: extend the last window or start a new one. */
  function MergeStep(merged: seq<Window>, w: Window): (r: seq<Window>)
    requires merged != []
    ensures r != []
  {
    var last := merged[|merged| - 1];
    if w.start <= last.end
    then merged[|merged| - 1 := Window(last.start, Max(last.end, w.end))]
    else merged + [w]
  }

  lemma MergeStepKeeps(merged: seq<Window>, w: Window, t: int)
    requires merged != [] && Separated(merged) && w.start < w.end
    requires merged[|merged| - 1].start <= w.start
    ensures Separated(MergeStep(merged, w))
    ensures MergeStep(merged, w)[|MergeStep(merged, w)| - 1].start <= w.start
    ensures Somewhere(MergeStep(merged, w), t) <==> Somewhere(merged, t) || Inside(w, t)
  {
    var r := MergeStep(merged, w);
    var n := |merged| - 1;
    var last := merged[n];
    if w.start <= last.end {
      assert forall i :: 0 <= i < n ==> r[i] == merged[i];
      assert Inside(r[n], t) <==> Inside(last, t) || Inside(w, t);
      if Inside(last, t) || Inside(w, t) {
        assert Inside(r[n], t);
      }
      if i :| 0 <= i < n && Inside(merged[i], t) {
        assert Inside(r[i], t);
      }
    } else {
      assert r[|merged|] == w;
      assert forall i :: 0 <= i <= n ==> r[i] == merged[i];
      if i :| 0 <= i <= n && Inside(merged[i], t) {
        assert Inside(r[i], t);
      }
    }
  }

  method MergeSorted(sorted: seq<Window>) returns (merged: seq<Window>)
    requires SortedByStart(sorted) && Proper(sorted)
    ensures Separated(merged)
    ensures forall t: int :: Somewhere(merged, t) <==> Somewhere(sorted, t)
    ensures Separated(sorted) ==> merged == sorted
  {
    if sorted == [] {
      return [];
    }
    merged := [sorted[0]];
    for k := 1 to |sorted|
      invariant merged != [] && Separated(merged)
      invariant merged[|merged| - 1].start <= sorted[k - 1].start
      invariant forall t: int :: Somewhere(merged, t) <==> Somewhere(sorted[..k], t)
      invariant Separated(sorted) ==> merged == sorted[..k]
    {
      ghost var before := merged;
      merged := MergeStep(merged, sorted[k]);
      MergeStepKeeps(before, sorted[k], 0);
      assert sorted[..k + 1] == sorted[..k] + [sorted[k]];
      forall t: int
        ensures Somewhere(merged, t) <==> Somewhere(sorted[..k + 1], t)
      {
        MergeStepKeeps(before, sorted[k], t);
        SomewhereAppend(sorted[..k], sorted[k], t);
      }
    }
    assert sorted[..|sorted|] == sorted;
  }

  lemma SomewhereAppend(ws: seq<Window>, w: Window, t: int)
    ensures Somewhere(ws + [w], t) <==> Somewhere(ws, t) || Inside(w, t)
  {
    var r := ws + [w];
    assert r[|ws|] == w;
    if i :| 0 <= i < |ws| && Inside(ws[i], t) {
      assert Inside(r[i], t);
    }
  }

  /** Merging keeps the covered instants and leaves ordered windows with strict gaps. */
  method MergeWindows(windows: seq<Window>) returns (merged: seq<Window>)
    requires Proper(windows)
    ensures Separated(merged)
    ensures forall t: int :: Somewhere(merged, t) <==> Somewhere(windows, t)
  {
    var sorted := SortWindows(windows);
    SameElementsSameCover(sorted, windows, 0);
    merged := MergeSorted(sorted);
    forall t: int
      ensures Somewhere(merged, t) <==> Somewhere(windows, t)
    {
      SameElementsSameCover(sorted, windows, t);
    }
  }

  // ----- the windows of a layer

  lemma InDaysExtend(rs: seq<Restriction>, z: Zone, lo: int, hi: int, first: int, last: int, t: int)
    requires first <= last
    ensures InDays(rs, z, lo, hi, first, last + 1, t) <==>
              || InDays(rs, z, lo, hi, first, last, t)
              || exists i :: 0 <= i < |rs| && InDayWindow(rs[i], last, z, lo, hi, t)
  {
  }

  /** The windows opened on one local day, appended to those already collected. */
  method CollectDay(rs: seq<Restriction>, z: Zone, lo: int, hi: int, day: int, before: seq<Window>)
    returns (windows: seq<Window>)
    requires Proper(before)
    ensures Proper(windows)
    ensures AllWithin(before, lo, hi) ==> AllWithin(windows, lo, hi)
    ensures forall t: int :: Somewhere(windows, t) <==>
              Somewhere(before, t) || exists i :: 0 <= i < |rs| && InDayWindow(rs[i], day, z, lo, hi, t)
  {
    windows := before;
    for k := 0 to |rs|
      invariant Proper(windows)
      invariant AllWithin(before, lo, hi) ==> AllWithin(windows, lo, hi)
      invariant forall t: int :: Somewhere(windows, t) <==>
                  Somewhere(before, t) || exists i :: 0 <= i < k && InDayWindow(rs[i], day, z, lo, hi, t)
    {
      var w := RestrictionWindowForDay(rs[k], day, z, lo, hi);
      if w.Some? {
        forall t: int
          ensures Somewhere(windows + [w.value], t) <==> Somewhere(windows, t) || Inside(w.value, t)
        {
          SomewhereAppend(windows, w.value, t);
        }
        windows := windows + [w.value];
      }
    }
  }

  /** Without restrictions the whole range; otherwise the scanned windows, in a regular zone exactly the
      instants at which a restriction matches. */
  method LayerActiveWindows(rs: seq<Restriction>, z: Zone, lo: int, hi: int) returns (windows: seq<Window>)
    requires forall r :: r in rs ==> r.Valid()
    ensures rs == [] ==> windows == [Window(lo, hi)]
    ensures rs != [] ==> Separated(windows)
    ensures AllWithin(windows, lo, hi)
    ensures rs != [] ==> forall t: int :: Somewhere(windows, t) <==> Scanned(rs, z, lo, hi, t)
    ensures rs == [] || RestrictionsRegular(rs, z) ==> forall t: int :: lo <= t < hi ==>
              (Somewhere(windows, t) <==> rs == [] || SomeRestrictionMatches(rs, z.toLocal(t)))
  {
    if rs == [] {
      windows := [Window(lo, hi)];
      forall t: int | lo <= t < hi
        ensures Somewhere(windows, t)
      {
        assert Inside(windows[0], t);
      }
      return;
    }
    var first, last := Day(z.toLocal(lo)) - 1, Day(z.toLocal(hi)) + 1;
    var collected: seq<Window> := [];
    var day := first;
    while day <= last
      invariant first <= day
      invariant day <= last + 1 || day == first
      invariant Proper(collected) && AllWithin(collected, lo, hi)
      invariant forall t: int :: Somewhere(collected, t) <==> InDays(rs, z, lo, hi, first, day, t)
      decreases last - day
    {
      ghost var before := collected;
      collected := CollectDay(rs, z, lo, hi, day, collected);
      forall t: int
        ensures Somewhere(collected, t) <==> InDays(rs, z, lo, hi, first, day + 1, t)
      {
        InDaysExtend(rs, z, lo, hi, first, day, t);
        assert Somewhere(before, t) <==> InDays(rs, z, lo, hi, first, day, t);
      }
      day := day + 1;
    }
    windows := MergeWindows(collected);
    MergedWithin(windows, collected, lo, hi);
    if RestrictionsRegular(rs, z) {
      forall t: int | lo <= t < hi
        ensures Somewhere(windows, t) <==> SomeRestrictionMatches(rs, z.toLocal(t))
      {
        DaysAdvance(rs, z, lo, hi);
        ScannedDaysExact(rs, z, lo, hi, t);
      }
    }
  }

  /** Windows covering the same instants stay inside the same range. */
  lemma MergedWithin(merged: seq<Window>, windows: seq<Window>, lo: int, hi: int)
    requires Proper(merged) && AllWithin(windows, lo, hi)
    requires forall t: int :: Somewhere(merged, t) <==> Somewhere(windows, t)
    ensures AllWithin(merged, lo, hi)
  {
    forall i | 0 <= i < |merged|
      ensures lo <= merged[i].start && merged[i].end <= hi
    {
      assert Inside(merged[i], merged[i].start) && Inside(merged[i], merged[i].end - 1);
      assert Somewhere(windows, merged[i].start) && Somewhere(windows, merged[i].end - 1);
    }
  }
}

/** Calendar events and their canonical form: the one event list that denotes a given schedule. */
module Events {
  import opened Clock

  /** The fields by which neighbouring events of one rotation are recognised as the same shift. */
  datatype Ident =
    | LayerShift(layerId: int, userId: int)
    | OverrideShift(overrideId: int, userId: int)

  datatype Event = Event(start: int, end: int, ident: Ident)

  predicate Covers(e: Event, t: int) {
    e.start <= t < e.end
  }

  predicate NonEmpty(events: seq<Event>) {
    forall i :: 0 <= i < |events| ==> events[i].start < events[i].end
  }

  predicate Ordered(events: seq<Event>) {
    forall i, j :: 0 <= i < j < |events| ==> events[i].end <= events[j].start
  }

  predicate Within(events: seq<Event>, lo: int, hi: int) {
    forall i :: 0 <= i < |events| ==> lo <= events[i].start && events[i].end <= hi
  }

  /** Touching neighbours carry different identities. */
  predicate NoRepeats(events: seq<Event>) {
    forall i :: 0 <= i < |events| - 1 && events[i].end == events[i + 1].start ==> events[i].ident != events[i + 1].ident
  }

  predicate Canonical(events: seq<Event>) {
    NonEmpty(events) && Ordered(events) && NoRepeats(events)
  }

  /** Who the calendar names at an instant. */
  function IdentAt(events: seq<Event>, t: int): Option<Ident> {
    if events == [] then None
    else
      var last := events[|events| - 1];
      if Covers(last, t) then Some(last.ident) else IdentAt(events[..|events| - 1], t)
  }

  lemma IdentAtAppend(events: seq<Event>, e: Event, t: int)
    ensures IdentAt(events + [e], t) == if Covers(e, t) then Some(e.ident) else IdentAt(events, t)
  {
  }

  lemma {:induction false} IdentAtConcat(p: seq<Event>, q: seq<Event>, t: int)
    ensures IdentAt(p + q, t) == if IdentAt(q, t).Some? then IdentAt(q, t) else IdentAt(p, t)
    decreases |q|
  {
    if q == [] {
      assert p + q == p;
    } else {
      var init := q[..|q| - 1];
      assert q == init + [q[|q| - 1]] && p + q == (p + init) + [q[|q| - 1]];
      IdentAtConcat(p, init, t);
      IdentAtAppend(init, q[|q| - 1], t);
      IdentAtAppend(p + init, q[|q| - 1], t);
    }
  }

  /** In an ordered list the covering event is unique, and `IdentAt` is its identity. */
  lemma {:induction false} IdentAtCovering(events: seq<Event>, i: int, t: int)
    requires Ordered(events) && NonEmpty(events) && 0 <= i < |events| && Covers(events[i], t)
    ensures IdentAt(events, t) == Some(events[i].ident)
  {
    if i < |events| - 1 {
      IdentAtCovering(events[..|events| - 1], i, t);
    }
  }

  lemma {:induction false} IdentAtNone(events: seq<Event>, t: int)
    ensures IdentAt(events, t).None? <==> forall i :: 0 <= i < |events| ==> !Covers(events[i], t)
  {
    if events != [] {
      IdentAtNone(events[..|events| - 1], t);
    }
  }

  lemma IdentAtOutside(events: seq<Event>, lo: int, hi: int, t: int)
    requires Within(events, lo, hi) && !(lo <= t < hi)
    ensures IdentAt(events, t).None?
  {
  }

  // ----- uniqueness of the canonical form

  lemma LastEventsAgree(p: seq<Event>, q: seq<Event>)
    requires Canonical(p) && Canonical(q) && p != [] && q != []
    requires forall t: int :: IdentAt(p, t) == IdentAt(q, t)
    ensures p[|p| - 1] == q[|q| - 1]
  {
    var e, f := p[|p| - 1], q[|q| - 1];
    LastEndBounds(p, q);
    LastEndBounds(q, p);
    IdentAtCovering(p, |p| - 1, e.end - 1);
    IdentAtCovering(q, |q| - 1, f.end - 1);
    LastStartBounds(p, q);
    LastStartBounds(q, p);
  }

  lemma LastEndBounds(p: seq<Event>, q: seq<Event>)
    requires Canonical(p) && Canonical(q) && p != [] && q != []
    requires forall t: int :: IdentAt(p, t) == IdentAt(q, t)
    ensures p[|p| - 1].end <= q[|q| - 1].end
  {
    var e := p[|p| - 1];
    IdentAtCovering(p, |p| - 1, e.end - 1);
    IdentAtNone(q, e.end - 1);
    var i :| 0 <= i < |q| && Covers(q[i], e.end - 1);
    assert i < |q| - 1 ==> q[i].end <= q[|q| - 1].start;
  }

  /** Just before the last canonical event starts, a different shift or none is named. */
  lemma BeforeLastDiffers(q: seq<Event>)
    requires Canonical(q) && q != []
    ensures IdentAt(q, q[|q| - 1].start - 1) != Some(q[|q| - 1].ident)
  {
    var f := q[|q| - 1];
    var t := f.start - 1;
    IdentAtNone(q, t);
    assert forall i :: 0 <= i < |q| - 2 ==> q[i].end <= q[|q| - 2].start;
    assert |q| >= 2 ==> q[|q| - 2].end <= f.start;
    if i :| 0 <= i < |q| && Covers(q[i], t) {
      IdentAtCovering(q, i, t);
      assert i == |q| - 2 && q[i].end == q[i + 1].start;
    }
  }

  lemma LastStartBounds(p: seq<Event>, q: seq<Event>)
    requires Canonical(p) && Canonical(q) && p != [] && q != []
    requires forall t: int :: IdentAt(p, t) == IdentAt(q, t)
    requires p[|p| - 1].end == q[|q| - 1].end && p[|p| - 1].ident == q[|q| - 1].ident
    ensures p[|p| - 1].start >= q[|q| - 1].start
  {
    var e, f := p[|p| - 1], q[|q| - 1];
    if e.start < f.start {
      IdentAtCovering(p, |p| - 1, f.start - 1);
      BeforeLastDiffers(q);
    }
  }

  /** Dropping the last event forgets exactly the instants it covers. */
  lemma InitIsCanonical(p: seq<Event>, t: int)
    requires Canonical(p) && p != []
    ensures Canonical(p[..|p| - 1])
    ensures IdentAt(p[..|p| - 1], t) == if Covers(p[|p| - 1], t) then None else IdentAt(p, t)
  {
    var init := p[..|p| - 1];
    if Covers(p[|p| - 1], t) {
      IdentAtNone(init, t);
    }
  }

  /** Two canonical event lists that name the same shift at every instant are the same list. */
  lemma {:induction false} CanonicalIsUnique(p: seq<Event>, q: seq<Event>)
    requires Canonical(p) && Canonical(q)
    requires forall t: int :: IdentAt(p, t) == IdentAt(q, t)
    ensures p == q
    decreases |p|
  {
    if p == [] || q == [] {
      if p != [] {
        IdentAtCovering(p, 0, p[0].start);
      }
      if q != [] {
        IdentAtCovering(q, 0, q[0].start);
      }
    } else {
      LastEventsAgree(p, q);
      var p', q' := p[..|p| - 1], q[..|q| - 1];
      InitIsCanonical(p, 0);
      InitIsCanonical(q, 0);
      forall t: int
        ensures IdentAt(p', t) == IdentAt(q', t)
      {
        InitIsCanonical(p, t);
        InitIsCanonical(q, t);
      }
      CanonicalIsUnique(p', q');
      assert p == p' + [p[|p| - 1]] && q == q' + [q[|q| - 1]];
    }
  }

  // ----- clipping to a range

  function Clip(events: seq<Event>, lo: int, hi: int): (r: seq<Event>)
    ensures |r| <= |events|
  {
    if events == [] then []
    else
      var rest := Clip(events[..|events| - 1], lo, hi);
      var e := events[|events| - 1];
      var start, end := Max(e.start, lo), Min(e.end, hi);
      if start < end then rest + [Event(start, end, e.ident)] else rest
  }

  lemma {:induction false} ClipIdentAt(events: seq<Event>, lo: int, hi: int, t: int)
    ensures IdentAt(Clip(events, lo, hi), t) == if lo <= t < hi then IdentAt(events, t) else None
  {
    if events != [] {
      var init := events[..|events| - 1];
      ClipIdentAt(init, lo, hi, t);
      var e := events[|events| - 1];
      var start, end := Max(e.start, lo), Min(e.end, hi);
      if start < end {
        IdentAtAppend(Clip(init, lo, hi), Event(start, end, e.ident), t);
      }
    }
  }

  /** Appending keeps canonical form unless the new event repeats a touching predecessor. */
  lemma AppendIsCanonical(c: seq<Event>, e: Event)
    requires Canonical(c) && e.start < e.end
    requires c != [] ==> c[|c| - 1].end <= e.start
    requires c != [] && c[|c| - 1].end == e.start ==> c[|c| - 1].ident != e.ident
    ensures Canonical(c + [e])
  {
  }

  /** What a clipped list ends with is some event of the original, cut at `hi`. */
  ghost predicate LastFrom(c: seq<Event>, events: seq<Event>, j: int, hi: int) {
    && c != []
    && 0 <= j < |events|
    && c[|c| - 1].end == Min(events[j].end, hi)
    && c[|c| - 1].ident == events[j].ident
  }

  lemma {:induction false} ClipIsCanonical(events: seq<Event>, lo: int, hi: int) returns (j: int)
    requires Canonical(events)
    ensures Canonical(Clip(events, lo, hi)) && Within(Clip(events, lo, hi), lo, hi)
    ensures Clip(events, lo, hi) != [] ==> LastFrom(Clip(events, lo, hi), events, j, hi)
  {
    j := 0;
    if events != [] {
      var n := |events| - 1;
      InitIsCanonical(events, 0);
      j := ClipIsCanonical(events[..n], lo, hi);
      var c := Clip(events[..n], lo, hi);
      var e := events[n];
      var start, end := Max(e.start, lo), Min(e.end, hi);
      if start < end {
        if c != [] {
          assert events[j].end <= e.start;
          assert j < n - 1 ==> events[j].end <= events[j + 1].start < events[j + 1].end <= e.start;
        }
        AppendIsCanonical(c, Event(start, end, e.ident));
        j := n;
      }
    }
  }
}

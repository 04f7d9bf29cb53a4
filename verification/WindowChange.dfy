/** What a clock change does to the windows of one restriction, and exactly when it does anything. */
module WindowChange {
  import opened Clock
  import opened OnCall
  import opened Windows

  /** Over every range the windows hold exactly the instants at which the restriction matches. */
  ghost predicate WindowsExact(r: Restriction, z: Zone) {
    forall lo: int, hi: int, t: int :: lo <= t < hi ==>
      (Scanned([r], z, lo, hi, t) <==> RestrictionMatches(r, z.toLocal(t)))
  }

  /** Every day, all day. */
  predicate AlwaysOn(r: Restriction) {
    r.start == r.end && r.weekday.None?
  }

  function Opening(r: Restriction, day: int): int {
    LocalWindow(r, day).start
  }

  function Closing(r: Restriction, day: int): int {
    LocalWindow(r, day).end
  }

  /** The unclipped window of a day, converted, holds t. */
  predicate Covers(r: Restriction, day: int, z: Zone, t: int) {
    StartsOn(r, day) && z.toUtc(Opening(r, day)) <= t < z.toUtc(Closing(r, day))
  }

  lemma CoverIsScanned(r: Restriction, day: int, z: Zone, lo: int, hi: int, t: int)
    requires lo <= t < hi && Covers(r, day, z, t)
    requires Day(z.toLocal(lo)) - 1 <= day <= Day(z.toLocal(hi)) + 1
    ensures Scanned([r], z, lo, hi, t)
  {
    assert InDayWindow([r][0], day, z, lo, hi, t);
  }

  lemma ScannedIsCovered(r: Restriction, z: Zone, lo: int, hi: int, t: int) returns (day: int)
    requires lo <= t < hi && Scanned([r], z, lo, hi, t)
    ensures Covers(r, day, z, t)
  {
    var d: int, i: int :| 0 <= i < |[r]| && InDayWindow([r][i], d, z, lo, hi, t);
    assert InDayWindow(r, d, z, lo, hi, t);
    day := d;
  }

  lemma HoldsIsMatch(r: Restriction, day: int, local: int)
    requires r.Valid() && Holds(r, day, local)
    ensures RestrictionMatches(r, local)
    ensures day == Day(local) || day == Day(local) - 1
  {
    MatchesIffInLocalWindow(r, local, day);
  }

  lemma MatchIsHeld(r: Restriction, local: int) returns (day: int)
    requires r.Valid() && RestrictionMatches(r, local)
    ensures Holds(r, day, local) && (day == Day(local) || day == Day(local) - 1)
  {
    MatchesIffInLocalWindow(r, local, Day(local));
    day := if Holds(r, Day(local), local) then Day(local) else Day(local) - 1;
  }

  /** Where a day's window lies. */
  lemma Shape(r: Restriction, day: int)
    requires r.Valid()
    ensures day * DAY <= Opening(r, day) < (day + 1) * DAY
    ensures Opening(r, day) < Closing(r, day) < (day + 2) * DAY
  {
  }

  /** The windows of two days have the same length, and a gap between them unless the restriction is always on. */
  lemma Apart(r: Restriction, day: int, later: int)
    requires r.Valid() && day < later
    ensures Opening(r, later) - Opening(r, day) == Closing(r, later) - Closing(r, day) >= DAY
    ensures !AlwaysOn(r) && StartsOn(r, day) && StartsOn(r, later) ==> Closing(r, day) < Opening(r, later)
  {
  }

  // ----- clocks jump ahead

  /** The skipped stretch, from reading `lo` to reading `hi`, swallows an opening without its closing
      falling on its end, or a closing without an opening on its end. */
  ghost predicate BoundarySkipped(r: Restriction, lo: int, hi: int) {
    || (exists day: int :: StartsOn(r, day) && lo < Opening(r, day) < hi && Closing(r, day) != hi)
    || (exists day: int :: StartsOn(r, day) && lo < Closing(r, day) < hi && !OpensAt(r, hi))
  }

  ghost predicate OpensAt(r: Restriction, local: int) {
    exists day: int :: StartsOn(r, day) && Opening(r, day) == local
  }

  lemma SpringMatchIsScanned(r: Restriction, offset: int, jump: int, width: int, lo: int, hi: int, t: int)
    requires r.Valid() && 0 < width < DAY && lo <= t < hi
    requires AlwaysOn(r) || !BoundarySkipped(r, jump + offset, jump + offset + width)
    requires RestrictionMatches(r, SpringForward(offset, jump, width).toLocal(t))
    ensures Scanned([r], SpringForward(offset, jump, width), lo, hi, t)
  {
    var z := SpringForward(offset, jump, width);
    var day := MatchIsHeld(r, z.toLocal(t));
    assert Day(z.toLocal(lo)) <= Day(z.toLocal(t)) <= Day(z.toLocal(hi));
    if AlwaysOn(r) && !Covers(r, day, z, t) {
      CoverIsScanned(r, day - 1, z, lo, hi, t);
    } else {
      CoverIsScanned(r, day, z, lo, hi, t);
    }
  }

  lemma SpringScannedMatches(r: Restriction, offset: int, jump: int, width: int, lo: int, hi: int, t: int)
    requires r.Valid() && 0 < width < DAY && lo <= t < hi
    requires !AlwaysOn(r) && !BoundarySkipped(r, jump + offset, jump + offset + width)
    requires Scanned([r], SpringForward(offset, jump, width), lo, hi, t)
    ensures RestrictionMatches(r, SpringForward(offset, jump, width).toLocal(t))
  {
    var z, end := SpringForward(offset, jump, width), jump + offset + width;
    var day := ScannedIsCovered(r, z, lo, hi, t);
    if jump <= t && Closing(r, day) < end {
      assert OpensAt(r, end);
      var next: int :| StartsOn(r, next) && Opening(r, next) == end;
      Shape(r, day);
      if next < day {
        Apart(r, next, day);
      }
      Apart(r, day, next);
      HoldsIsMatch(r, next, z.toLocal(t));
    } else {
      HoldsIsMatch(r, day, z.toLocal(t));
    }
  }

  /** Windows over [lo, t + 1) and matching differ at t. */
  ghost predicate DifferAt(r: Restriction, z: Zone, lo: int, t: int) {
    lo <= t && (Scanned([r], z, lo, t + 1, t) <==> !RestrictionMatches(r, z.toLocal(t)))
  }

  /** Two windows do not overlap, whichever comes first. */
  lemma InSequence(r: Restriction, day: int, other: int)
    requires r.Valid() && !AlwaysOn(r) && StartsOn(r, day) && StartsOn(r, other)
    ensures other < day ==> Closing(r, other) < Opening(r, day) && Closing(r, other) + DAY <= Closing(r, day)
    ensures day < other ==> Closing(r, day) < Opening(r, other) && Opening(r, day) + DAY <= Opening(r, other)
  {
    if other < day {
      Apart(r, other, day);
    } else if day < other {
      Apart(r, day, other);
    }
  }

  /** A skipped closing, with a window around the end of the stretch: the match right after it is missed. */
  lemma MissedAfterClosing(r: Restriction, offset: int, jump: int, width: int, day: int, around: int) returns (t: int)
    requires r.Valid() && !AlwaysOn(r) && 0 < width < DAY && StartsOn(r, day) && StartsOn(r, around)
    requires var end := jump + offset + width;
             jump + offset < Closing(r, day) < end && Opening(r, around) < end <= Closing(r, around)
    ensures DifferAt(r, SpringForward(offset, jump, width), t, t)
  {
    var z := SpringForward(offset, jump, width);
    t := Closing(r, day) - offset;
    InSequence(r, day, around);
    HoldsIsMatch(r, around, z.toLocal(t));
    if Scanned([r], z, t, t + 1, t) {
      var c := ScannedIsCovered(r, z, t, t + 1, t);
      InSequence(r, day, c);
      InSequence(r, around, c);
      assert false;
    }
  }

  /** A skipped closing, with no window around or from the end of the stretch: the window outlives its match. */
  lemma ShownAfterClosing(r: Restriction, offset: int, jump: int, width: int, day: int) returns (t: int)
    requires r.Valid() && !AlwaysOn(r) && 0 < width < DAY && StartsOn(r, day)
    requires jump + offset < Closing(r, day) < jump + offset + width
    requires forall c: int :: StartsOn(r, c) && Opening(r, c) <= jump + offset + width ==> Closing(r, c) < jump + offset + width
    ensures DifferAt(r, SpringForward(offset, jump, width), t - 2 * DAY, t)
  {
    var z := SpringForward(offset, jump, width);
    t := Max(jump + offset, Opening(r, day)) - offset;
    CoversAfterJump(r, offset, jump, width, day, t);
    NoMatchPastClosing(r, day, jump + offset, jump + offset + width);
    assert z.toLocal(t) == t + offset + width;
  }

  lemma NoMatchPastClosing(r: Restriction, day: int, lo: int, hi: int)
    requires r.Valid() && !AlwaysOn(r) && StartsOn(r, day) && lo < Closing(r, day) < hi < lo + DAY
    requires forall c: int :: StartsOn(r, c) && Opening(r, c) <= hi ==> Closing(r, c) < hi
    ensures !RestrictionMatches(r, Max(lo, Opening(r, day)) + hi - lo)
  {
    var local := Max(lo, Opening(r, day)) + hi - lo;
    if RestrictionMatches(r, local) {
      var c := MatchIsHeld(r, local);
      InSequence(r, day, c);
      assert false;
    }
  }

  lemma CoversAfterJump(r: Restriction, offset: int, jump: int, width: int, day: int, t: int)
    requires r.Valid() && 0 < width < DAY && jump <= t && Closing(r, day) < jump + offset + width
    requires Holds(r, day, t + offset)
    ensures Scanned([r], SpringForward(offset, jump, width), t - 2 * DAY, t + 1, t)
  {
    HoldsIsMatch(r, day, t + offset);
    CoverIsScanned(r, day, SpringForward(offset, jump, width), t - 2 * DAY, t + 1, t);
  }

  /** A skipped opening with its closing beyond the stretch, and no closing inside: the match at the jump is missed. */
  lemma MissedAtJump(r: Restriction, offset: int, jump: int, width: int, day: int)
    requires r.Valid() && !AlwaysOn(r) && 0 < width < DAY && StartsOn(r, day)
    requires jump + offset < Opening(r, day) < jump + offset + width < Closing(r, day)
    requires forall c: int :: StartsOn(r, c) ==> !(jump + offset < Closing(r, c) < jump + offset + width)
    ensures DifferAt(r, SpringForward(offset, jump, width), jump, jump)
  {
    var z := SpringForward(offset, jump, width);
    HoldsIsMatch(r, day, z.toLocal(jump));
    if Scanned([r], z, jump, jump + 1, jump) {
      var c := ScannedIsCovered(r, z, jump, jump + 1, jump);
      InSequence(r, day, c);
      assert false;
    }
  }

  lemma SkippedClosingDiffers(r: Restriction, offset: int, jump: int, width: int, day: int) returns (lo: int, t: int)
    requires r.Valid() && 0 < width < DAY && !AlwaysOn(r) && StartsOn(r, day)
    requires jump + offset < Closing(r, day) < jump + offset + width
    requires !OpensAt(r, jump + offset + width)
    ensures DifferAt(r, SpringForward(offset, jump, width), lo, t)
  {
    var end := jump + offset + width;
    if c: int :| StartsOn(r, c) && Opening(r, c) < end <= Closing(r, c) {
      t := MissedAfterClosing(r, offset, jump, width, day, c);
      lo := t;
    } else {
      t := ShownAfterClosing(r, offset, jump, width, day);
      lo := t - 2 * DAY;
    }
  }

  /** A skipped boundary leaves an instant at which windows and matching differ. */
  lemma SkippedBoundaryDiffers(r: Restriction, offset: int, jump: int, width: int) returns (lo: int, t: int)
    requires r.Valid() && 0 < width < DAY && !AlwaysOn(r)
    requires BoundarySkipped(r, jump + offset, jump + offset + width)
    ensures DifferAt(r, SpringForward(offset, jump, width), lo, t)
  {
    var end := jump + offset + width;
    if c: int :| StartsOn(r, c) && jump + offset < Closing(r, c) < end && !OpensAt(r, end) {
      lo, t := SkippedClosingDiffers(r, offset, jump, width, c);
    } else {
      var day: int :| StartsOn(r, day) && jump + offset < Opening(r, day) < end && Closing(r, day) != end;
      OpeningInsideExcludes(r, day, jump + offset, end);
      MissedAtJump(r, offset, jump, width, day);
      lo, t := jump, jump;
    }
  }

  /** With an opening strictly inside a stretch of less than a day, none lies at its end. */
  lemma OpeningInsideExcludes(r: Restriction, day: int, lo: int, hi: int)
    requires r.Valid() && !AlwaysOn(r) && StartsOn(r, day) && lo < Opening(r, day) < hi < lo + DAY
    ensures !OpensAt(r, hi)
  {
    if OpensAt(r, hi) {
      var c: int :| StartsOn(r, c) && Opening(r, c) == hi;
      Shape(r, c);
      InSequence(r, day, c);
      assert false;
    }
  }

  /** Across a jump ahead of less than a day the windows of a restriction are exact if and only if it is
      always on or no boundary of it is skipped. */
  lemma SpringForwardWindowsIff(r: Restriction, offset: int, jump: int, width: int)
    requires r.Valid() && 0 < width < DAY
    ensures WindowsExact(r, SpringForward(offset, jump, width)) <==>
            AlwaysOn(r) || !BoundarySkipped(r, jump + offset, jump + offset + width)
  {
    var z := SpringForward(offset, jump, width);
    if AlwaysOn(r) || !BoundarySkipped(r, jump + offset, jump + offset + width) {
      forall lo: int, hi: int, t: int | lo <= t < hi
        ensures Scanned([r], z, lo, hi, t) <==> RestrictionMatches(r, z.toLocal(t))
      {
        if RestrictionMatches(r, z.toLocal(t)) {
          SpringMatchIsScanned(r, offset, jump, width, lo, hi, t);
        } else if Scanned([r], z, lo, hi, t) {
          SpringScannedMatches(r, offset, jump, width, lo, hi, t);
        }
      }
    } else {
      var lo, t := SkippedBoundaryDiffers(r, offset, jump, width);
      assert lo <= t < t + 1;
    }
  }

  // ----- clocks go back

  /** A restriction opens or closes strictly between two readings. */
  ghost predicate BoundaryBetween(r: Restriction, lo: int, hi: int) {
    exists day: int :: StartsOn(r, day) && (lo < Opening(r, day) < hi || lo < Closing(r, day) < hi)
  }

  lemma FallMatchIsScanned(r: Restriction, offset: int, jump: int, width: int, lo: int, hi: int, t: int)
    requires r.Valid() && 0 < width < DAY && lo <= t < hi
    requires AlwaysOn(r) || !BoundaryBetween(r, jump + offset - width, jump + offset)
    requires RestrictionMatches(r, FallBack(offset, jump, width).toLocal(t))
    ensures Scanned([r], FallBack(offset, jump, width), lo, hi, t)
  {
    var z := FallBack(offset, jump, width);
    var day := MatchIsHeld(r, z.toLocal(t));
    Shape(r, day);
    if AlwaysOn(r) && !Covers(r, day, z, t) {
      CoverIsScanned(r, day + 1, z, lo, hi, t);
    } else {
      CoverIsScanned(r, day, z, lo, hi, t);
    }
  }

  lemma FallScannedMatches(r: Restriction, offset: int, jump: int, width: int, lo: int, hi: int, t: int)
    requires r.Valid() && 0 < width < DAY && lo <= t < hi
    requires !AlwaysOn(r) && !BoundaryBetween(r, jump + offset - width, jump + offset)
    requires Scanned([r], FallBack(offset, jump, width), lo, hi, t)
    ensures RestrictionMatches(r, FallBack(offset, jump, width).toLocal(t))
  {
    var z := FallBack(offset, jump, width);
    var day := ScannedIsCovered(r, z, lo, hi, t);
    HoldsIsMatch(r, day, z.toLocal(t));
  }

  /** A repeated opening whose closing lies beyond: its window is already shown before the reading comes again. */
  lemma ShownBeforeOpening(r: Restriction, offset: int, jump: int, width: int, day: int) returns (t: int)
    requires r.Valid() && !AlwaysOn(r) && 0 < width < DAY && StartsOn(r, day)
    requires jump + offset - width < Opening(r, day) < jump + offset <= Closing(r, day)
    ensures DifferAt(r, FallBack(offset, jump, width), t, t)
  {
    var z := FallBack(offset, jump, width);
    t := Opening(r, day) - 1 - offset + width;
    Shape(r, day);
    CoverIsScanned(r, day, z, t, t + 1, t);
    if RestrictionMatches(r, z.toLocal(t)) {
      var c := MatchIsHeld(r, z.toLocal(t));
      InSequence(r, day, c);
      assert false;
    }
  }

  /** A repeated closing with no window around the end of the stretch: the second time round is missed. */
  lemma MissedBeforeClosing(r: Restriction, offset: int, jump: int, width: int, day: int) returns (t: int)
    requires r.Valid() && !AlwaysOn(r) && 0 < width < DAY && StartsOn(r, day)
    requires jump + offset - width < Closing(r, day) < jump + offset
    requires forall c: int :: StartsOn(r, c) && Opening(r, c) < jump + offset ==> Closing(r, c) < jump + offset
    ensures DifferAt(r, FallBack(offset, jump, width), t, t)
  {
    var z := FallBack(offset, jump, width);
    t := Closing(r, day) - 1 - offset + width;
    Shape(r, day);
    HoldsIsMatch(r, day, z.toLocal(t));
    if Scanned([r], z, t, t + 1, t) {
      var c := ScannedIsCovered(r, z, t, t + 1, t);
      InSequence(r, day, c);
      assert false;
    }
  }

  /** If a boundary lies strictly between two readings, either some window opens there and stays open to the
      end, or some window closes there and none is open at the end. */
  lemma OpenAtEndOrNot(r: Restriction, lo: int, hi: int) returns (day: int)
    requires r.Valid() && !AlwaysOn(r) && BoundaryBetween(r, lo, hi)
    ensures StartsOn(r, day)
    ensures || lo < Opening(r, day) < hi <= Closing(r, day)
            || (lo < Closing(r, day) < hi && forall c: int :: StartsOn(r, c) && Opening(r, c) < hi ==> Closing(r, c) < hi)
  {
    day :| StartsOn(r, day) && (lo < Opening(r, day) < hi || lo < Closing(r, day) < hi);
    Shape(r, day);
    if c: int :| StartsOn(r, c) && Opening(r, c) < hi <= Closing(r, c) {
      InSequence(r, day, c);
      day := c;
    }
  }

  /** A repeated boundary leaves an instant at which windows and matching differ. */
  lemma RepeatedBoundaryDiffers(r: Restriction, offset: int, jump: int, width: int) returns (t: int)
    requires r.Valid() && 0 < width < DAY && !AlwaysOn(r)
    requires BoundaryBetween(r, jump + offset - width, jump + offset)
    ensures DifferAt(r, FallBack(offset, jump, width), t, t)
  {
    var day := OpenAtEndOrNot(r, jump + offset - width, jump + offset);
    if Closing(r, day) < jump + offset {
      t := MissedBeforeClosing(r, offset, jump, width, day);
    } else {
      t := ShownBeforeOpening(r, offset, jump, width, day);
    }
  }

  /** Across a jump back of less than a day the windows of a restriction are exact if and only if it is
      always on or no boundary of it is repeated. */
  lemma FallBackWindowsIff(r: Restriction, offset: int, jump: int, width: int)
    requires r.Valid() && 0 < width < DAY
    ensures WindowsExact(r, FallBack(offset, jump, width)) <==>
            AlwaysOn(r) || !BoundaryBetween(r, jump + offset - width, jump + offset)
  {
    var z := FallBack(offset, jump, width);
    if AlwaysOn(r) || !BoundaryBetween(r, jump + offset - width, jump + offset) {
      forall lo: int, hi: int, t: int | lo <= t < hi
        ensures Scanned([r], z, lo, hi, t) <==> RestrictionMatches(r, z.toLocal(t))
      {
        if RestrictionMatches(r, z.toLocal(t)) {
          FallMatchIsScanned(r, offset, jump, width, lo, hi, t);
        } else if Scanned([r], z, lo, hi, t) {
          FallScannedMatches(r, offset, jump, width, lo, hi, t);
        }
      }
    } else {
      var t := RepeatedBoundaryDiffers(r, offset, jump, width);
      assert t <= t < t + 1;
    }
  }
}

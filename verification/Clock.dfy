/** Instants are integers counting microseconds; a local wall clock uses the same unit.
    Day 0 is 1970-01-01, a Thursday. */
module Clock {

  datatype Option<+T> = None | Some(value: T)

  const SECOND: int := 1_000_000
  const MINUTE: int := 60_000_000
  const DAY: int := 86_400_000_000
  const DAY_SECONDS: int := 86400

  function Min(x: int, y: int): int {
    if x <= y then x else y
  }

  function Max(x: int, y: int): int {
    if x >= y then x else y
  }

  /** The local calendar day of a wall-clock reading. */
  function Day(local: int): int {
    local / DAY
  }

  /** Minutes since local midnight. */
  function MinuteOfDay(local: int): int {
    (local % DAY) / MINUTE
  }

  /** 0 is Monday, 6 is Sunday. */
  function Weekday(day: int): int {
    (day + 3) % 7
  }

  /** Whole seconds of a duration, truncated toward zero. */
  function WholeSeconds(delta: int): int {
    if delta >= 0 then delta / SECOND else -((-delta) / SECOND)
  }

  /** A time zone: how an instant reads on the local clock, and which instant a reading denotes. */
  datatype Zone = Zone(toLocal: int -> int, toUtc: int -> int)

  function FixedOffset(offset: int): Zone {
    Zone(t => t + offset, local => local - offset)
  }

  /** Clocks run at `offset` and jump ahead by `width` at the instant `jump`. A skipped reading is
      converted with the offset before the jump. */
  function SpringForward(offset: int, jump: int, width: int): Zone {
    Zone(t => if t < jump then t + offset else t + offset + width,
         local => if local < jump + offset + width then local - offset else local - offset - width)
  }

  /** Clocks run at `offset` and go back by `width` at the instant `jump`. A repeated reading denotes
      its first occurrence. */
  function FallBack(offset: int, jump: int, width: int): Zone {
    Zone(t => if t < jump then t + offset else t + offset - width,
         local => if local < jump + offset then local - offset else local - offset + width)
  }

  /** The reading `local` splits time cleanly: before its instant the clock shows less. */
  ghost predicate RegularAt(z: Zone, local: int) {
    forall t: int :: t < z.toUtc(local) <==> z.toLocal(t) < local
  }

  /** Weekdays follow one another, day 0 being a Thursday, and the units fit together. */
  lemma CalendarUnits(day: int)
    ensures Weekday(0) == 3 && Weekday(day + 1) == if Weekday(day) == 6 then 0 else Weekday(day) + 1
    ensures SECOND == 1000 * 1000 && MINUTE == 60 * SECOND && DAY == 24 * 60 * MINUTE == DAY_SECONDS * SECOND
  {
  }

  lemma DayBounds(local: int, day: int)
    ensures Day(local) >= day <==> local >= day * DAY
    ensures Day(local) * DAY <= local < (Day(local) + 1) * DAY
  {
  }

  lemma MulOrder(n: int, a: int, b: int)
    requires n >= 1
    ensures a < b ==> n * a + n <= n * b
  {
    if a < b {
      var more := b - a - 1;
      assert n * more >= 0;
      assert n * (a + 1 + more) == n * a + n + n * more;
    }
  }

  lemma DivReaches(n: int, d: int, j: int)
    requires d >= 1
    ensures n / d >= j <==> n >= d * j
  {
    MulOrder(d, n / d, j);
    MulOrder(d, j, n / d + 1);
  }

  lemma UniqueDivMod(x: int, n: int, q: int, r: int)
    requires n >= 1 && 0 <= r < n && x == n * q + r
    ensures x / n == q && x % n == r
  {
    UniquePair(n, q, r, x / n, x % n);
  }

  lemma UniquePair(n: int, q: int, r: int, q': int, r': int)
    requires n >= 1 && 0 <= r < n && 0 <= r' < n && n * q + r == n * q' + r'
    ensures q == q' && r == r'
  {
    MulOrder(n, q, q');
    MulOrder(n, q', q);
  }

  lemma SomeElement(s: set<int>)
    ensures s != {} ==> exists x :: x in s
  {
    if forall x :: x !in s {
      assert s == {};
    }
  }
}

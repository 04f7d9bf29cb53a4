/** Fixed-window login throttling, as driven by the login view. */
module LoginThrottle {
  import opened Clock

  /** Buckets are keyed by scope and normalised value. */
  datatype Key = Ip(addr: string) | Account(name: string)

  datatype Policy = Policy(maxFailures: int, windowSeconds: int, blockSeconds: int) {
    function Window(): int { windowSeconds * SECOND }
    function Block(): int { Max(blockSeconds, 1) * SECOND }
  }

  datatype Config = Config(ip: Policy, account: Policy)

  datatype Row = Row(failures: int, windowStart: int, blockedUntil: Option<int>, updatedAt: int)

  type Table = map<Key, Row>

  const PURGE_AGE: int := 7 * DAY

  function PolicyOf(cfg: Config, k: Key): Policy {
    if k.Ip? then cfg.ip else cfg.account
  }

  predicate BlockedAt(rows: Table, k: Key, now: int) {
    k in rows && rows[k].blockedUntil.Some? && rows[k].blockedUntil.value > now
  }

  /** Advertised seconds for one key: whole seconds left, plus one. */
  function SecondsLeft(rows: Table, k: Key, now: int): int {
    if BlockedAt(rows, k, now) then (rows[k].blockedUntil.value - now) / SECOND + 1 else 0
  }

  function RetryAfter(rows: Table, user: string, addr: string, now: int): int {
    Max(SecondsLeft(rows, Ip(addr), now), SecondsLeft(rows, Account(user), now))
  }

  /** The largest wait over some keys, zero if none is blocked. */
  function LongestWait(rows: Table, keys: seq<Key>, now: int): int {
    if keys == [] then 0
    else Max(LongestWait(rows, keys[..|keys| - 1], now), SecondsLeft(rows, keys[|keys| - 1], now))
  }

  function BlockIfFull(p: Policy, row: Row, now: int): Row {
    if row.failures >= p.maxFailures then row.(blockedUntil := Some(now + p.Block())) else row
  }

  /** One failure counted against one key. */
  function CountFailure(cfg: Config, rows: Table, k: Key, now: int): Table {
    var p := PolicyOf(cfg, k);
    if p.maxFailures <= 0 then rows
    else if k !in rows || rows[k].windowStart <= now - p.Window() then
      rows[k := BlockIfFull(p, Row(1, now, None, now), now)]
    else
      rows[k := BlockIfFull(p, rows[k].(failures := rows[k].failures + 1, updatedAt := now), now)]
  }

  function Purge(rows: Table, now: int): Table {
    map k | k in rows && rows[k].updatedAt >= now - PURGE_AGE :: rows[k]
  }

  function CountLoginFailure(cfg: Config, rows: Table, user: string, addr: string, now: int): Table {
    Purge(CountFailure(cfg, CountFailure(cfg, rows, Ip(addr), now), Account(user), now), now)
  }

  datatype Attempt = Attempt(user: string, addr: string, now: int, passwordOk: bool)

  /** `Blocked` never looked at the password; `Failed` did and may already advertise a wait. */
  datatype Outcome = Blocked(retryAfter: int) | Failed(retryAfter: int) | Granted

  function RowsAfter(cfg: Config, rows: Table, a: Attempt): Table {
    if RetryAfter(rows, a.user, a.addr, a.now) != 0 then rows
    else if !a.passwordOk then CountLoginFailure(cfg, rows, a.user, a.addr, a.now)
    else rows - {Account(a.user)}
  }

  function OutcomeOf(cfg: Config, rows: Table, a: Attempt): Outcome {
    if RetryAfter(rows, a.user, a.addr, a.now) != 0 then Blocked(RetryAfter(rows, a.user, a.addr, a.now))
    else if !a.passwordOk then Failed(RetryAfter(RowsAfter(cfg, rows, a), a.user, a.addr, a.now))
    else Granted
  }

  /** The shared throttle table and the operations the login view performs on it. */
  class Throttle {
    const config: Config
    var rows: Table

    constructor (config: Config)
      ensures this.config == config && rows == map[]
    {
      this.config := config;
      rows := map[];
    }

    method LoginRetryAfter(user: string, addr: string, now: int) returns (seconds: int)
      ensures seconds == RetryAfter(rows, user, addr, now)
    {
      seconds := 0;
      var keys := [Ip(addr), Account(user)];
      for i := 0 to |keys|
        invariant seconds == LongestWait(rows, keys[..i], now) && seconds >= 0
      {
        var k := keys[i];
        if k in rows && rows[k].blockedUntil.Some? && rows[k].blockedUntil.value > now {
          seconds := Max(seconds, (rows[k].blockedUntil.value - now) / SECOND + 1);
        }
        assert keys[..i + 1][..i] == keys[..i];
      }
      assert keys[..2] == keys && keys[..1] == [Ip(addr)] && keys[..0] == [];
    }

    method RecordFailure(k: Key, now: int)
      modifies this
      ensures rows == CountFailure(config, old(rows), k, now)
    {
      var p := PolicyOf(config, k);
      if p.maxFailures <= 0 {
        return;
      }
      if k !in rows {
        rows := rows[k := Row(1, now, if p.maxFailures <= 1 then Some(now + p.Block()) else None, now)];
        return;
      }
      var row := rows[k];
      if row.windowStart <= now - p.Window() {
        row := row.(failures := 1, windowStart := now, blockedUntil := None);
      } else {
        row := row.(failures := row.failures + 1);
      }
      if row.failures >= p.maxFailures {
        row := row.(blockedUntil := Some(now + p.Block()));
      }
      row := row.(updatedAt := now);
      rows := rows[k := row];
    }

    method RecordLoginFailure(user: string, addr: string, now: int)
      modifies this
      ensures rows == CountLoginFailure(config, old(rows), user, addr, now)
    {
      RecordFailure(Ip(addr), now);
      RecordFailure(Account(user), now);
      rows := Purge(rows, now);
    }

    method Login(a: Attempt) returns (outcome: Outcome)
      modifies this
      ensures rows == RowsAfter(config, old(rows), a)
      ensures outcome == OutcomeOf(config, old(rows), a)
    {
      var wait := LoginRetryAfter(a.user, a.addr, a.now);
      if wait != 0 {
        return Blocked(wait);
      }
      if !a.passwordOk {
        RecordLoginFailure(a.user, a.addr, a.now);
        wait := LoginRetryAfter(a.user, a.addr, a.now);
        return Failed(wait);
      }
      rows := rows - {Account(a.user)};
      return Granted;
    }
  }

  // ----- runs

  predicate InOrder(attempts: seq<Attempt>) {
    forall i, j :: 0 <= i < j < |attempts| ==> attempts[i].now <= attempts[j].now
  }

  /** The table after a run of attempts, starting empty. */
  function TableAfter(cfg: Config, attempts: seq<Attempt>): Table {
    if attempts == [] then map[]
    else RowsAfter(cfg, TableAfter(cfg, attempts[..|attempts| - 1]), attempts[|attempts| - 1])
  }

  function OutcomeAt(cfg: Config, attempts: seq<Attempt>, i: int): Outcome
    requires 0 <= i < |attempts|
  {
    OutcomeOf(cfg, TableAfter(cfg, attempts[..i]), attempts[i])
  }

  /** The attempt comes from the address, or is for the account. */
  predicate Concerns(a: Attempt, k: Key) {
    k == Ip(a.addr) || k == Account(a.user)
  }

  /** The times at which the run counted a failure against one key; for an account, since its last success. */
  function FailureTimes(cfg: Config, attempts: seq<Attempt>, k: Key): seq<int> {
    if attempts == [] then []
    else
      var n := |attempts| - 1;
      var times, outcome := FailureTimes(cfg, attempts[..n], k), OutcomeOf(cfg, TableAfter(cfg, attempts[..n]), attempts[n]);
      if outcome.Failed? && Concerns(attempts[n], k) then times + [attempts[n].now]
      else if outcome.Granted? && k == Account(attempts[n].user) then []
      else times
  }

  function CountWithin(times: seq<int>, from: int, length: int): nat {
    if times == [] then 0
    else CountWithin(times[..|times| - 1], from, length)
         + (if from <= times[|times| - 1] < from + length then 1 else 0)
  }

  predicate Ascending(times: seq<int>) {
    forall i, j :: 0 <= i < j < |times| ==> times[i] <= times[j]
  }

  /** The most failures one address can have counted within a window's length. */
  function WindowBound(p: Policy): int {
    Max(1, 2 * p.maxFailures - 2)
  }

  /** Any WindowBound + 1 consecutive failures span at least a window. */
  ghost predicate Spaced(p: Policy, times: seq<int>) {
    forall i, j :: 0 <= i <= j < |times| && j == i + WindowBound(p) ==> times[i] + p.Window() <= times[j]
  }

  /** How the row of a key mirrors the failures counted so far: the last `failures` of them form its window. */
  ghost predicate Mirrors(p: Policy, rows: Table, k: Key, times: seq<int>, clock: int) {
    && Ascending(times)
    && Spaced(p, times)
    && (times != [] ==> times[|times| - 1] <= clock)
    && (k !in rows && times != [] ==> times[|times| - 1] + p.Window() <= clock)
    && (k in rows ==> RowMirrors(p, rows[k], times))
  }

  ghost predicate RowMirrors(p: Policy, row: Row, times: seq<int>) {
    && 1 <= row.failures <= p.maxFailures
    && row.failures <= |times|
    && row.windowStart == times[|times| - row.failures]
    && row.updatedAt == times[|times| - 1]
    && (row.failures == p.maxFailures ==> row.blockedUntil == Some(row.updatedAt + p.Block()))
    && (forall i :: 0 <= i < |times| - row.failures && i <= |times| - row.failures - p.maxFailures + 1 ==>
          times[i] + p.Window() <= row.windowStart)
  }

  ghost predicate BoundingPolicy(p: Policy) {
    p.maxFailures >= 1 && p.blockSeconds >= p.windowSeconds >= 1 && p.Window() <= PURGE_AGE
  }

  /** Counting an allowed failure keeps the mirror. */
  lemma CountKeepsMirror(cfg: Config, rows: Table, k: Key, times: seq<int>, clock: int, now: int)
    requires BoundingPolicy(PolicyOf(cfg, k)) && Mirrors(PolicyOf(cfg, k), rows, k, times, clock)
    requires clock <= now && !BlockedAt(rows, k, now)
    ensures Mirrors(PolicyOf(cfg, k), CountFailure(cfg, rows, k, now), k, times + [now], now)
    ensures CountFailure(cfg, rows, k, now)[k].updatedAt == now
  {
    var p := PolicyOf(cfg, k);
    var after := CountFailure(cfg, rows, k, now);
    var all := times + [now];
    assert Ascending(all);
    assert p.Block() >= p.Window();
    RowKeepsMirror(cfg, rows, k, times, clock, now);
    var row := after[k];
    forall i, j | 0 <= i <= j < |all| && j == i + WindowBound(p)
      ensures all[i] + p.Window() <= all[j]
    {
      if j == |times| {
        assert i < |all| - row.failures && i <= |all| - row.failures - p.maxFailures + 1;
        assert row.windowStart <= now;
      }
    }
  }

  lemma RowKeepsMirror(cfg: Config, rows: Table, k: Key, times: seq<int>, clock: int, now: int)
    requires BoundingPolicy(PolicyOf(cfg, k)) && Mirrors(PolicyOf(cfg, k), rows, k, times, clock)
    requires clock <= now
    requires k in rows && rows[k].failures == PolicyOf(cfg, k).maxFailures ==>
               times[|times| - 1] <= now - PolicyOf(cfg, k).Window()
    ensures RowMirrors(PolicyOf(cfg, k), CountFailure(cfg, rows, k, now)[k], times + [now])
  {
  }

  /** Failures of other keys and the purge never disturb a mirror. */
  lemma OtherKeysKeepMirror(p: Policy, rows: Table, after: Table, k: Key, times: seq<int>, clock: int, now: int)
    requires BoundingPolicy(p) && Mirrors(p, rows, k, times, clock) && clock <= now
    requires k in after ==> k in rows && after[k] == rows[k]
    requires k in rows && k !in after ==> rows[k].updatedAt < now - PURGE_AGE
    ensures Mirrors(p, after, k, times, now)
  {
  }

  /** What an attempt does to the row of a key: count it, clear it, or leave it unless purged. */
  lemma AttemptOnKey(cfg: Config, rows: Table, a: Attempt, k: Key)
    requires PolicyOf(cfg, k).maxFailures >= 1
    ensures var outcome, after := OutcomeOf(cfg, rows, a), RowsAfter(cfg, rows, a);
            if outcome.Failed? && Concerns(a, k) then
              && !BlockedAt(rows, k, a.now)
              && k in after
              && after[k] == CountFailure(cfg, rows, k, a.now)[k]
            else if outcome.Granted? && k == Account(a.user) then k !in after
            else
              && (k in after ==> k in rows && after[k] == rows[k])
              && (k in rows && k !in after ==> rows[k].updatedAt < a.now - PURGE_AGE)
  {
  }

  lemma StepKeepsMirror(cfg: Config, rows: Table, a: Attempt, k: Key, times: seq<int>, clock: int)
    requires BoundingPolicy(PolicyOf(cfg, k)) && Mirrors(PolicyOf(cfg, k), rows, k, times, clock) && clock <= a.now
    ensures var outcome := OutcomeOf(cfg, rows, a);
            Mirrors(PolicyOf(cfg, k), RowsAfter(cfg, rows, a), k,
                    if outcome.Failed? && Concerns(a, k) then times + [a.now]
                    else if outcome.Granted? && k == Account(a.user) then []
                    else times, a.now)
  {
    var p, outcome, after := PolicyOf(cfg, k), OutcomeOf(cfg, rows, a), RowsAfter(cfg, rows, a);
    AttemptOnKey(cfg, rows, a, k);
    if outcome.Failed? && Concerns(a, k) {
      CountKeepsMirror(cfg, rows, k, times, clock, a.now);
      OtherKeysKeepMirror(p, CountFailure(cfg, rows, k, a.now), after, k, times + [a.now], a.now, a.now);
    } else if !(outcome.Granted? && k == Account(a.user)) {
      OtherKeysKeepMirror(p, rows, after, k, times, clock, a.now);
    }
  }

  lemma {:induction false} RunKeepsMirror(cfg: Config, attempts: seq<Attempt>, k: Key)
    requires BoundingPolicy(PolicyOf(cfg, k)) && InOrder(attempts) && attempts != []
    ensures Mirrors(PolicyOf(cfg, k), TableAfter(cfg, attempts), k, FailureTimes(cfg, attempts, k), attempts[|attempts| - 1].now)
  {
    var n := |attempts| - 1;
    if n == 0 {
      StepKeepsMirror(cfg, map[], attempts[0], k, [], attempts[0].now);
    } else {
      RunKeepsMirror(cfg, attempts[..n], k);
      StepKeepsMirror(cfg, TableAfter(cfg, attempts[..n]), attempts[n], k,
                      FailureTimes(cfg, attempts[..n], k), attempts[n - 1].now);
    }
  }

  /** The counted instants of an interval are the latest ones, if the list does not run past it. */
  lemma {:induction false} CountedAreLast(times: seq<int>, from: int, length: int)
    requires Ascending(times) && (times != [] ==> times[|times| - 1] < from + length)
    ensures CountWithin(times, from, length) <= |times|
    ensures forall i :: |times| - CountWithin(times, from, length) <= i < |times| ==> times[i] >= from
  {
    if times != [] {
      CountedAreLast(times[..|times| - 1], from, length);
      if times[|times| - 1] < from {
        NoneCounted(times, from, length);
      }
    }
  }

  lemma {:induction false} NoneCounted(times: seq<int>, from: int, length: int)
    requires forall i :: 0 <= i < |times| ==> times[i] < from
    ensures CountWithin(times, from, length) == 0
  {
    if times != [] {
      NoneCounted(times[..|times| - 1], from, length);
    }
  }

  lemma {:induction false} SpacedBoundsCount(p: Policy, times: seq<int>, from: int)
    requires p.maxFailures >= 1 && Ascending(times) && Spaced(p, times)
    ensures CountWithin(times, from, p.Window()) <= WindowBound(p)
  {
    if times != [] {
      var n := |times| - 1;
      if times[n] >= from + p.Window() {
        SpacedBoundsCount(p, times[..n], from);
      } else {
        CountedAreLast(times, from, p.Window());
        var first := n - WindowBound(p);
        if first >= 0 {
          assert times[first] + p.Window() <= times[n];
        }
      }
    }
  }

  /** In every window-long interval, a run counts at most max(1, 2 * maxFailures - 2) failures for one address,
      and as many for one account between two successes. */
  lemma FailuresPerWindow(cfg: Config, attempts: seq<Attempt>, k: Key, from: int)
    requires BoundingPolicy(PolicyOf(cfg, k)) && InOrder(attempts)
    ensures var p := if k.Ip? then cfg.ip else cfg.account;
            CountWithin(FailureTimes(cfg, attempts, k), from, p.windowSeconds * SECOND) <= Max(1, 2 * p.maxFailures - 2)
  {
    if attempts != [] {
      RunKeepsMirror(cfg, attempts, k);
      SpacedBoundsCount(PolicyOf(cfg, k), FailureTimes(cfg, attempts, k), from);
    }
  }

  // ----- the bound is tight

  /** One failure at 0, the rest of its window just before it closes, then a full window's worth. */
  function BurstTime(p: Policy, i: int): int {
    if i == 0 then 0 else if i < p.maxFailures - 1 then p.Window() - 1 else p.Window()
  }

  function Name(i: nat): string {
    seq(i, _ => 'u')
  }

  function TextOf(k: Key): string {
    match k
    case Ip(addr) => addr
    case Account(name) => name
  }

  /** Each attempt on an address tries an account of its own, and each attempt on an account comes from an address
      of its own, so no other row ever stands in the way. */
  function BurstAttempt(p: Policy, k: Key, i: nat): Attempt {
    match k
    case Ip(addr) => Attempt(Name(i), addr, BurstTime(p, i), false)
    case Account(name) => Attempt(name, Name(i), BurstTime(p, i), false)
  }

  function Burst(p: Policy, k: Key, n: nat): seq<Attempt> {
    seq(n, i requires 0 <= i < n => BurstAttempt(p, k, i))
  }

  function BurstTimes(p: Policy, n: nat): seq<int> {
    seq(n, i => BurstTime(p, i))
  }

  lemma BurstGrows(p: Policy, k: Key, n: nat)
    requires n > 0
    ensures Burst(p, k, n) == Burst(p, k, n - 1) + [BurstAttempt(p, k, n - 1)]
    ensures BurstTimes(p, n) == BurstTimes(p, n - 1) + [BurstTime(p, n - 1)]
  {
  }

  function BurstRow(p: Policy, n: int): Row {
    var first := n <= p.maxFailures - 1;
    Row(if first then n else n - (p.maxFailures - 1),
        if first then 0 else p.Window(),
        if n == 2 * p.maxFailures - 1 then Some(p.Window() + p.Block()) else None,
        BurstTime(p, n - 1))
  }

  /** After n attempts the key has its burst row, and only shorter texts have rows of the other kind. */
  ghost predicate BurstState(p: Policy, k: Key, n: nat, rows: Table) {
    && (n == 0 ==> k !in rows)
    && (n > 0 ==> k in rows && rows[k] == BurstRow(p, n))
    && (forall o :: o in rows && o.Ip? != k.Ip? ==> |TextOf(o)| < n)
  }

  lemma RunAppended(cfg: Config, attempts: seq<Attempt>, a: Attempt, k: Key)
    ensures TableAfter(cfg, attempts + [a]) == RowsAfter(cfg, TableAfter(cfg, attempts), a)
    ensures OutcomeOf(cfg, TableAfter(cfg, attempts), a).Failed? && Concerns(a, k) ==>
              FailureTimes(cfg, attempts + [a], k) == FailureTimes(cfg, attempts, k) + [a.now]
  {
    assert (attempts + [a])[..|attempts|] == attempts;
  }

  lemma {:induction false} BurstTable(cfg: Config, k: Key, p: Policy, n: nat)
    requires p == PolicyOf(cfg, k) && p.maxFailures >= 2 && BoundingPolicy(p) && n <= 2 * p.maxFailures - 1
    ensures BurstState(p, k, n, TableAfter(cfg, Burst(p, k, n)))
    ensures FailureTimes(cfg, Burst(p, k, n), k) == BurstTimes(p, n)
  {
    if n > 0 {
      BurstTable(cfg, k, p, n - 1);
      BurstStep(cfg, k, p, TableAfter(cfg, Burst(p, k, n - 1)), n);
      RunAppended(cfg, Burst(p, k, n - 1), BurstAttempt(p, k, n - 1), k);
      BurstGrows(p, k, n);
    }
  }

  lemma BurstStep(cfg: Config, k: Key, p: Policy, rows: Table, n: nat)
    requires p == PolicyOf(cfg, k) && p.maxFailures >= 2 && BoundingPolicy(p) && 1 <= n <= 2 * p.maxFailures - 1
    requires BurstState(p, k, n - 1, rows)
    ensures var a := BurstAttempt(p, k, n - 1);
            OutcomeOf(cfg, rows, a).Failed? && Concerns(a, k) && BurstState(p, k, n, RowsAfter(cfg, rows, a))
  {
    var a := BurstAttempt(p, k, n - 1);
    var other := if k.Ip? then Account(a.user) else Ip(a.addr);
    assert |TextOf(other)| == n - 1 && other !in rows;
    AttemptOnKey(cfg, rows, a, k);
    assert CountFailure(cfg, rows, k, a.now)[k] == BurstRow(p, n);
  }

  lemma {:induction false} AllButFirstCounted(p: Policy, k: Key, n: nat)
    requires p.maxFailures >= 2 && BoundingPolicy(p)
    ensures CountWithin(BurstTimes(p, n), p.Window() - 1, p.Window()) == if n == 0 then 0 else n - 1
  {
    if n > 0 {
      AllButFirstCounted(p, k, n - 1);
      BurstGrows(p, k, n);
      assert BurstTimes(p, n)[..n - 1] == BurstTimes(p, n - 1);
    }
  }

  lemma BurstInOrder(p: Policy, k: Key, n: nat)
    requires BoundingPolicy(p)
    ensures InOrder(Burst(p, k, n))
  {
    assert p.Window() >= 1;
  }

  lemma BurstCounts(cfg: Config, k: Key, p: Policy, n: nat)
    requires p == PolicyOf(cfg, k) && p.maxFailures >= 2 && BoundingPolicy(p) && 0 < n <= 2 * p.maxFailures - 1
    ensures CountWithin(FailureTimes(cfg, Burst(p, k, n), k), p.Window() - 1, p.Window()) == n - 1
  {
    BurstTable(cfg, k, p, n);
    BurstTimesCount(p, k, n, FailureTimes(cfg, Burst(p, k, n), k));
  }

  lemma BurstTimesCount(p: Policy, k: Key, n: nat, times: seq<int>)
    requires p.maxFailures >= 2 && BoundingPolicy(p) && n > 0 && times == BurstTimes(p, n)
    ensures CountWithin(times, p.Window() - 1, p.Window()) == n - 1
  {
    AllButFirstCounted(p, k, n);
  }

  lemma OneFailureCounts(cfg: Config, k: Key, p: Policy)
    requires p == PolicyOf(cfg, k) && BoundingPolicy(p)
    ensures CountWithin(FailureTimes(cfg, Burst(p, k, 1), k), 0, p.Window()) == 1
  {
    OneFailureListed(cfg, k, p, BurstAttempt(p, k, 0));
    OneTimeCounts(p, FailureTimes(cfg, Burst(p, k, 1), k));
  }

  lemma OneFailureListed(cfg: Config, k: Key, p: Policy, a: Attempt)
    requires p == PolicyOf(cfg, k) && BoundingPolicy(p) && a == BurstAttempt(p, k, 0)
    ensures FailureTimes(cfg, Burst(p, k, 1), k) == [0]
  {
    RunAppended(cfg, [], a, k);
    assert Burst(p, k, 1) == [] + [a];
    assert FailureTimes(cfg, [], k) == [];
  }

  lemma OneTimeCounts(p: Policy, times: seq<int>)
    requires times == [0] && p.Window() >= 1
    ensures CountWithin(times, 0, p.Window()) == 1
  {
    assert CountWithin(times[..0], 0, p.Window()) == 0;
  }

  /** Where the burst is densest. */
  function BusiestFrom(p: Policy): int {
    if p.maxFailures == 1 then 0 else p.Window() - 1
  }

  function BurstSize(p: Policy): nat
    requires p.maxFailures >= 1
  {
    2 * p.maxFailures - 1
  }

  /** The run that fills two windows as densely as the limit allows. */
  function WorstRun(p: Policy, k: Key): seq<Attempt>
    requires p.maxFailures >= 1
  {
    Burst(p, k, BurstSize(p))
  }

  /** For every address and every account, under every policy of the other kind, some run reaches the bound. */
  lemma BoundIsAttained(cfg: Config, k: Key, p: Policy)
    requires p == (if k.Ip? then cfg.ip else cfg.account) && BoundingPolicy(p)
    ensures InOrder(WorstRun(p, k))
    ensures CountWithin(FailureTimes(cfg, WorstRun(p, k), k), BusiestFrom(p), p.Window()) == Max(1, 2 * p.maxFailures - 2)
  {
    BurstInOrder(p, k, BurstSize(p));
    if p.maxFailures == 1 {
      OneFailureCounts(cfg, k, p);
    } else {
      BurstCounts(cfg, k, p, BurstSize(p));
    }
  }

  // ----- what one attempt does, in terms of stored fields

  /** A failed attempt counts against its address and its account: from one in a new window, one more in a
      running one, with a block exactly at the limit. */
  lemma FailureCountsBoth(cfg: Config, rows: Table, a: Attempt, k: Key)
    requires OutcomeOf(cfg, rows, a).Failed? && (k == Ip(a.addr) || k == Account(a.user))
    requires (if k.Ip? then cfg.ip else cfg.account).maxFailures >= 1
    ensures var p, after := if k.Ip? then cfg.ip else cfg.account, RowsAfter(cfg, rows, a);
            var running := k in rows && a.now < rows[k].windowStart + p.windowSeconds * 1_000_000;
            && k in after
            && after[k].updatedAt == a.now
            && after[k].failures == (if running then rows[k].failures + 1 else 1)
            && after[k].windowStart == (if running then rows[k].windowStart else a.now)
            && (after[k].failures >= p.maxFailures ==>
                  after[k].blockedUntil == Some(a.now + Max(p.blockSeconds, 1) * 1_000_000))
            && (after[k].failures < p.maxFailures ==> after[k].blockedUntil == if running then rows[k].blockedUntil else None)
  {
  }

  /** A blocked attempt changes nothing, a granted one clears its account and nothing else, and a failed one
      otherwise only drops rows untouched for a week. */
  lemma OtherRowsStay(cfg: Config, rows: Table, a: Attempt, k: Key)
    requires k != Account(a.user) && k != Ip(a.addr)
    ensures var outcome, after := OutcomeOf(cfg, rows, a), RowsAfter(cfg, rows, a);
            && (outcome.Blocked? ==> after == rows)
            && (outcome.Granted? ==> Account(a.user) !in after && forall o :: o != Account(a.user) ==>
                  (o in after <==> o in rows) && (o in rows ==> after[o] == rows[o]))
            && (k in after <==> k in rows && !(outcome.Failed? && rows[k].updatedAt + 7 * DAY < a.now))
            && (k in after ==> after[k] == rows[k])
  {
  }

  /** The password is looked at exactly when neither key is blocked, and decides between success and failure. */
  lemma OutcomeDecided(cfg: Config, rows: Table, a: Attempt)
    ensures OutcomeOf(cfg, rows, a).Blocked? <==>
            exists k, until: int :: k in rows && (k == Ip(a.addr) || k == Account(a.user))
                                    && rows[k].blockedUntil == Some(until) && a.now < until
    ensures OutcomeOf(cfg, rows, a).Granted? ==> a.passwordOk
    ensures OutcomeOf(cfg, rows, a).Failed? ==> !a.passwordOk
    ensures !OutcomeOf(cfg, rows, a).Granted? ==>
              OutcomeOf(cfg, rows, a).retryAfter == RetryAfter(RowsAfter(cfg, rows, a), a.user, a.addr, a.now)
  {
    AdvertisedWaitSuffices(rows, a.user, a.addr, a.now, a.now);
    forall k | k == Ip(a.addr) || k == Account(a.user)
      ensures BlockedAt(rows, k, a.now) <==> exists until: int :: k in rows && rows[k].blockedUntil == Some(until) && a.now < until
    {
      if BlockedAt(rows, k, a.now) {
        assert rows[k].blockedUntil == Some(rows[k].blockedUntil.value);
      }
    }
  }

  /** A limit of zero or less switches its kind of throttling off for good. */
  lemma {:induction false} DisabledKindNeverCounts(cfg: Config, attempts: seq<Attempt>, k: Key)
    requires (if k.Ip? then cfg.ip else cfg.account).maxFailures <= 0
    ensures k !in TableAfter(cfg, attempts)
  {
    if attempts != [] {
      DisabledKindNeverCounts(cfg, attempts[..|attempts| - 1], k);
    }
  }

  /** The attempts from i up to e all failed on a key that had no row before, within one window. */
  ghost predicate FreshFailures(cfg: Config, attempts: seq<Attempt>, k: Key, i: int, e: int) {
    && 0 <= i < e <= |attempts| && e - i <= PolicyOf(cfg, k).maxFailures
    && k !in TableAfter(cfg, attempts[..i])
    && (forall j :: i <= j < e ==> OutcomeAt(cfg, attempts, j).Failed? && Concerns(attempts[j], k))
    && attempts[e - 1].now < attempts[i].now + PolicyOf(cfg, k).Window()
  }

  function FreshRow(p: Policy, count: int, first: int, last: int): Row {
    Row(count, first, if count == p.maxFailures then Some(last + p.Block()) else None, last)
  }

  lemma FreshStep(cfg: Config, rows: Table, a: Attempt, k: Key, count: int, first: int, last: int)
    requires OutcomeOf(cfg, rows, a).Failed? && Concerns(a, k) && 1 <= count <= PolicyOf(cfg, k).maxFailures
    requires count == 1 ==> k !in rows && first == a.now
    requires count > 1 ==> k in rows && rows[k] == FreshRow(PolicyOf(cfg, k), count - 1, first, last)
    requires a.now < first + PolicyOf(cfg, k).Window()
    ensures k in RowsAfter(cfg, rows, a) && RowsAfter(cfg, rows, a)[k] == FreshRow(PolicyOf(cfg, k), count, first, a.now)
  {
    AttemptOnKey(cfg, rows, a, k);
  }

  /** The tables a run passes through. */
  ghost predicate Passes(cfg: Config, tables: seq<Table>, attempts: seq<Attempt>) {
    |tables| == |attempts| + 1 && forall j :: 0 <= j < |attempts| ==> tables[j + 1] == RowsAfter(cfg, tables[j], attempts[j])
  }

  lemma {:induction false} FreshFailuresCount(cfg: Config, tables: seq<Table>, attempts: seq<Attempt>, k: Key, i: int, e: int, m: int)
    requires Passes(cfg, tables, attempts) && InOrder(attempts) && 0 <= i < e <= |attempts| && m == e - i <= PolicyOf(cfg, k).maxFailures
    requires k !in tables[i] && attempts[e - 1].now < attempts[i].now + PolicyOf(cfg, k).Window()
    requires forall j :: i <= j < e ==> OutcomeOf(cfg, tables[j], attempts[j]).Failed? && Concerns(attempts[j], k)
    ensures k in tables[e] && tables[e][k] == FreshRow(PolicyOf(cfg, k), m, attempts[i].now, attempts[e - 1].now)
    decreases m
  {
    var n := e - 1;
    var rows, a, last := tables[n], attempts[n], if m == 1 then 0 else attempts[n - 1].now;
    if m > 1 {
      assert last <= a.now;
      FreshFailuresCount(cfg, tables, attempts, k, i, n, m - 1);
    }
    FreshStep(cfg, rows, a, k, m, attempts[i].now, last);
    assert tables[n + 1] == RowsAfter(cfg, rows, a);
  }

  lemma RunPasses(cfg: Config, attempts: seq<Attempt>) returns (tables: seq<Table>)
    ensures Passes(cfg, tables, attempts) && forall j :: 0 <= j <= |attempts| ==> tables[j] == TableAfter(cfg, attempts[..j])
  {
    tables := seq(|attempts| + 1, j requires 0 <= j <= |attempts| => TableAfter(cfg, attempts[..j]));
    forall j | 0 <= j < |attempts|
      ensures tables[j + 1] == RowsAfter(cfg, tables[j], attempts[j])
    {
      assert attempts[..j + 1][..j] == attempts[..j];
    }
  }

  /** As many failures as the limit within one fresh window lock the address or the account: every attempt on it
      before the block ends is refused, whatever happens in between. */
  lemma LimitLocksKey(cfg: Config, attempts: seq<Attempt>, k: Key, i: int, e: int, j: int)
    requires BlocksBeforePurge(cfg) && InOrder(attempts) && FreshFailures(cfg, attempts, k, i, e)
    requires e - i == (if k.Ip? then cfg.ip else cfg.account).maxFailures
    requires e <= j < |attempts| && Concerns(attempts[j], k)
    requires attempts[j].now < attempts[e - 1].now + Max((if k.Ip? then cfg.ip else cfg.account).blockSeconds, 1) * SECOND
    ensures OutcomeAt(cfg, attempts, j).Blocked?
  {
    var tables := RunPasses(cfg, attempts);
    forall n | i <= n < e
      ensures OutcomeOf(cfg, tables[n], attempts[n]).Failed? && Concerns(attempts[n], k)
    {
      assert OutcomeAt(cfg, attempts, n).Failed?;
    }
    FreshFailuresCount(cfg, tables, attempts, k, i, e, e - i);
    BlockedKeyIsRefused(cfg, attempts, e, j, k);
  }

  // ----- blocks persist

  /** A block never outlasts the policy's block time from the row's last update. */
  ghost predicate BlocksFollowPolicy(cfg: Config, rows: Table) {
    forall k :: k in rows ==>
      && (rows[k].blockedUntil.Some? <==> rows[k].failures >= PolicyOf(cfg, k).maxFailures)
      && (rows[k].blockedUntil.Some? ==> rows[k].blockedUntil.value == rows[k].updatedAt + PolicyOf(cfg, k).Block())
  }

  lemma CountFollowsPolicy(cfg: Config, rows: Table, k: Key, now: int)
    requires BlocksFollowPolicy(cfg, rows)
    ensures BlocksFollowPolicy(cfg, CountFailure(cfg, rows, k, now))
  {
  }

  lemma {:induction false} RunFollowsPolicy(cfg: Config, attempts: seq<Attempt>)
    ensures BlocksFollowPolicy(cfg, TableAfter(cfg, attempts))
  {
    if attempts != [] {
      var n := |attempts| - 1;
      var rows, a := TableAfter(cfg, attempts[..n]), attempts[n];
      RunFollowsPolicy(cfg, attempts[..n]);
      CountFollowsPolicy(cfg, rows, Ip(a.addr), a.now);
      CountFollowsPolicy(cfg, CountFailure(cfg, rows, Ip(a.addr), a.now), Account(a.user), a.now);
    }
  }

  ghost predicate BlocksBeforePurge(cfg: Config) {
    cfg.ip.Block() <= PURGE_AGE && cfg.account.Block() <= PURGE_AGE
  }

  /** While the block lasts, no attempt by anybody removes or shortens it. */
  lemma StepKeepsBlock(cfg: Config, rows: Table, a: Attempt, k: Key)
    requires BlocksBeforePurge(cfg) && BlocksFollowPolicy(cfg, rows) && BlockedAt(rows, k, a.now)
    ensures k in RowsAfter(cfg, rows, a) && RowsAfter(cfg, rows, a)[k] == rows[k]
    ensures k == Ip(a.addr) || k == Account(a.user) ==> OutcomeOf(cfg, rows, a).Blocked?
  {
  }

  lemma {:induction false} BlockSurvives(cfg: Config, attempts: seq<Attempt>, i: int, j: int, k: Key)
    requires BlocksBeforePurge(cfg) && InOrder(attempts) && 0 <= i <= j < |attempts|
    requires BlockedAt(TableAfter(cfg, attempts[..i]), k, attempts[j].now)
    ensures k in TableAfter(cfg, attempts[..j]) && TableAfter(cfg, attempts[..j])[k] == TableAfter(cfg, attempts[..i])[k]
    decreases j
  {
    if i < j {
      assert attempts[j - 1].now <= attempts[j].now;
      BlockSurvives(cfg, attempts, i, j - 1, k);
      assert attempts[..j][..j - 1] == attempts[..j - 1];
      RunFollowsPolicy(cfg, attempts[..j - 1]);
      StepKeepsBlock(cfg, TableAfter(cfg, attempts[..j - 1]), attempts[j - 1], k);
    }
  }

  /** Once blocked, a key reaches no password check before the block ends, whatever else happens. */
  lemma BlockedKeyIsRefused(cfg: Config, attempts: seq<Attempt>, i: int, j: int, k: Key)
    requires BlocksBeforePurge(cfg) && InOrder(attempts) && 0 <= i <= j < |attempts|
    requires BlockedAt(TableAfter(cfg, attempts[..i]), k, attempts[j].now)
    requires k == Ip(attempts[j].addr) || k == Account(attempts[j].user)
    ensures OutcomeAt(cfg, attempts, j).Blocked?
  {
    BlockSurvives(cfg, attempts, i, j, k);
    RunFollowsPolicy(cfg, attempts[..j]);
    StepKeepsBlock(cfg, TableAfter(cfg, attempts[..j]), attempts[j], k);
  }

  /** Waiting the advertised seconds ends every counted block; a full second less is never enough. */
  lemma AdvertisedWaitSuffices(rows: Table, user: string, addr: string, now: int, later: int)
    requires now <= later
    ensures later >= now + RetryAfter(rows, user, addr, now) * SECOND ==> RetryAfter(rows, user, addr, later) == 0
    ensures later < now + (RetryAfter(rows, user, addr, now) - 1) * SECOND ==> RetryAfter(rows, user, addr, later) > 0
    ensures RetryAfter(rows, user, addr, now) > 0 <==>
              BlockedAt(rows, Ip(addr), now) || BlockedAt(rows, Account(user), now)
  {
  }

}

/** Stepping an alert through the rules of its escalation policy. */
module Escalation {
  import opened Clock

  /** The ids of the enabled rules in position order, and how many extra cycles are allowed. */
  datatype Policy = Policy(enabled: bool, rules: seq<int>, repeatCount: Option<int>)

  datatype Progress = Progress(rule: Option<int>, repeats: int)

  function ExtraCycles(p: Policy): int {
    if p.repeatCount.Some? then p.repeatCount.value else 0
  }

  function IndexOf(rules: seq<int>, id: int): Option<int> {
    if rules == [] then None
    else if rules[0] == id then Some(0)
    else
      var rest := IndexOf(rules[1..], id);
      if rest.Some? then Some(rest.value + 1) else None
  }

  /** The next rule and repeat counter; no rule means the escalation stops. */
  function NextRule(policy: Option<Policy>, at: Progress): Progress {
    if policy.None? || !policy.value.enabled || policy.value.rules == [] then Progress(None, at.repeats)
    else
      var rules := policy.value.rules;
      if at.rule.None? then Progress(Some(rules[0]), at.repeats)
      else
        var index := IndexOf(rules, at.rule.value);
        if index.None? then Progress(Some(rules[0]), at.repeats)
        else if 0 <= index.value + 1 < |rules| then Progress(Some(rules[index.value + 1]), at.repeats)
        else if at.repeats < ExtraCycles(policy.value) then Progress(Some(rules[0]), at.repeats + 1)
        else Progress(None, at.repeats)
  }

  /** Every single step: nothing without a usable policy; the first rule for an alert that has none or whose rule
      is gone; else the following rule; and after the last one a new round while rounds are left. */
  lemma StepsAsListed(policy: Policy, at: Progress, i: int)
    ensures NextRule(None, at) == Progress(None, at.repeats)
    ensures !policy.enabled || policy.rules == [] ==> NextRule(Some(policy), at) == Progress(None, at.repeats)
    ensures policy.enabled && policy.rules != [] && (at.rule.None? || at.rule.value !in policy.rules) ==>
              NextRule(Some(policy), at) == Progress(Some(policy.rules[0]), at.repeats)
    ensures policy.enabled && Distinct(policy.rules) && 0 <= i < |policy.rules| && at.rule == Some(policy.rules[i]) ==>
              NextRule(Some(policy), at) ==
              if i + 1 < |policy.rules| then Progress(Some(policy.rules[i + 1]), at.repeats)
              else if policy.repeatCount.Some? && at.repeats < policy.repeatCount.value
              then Progress(Some(policy.rules[0]), at.repeats + 1)
              else if policy.repeatCount.None? && at.repeats < 0 then Progress(Some(policy.rules[0]), at.repeats + 1)
              else Progress(None, at.repeats)
  {
    if at.rule.Some? {
      IndexOfMissing(policy.rules, at.rule.value);
      if Distinct(policy.rules) && 0 <= i < |policy.rules| && at.rule == Some(policy.rules[i]) {
        IndexOfDistinct(policy.rules, i);
      }
    }
  }

  lemma {:induction false} IndexOfMissing(rules: seq<int>, id: int)
    ensures id !in rules ==> IndexOf(rules, id) == None
  {
    if rules != [] {
      IndexOfMissing(rules[1..], id);
    }
  }

  /** The k-th rule visited from the unassigned state, with its counter; `None` once stopped. */
  function Visited(policy: Policy, k: nat): Option<Progress> {
    var from := if k == 0 then Some(Progress(None, 0)) else Visited(policy, k - 1);
    if from.None? then None
    else
      var next := NextRule(Some(policy), from.value);
      if next.rule.None? then None else Some(next)
  }

  predicate Distinct(rules: seq<int>) {
    forall i, j :: 0 <= i < j < |rules| ==> rules[i] != rules[j]
  }

  lemma {:induction false} IndexOfDistinct(rules: seq<int>, i: int)
    requires Distinct(rules) && 0 <= i < |rules|
    ensures IndexOf(rules, rules[i]) == Some(i)
  {
    if i > 0 {
      IndexOfDistinct(rules[1..], i - 1);
    }
  }

  /** In round c the rules are visited in order, each with counter c. */
  lemma {:induction false} VisitsRound(policy: Policy, c: nat, i: nat, k: nat)
    requires policy.enabled && Distinct(policy.rules) && i < |policy.rules|
    requires k == |policy.rules| * c + i && c <= Max(ExtraCycles(policy), 0)
    ensures Visited(policy, k) == Some(Progress(Some(policy.rules[i]), c))
    decreases k
  {
    var n := |policy.rules|;
    if i > 0 {
      VisitsRound(policy, c, i - 1, k - 1);
      IndexOfDistinct(policy.rules, i - 1);
    } else if c > 0 {
      assert n * c == n * (c - 1) + n;
      VisitsRound(policy, c - 1, n - 1, k - 1);
      IndexOfDistinct(policy.rules, n - 1);
    }
  }

  /** After the last rule of the last round nothing more is visited. */
  lemma {:induction false} StopsAfterLastRound(policy: Policy, k: nat)
    requires policy.enabled && policy.rules != [] && Distinct(policy.rules)
    requires k >= |policy.rules| * (Max(ExtraCycles(policy), 0) + 1)
    ensures Visited(policy, k) == None
    decreases k
  {
    var n, last := |policy.rules|, Max(ExtraCycles(policy), 0);
    assert n * (last + 1) == n * last + n;
    assert n * last >= 0;
    if k > n * (last + 1) {
      StopsAfterLastRound(policy, k - 1);
    } else {
      VisitsRound(policy, last, n - 1, k - 1);
      IndexOfDistinct(policy.rules, n - 1);
    }
  }

  /** A fixed policy visits its n rules in order for exactly 1 + repeat_count rounds, then stops for good. */
  lemma EscalationRunsExactly(policy: Policy, k: nat)
    requires policy.enabled && policy.rules != [] && Distinct(policy.rules)
    ensures var n, rounds := |policy.rules|, Max(ExtraCycles(policy), 0) + 1;
            if k < n * rounds then Visited(policy, k) == Some(Progress(Some(policy.rules[k % n]), k / n))
            else Visited(policy, k) == None
  {
    var n, rounds := |policy.rules|, Max(ExtraCycles(policy), 0) + 1;
    DivReaches(k, n, rounds);
    DivReaches(k, n, 0);
    if k < n * rounds {
      VisitsRound(policy, k / n, k % n, k);
    } else {
      StopsAfterLastRound(policy, k);
    }
  }

  /** Follow a policy whose rules are edited between steps; a stop leaves the alert where it is. */
  function Followed(edits: seq<Policy>, from: Progress): Progress {
    if edits == [] then from
    else
      var at := Followed(edits[..|edits| - 1], from);
      var next := NextRule(Some(edits[|edits| - 1]), at);
      if next.rule.None? then at else next
  }

  function Unedited(policy: Policy, k: nat): seq<Policy> {
    seq(k, _ => policy)
  }

  /** Without edits, following the policy is visiting its rules, and after the stop nothing moves any more. */
  lemma {:induction false} UneditedFollowsVisits(policy: Policy, k: nat)
    ensures var at := Followed(Unedited(policy, k + 1), Progress(None, 0));
            && (Visited(policy, k).Some? ==> at == Visited(policy, k).value)
            && (Visited(policy, k).None? ==> at == Followed(Unedited(policy, k), Progress(None, 0)))
            && (Visited(policy, k).None? ==> NextRule(Some(policy), at).rule.None?)
  {
    assert Unedited(policy, k + 1)[..k] == Unedited(policy, k);
    if k > 0 {
      UneditedFollowsVisits(policy, k - 1);
    }
  }

  /** Under arbitrary edits with a fixed repeat count, the counter only grows and never passes it. */
  lemma {:induction false} CounterBoundedUnderEdits(edits: seq<Policy>, from: Progress, n: int, limit: int)
    requires 0 <= n <= |edits| && from.repeats <= Max(limit, 0)
    requires forall i :: 0 <= i < |edits| ==> ExtraCycles(edits[i]) == limit
    ensures Followed(edits[..n], from).repeats <= Followed(edits, from).repeats <= Max(limit, 0)
    decreases |edits|
  {
    if n < |edits| {
      var init := edits[..|edits| - 1];
      assert init[..n] == edits[..n];
      CounterBoundedUnderEdits(init, from, n, limit);
    } else if edits != [] {
      assert edits[..n] == edits;
      var init := edits[..|edits| - 1];
      CounterBoundedUnderEdits(init, from, |init|, limit);
    }
  }
}

/** API-token scopes: expansion of aggregates, requirement checks and delegation. */
module TokenScopes {

  datatype Domain =
    | Alerts | Incidents | Services | Teams | Groups | Users | Rotations | Calendar | Routes | Channels
    | Maintenance | Heartbeats | Policies | Orchestrations | Sso | Profile | Audit

  datatype Action = Read | Write

  /** A scope string: `domain:action`, `resources:action`, `*`, or anything else. */
  datatype Scope =
    | Granular(domain: Domain, action: Action)
    | Resources(action: Action)
    | Wildcard
    | Unknown(text: string)

  const DOMAINS: set<Domain> := {
    Alerts, Incidents, Services, Teams, Groups, Users, Rotations, Calendar, Routes, Channels,
    Maintenance, Heartbeats, Policies, Orchestrations, Sso, Profile, Audit}

  /** Audit has no write scope. */
  predicate IsAllowed(s: Scope) {
    match s
    case Granular(domain, action) => action == Read || domain != Audit
    case Resources(_) => true
    case Wildcard => true
    case Unknown(_) => false
  }

  function Allowed(): set<Scope> {
    (set d | d in DOMAINS :: Granular(d, Read))
    + (set d | d in DOMAINS && d != Audit :: Granular(d, Write))
    + {Resources(Read), Resources(Write), Wildcard}
  }

  /** Alerts and profile stay outside the legacy aggregates. */
  predicate IsLegacyResource(d: Domain) {
    d != Alerts && d != Profile
  }

  function LegacyScopes(action: Action): set<Scope> {
    set d | d in DOMAINS && IsLegacyResource(d) && IsAllowed(Granular(d, action)) :: Granular(d, action)
  }

  function Expand(scopes: set<Scope>): set<Scope> {
    if Wildcard in scopes then scopes + Allowed()
    else
      scopes
      + (if Resources(Read) in scopes then LegacyScopes(Read) else {})
      + (if Resources(Write) in scopes then LegacyScopes(Write) else {})
  }

  predicate HasScopes(token: set<Scope>, required: set<Scope>) {
    required == {} || Wildcard in token || required <= Expand(token)
  }

  predicate MayGrant(current: set<Scope>, s: Scope) {
    match s
    case Wildcard => false
    case Resources(_) => s in current
    case _ => HasScopes(current, {s})
  }

  predicate CanGrant(current: set<Scope>, requested: set<Scope>) {
    Wildcard in current || forall s :: s in requested ==> MayGrant(current, s)
  }

  lemma DomainsComplete(d: Domain)
    ensures d in DOMAINS
  {
  }

  lemma AllowedIffListed(s: Scope)
    ensures s in Allowed() <==> IsAllowed(s)
  {
    match s
    case Granular(d, Read) =>
      DomainsComplete(d);
      assert s in set d | d in DOMAINS :: Granular(d, Read);
    case Granular(d, Write) =>
      DomainsComplete(d);
      assert d != Audit ==> s in set d | d in DOMAINS && d != Audit :: Granular(d, Write);
    case Resources(Read) =>
    case Resources(Write) =>
    case Wildcard =>
    case Unknown(_) =>
  }

  /** Expansion never adds an aggregate or the wildcard to a token without the wildcard. */
  lemma ExpansionAddsOnlyGranular(scopes: set<Scope>, s: Scope)
    requires Wildcard !in scopes && s in Expand(scopes)
    ensures s in scopes || (s.Granular? && Resources(s.action) in scopes && IsLegacyResource(s.domain) && IsAllowed(s))
  {
  }

  /** What a token effectively holds: its own scopes; with the wildcard, every scope there is, and writing audit
      records is none; with an aggregate, that action on every domain but alerts and profile. */
  lemma EffectiveScopes(scopes: set<Scope>, s: Scope)
    ensures s in Expand(scopes) <==>
            || s in scopes
            || (Wildcard in scopes && !s.Unknown? && s != Granular(Audit, Write))
            || (Wildcard !in scopes && s.Granular? && Resources(s.action) in scopes
                && s.domain != Alerts && s.domain != Profile && s != Granular(Audit, Write))
  {
    AllowedIffListed(s);
    if s.Granular? {
      DomainsComplete(s.domain);
    }
  }

  /** The wildcard meets every requirement; any other token exactly those whose scopes it effectively holds. */
  lemma RequirementsMet(token: set<Scope>, required: set<Scope>)
    ensures HasScopes(token, required) <==> Wildcard in token || forall s :: s in required ==> s in Expand(token)
  {
  }

  lemma ExpandMonotone(a: set<Scope>, b: set<Scope>)
    requires a <= b
    ensures Expand(a) <= Expand(b)
  {
    forall s | s in Expand(a)
      ensures s in Expand(b)
    {
      if Wildcard !in a {
        ExpansionAddsOnlyGranular(a, s);
        AllowedIffListed(s);
        if s.Granular? {
          DomainsComplete(s.domain);
        }
      }
    }
  }

  /** Scope expansion is a closure operator. */
  lemma ExpandIsClosure(a: set<Scope>, b: set<Scope>)
    ensures a <= Expand(a)
    ensures a <= b ==> Expand(a) <= Expand(b)
    ensures Expand(Expand(a)) == Expand(a)
  {
    if a <= b {
      ExpandMonotone(a, b);
    }
    ExpandTwice(a);
  }

  lemma ExpandTwice(a: set<Scope>)
    ensures Expand(Expand(a)) == Expand(a)
  {
    if Wildcard !in a {
      assert Resources(Read) in Expand(a) ==> Resources(Read) in a;
      assert Resources(Write) in Expand(a) ==> Resources(Write) in a;
      assert Wildcard !in Expand(a);
    }
  }

  /** A token may mint another exactly when it holds the wildcard or every effective scope of the new one. */
  lemma CanGrantIffCovers(current: set<Scope>, requested: set<Scope>)
    ensures CanGrant(current, requested) <==> Wildcard in current || Expand(requested) <= Expand(current)
  {
    if Wildcard !in current {
      if CanGrant(current, requested) {
        GrantedIsCovered(current, requested);
      }
      if Expand(requested) <= Expand(current) {
        forall s | s in requested
          ensures MayGrant(current, s)
        {
          assert s in Expand(requested);
          ExpansionAddsOnlyGranular(current, s);
        }
      }
    }
  }

  lemma GrantedIsCovered(current: set<Scope>, requested: set<Scope>)
    requires Wildcard !in current && CanGrant(current, requested)
    ensures Wildcard !in requested && Expand(requested) <= Expand(current)
  {
    assert !MayGrant(current, Wildcard);
    forall s | s in Expand(requested)
      ensures s in Expand(current)
    {
      if s in requested {
        assert MayGrant(current, s);
      } else {
        ExpansionAddsOnlyGranular(requested, s);
        assert MayGrant(current, Resources(s.action));
        DomainsComplete(s.domain);
      }
    }
  }

  /** Granting is a preorder on tokens. */
  lemma GrantingIsPreorder(a: set<Scope>, b: set<Scope>, c: set<Scope>)
    ensures CanGrant(a, a)
    ensures CanGrant(a, b) && CanGrant(b, c) ==> CanGrant(a, c)
  {
    CanGrantIffCovers(a, a);
    CanGrantIffCovers(a, b);
    CanGrantIffCovers(b, c);
    CanGrantIffCovers(a, c);
    if Wildcard !in a && CanGrant(a, b) {
      GrantedIsCovered(a, b);
    }
  }

  lemma GrantKeepsRequirement(parent: set<Scope>, child: set<Scope>, required: set<Scope>)
    requires CanGrant(parent, child) && HasScopes(child, required)
    ensures HasScopes(parent, required)
  {
    if Wildcard !in parent {
      GrantedIsCovered(parent, child);
    }
  }

  ghost predicate DelegationChain(tokens: seq<set<Scope>>) {
    tokens != [] && forall i :: 0 <= i < |tokens| - 1 ==> CanGrant(tokens[i], tokens[i + 1])
  }

  /** However long the chain, the last token satisfies no requirement its root does not. */
  lemma {:induction false} DelegationNeverWidens(tokens: seq<set<Scope>>, required: set<Scope>)
    requires DelegationChain(tokens) && HasScopes(tokens[|tokens| - 1], required)
    ensures HasScopes(tokens[0], required)
    decreases |tokens|
  {
    if |tokens| > 1 {
      var n := |tokens| - 1;
      GrantKeepsRequirement(tokens[n - 1], tokens[n], required);
      DelegationNeverWidens(tokens[..n], required);
    }
  }
}

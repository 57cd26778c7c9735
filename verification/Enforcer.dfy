/** One class of operation, one projection state and one producer's answer, made into one decision. */
module Enforcer {
  import opened Wrappers
  import opened Model
  import opened Frontier

  datatype Class = LowRisk | HighConfidentiality | Privileged | Irreversible | Undeclared(name: string)

  datatype Behavior = UseWithMarker | Revalidate | FailClosed

  datatype Policy = Policy(usesProjection: bool, auditEveryAccess: bool, behavior: Behavior, maxStale: int)
  {
    predicate ServesFromProjection() {
      usesProjection && maxStale > 0
    }

    /** The deployment's window, for the one class that takes it. */
    function FromConfig(configured: int): Policy {
      if behavior.UseWithMarker? then this.(maxStale := configured) else this
    }
  }

  const MINUTE := 60_000_000_000

  function PolicyFor(c: Class): Option<Policy> {
    match c
    case LowRisk => Some(Policy(true, false, UseWithMarker, MINUTE))
    case HighConfidentiality => Some(Policy(true, true, FailClosed, 0))
    case Privileged => Some(Policy(false, true, Revalidate, 0))
    case Irreversible => Some(Policy(false, true, Revalidate, 0))
    case Undeclared(_) => None
  }

  datatype Code =
    | ActiveMembership
    | AuthorityGranted
    | AuthorityUnconfigured
    | AuthorityUnreachable
    | AuthorityRefused
    | NotBootstrappedYet
    | MembershipWithdrawn
    | TenantNotActive
    | TenantUnprojected
    | MembershipUnprojected
    | ReadFailed
    | StaleZeroTolerance
    | StaleUnknownAge
    | StaleAge
    | StaleNoFrontier
    | StaleFrontierUnreadable
    | StaleSecurityDebt
    | StaleOwed

  datatype Decision = Decision(allow: bool, code: Code, stale: bool, age: int)

  datatype Authority = NotConfigured | OutOfReach | Refuses | Grants

  datatype Publication = NoClient | Unreadable | Told(facts: Facts)

  /** Everything freshness is judged by. */
  datatype Freshness = Freshness(age: Result<int, Error>, publication: Publication, now: int, maxAge: int)

  function FromAuthority(authority: Authority): Decision {
    match authority
    case NotConfigured => Decision(false, AuthorityUnconfigured, false, 0)
    case OutOfReach => Decision(false, AuthorityUnreachable, false, 0)
    case Refuses => Decision(false, AuthorityRefused, false, 0)
    case Grants => Decision(true, AuthorityGranted, false, 0)
  }

  /** Why a projection may not be vouched for, if it may not. The producer is not asked when a class
      tolerates nothing or the age already refuses. */
  function Stale(p: Policy, f: Freshness): Option<Code> {
    if p.maxStale == 0 then Some(StaleZeroTolerance)
    else if f.age.Failure? then Some(StaleUnknownAge)
    else if f.age.value > p.maxStale then Some(StaleAge)
    else match f.publication
      case NoClient => Some(StaleNoFrontier)
      case Unreadable => Some(StaleFrontierUnreadable)
      case Told(facts) =>
        if facts.securityDebt then Some(StaleSecurityDebt)
        else if !facts.unpublished then None
        else if facts.oldestUnpublishedAge + facts.Age(f.now) > p.maxStale then Some(StaleOwed)
        else None
  }

  /** The code of a pair that holds no usable membership, whatever the freshness. */
  function RefusalCode(error: Error): Code {
    match error
    case Withdrawn => MembershipWithdrawn
    case TenantInactive => TenantNotActive
    case TenantNotProjected => TenantUnprojected
    case NotProjected => MembershipUnprojected
    case _ => ReadFailed
  }

  function FromProjection(p: Policy, f: Freshness, lookup: Result<Record, Error>): Decision {
    if f.age == Failure(NotBootstrapped) then Decision(false, NotBootstrappedYet, true, 0)
    else
      var stale := Stale(p, f);
      var age := if f.age.Success? then f.age.value else 0;
      match lookup
      case Success(_) =>
        if stale.None? then Decision(true, ActiveMembership, false, age) else Decision(false, stale.value, true, age)
      case Failure(error) =>
        if RefusalCode(error).ReadFailed? then Decision(false, ReadFailed, false, 0)
        else Decision(false, RefusalCode(error), stale.Some?, age)
  }

  /** Every route's answer. No decision is made for a class without a policy. */
  function Decide(c: Class, authority: Authority, f: Freshness, lookup: Result<Record, Error>): Option<Decision> {
    match PolicyFor(c)
    case None => None
    case Some(p) =>
      if !p.usesProjection then Some(FromAuthority(authority))
      else Some(FromProjection(p.FromConfig(f.maxAge), f, lookup))
  }

  /** The producer can be heard, has given up on nothing, and owes nothing older than the window. */
  predicate Vouched(f: Freshness) {
    && f.age.Success? && f.age.value <= f.maxAge
    && f.publication.Told? && !f.publication.facts.securityDebt
    && (f.publication.facts.unpublished ==>
          f.publication.facts.oldestUnpublishedAge + f.publication.facts.Age(f.now) <= f.maxAge)
  }

  /** A class's allow rests on the authority alone, or for LOW_RISK on the projection alone inside its
      window; HIGH_CONFIDENTIALITY never allows, and neither does a class nobody declared. */
  lemma {:induction false} WhatAnAllowRestsOn(c: Class, authority: Authority, f: Freshness,
    lookup: Result<Record, Error>)
    requires f.maxAge > 0
    ensures var d := Decide(c, authority, f, lookup);
            d.Some? && d.value.allow <==>
              match c
              case LowRisk => lookup.Success? && Vouched(f)
              case HighConfidentiality => false
              case Privileged => authority.Grants?
              case Irreversible => authority.Grants?
              case Undeclared(_) => false
  {
  }

  /** What stands in the way of vouching, each on its own and in no order. */
  predicate Obstructs(code: Code, p: Policy, f: Freshness) {
    match code
    case StaleZeroTolerance => p.maxStale == 0
    case StaleUnknownAge => f.age.Failure?
    case StaleAge => f.age.Success? && f.age.value > p.maxStale
    case StaleNoFrontier => f.publication.NoClient?
    case StaleFrontierUnreadable => f.publication.Unreadable?
    case StaleSecurityDebt => f.publication.Told? && f.publication.facts.securityDebt
    case StaleOwed =>
      && f.publication.Told? && f.publication.facts.unpublished
      && f.publication.facts.oldestUnpublishedAge + f.publication.facts.Age(f.now) > p.maxStale
    case _ => false
  }

  /** A refusal for staleness names something that does stand in the way, and there is none exactly when
      nothing does. Debt is never reported as an owed delivery, which waiting would settle. */
  lemma {:induction false} StalenessIsNamed(p: Policy, f: Freshness)
    ensures Stale(p, f).Some? ==> Obstructs(Stale(p, f).value, p, f)
    ensures Stale(p, f).None? <==> forall code :: !Obstructs(code, p, f)
    ensures Obstructs(StaleSecurityDebt, p, f) ==> Stale(p, f) != Some(StaleOwed)
  {
    if Stale(p, f).Some? {
      assert Obstructs(Stale(p, f).value, p, f);
    }
  }

  /** The decision of a class that asks the authority: its code by what the authority did, never stale, of no age. */
  lemma {:induction false} AuthorityCodesByCause(c: Class, authority: Authority, f: Freshness,
    lookup: Result<Record, Error>)
    requires c.Privileged? || c.Irreversible?
    ensures Decide(c, authority, f, lookup).Some?
    ensures var d := Decide(c, authority, f, lookup).value;
            && (d.code == AuthorityGranted <==> authority.Grants?)
            && (d.code == AuthorityRefused <==> authority.Refuses?)
            && (d.code == AuthorityUnreachable <==> authority.OutOfReach?)
            && (d.code == AuthorityUnconfigured <==> authority.NotConfigured?)
            && (d.allow <==> d.code == AuthorityGranted) && !d.stale && d.age == 0
  {
  }

  /** The decision of a class that reads the projection: its code by what the tables and freshness are. Without a
      snapshot nothing else is asked; a read that fails is an error whatever the freshness; what the tables settle
      keeps its code; and an active membership is served exactly when its freshness is vouched for, or else refused
      for something that stands in the way. The refusal is marked stale exactly when freshness is not vouched for. */
  lemma {:induction false} ProjectionCodesByCause(c: Class, authority: Authority, f: Freshness,
    lookup: Result<Record, Error>)
    requires (c.LowRisk? || c.HighConfidentiality?) && f.maxAge > 0
    ensures Decide(c, authority, f, lookup).Some?
    ensures var d, cold := Decide(c, authority, f, lookup).value, f.age == Failure(NotBootstrapped);
            && (d.code == NotBootstrappedYet <==> cold)
            && (d.code == MembershipWithdrawn <==> !cold && lookup == Failure(Withdrawn))
            && (d.code == TenantNotActive <==> !cold && lookup == Failure(TenantInactive))
            && (d.code == TenantUnprojected <==> !cold && lookup == Failure(TenantNotProjected))
            && (d.code == MembershipUnprojected <==> !cold && lookup == Failure(NotProjected))
            && (d.code == ReadFailed <==>
                  && !cold && lookup.Failure?
                  && lookup.error !in {Withdrawn, TenantInactive, TenantNotProjected, NotProjected})
            && (d.code == ActiveMembership <==> d.allow)
            && (!cold && lookup.Success? && !d.allow ==>
                  Obstructs(d.code, PolicyFor(c).value.FromConfig(f.maxAge), f))
            && (d.stale <==> cold || (d.code != ReadFailed && (c.HighConfidentiality? || !Vouched(f))))
            && d.age == if !cold && d.code != ReadFailed && f.age.Success? then f.age.value else 0
  {
    if lookup.Success? && f.age != Failure(NotBootstrapped) {
      StalenessIsNamed(PolicyFor(c).value.FromConfig(f.maxAge), f);
    }
  }

  /** Each class's three answers agree: the behaviour it declares says whether it asks the authority, takes the
      deployment's window or has none, and exactly the classes that may not be served from the projection audit
      every access. */
  lemma {:induction false} TheTableIsConsistent(c: Class, window: int)
    requires window > 0
    ensures PolicyFor(c).Some? <==> !c.Undeclared?
    ensures !c.Undeclared? ==>
              var p, configured := PolicyFor(c).value, PolicyFor(c).value.FromConfig(window);
              && (p.behavior.Revalidate? <==> !p.usesProjection)
              && (p.behavior.UseWithMarker? <==> configured.maxStale == window)
              && (p.behavior.FailClosed? <==> p.usesProjection && configured.maxStale == 0)
              && (p.auditEveryAccess <==> !configured.ServesFromProjection())
              && (configured.maxStale == window || configured.maxStale == 0)
  {
  }

  /** Classes do not interfere: the two that ask the authority decide alike over every projection, age and
      frontier, and the two that read the projection decide alike over every authority. */
  lemma {:induction false} ClassesDoNotInterfere(c: Class, a: Authority, b: Authority, f: Freshness, g: Freshness,
    lookup: Result<Record, Error>, other: Result<Record, Error>)
    ensures c.Privileged? || c.Irreversible? ==> Decide(c, a, f, lookup) == Decide(c, a, g, other)
    ensures c.LowRisk? || c.HighConfidentiality? ==> Decide(c, a, f, lookup) == Decide(c, b, f, lookup)
    ensures PolicyFor(c).Some? ==>
              (PolicyFor(c).value.FromConfig(f.maxAge).ServesFromProjection() <==> c.LowRisk? && f.maxAge > 0)
  {
  }

  /** At least as bad in every respect freshness has: an older or unknown age, a producer not heard, debt, an
      older owed delivery or a later clock, or a narrower window. */
  predicate NoFresher(worse: Freshness, better: Freshness) {
    && worse.maxAge <= better.maxAge
    && (worse.age.Success? ==> better.age.Success? && better.age.value <= worse.age.value)
    && (worse.publication.Told? ==>
          && better.publication.Told?
          && var w, b := worse.publication.facts, better.publication.facts;
          && (b.securityDebt ==> w.securityDebt)
          && (b.unpublished ==>
                && w.unpublished
                && b.oldestUnpublishedAge + b.Age(better.now) <= w.oldestUnpublishedAge + w.Age(worse.now)))
  }

  /** Worsening freshness can only turn an allow into a refusal. */
  lemma {:induction false} FresherNeverRefusesMore(c: Class, authority: Authority, worse: Freshness,
    better: Freshness, lookup: Result<Record, Error>)
    requires 0 < worse.maxAge && NoFresher(worse, better)
    requires Decide(c, authority, worse, lookup).Some? && Decide(c, authority, worse, lookup).value.allow
    ensures Decide(c, authority, better, lookup).Some? && Decide(c, authority, better, lookup).value.allow
  {
    WhatAnAllowRestsOn(c, authority, worse, lookup);
    WhatAnAllowRestsOn(c, authority, better, lookup);
  }

  /** A later clock on the same answer is one way to be worse. */
  lemma {:induction false} HoldingAnAnswerOnlyAgesIt(f: Freshness, later: int)
    requires f.now <= later
    ensures NoFresher(f.(now := later), f)
  {
  }

  /** A refusal that the tables settle keeps its code whatever the producer says, however old the
      projection is and however wide the window. */
  lemma {:induction false} SettledRefusalsKeepTheirCode(c: Class, authority: Authority, f: Freshness, error: Error)
    requires c.LowRisk? || c.HighConfidentiality?
    requires f.age != Failure(NotBootstrapped)
    ensures var d := Decide(c, authority, f, Failure(error)).value;
            !d.allow && d.code == RefusalCode(error)
  {
  }

  /** Clearing the producer's debt serves an active bystander whose freshness is otherwise in order, and
      never a principal the tables refuse. */
  lemma {:induction false} ClearingTheDebt(f: Freshness, facts: Facts, record: Record, error: Error,
    authority: Authority)
    requires f.maxAge > 0 && f.publication == Told(facts) && facts.securityDebt
    requires Vouched(f.(publication := Told(facts.(securityDebt := false))))
    ensures var cleared := f.(publication := Told(facts.(securityDebt := false)));
            && Decide(LowRisk, authority, f, Success(record)).value.code == StaleSecurityDebt
            && Decide(LowRisk, authority, cleared, Success(record)).value
                == Decision(true, ActiveMembership, false, f.age.value)
            && !Decide(LowRisk, authority, f, Failure(error)).value.allow
            && !Decide(LowRisk, authority, cleared, Failure(error)).value.allow
            && Decide(LowRisk, authority, cleared, Failure(error)).value.code
                == Decide(LowRisk, authority, f, Failure(error)).value.code
  {
  }
}

/** A protected route from end to end: the request, the tables behind the projector, the producer's answer,
    and the status the caller sees. */
module Serving {
  import opened Wrappers
  import opened Model
  import opened Queries
  import opened Runs
  import opened Marks
  import opened Projectors
  import opened Frontier
  import opened Enforcer
  import Bootstrap
  import Convergence
  import Effects

  /** The authenticated caller: its subject and the tenant its token selects, each `None` when it is no UUID. */
  datatype Caller = Caller(subject: Option<Id>, selectsTenant: bool, tenant: Option<Id>)

  datatype Request = Request(tenant: Option<Id>, caller: Option<Caller>)

  /** A caller asks about itself alone, and in the tenant its token selects when it selects one. */
  predicate Admitted(request: Request, tenant: Id, principal: Id) {
    && request.tenant == Some(tenant) && request.caller.Some? && request.caller.value.subject == Some(principal)
    && (request.caller.value.selectsTenant ==> request.caller.value.tenant == Some(tenant))
  }

  /** What reading the pair and reading the age give, when the database can be read and when it cannot. */
  ghost predicate PairRead(t: Tables, tenant: Id, principal: Id, readable: bool, lookup: Result<Record, Error>) {
    if readable then Answers(t, tenant, principal, lookup) else lookup == Failure(Unavailable)
  }

  function AgeRead(db: Database, consumer: string, now: int, readable: bool): Result<int, Error> {
    if readable then AgeOf(db, consumer, now) else Failure(Unavailable)
  }

  /** Which of a decision's two reads succeed. */
  datatype Readable = Readable(age: bool, pair: bool)

  /** The enforcer's reads: the age, then the producer's facts, then the pair. */
  method DecideNow(p: Projector, c: Class, tenant: Id, principal: Id, authority: Authority, publication: Publication,
    now: int, maxAge: int, readable: Readable)
    returns (d: Option<Decision>)
    ensures exists lookup ::
              && PairRead(p.pool.db.tables, tenant, principal, readable.pair, lookup)
              && d == Decide(c, authority,
                             Freshness(AgeRead(p.pool.db, p.consumer, now, readable.age), publication, now, maxAge),
                                 lookup)
  {
    var age := p.Age(now, readable.age);
    var lookup := p.Lookup(tenant, principal, readable.pair);
    assert PairRead(p.pool.db.tables, tenant, principal, readable.pair, lookup);
    return Decide(c, authority, Freshness(age, publication, now, maxAge), lookup);
  }

  /** Whether a class is allowed, by the tables, freshness and the authority alone. */
  predicate Supported(c: Class, t: Tables, tenant: Id, principal: Id, authority: Authority, f: Freshness,
    readable: bool) {
    match c
    case LowRisk => readable && Confers(t, tenant, principal) && Vouched(f)
    case HighConfidentiality => false
    case Privileged => authority.Grants?
    case Irreversible => authority.Grants?
    case Undeclared(_) => false
  }

  /** A route that cannot be decided: nobody declared its class, or the projection it reads could not be read and it
      was not refused before that for want of a snapshot. */
  predicate Undecided(c: Class, f: Freshness, readable: bool) {
    c.Undeclared? || ((c.LowRisk? || c.HighConfidentiality?) && !readable && f.age != Failure(NotBootstrapped))
  }

  /** A request is served exactly when it names its own caller in the tenant its token selects, and: for
      LOW_RISK, the tables hold an active tenant and an active membership of it for the caller, and their
      freshness is vouched for; for the two classes that ask the authority, it grants; for the others, never.
      Every other status exactly when, too. */
  method Protected(p: Projector, c: Class, request: Request, authority: Authority, publication: Publication,
    now: int, maxAge: int, readable: Readable)
    returns (status: int)
    requires maxAge > 0
    ensures var f := Freshness(AgeRead(p.pool.db, p.consumer, now, readable.age), publication, now, maxAge);
            && (status == 200 <==>
                  exists tenant, principal :: Admitted(request, tenant, principal)
                    && Supported(c, p.pool.db.tables, tenant, principal, authority, f, readable.pair))
            && (status == 503 <==>
                  Undecided(c, f, readable.pair) && exists tenant, principal :: Admitted(request, tenant, principal))
    ensures status in {200, 503} && request.caller.value.selectsTenant ==> request.caller.value.tenant == request.tenant
    ensures status == 400 <==> request.tenant.None?
    ensures status == 401 <==> request.tenant.Some? && request.caller.None?
    ensures status in {200, 400, 401, 403, 503}
  {
    if request.tenant.None? {
      return 400;
    }
    if request.caller.None? {
      return 401;
    }
    var caller := request.caller.value;
    if caller.subject.None? {
      return 403;
    }
    if caller.selectsTenant {
      if caller.tenant.None? || caller.tenant.value != request.tenant.value {
        return 403;
      }
    }
    var tenant, principal := request.tenant.value, caller.subject.value;
    assert Admitted(request, tenant, principal);
    var d := DecideNow(p, c, tenant, principal, authority, publication, now, maxAge, readable);
    ghost var f := Freshness(AgeRead(p.pool.db, p.consumer, now, readable.age), publication, now, maxAge);
    ghost var lookup :| PairRead(p.pool.db.tables, tenant, principal, readable.pair, lookup)
        && d == Decide(c, authority, f, lookup);
    DecidedBy(c, p.pool.db.tables, tenant, principal, authority, f, readable.pair, lookup);
    if d.None? || d.value.code == ReadFailed {
      return 503;
    }
    if !d.value.allow {
      return 403;
    }
    return 200;
  }

  lemma {:induction false} DecidedBy(c: Class, t: Tables, tenant: Id, principal: Id, authority: Authority,
    f: Freshness, readable: bool, lookup: Result<Record, Error>)
    requires PairRead(t, tenant, principal, readable, lookup) && f.maxAge > 0
    ensures var d := Decide(c, authority, f, lookup);
            && (d.Some? && d.value.allow <==> Supported(c, t, tenant, principal, authority, f, readable))
            && (d.None? || d.value.code == ReadFailed <==> Undecided(c, f, readable))
  {
    WhatAnAllowRestsOn(c, authority, f, lookup);
    if readable {
      SuccessMeansConferred(t, tenant, principal, lookup);
    }
    if c.LowRisk? || c.HighConfidentiality? {
      ProjectionCodesByCause(c, authority, f, lookup);
    }
  }

  lemma {:induction false} SuccessMeansConferred(t: Tables, tenant: Id, principal: Id, r: Result<Record, Error>)
    requires Answers(t, tenant, principal, r)
    ensures r.Success? <==> Confers(t, tenant, principal)
    ensures r.Failure? ==> r.error in {TenantInactive, TenantNotProjected, Withdrawn, NotProjected}
  {
    StandingIsUnique(t, tenant, principal, StandingOf(t, tenant, principal));
    if Confers(t, tenant, principal) {
      StandingIsUnique(t, tenant, principal, Holds);
    }
  }

  /** In every reachable state, through crashes between pages and events before any snapshot: while a consumer
      records no snapshot, both classes that read the projection refuse, whatever is projected, however
      fresh, and whatever the producer says. */
  lemma {:induction false} NoSnapshotNoService(moves: seq<Bootstrap.Move>, consumer: string, c: Class,
    authority: Authority, publication: Publication, now: int, maxAge: int, lookup: Result<Record, Error>)
    requires SnapshotMark(Bootstrap.Play(moves).db, consumer).None? && (c.LowRisk? || c.HighConfidentiality?)
    ensures Decide(c, authority, Freshness(AgeOf(Bootstrap.Play(moves).db, consumer, now), publication, now, maxAge),
            lookup)
            == Some(Decision(false, NotBootstrappedYet, true, 0))
  {
    Bootstrap.NoAuthorityBeforeACompleteSnapshot(moves, consumer, now);
  }

  /** Once the projection has converged on the authority's history and its freshness is vouched for, LOW_RISK
      is allowed exactly where the authority itself would grant. */
  lemma {:induction false} LowRiskDecidesAsTheAuthority(h: seq<Effects.Claim>, run: seq<Attempt>, tenant: Id,
    principal: Id, authority: Authority, f: Freshness, lookup: Result<Record, Error>)
    requires Convergence.IsHistory(h) && IdsDetermine(run) && forall a :: a in run ==> Convergence.ComesFrom(a, h)
    requires forall c :: Convergence.Current(h, c) ==> c in Claims(run)
    requires Answers(Run(EMPTY_DATABASE, run).tables, tenant, principal, lookup)
    requires f.maxAge > 0 && Vouched(f)
    ensures Decide(LowRisk, authority, f, lookup).value.allow <==> Convergence.Grants(h, tenant, principal)
  {
    Convergence.SnapshotAndCatchUpConverge(h, run);
    Convergence.LookupAnswersAsTheAuthority(Run(EMPTY_DATABASE, run).tables, h, tenant, principal, lookup);
    WhatAnAllowRestsOn(LowRisk, authority, f, lookup);
  }
}

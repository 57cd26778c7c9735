/** A tenant's suspension and restoration, seen by its members. */
module Tenancy {
  import opened Model
  import opened Effects
  import opened Transactions
  import opened Queries
  import opened Runs

  /** Two databases that differ in one tenant's state and in some inbox records. */
  ghost predicate DifferIn(a: Database, b: Database, tenant: Id, extra: set<(Id, string)>) {
    && a.tables.members == b.tables.members
    && (forall k :: k != tenant ==> (k in a.tables.tenants <==> k in b.tables.tenants))
    && (forall k :: k != tenant && k in a.tables.tenants ==> a.tables.tenants[k] == b.tables.tenants[k])
    && a.inbox == b.inbox + extra
  }

  predicate Mentions(cs: set<Claim>, tenant: Id) {
    exists c :: c in cs && c.TenantClaim? && c.id == tenant
  }

  /** Statements about other subjects act alike on both, and leave the tenant alone. */
  lemma {:induction false} FoldIgnoresTheTenant(a: Tables, b: Tables, es: seq<Effect>, tenant: Id)
    requires !Mentions(ClaimsOf(es), tenant)
    requires a.members == b.members
    requires forall k :: k != tenant ==> (k in a.tenants <==> k in b.tenants)
    requires forall k :: k != tenant && k in a.tenants ==> a.tenants[k] == b.tenants[k]
    ensures var x, y := Fold(a, es), Fold(b, es);
            && x.members == y.members
            && (forall k :: k != tenant ==> (k in x.tenants <==> k in y.tenants))
            && (forall k :: k != tenant && k in x.tenants ==> x.tenants[k] == y.tenants[k])
            && (tenant in x.tenants <==> tenant in a.tenants)
            && (tenant in x.tenants ==> x.tenants[tenant] == a.tenants[tenant])
  {
    if es != [] {
      var init, last := es[..|es| - 1], es[|es| - 1];
      assert es == init + [last];
      assert ClaimsOf(init) <= ClaimsOf(es);
      FoldIgnoresTheTenant(a, b, init, tenant);
      assert last in es && last.Claims() in ClaimsOf(es);
    }
  }

  /** A redelivery of an event that has one of these inbox records. */
  predicate Repeats(x: Attempt, extra: set<(Id, string)>) {
    !(x.Registers() !! extra)
  }

  function WithoutRepeats(run: seq<Attempt>, extra: set<(Id, string)>): seq<Attempt> {
    if run == [] then []
    else WithoutRepeats(run[..|run| - 1], extra) + if Repeats(run[|run| - 1], extra) then [] else [run[|run| - 1]]
  }

  /** Every input is about other subjects, or repeats an event already registered. */
  predicate Leaves(run: seq<Attempt>, tenant: Id, extra: set<(Id, string)>) {
    forall x :: x in run ==> Repeats(x, extra) || !Mentions(x.Claims(), tenant)
  }

  predicate SameTenantRow(a: Database, b: Database, tenant: Id) {
    && (tenant in a.tables.tenants <==> tenant in b.tables.tenants)
    && (tenant in a.tables.tenants ==> a.tables.tenants[tenant] == b.tables.tenants[tenant])
  }

  lemma {:induction false} OneAttemptIgnoresTheTenant(a: Database, b: Database, x: Attempt, tenant: Id,
    extra: set<(Id, string)>)
    requires DifferIn(a, b, tenant, extra)
    requires !Mentions(x.Claims(), tenant) && x.Registers() !! extra
    ensures DifferIn(Next(a, x), Next(b, x), tenant, extra)
    ensures SameTenantRow(Next(a, x), a, tenant) && SameTenantRow(Next(b, x), b, tenant)
  {
    if x.Accepted() {
      AttemptClaims(x);
      FoldIgnoresTheTenant(a.tables, b.tables, x.Effects(), tenant);
      FoldIgnoresTheTenant(b.tables, a.tables, x.Effects(), tenant);
    }
  }

  /** Inputs about other subjects act alike on both, repeats change nothing where their event is registered, and
      the tenant's row stays as it was in each. */
  lemma {:induction false} RunIgnoresTheTenant(a: Database, b: Database, run: seq<Attempt>, tenant: Id,
    extra: set<(Id, string)>)
    requires DifferIn(a, b, tenant, extra) && Leaves(run, tenant, extra)
    ensures DifferIn(Run(a, run), Run(b, WithoutRepeats(run, extra)), tenant, extra)
    ensures SameTenantRow(Run(a, run), a, tenant) && SameTenantRow(Run(b, WithoutRepeats(run, extra)), b, tenant)
  {
    if run != [] {
      var earlier, last := run[..|run| - 1], run[|run| - 1];
      assert run == earlier + [last];
      var kept := WithoutRepeats(earlier, extra);
      RunIgnoresTheTenant(a, b, earlier, tenant, extra);
      if Repeats(last, extra) {
        assert kept + [] == kept;
        OneAttempt(Run(a, earlier), last);
      } else {
        assert (kept + [last])[..|kept + [last]| - 1] == kept;
        OneAttemptIgnoresTheTenant(Run(a, earlier), Run(b, kept), last, tenant, extra);
      }
    }
  }

  /** An attempt that puts a tenant into a state newer than the one held. */
  ghost predicate MovesTenant(db: Database, x: Attempt, tenant: Id, status: string) {
    && x.Accepted() && x.input.Event? && x.input.envelope.etype.IsTenant()
    && var p := x.input.envelope.data.tenant.value;
    && p.tenantId == tenant && p.status == status
    && (tenant in db.tables.tenants ==> db.tables.tenants[tenant].pair.Less(Pair(p.securityVersion, p.version)))
    && x.Registers() !! db.inbox
  }

  lemma {:induction false} MoveTakesEffect(db: Database, x: Attempt, tenant: Id, status: string)
    requires MovesTenant(db, x, tenant, status)
    ensures DifferIn(Next(db, x), db, tenant, x.Registers())
    ensures tenant in Next(db, x).tables.tenants && Next(db, x).tables.tenants[tenant].status == status
  {
    var put := x.Effects()[0];
    assert x.Effects() == [put];
    FoldOne(db.tables, put);
  }

  /** While the tenant is suspended every principal is refused as a member of an inactive tenant, whatever
      their memberships; after its restoration every lookup answers what it would have answered had
      neither event happened, record and all. Events about other subjects may be interleaved anywhere, and so may
      redeliveries of the suspension and of the restoration once they have been heard. */
  lemma {:induction false} SuspensionAndRestorationAreARoundTrip(db: Database, suspend: Attempt,
    between: seq<Attempt>, restore: Attempt, after: seq<Attempt>, tenant: Id, other: Id, principal: Id, status: string)
    requires tenant in db.tables.tenants && db.tables.tenants[tenant].status == "active"
    requires status != "active" && MovesTenant(db, suspend, tenant, status)
    requires MovesTenant(Run(Next(db, suspend), between), restore, tenant, "active")
    requires Leaves(between, tenant, suspend.Registers())
    requires Leaves(after, tenant, suspend.Registers() + restore.Registers())
    ensures StandingOf(Run(Next(db, suspend), between).tables, tenant, principal) == InactiveTenant
    ensures var with := Run(Next(Run(Next(db, suspend), between), restore), after);
            var s, r := suspend.Registers(), restore.Registers();
            var without := Run(Run(db, WithoutRepeats(between, s)), WithoutRepeats(after, s + r));
            && with.tables.members == without.tables.members
            && StandingOf(with.tables, other, principal) == StandingOf(without.tables, other, principal)
            && forall x :: Answers(with.tables, other, principal, x) <==> Answers(without.tables, other, principal, x)
  {
    var s, r := suspend.Registers(), restore.Registers();
    MoveTakesEffect(db, suspend, tenant, status);
    RunIgnoresTheTenant(Next(db, suspend), db, between, tenant, s);
    var suspended, untouched := Run(Next(db, suspend), between), Run(db, WithoutRepeats(between, s));
    MoveTakesEffect(suspended, restore, tenant, "active");
    var restored := Next(suspended, restore);
    assert DifferIn(restored, untouched, tenant, s + r);
    RunIgnoresTheTenant(restored, untouched, after, tenant, s + r);
    SameStandings(Run(restored, after).tables, Run(untouched, WithoutRepeats(after, s + r)).tables, other, principal);
  }

  /** A lookup reads the members and whether the tenant is absent, active or neither. */
  lemma {:induction false} SameStandings(a: Tables, b: Tables, tenant: Id, principal: Id)
    requires a.members == b.members
    requires tenant in a.tenants <==> tenant in b.tenants
    requires tenant in a.tenants ==> (a.tenants[tenant].status == "active" <==> b.tenants[tenant].status == "active")
    ensures StandingOf(a, tenant, principal) == StandingOf(b, tenant, principal)
    ensures forall r :: Answers(a, tenant, principal, r) <==> Answers(b, tenant, principal, r)
  {
    assert forall m :: ActiveFor(a, tenant, principal, m) <==> ActiveFor(b, tenant, principal, m);
    assert forall m :: RowFor(a, tenant, principal, m) <==> RowFor(b, tenant, principal, m);
    assert forall m :: NewestActive(a, tenant, principal, m) <==> NewestActive(b, tenant, principal, m);
  }
}

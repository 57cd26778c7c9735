/** Snapshot and catch-up against an authority whose state moves meanwhile. */
module Convergence {
  import opened Wrappers
  import opened Model
  import opened Effects
  import opened Transactions
  import opened Queries
  import opened Runs
  import opened Marks
  import opened Samples
  import opened Deliveries

  predicate SameSubject(a: Claim, b: Claim) {
    (a.MemberClaim? && b.MemberClaim? && a.id == b.id) || (a.TenantClaim? && b.TenantClaim? && a.id == b.id)
  }

  predicate Precedes(a: Claim, b: Claim)
    requires SameSubject(a, b)
  {
    if a.MemberClaim? then a.identity == b.identity && a.version < b.version else a.pair.Less(b.pair)
  }

  /** Everything the authority ever committed, in commit order. Versions are taken under a row lock, so
      they rise with every transition of one membership or one tenant; nothing relates two subjects. */
  ghost predicate IsHistory(h: seq<Claim>) {
    && (forall c :: c in h ==> !c.Removal?)
    && (forall i, j :: 0 <= i < j < |h| && SameSubject(h[i], h[j]) ==> Precedes(h[i], h[j]))
  }

  /** The state a subject is in: its last transition. */
  ghost predicate Current(h: seq<Claim>, c: Claim) {
    exists i :: 0 <= i < |h| && IsLast(h, i) && h[i] == c
  }

  predicate IsLast(h: seq<Claim>, i: nat)
    requires i < |h|
  {
    forall j :: i < j < |h| ==> !SameSubject(h[i], h[j])
  }

  /** A page as the authority answers it at one instant of its history: every row as it stood then, with
      its tenant as it stood then. */
  ghost predicate ReadAt(rows: seq<SnapshotRow>, h: seq<Claim>, n: nat)
    requires n <= |h|
  {
    forall r :: r in rows ==> Seedable(r) && Current(h[..n], MemberSaid(r)) && Current(h[..n], TenantSaid(r))
  }

  /** Nothing is said that the authority did not commit, and nothing it granted is removed. */
  ghost predicate Faithful(said: set<Claim>, h: seq<Claim>) {
    forall c :: c in said ==> c in h || (c.Removal? && forall d :: d in h && d.MemberClaim? ==> d.id != c.id)
  }

  lemma {:induction false} OneStatementIsCurrent(rows: seq<SnapshotRow>, mark: int, h: seq<Claim>, n: nat, j: nat)
    requires n <= |h| && ReadAt(rows, h, n) && j < 2 * |rows| && RowError(rows[j / 2]).None?
    ensures PageEffect(rows, j, mark, 0).Claims() in h
  {
    var r, c := rows[j / 2], PageEffect(rows, j, mark, 0).Claims();
    assert r in rows;
    assert c == if j % 2 == 0 then MemberSaid(r) else TenantSaid(r);
    assert Current(h[..n], c);
    var i :| 0 <= i < n && h[..n][i] == c;
    assert h[i] == c;
  }

  /** A page is faithful whenever it was read, so each page of one snapshot may be read at its own
      instant. */
  lemma {:induction false} PagesAreFaithful(rows: seq<SnapshotRow>, mark: int, h: seq<Claim>, n: nat)
    requires n <= |h| && ReadAt(rows, h, n)
    ensures Faithful(PageClaims(rows, mark), h)
  {
    if SeedVerdict(rows, mark).Success? {
      var es := PageEffects(rows, mark, 0);
      forall c | c in ClaimsOf(es)
        ensures c in h
      {
        var e :| e in es && e.Claims() == c;
        var j :| 0 <= j < |es| && es[j] == e;
        assert rows[j / 2] in rows;
        OneStatementIsCurrent(rows, mark, h, n, j);
      }
    }
  }

  lemma {:induction false} HistoriesCohere(h: seq<Claim>, said: set<Claim>)
    requires IsHistory(h) && Faithful(said, h)
    ensures Coherent(said) && RemovalsHarmless(said)
  {
    forall a, b | a in said && b in said && SameSubject(a, b)
      ensures a == b || Precedes(a, b) || Precedes(b, a)
    {
      var i :| 0 <= i < |h| && h[i] == a;
      var j :| 0 <= j < |h| && h[j] == b;
      assert i < j ==> Precedes(h[i], h[j]);
      assert j < i ==> Precedes(h[j], h[i]);
    }
  }

  lemma {:induction false} EverySubjectHasACurrent(h: seq<Claim>, i: nat) returns (c: Claim)
    requires i < |h| && IsHistory(h)
    ensures Current(h, c) && c in h
    ensures !h[i].Removal? ==> SameSubject(h[i], c) && (h[i] == c || Precedes(h[i], c))
    decreases |h| - i
  {
    if j :| i < j < |h| && SameSubject(h[i], h[j]) {
      c := EverySubjectHasACurrent(h, j);
    } else {
      assert IsLast(h, i);
      assert h[i] in h;
      c := h[i];
    }
  }

  lemma {:induction false} CurrentIsLatest(h: seq<Claim>, c: Claim, d: Claim)
    requires IsHistory(h) && Current(h, c) && d in h && SameSubject(d, c)
    ensures d == c || Precedes(d, c)
  {
    var i :| 0 <= i < |h| && IsLast(h, i) && h[i] == c;
    var j :| 0 <= j < |h| && h[j] == d;
    assert j <= i;
    assert j < i ==> Precedes(h[j], h[i]);
  }

  /** The tables hold the authority's state: the same memberships and tenants, each as it stands. */
  ghost predicate Agrees(t: Tables, h: seq<Claim>) {
    && (forall m :: m in t.members ==> Current(h, RowClaim(m, t.members[m])))
    && (forall k :: k in t.tenants ==> Current(h, TenantClaim(k, t.tenants[k].status, t.tenants[k].pair)))
    && (forall c :: Current(h, c) ==> if c.MemberClaim? then c.id in t.members else c.id in t.tenants)
  }

  lemma {:induction false} AgreesWhenSaid(t: Tables, h: seq<Claim>, said: set<Claim>)
    requires IsHistory(h) && Faithful(said, h) && Settled(t, said)
    requires forall c :: Current(h, c) ==> c in said
    ensures Agrees(t, h)
  {
    forall m | m in t.members
      ensures Current(h, RowClaim(m, t.members[m]))
    {
      var d := RowClaim(m, t.members[m]);
      var i :| 0 <= i < |h| && h[i] == d;
      var c := EverySubjectHasACurrent(h, i);
      assert Reflects(t, c);
    }
    forall k | k in t.tenants
      ensures Current(h, TenantClaim(k, t.tenants[k].status, t.tenants[k].pair))
    {
      var d := TenantClaim(k, t.tenants[k].status, t.tenants[k].pair);
      var i :| 0 <= i < |h| && h[i] == d;
      var c := EverySubjectHasACurrent(h, i);
      assert Reflects(t, c);
    }
    forall c | Current(h, c)
      ensures if c.MemberClaim? then c.id in t.members else c.id in t.tenants
    {
      assert Reflects(t, c);
    }
  }

  lemma {:induction false} SaidWhenAgrees(t: Tables, h: seq<Claim>, said: set<Claim>, c: Claim)
    requires IsHistory(h) && Settled(t, said) && Agrees(t, h) && Current(h, c)
    ensures c in said
  {
    var held := if c.MemberClaim? then RowClaim(c.id, t.members[c.id])
        else TenantClaim(c.id, t.tenants[c.id].status, t.tenants[c.id].pair);
    CurrentIsLatest(h, c, held);
    CurrentIsLatest(h, held, c);
  }

  /** What reaches this consumer comes from the authority: a page is what it answered at some instant of its
      history, each page at its own, and an event says what it committed. */
  ghost predicate ComesFrom(a: Attempt, h: seq<Claim>) {
    a.Accepted() ==>
      match a.input
      case Page(rows, _, _) => exists n :: 0 <= n <= |h| && ReadAt(rows, h, n)
      case Event(e) => Faithful(EnvelopeClaims(a.consumer, e), h)
  }

  lemma {:induction false} RunsAreFaithful(run: seq<Attempt>, h: seq<Claim>)
    requires forall a :: a in run ==> ComesFrom(a, h)
    ensures Faithful(Claims(run), h)
  {
    forall c | c in Claims(run)
      ensures c in h || (c.Removal? && forall d :: d in h && d.MemberClaim? ==> d.id != c.id)
    {
      ClaimsComeFrom(run, c);
      var a :| a in run && a.Accepted() && c in a.Claims();
      assert ComesFrom(a, h);
      if a.input.Page? {
        var n :| 0 <= n <= |h| && ReadAt(a.input.rows, h, n);
        PagesAreFaithful(a.input.rows, a.input.mark, h, n);
      }
    }
  }

  lemma {:induction false} FaithfulRunsConverge(h: seq<Claim>, run: seq<Attempt>)
    requires IsHistory(h) && Faithful(Claims(run), h) && IdsDetermine(run)
    ensures Agrees(Run(EMPTY_DATABASE, run).tables, h) <==> forall c :: Current(h, c) ==> c in Claims(run)
  {
    var t := Run(EMPTY_DATABASE, run).tables;
    HistoriesCohere(h, Claims(run));
    RunSettles(run);
    if forall c :: Current(h, c) ==> c in Claims(run) {
      AgreesWhenSaid(t, h, Claims(run));
    }
    if Agrees(t, h) {
      forall c | Current(h, c)
        ensures c in Claims(run)
      {
        SaidWhenAgrees(t, h, Claims(run), c);
      }
    }
  }

  /** Convergence, exactly. For every history of the authority, every split of the snapshot into pages
      each read at its own instant, and every interleaving of pages, events and sweeps with rollbacks and
      redeliveries: the projection equals the authority if and only if the last transition of each
      membership and tenant is in some page or some delivery. */
  lemma {:induction false} SnapshotAndCatchUpConverge(h: seq<Claim>, run: seq<Attempt>)
    requires IsHistory(h) && IdsDetermine(run) && forall a :: a in run ==> ComesFrom(a, h)
    ensures Agrees(Run(EMPTY_DATABASE, run).tables, h) <==> forall c :: Current(h, c) ==> c in Claims(run)
  {
    RunsAreFaithful(run, h);
    FaithfulRunsConverge(h, run);
  }

  /** What the authority itself answers: the tenant is active and some active membership exists. */
  ghost predicate Grants(h: seq<Claim>, tenant: Id, principal: Id) {
    && (exists c :: Current(h, c) && c.TenantClaim? && c.id == tenant && c.tenantStatus == "active")
    && (exists c :: Current(h, c) && c.MemberClaim? && c.status == Active
                    && c.identity.tenant == tenant && c.identity.principal == principal)
  }

  lemma {:induction false} ConferredIsGranted(t: Tables, h: seq<Claim>, tenant: Id, principal: Id)
    requires IsHistory(h) && Agrees(t, h) && Confers(t, tenant, principal)
    ensures Grants(h, tenant, principal)
  {
    var m :| m in t.members && ActiveFor(t, tenant, principal, m);
    assert Current(h, RowClaim(m, t.members[m]));
    assert Current(h, TenantClaim(tenant, t.tenants[tenant].status, t.tenants[tenant].pair));
  }

  lemma {:induction false} GrantedIsConferred(t: Tables, h: seq<Claim>, tenant: Id, principal: Id)
    requires IsHistory(h) && Agrees(t, h) && Grants(h, tenant, principal)
    ensures Confers(t, tenant, principal)
  {
    var k :| Current(h, k) && k.TenantClaim? && k.id == tenant && k.tenantStatus == "active";
    var c :| Current(h, c) && c.MemberClaim? && c.status == Active
             && c.identity.tenant == tenant && c.identity.principal == principal;
    var held := RowClaim(c.id, t.members[c.id]);
    var heldTenant := TenantClaim(tenant, t.tenants[tenant].status, t.tenants[tenant].pair);
    CurrentIsLatest(h, c, held);
    CurrentIsLatest(h, held, c);
    CurrentIsLatest(h, k, heldTenant);
    CurrentIsLatest(h, heldTenant, k);
    assert ActiveFor(t, tenant, principal, c.id);
  }

  /** Once converged, a lookup succeeds exactly for the pairs the authority would grant. */
  lemma {:induction false} LookupAnswersAsTheAuthority(t: Tables, h: seq<Claim>, tenant: Id, principal: Id,
    r: Result<Record, Error>)
    requires IsHistory(h) && Agrees(t, h) && Answers(t, tenant, principal, r)
    ensures r.Success? <==> Grants(h, tenant, principal)
  {
    if Confers(t, tenant, principal) {
      ConferredIsGranted(t, h, tenant, principal);
      StandingIsUnique(t, tenant, principal, Holds);
    }
    if Grants(h, tenant, principal) {
      GrantedIsConferred(t, h, tenant, principal);
    }
  }

  // The rule this consumer does not follow.

  /** An event at or below the mark of the snapshot its consumer has recorded. */
  predicate BelowTheMark(db: Database, a: Attempt) {
    && a.input.Event? && SnapshotMark(db, a.consumer).Some?
    && a.input.envelope.streamPosition <= SnapshotMark(db, a.consumer).value
  }

  /** A consumer that discards what the snapshot's mark appears to cover. */
  function RunDiscarding(db: Database, run: seq<Attempt>): Database {
    if run == [] then db
    else
      var before, last := RunDiscarding(db, run[..|run| - 1]), run[|run| - 1];
      if BelowTheMark(before, last) then before else Next(before, last)
  }

  /** What such a consumer does not discard. */
  function Kept(db: Database, run: seq<Attempt>): seq<Attempt> {
    if run == [] then []
    else
      var earlier, last := run[..|run| - 1], run[|run| - 1];
      Kept(db, earlier) + if BelowTheMark(RunDiscarding(db, earlier), last) then [] else [last]
  }

  lemma {:induction false} DiscardingRunsWhatIsKept(db: Database, run: seq<Attempt>)
    ensures RunDiscarding(db, run) == Run(db, Kept(db, run))
  {
    if run != [] {
      var earlier, last := run[..|run| - 1], run[|run| - 1];
      DiscardingRunsWhatIsKept(db, earlier);
      var kept := Kept(db, earlier);
      if BelowTheMark(RunDiscarding(db, earlier), last) {
        assert Kept(db, run) == kept;
      } else {
        assert Kept(db, run) == kept + [last] && (kept + [last])[..|kept|] == kept;
      }
    }
  }

  lemma {:induction false} KeptIsHeard(db: Database, run: seq<Attempt>)
    ensures forall a :: a in Kept(db, run) ==> a in run
  {
    if run != [] {
      KeptIsHeard(db, run[..|run| - 1]);
      assert run == run[..|run| - 1] + [run[|run| - 1]];
    }
  }

  /** Such a consumer equals the authority if and only if nothing it needed was below a mark: each last
      transition is in a page, or in a delivery above the mark recorded when it arrived. */
  lemma {:induction false} DiscardingConvergesExactlyWhen(h: seq<Claim>, run: seq<Attempt>)
    requires IsHistory(h) && IdsDetermine(run) && forall a :: a in run ==> ComesFrom(a, h)
    ensures Agrees(RunDiscarding(EMPTY_DATABASE, run).tables, h)
            <==> forall c :: Current(h, c) ==> c in Claims(Kept(EMPTY_DATABASE, run))
  {
    DiscardingRunsWhatIsKept(EMPTY_DATABASE, run);
    KeptIsHeard(EMPTY_DATABASE, run);
    SnapshotAndCatchUpConverge(h, Kept(EMPTY_DATABASE, run));
  }

  /** Delivering it again does not help: no events at or below the mark ever change anything. */
  lemma {:induction false} DiscardingNeverHeals(db: Database, more: seq<Attempt>)
    requires forall a :: a in more ==> BelowTheMark(db, a)
    ensures RunDiscarding(db, more) == db
  {
    if more != [] {
      assert more[|more| - 1] in more;
      DiscardingNeverHeals(db, more[..|more| - 1]);
    }
  }

  lemma {:induction false} DiscardingConcat(db: Database, a: seq<Attempt>, b: seq<Attempt>)
    ensures RunDiscarding(db, a + b) == RunDiscarding(RunDiscarding(db, a), b)
  {
    if b == [] {
      assert a + b == a;
    } else {
      assert (a + b)[..|a + b| - 1] == a + b[..|b| - 1];
      DiscardingConcat(db, a, b[..|b| - 1]);
    }
  }

  const TENANT_ACTIVE := TenantClaim(2, "active", Pair(1, 1))
  const MEMBER_ACTIVE := MemberClaim(1, Identity(2, 3, None), Active, 1)

  const SNAPSHOT_AT_NINE := Attempt("a", Page([], 9, true), 0, Commits)
  const ACTIVATION_AT_TWELVE := Attempt("a", Event(TenantEvent(6, TenantActivated, "active", 1, 1, 12)), 1, Commits)
  const GRANT_AT_FIVE := Attempt("a", Event(Grant(7, 1, 5)), 2, Commits)

  lemma {:induction false} WhatTheExampleSays()
    ensures SNAPSHOT_AT_NINE.Claims() == {} && ComesFrom(SNAPSHOT_AT_NINE, [TENANT_ACTIVE, MEMBER_ACTIVE])
    ensures ACTIVATION_AT_TWELVE.Claims() == {TENANT_ACTIVE} && ACTIVATION_AT_TWELVE.Registers() == {(6, "a")}
    ensures GRANT_AT_FIVE.Claims() == {MEMBER_ACTIVE} && GRANT_AT_FIVE.Registers() == {(7, "a")}
  {
    assert ReadAt([], [TENANT_ACTIVE, MEMBER_ACTIVE], 0);
    var activation, grant := TenantEvent(6, TenantActivated, "active", 1, 1, 12), Grant(7, 1, 5);
    var state := TenantRow("active", Pair(1, 1), 12, 0, Some(6));
    assert Judge("a", activation, 0) == Project([PutTenant(2, state)]);
    assert ClaimsOf([PutTenant(2, state)]) == {PutTenant(2, state).Claims()};
    var row := MembershipRow(grant.data.membership.value, Active, grant, 0);
    assert Judge("a", grant, 0) == Project([PutMember(1, row)]);
    assert ClaimsOf([PutMember(1, row)]) == {PutMember(1, row).Claims()};
  }

  lemma {:induction false} TheExampleConverges()
    ensures var h, run := [TENANT_ACTIVE, MEMBER_ACTIVE], [SNAPSHOT_AT_NINE, ACTIVATION_AT_TWELVE, GRANT_AT_FIVE];
            && IsHistory(h) && (forall a :: a in run ==> ComesFrom(a, h))
            && Agrees(Run(EMPTY_DATABASE, run).tables, h)
  {
    var h, run := [TENANT_ACTIVE, MEMBER_ACTIVE], [SNAPSHOT_AT_NINE, ACTIVATION_AT_TWELVE, GRANT_AT_FIVE];
    WhatTheExampleSays();
    assert h[0] == TENANT_ACTIVE && h[1] == MEMBER_ACTIVE;
    ClaimsInclude(run, ACTIVATION_AT_TWELVE);
    ClaimsInclude(run, GRANT_AT_FIVE);
    SnapshotAndCatchUpConverge(h, run);
  }

  lemma {:induction false} TheExampleDiscards()
    ensures var db := RunDiscarding(EMPTY_DATABASE, [SNAPSHOT_AT_NINE, ACTIVATION_AT_TWELVE, GRANT_AT_FIVE]);
            SnapshotMark(db, "a") == Some(9) && 1 !in db.tables.members
  {
    var run := [SNAPSHOT_AT_NINE, ACTIVATION_AT_TWELVE, GRANT_AT_FIVE];
    assert run[..2] == [SNAPSHOT_AT_NINE, ACTIVATION_AT_TWELVE] && run[..2][..1] == [SNAPSHOT_AT_NINE];
    assert [SNAPSHOT_AT_NINE][..0] == [];
    var first := Next(EMPTY_DATABASE, SNAPSHOT_AT_NINE);
    assert RunDiscarding(EMPTY_DATABASE, [SNAPSHOT_AT_NINE]) == first;
    assert SnapshotMark(first, "a") == Some(9) && first.tables == NO_TABLES;
    var second := RunDiscarding(EMPTY_DATABASE, run[..2]);
    assert second == Next(first, ACTIVATION_AT_TWELVE);
    var put := Judge("a", ACTIVATION_AT_TWELVE.input.envelope, 1).effects[0];
    assert Judge("a", ACTIVATION_AT_TWELVE.input.envelope, 1).effects == [put];
    FoldOne(first.tables, put);
  }

  /** A position is allocated before its transaction commits, so a grant may carry one below the mark of a
      snapshot that did not see it. In this run every last transition is delivered and this consumer ends with
      the authority's state; one that discards at the mark does not, however often it is told again. */
  lemma {:induction false} DiscardingAtTheMarkLosesARow(more: seq<Attempt>)
    requires forall a :: a in more ==>
               a.consumer == "a" && a.input.Event? && a.input.envelope.streamPosition <= 9
    ensures var h, run := [TENANT_ACTIVE, MEMBER_ACTIVE], [SNAPSHOT_AT_NINE, ACTIVATION_AT_TWELVE, GRANT_AT_FIVE];
            && IsHistory(h) && (forall a :: a in run ==> ComesFrom(a, h))
            && Agrees(Run(EMPTY_DATABASE, run).tables, h)
            && !Agrees(RunDiscarding(EMPTY_DATABASE, run + more).tables, h)
  {
    var h, run := [TENANT_ACTIVE, MEMBER_ACTIVE], [SNAPSHOT_AT_NINE, ACTIVATION_AT_TWELVE, GRANT_AT_FIVE];
    TheExampleConverges();
    TheExampleDiscards();
    DiscardingConcat(EMPTY_DATABASE, run, more);
    DiscardingNeverHeals(RunDiscarding(EMPTY_DATABASE, run), more);
    assert h[1] == MEMBER_ACTIVE && IsLast(h, 1);
    assert Current(h, MEMBER_ACTIVE);
  }
}

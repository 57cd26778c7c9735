/** The reads: what each query means over the tables, apart from how a method walks its rows. */
module Queries {
  import opened Wrappers
  import opened Model

  predicate ActiveFor(t: Tables, tenant: Id, principal: Id, m: Id) {
    && m in t.members
    && t.members[m].status == Active
    && t.members[m].identity.tenant == tenant
    && t.members[m].identity.principal == principal
  }

  predicate RowFor(t: Tables, tenant: Id, principal: Id, m: Id) {
    m in t.members && t.members[m].identity.tenant == tenant && t.members[m].identity.principal == principal
  }

  /** The authority's own question, asked of a pair of tables: the tenant is active and some active
      membership exists for the pair. */
  predicate Confers(t: Tables, tenant: Id, principal: Id) {
    && tenant in t.tenants && t.tenants[tenant].status == "active"
    && exists m :: m in t.members && ActiveFor(t, tenant, principal, m)
  }

  /** The five answers a lookup can give, each by what must be true of the tables. */
  datatype Standing = Holds | InactiveTenant | UnknownTenant | NoActive | NoRows

  ghost predicate StandsAs(t: Tables, tenant: Id, principal: Id, s: Standing) {
    match s
    case Holds => Confers(t, tenant, principal)
    case InactiveTenant => tenant in t.tenants && t.tenants[tenant].status != "active"
    case UnknownTenant => tenant !in t.tenants && exists m :: ActiveFor(t, tenant, principal, m)
    case NoActive =>
      && (tenant in t.tenants ==> t.tenants[tenant].status == "active")
      && (exists m :: RowFor(t, tenant, principal, m))
      && (forall m :: RowFor(t, tenant, principal, m) ==> t.members[m].status != Active)
    case NoRows =>
      && (tenant in t.tenants ==> t.tenants[tenant].status == "active")
      && (forall m :: !RowFor(t, tenant, principal, m))
  }

  function StandingOf(t: Tables, tenant: Id, principal: Id): (s: Standing)
    ensures StandsAs(t, tenant, principal, s)
  {
    if tenant in t.tenants && t.tenants[tenant].status != "active" then InactiveTenant
    else if exists m :: m in t.members && ActiveFor(t, tenant, principal, m) then
      if tenant in t.tenants then Holds else UnknownTenant
    else if exists m :: m in t.members && RowFor(t, tenant, principal, m) then NoActive
    else NoRows
  }

  /** The five answers are exclusive: no tables stand two ways for one pair. */
  lemma {:induction false} StandingIsUnique(t: Tables, tenant: Id, principal: Id, s: Standing)
    requires StandsAs(t, tenant, principal, s)
    ensures s == StandingOf(t, tenant, principal)
  {
    var own := StandingOf(t, tenant, principal);
    if exists m :: ActiveFor(t, tenant, principal, m) {
      var m :| ActiveFor(t, tenant, principal, m);
      assert RowFor(t, tenant, principal, m);
    }
  }

  function Refusal(s: Standing): Error
    requires !s.Holds?
  {
    match s
    case InactiveTenant => TenantInactive
    case UnknownTenant => TenantNotProjected
    case NoActive => Withdrawn
    case NoRows => NotProjected
  }

  function RecordOf(m: Id, row: Row): Record {
    Record(m, row.identity.tenant, row.identity.principal, row.identity.workspace, Some(row.status), row.version,
           row.tenantSecurityVersion, row.appliedMark, row.appliedAt)
  }

  /** `ORDER BY applied_mark DESC LIMIT 1`: some active row that none of the others is newer than. */
  ghost predicate NewestActive(t: Tables, tenant: Id, principal: Id, m: Id) {
    && ActiveFor(t, tenant, principal, m)
    && forall other :: ActiveFor(t, tenant, principal, other) ==>
        t.members[other].appliedMark <= t.members[m].appliedMark
  }

  /** A lookup's answer: the record of a newest active row when the pair holds, and otherwise the
      refusal its standing names. */
  ghost predicate Answers(t: Tables, tenant: Id, principal: Id, r: Result<Record, Error>) {
    match StandingOf(t, tenant, principal)
    case Holds => exists m :: NewestActive(t, tenant, principal, m) && r == Success(RecordOf(m, t.members[m]))
    case refused => r == Failure(Refusal(refused))
  }

  predicate OfPair(row: Row, tenant: Id, principal: Id) {
    row.identity.tenant == tenant && row.identity.principal == principal
  }

  predicate ActiveOfPair(row: Row, tenant: Id, principal: Id) {
    OfPair(row, tenant, principal) && row.status == Active
  }

  /** What a lookup answers, by what the tables hold: each refusal exactly when, and a success exactly when. */
  lemma {:induction false} WhatALookupAnswers(t: Tables, tenant: Id, principal: Id, r: Result<Record, Error>)
    requires Answers(t, tenant, principal, r)
    ensures r == Failure(TenantInactive) <==> tenant in t.tenants && t.tenants[tenant].status != "active"
    ensures r == Failure(TenantNotProjected) <==>
              tenant !in t.tenants && exists m :: m in t.members && ActiveOfPair(t.members[m], tenant, principal)
    ensures r == Failure(Withdrawn) <==>
              && (tenant in t.tenants ==> t.tenants[tenant].status == "active")
              && (exists m :: m in t.members && OfPair(t.members[m], tenant, principal))
              && (forall m :: m in t.members ==> !ActiveOfPair(t.members[m], tenant, principal))
    ensures r == Failure(NotProjected) <==>
              && (tenant in t.tenants ==> t.tenants[tenant].status == "active")
              && (forall m :: m in t.members ==> !OfPair(t.members[m], tenant, principal))
    ensures r.Success? <==>
              && tenant in t.tenants && t.tenants[tenant].status == "active"
              && exists m :: m in t.members && ActiveOfPair(t.members[m], tenant, principal)
  {
    assert forall m :: RowFor(t, tenant, principal, m) <==> m in t.members && OfPair(t.members[m], tenant, principal);
    assert forall m :: ActiveFor(t, tenant, principal, m) <==>
                         m in t.members && ActiveOfPair(t.members[m], tenant, principal);
    StandingIsUnique(t, tenant, principal, StandingOf(t, tenant, principal));
  }

  /** The record a lookup answers with is an active row of the pair, column by column, and no active row of the pair
      was applied at a higher mark. */
  lemma {:induction false} WhatALookupReturns(t: Tables, tenant: Id, principal: Id, record: Record)
    requires Answers(t, tenant, principal, Success(record))
    ensures record.membershipId in t.members
    ensures var row := t.members[record.membershipId];
            && ActiveOfPair(row, tenant, principal)
            && record == Record(record.membershipId, tenant, principal, row.identity.workspace, Some(Active),
                                row.version, row.tenantSecurityVersion, row.appliedMark, row.appliedAt)
            && forall m :: m in t.members && ActiveOfPair(t.members[m], tenant, principal) ==>
                 t.members[m].appliedMark <= row.appliedMark
  {
    var m :| NewestActive(t, tenant, principal, m) && record == RecordOf(m, t.members[m]);
    forall x | x in t.members && ActiveOfPair(t.members[x], tenant, principal)
      ensures t.members[x].appliedMark <= t.members[m].appliedMark
    {
      assert ActiveFor(t, tenant, principal, x);
    }
  }

  // Position and freshness.

  datatype Position = Position(snapshotMark: Option<int>, appliedMark: int, bootstrappedAt: Option<int>)

  const NO_POSITION := Position(None, 0, None)

  function PositionOf(db: Database, consumer: string): Position {
    if consumer in db.watermarks then
      var w := db.watermarks[consumer];
      Position(w.snapshotMark, w.appliedMark, w.bootstrappedAt)
    else NO_POSITION
  }

  function AgeOf(db: Database, consumer: string, now: int): Result<int, Error> {
    if consumer in db.watermarks && db.watermarks[consumer].snapshotMark.Some? then
      Success(Max(0, now - db.watermarks[consumer].updatedAt))
    else Failure(NotBootstrapped)
  }

  // The report.

  datatype ReportedRow = ReportedRow(membershipId: Id, version: int)

  datatype Report = Report(consumerId: string, mark: int, rows: seq<ReportedRow>)

  predicate IsLeast(s: set<Id>, m: Id) {
    m in s && forall x :: x in s ==> m <= x
  }

  function Least(s: set<Id>): (m: Id)
    requires s != {}
    ensures IsLeast(s, m)
  {
    LeastExists(s);
    var m :| m in s && IsLeast(s, m);
    m
  }

  lemma {:induction false} LeastExists(s: set<Id>)
    requires s != {}
    ensures exists m :: m in s && IsLeast(s, m)
  {
    var x :| x in s;
    var rest := s - {x};
    if rest == {} {
      assert s == {x};
      assert IsLeast(s, x);
    } else {
      LeastExists(rest);
      var m :| m in rest && IsLeast(rest, m);
      var least := if m <= x then m else x;
      assert IsLeast(s, least) by {
        forall y | y in s
          ensures least <= y
        {
          assert y == x || y in rest;
        }
      }
    }
  }

  /** `ORDER BY membership_id`: each member of the set once, ascending. */
  function Ascending(s: set<Id>): (q: seq<Id>)
    ensures forall x :: x in q <==> x in s
    ensures forall i, j :: 0 <= i < j < |q| ==> q[i] < q[j]
  {
    if s == {} then [] else [Least(s)] + Ascending(s - {Least(s)})
  }

  function ActiveIds(t: Tables): set<Id> {
    set m | m in t.members && t.members[m].status == Active
  }

  function ReportRows(t: Tables, ids: seq<Id>): (rows: seq<ReportedRow>)
    requires forall m :: m in ids ==> m in t.members
    ensures |rows| == |ids| && forall i :: 0 <= i < |ids| ==> rows[i] == ReportedRow(ids[i], t.members[ids[i]].version)
  {
    if ids == [] then [] else
      var n := |ids| - 1;
      assert ids == ids[..n] + [ids[n]];
      ReportRows(t, ids[..n]) + [ReportedRow(ids[n], t.members[ids[n]].version)]
  }

  /** The mark is the higher of the two positions, and the rows are read with it in one statement. */
  function ReportOf(db: Database, consumer: string): Result<Report, Error> {
    if consumer in db.watermarks && db.watermarks[consumer].snapshotMark.Some? then
      var w := db.watermarks[consumer];
      Success(Report(consumer, Max(w.snapshotMark.value, w.appliedMark),
                     ReportRows(db.tables, Ascending(ActiveIds(db.tables)))))
    else Failure(NotBootstrapped)
  }

  /** A report names its consumer, and its mark is one of the two recorded marks and at least both. */
  lemma {:induction false} TheReportIsMarked(db: Database, c: string)
    ensures ReportOf(db, c).Success? <==> c in db.watermarks && db.watermarks[c].snapshotMark.Some?
    ensures ReportOf(db, c).Success? ==>
              var r, w := ReportOf(db, c).value, db.watermarks[c];
              && r.consumerId == c
              && r.mark in {w.snapshotMark.value, w.appliedMark}
              && w.snapshotMark.value <= r.mark && w.appliedMark <= r.mark
    ensures ReportOf(db, c).Failure? ==> ReportOf(db, c).error == NotBootstrapped
  {
  }

  /** One line of the report's statement. The watermark drives the left join, so the two membership
      columns are absent together when no membership is active. */
  datatype ReportLine = ReportLine(snapshotMark: Option<int>, appliedMark: int, membership: Option<Id>,
      version: Option<int>)

  function BareLine(w: Watermark): ReportLine {
    ReportLine(w.snapshotMark, w.appliedMark, None, None)
  }

  function MembershipLine(w: Watermark, t: Tables, m: Id): ReportLine
    requires m in t.members
  {
    ReportLine(w.snapshotMark, w.appliedMark, Some(m), Some(t.members[m].version))
  }

  function ReportLines(db: Database, consumer: string): (lines: seq<ReportLine>)
    ensures consumer !in db.watermarks ==> lines == []
    ensures consumer in db.watermarks && ActiveIds(db.tables) == {} ==> lines == [BareLine(db.watermarks[consumer])]
    ensures consumer in db.watermarks && ActiveIds(db.tables) != {} ==>
              var ids := Ascending(ActiveIds(db.tables));
              |lines| == |ids| && forall i :: 0 <= i < |ids| ==>
                ids[i] in db.tables.members && lines[i] == MembershipLine(db.watermarks[consumer], db.tables, ids[i])
  {
    if consumer !in db.watermarks then []
    else if ActiveIds(db.tables) == {} then [BareLine(db.watermarks[consumer])]
    else
      var ids := Ascending(ActiveIds(db.tables));
      assert forall i :: 0 <= i < |ids| ==> ids[i] in ids;
      seq(|ids|, i requires 0 <= i < |ids| => MembershipLine(db.watermarks[consumer], db.tables, ids[i]))
  }
}

/** The projector as the program writes it: methods over a shared database, one transaction each. A
    transaction works on `tx` and commits by storing it; returning before that rolls it back. */
module Projectors {
  import opened Wrappers
  import opened Model
  import opened Effects
  import opened Transactions
  import opened Queries

  /** The database behind every projector that was given this pool. */
  class Pool {
    var db: Database

    constructor ()
      ensures db == EMPTY_DATABASE
    {
      db := EMPTY_DATABASE;
    }
  }

  /** What the caller of an event or a page sees, given how its transaction ended. A refusal that
      needs no transaction, or that stops one, is seen whatever the fate. */
  function Seen<T>(answer: Result<T, Error>, fate: Fate): Result<T, Error> {
    if answer.Failure? || fate.Commits? then answer else Failure(Unavailable)
  }

  function Ended(before: Database, after: Database, fate: Fate): Database {
    if fate.RollsBack? then before else after
  }

  class Projector {
    const pool: Pool
    const consumer: string

    constructor (pool: Pool, consumer: string)
      ensures this.pool == pool && this.consumer == consumer
    {
      this.pool := pool;
      this.consumer := consumer;
    }

    method Apply(envelope: Envelope, now: int, fate: Fate) returns (r: Result<Outcome, Error>)
      modifies pool
      ensures r == Seen(Answer(old(pool.db), consumer, envelope, now), fate)
      ensures pool.db == Ended(old(pool.db), Delivered(old(pool.db), consumer, envelope, now), fate)
    {
      if envelope.etype.IsTenant() {
        r := ApplyTenant(envelope, now, fate);
        return;
      }
      if envelope.etype.Listed? {
        r := AcknowledgeEvent(envelope, now, fate);
        return;
      }
      if envelope.etype.RepairReconciled? {
        r := ApplyRepair(envelope, now, fate);
        return;
      }
      if !envelope.etype.IsMembership() {
        return Failure(UnknownType);
      }
      var status := envelope.etype.Produces();
      if envelope.streamPosition <= 0 {
        return Failure(Malformed);
      }
      if envelope.data.membership.None? {
        return Failure(Malformed);
      }
      var payload := envelope.data.membership.value;
      if payload.membershipId == NIL || payload.tenantId == NIL || payload.principalId == NIL {
        return Failure(Malformed);
      }
      if payload.version <= 0 {
        return Failure(Malformed);
      }

      var tx := pool.db;
      var outcome := NO_OUTCOME;
      if (envelope.id, consumer) in tx.inbox {
        outcome := outcome.(duplicate := true);
      } else {
        tx := tx.(inbox := tx.inbox + {(envelope.id, consumer)});
        var row := Row(Identity(payload.tenantId, payload.principalId, Workspace(payload.workspaceId)), status,
                       payload.version, envelope.streamPosition, payload.tenantSecurityVersion, now, envelope.id);
        var put := PutMember(payload.membershipId, row);
        assert Checked(put);
        var members := tx.tables.members;
        var affected := payload.membershipId !in members || row.version > members[payload.membershipId].version;
        tx := tx.(tables := Step(tx.tables, put));
        tx := tx.(watermarks := Advance(tx.watermarks, consumer, envelope.streamPosition, now));
        FoldOne(pool.db.tables, put);
        if !affected {
          outcome := outcome.(superseded := true);
        } else {
          assert tx.tables.members != members;
          outcome := outcome.(applied := true);
          outcome := outcome.(record := Record(payload.membershipId, payload.tenantId, payload.principalId, None,
                                               Some(status), payload.version, payload.tenantSecurityVersion,
                                               envelope.streamPosition, now));
        }
      }
      if fate.RollsBack? {
        return Failure(Unavailable);
      }
      pool.db := tx;
      if fate.AnswerLost? {
        return Failure(Unavailable);
      }
      return Success(outcome);
    }

    method ApplyTenant(envelope: Envelope, now: int, fate: Fate) returns (r: Result<Outcome, Error>)
      requires envelope.etype.IsTenant()
      modifies pool
      ensures r == Seen(Answer(old(pool.db), consumer, envelope, now), fate)
      ensures pool.db == Ended(old(pool.db), Delivered(old(pool.db), consumer, envelope, now), fate)
    {
      if envelope.streamPosition <= 0 {
        return Failure(Malformed);
      }
      if envelope.data.tenant.None? {
        return Failure(Malformed);
      }
      var payload := envelope.data.tenant.value;
      if payload.tenantId == NIL || payload.status == "" || payload.securityVersion <= 0 || payload.version <= 0 {
        return Failure(Malformed);
      }

      var tx := pool.db;
      var outcome := NO_OUTCOME;
      if (envelope.id, consumer) in tx.inbox {
        outcome := outcome.(duplicate := true);
      } else {
        tx := tx.(inbox := tx.inbox + {(envelope.id, consumer)});
        var pair := Pair(payload.securityVersion, payload.version);
        var put := PutTenant(payload.tenantId,
                             TenantRow(payload.status, pair, envelope.streamPosition, now, Some(envelope.id)));
        assert Checked(put);
        var tenants := tx.tables.tenants;
        var affected := payload.tenantId !in tenants || tenants[payload.tenantId].pair.Less(pair);
        tx := tx.(tables := Step(tx.tables, put));
        tx := tx.(watermarks := Advance(tx.watermarks, consumer, envelope.streamPosition, now));
        FoldOne(pool.db.tables, put);
        if !affected {
          outcome := outcome.(superseded := true);
        } else {
          assert tx.tables.tenants != tenants;
          outcome := outcome.(applied := true);
          outcome := outcome.(record := NO_RECORD.(tenantId := payload.tenantId,
                                                   tenantSecurityVersion := payload.securityVersion,
                                                   appliedMark := envelope.streamPosition, appliedAt := now));
        }
      }
      if fate.RollsBack? {
        return Failure(Unavailable);
      }
      pool.db := tx;
      if fate.AnswerLost? {
        return Failure(Unavailable);
      }
      return Success(outcome);
    }

    method AcknowledgeEvent(envelope: Envelope, now: int, fate: Fate) returns (r: Result<Outcome, Error>)
      requires Judge(consumer, envelope, now).Acknowledge? || (envelope.etype.Listed? && envelope.streamPosition <= 0)
      modifies pool
      ensures r == Seen(Answer(old(pool.db), consumer, envelope, now), fate)
      ensures pool.db == Ended(old(pool.db), Delivered(old(pool.db), consumer, envelope, now), fate)
    {
      if envelope.streamPosition <= 0 {
        return Failure(Malformed);
      }
      var tx := pool.db;
      tx := tx.(watermarks := Advance(tx.watermarks, consumer, envelope.streamPosition, now));
      if fate.RollsBack? {
        return Failure(Unavailable);
      }
      pool.db := tx;
      if fate.AnswerLost? {
        return Failure(Unavailable);
      }
      return Success(NO_OUTCOME.(acknowledged := true));
    }

    /** The first pass over a sweep: whether every finding can be applied. */
    static method FindingsComplete(findings: seq<Finding>) returns (complete: bool)
      ensures complete <==> forall f :: f in findings ==> FindingComplete(f)
    {
      for i := 0 to |findings|
        invariant forall f :: f in findings[..i] ==> FindingComplete(f)
      {
        var f := findings[i];
        if f.membershipId == NIL {
          assert !FindingComplete(findings[i]);
          return false;
        }
        if f.state.None? {
          if f.classification != "extra" {
            assert !FindingComplete(findings[i]);
            return false;
          }
        } else {
          var s := f.state.value;
          if s.membershipId != f.membershipId || s.tenantId == NIL || s.principalId == NIL || s.version <= 0 {
            assert !FindingComplete(findings[i]);
            return false;
          }
          if StatusNamed(s.status).None? {
            assert !FindingComplete(findings[i]);
            return false;
          }
        }
        assert FindingComplete(f);
        assert findings[..i + 1] == findings[..i] + [f];
      }
      assert findings[..|findings|] == findings;
      return true;
    }

    /** The second pass: each finding's statement, in order. */
    static method Repair(tables: Tables, findings: seq<Finding>, envelope: Envelope, now: int) returns (t: Tables)
      requires forall f :: f in findings ==> FindingComplete(f)
      ensures t == Fold(tables, SweepEffects(findings, envelope, now))
    {
      t := tables;
      ghost var effects := SweepEffects(findings, envelope, now);
      for i := 0 to |findings|
        invariant t == Fold(tables, effects[..i])
      {
        var f := findings[i];
        assert f in findings;
        var statement;
        if f.state.None? {
          statement := Remove(f.membershipId);
        } else {
          var s := f.state.value;
          statement := PutMember(s.membershipId,
                                 Row(Identity(s.tenantId, s.principalId, Workspace(s.workspaceId)),
                                     StatusNamed(s.status).value, s.version, envelope.streamPosition,
                                     s.tenantSecurityVersion, now, envelope.id));
        }
        assert effects[i] == statement;
        assert effects[..i + 1][..i] == effects[..i];
        t := Step(t, statement);
      }
      assert effects[..|findings|] == effects;
    }

    /** One sweep: every finding is checked before any is applied, and all are applied or none. */
    method ApplyRepair(envelope: Envelope, now: int, fate: Fate) returns (r: Result<Outcome, Error>)
      requires envelope.etype.RepairReconciled?
      modifies pool
      ensures r == Seen(Answer(old(pool.db), consumer, envelope, now), fate)
      ensures pool.db == Ended(old(pool.db), Delivered(old(pool.db), consumer, envelope, now), fate)
    {
      if envelope.streamPosition <= 0 {
        return Failure(Malformed);
      }
      if envelope.data.repair.None? {
        return Failure(Malformed);
      }
      var payload := envelope.data.repair.value;
      if payload.consumerId != consumer {
        r := AcknowledgeEvent(envelope, now, fate);
        return;
      }
      var findings := payload.findings;
      var complete := FindingsComplete(findings);
      if !complete {
        return Failure(Malformed);
      }
      assert Judge(consumer, envelope, now) == Project(SweepEffects(findings, envelope, now));

      var tx := pool.db;
      var outcome := NO_OUTCOME;
      if (envelope.id, consumer) in tx.inbox {
        outcome := outcome.(duplicate := true);
        assert tx == Delivered(pool.db, consumer, envelope, now);
      } else {
        tx := tx.(inbox := tx.inbox + {(envelope.id, consumer)});
        var repaired := Repair(tx.tables, findings, envelope, now);
        tx := tx.(tables := repaired);
        tx := tx.(watermarks := Advance(tx.watermarks, consumer, envelope.streamPosition, now));
        outcome := outcome.(applied := true);
        assert tx == Delivered(pool.db, consumer, envelope, now);
      }
      assert tx == Delivered(pool.db, consumer, envelope, now)
             && Success(outcome) == Answer(pool.db, consumer, envelope, now);
      if fate.RollsBack? {
        return Failure(Unavailable);
      }
      pool.db := tx;
      if fate.AnswerLost? {
        return Failure(Unavailable);
      }
      return Success(outcome);
    }

    /** One snapshot page. Its rows are checked as they are reached, and by the tables as well, so a
        row that is refused undoes the rows before it. */
    method Seed(rows: seq<SnapshotRow>, mark: int, final: bool, now: int, fate: Fate) returns (r: Result<(), Error>)
      modifies pool
      ensures r == Seen(SeedVerdict(rows, mark), fate)
      ensures pool.db == Ended(old(pool.db), Seeded(old(pool.db), consumer, rows, mark, final, now), fate)
    {
      if mark <= 0 {
        return Failure(Malformed);
      }
      var tx := pool.db;
      for i := 0 to |rows|
        invariant pool.db == old(pool.db)
        invariant FirstError(rows[..i]).None?
        invariant tx == old(pool.db).(tables := Fold(old(pool.db).tables, PageEffects(rows[..i], mark, now)))
      {
        var row := rows[i];
        if RowError(row).Some? {
          FirstErrorIs(rows, i);
        }
        if row.membershipId == NIL || row.tenantId == NIL || row.principalId == NIL {
          return Failure(Malformed);
        }
        var status := StatusNamed(row.status);
        if status.None? || row.version <= 0 {
          return Failure(CheckViolated);
        }
        var put := PutMember(row.membershipId,
                             Row(Identity(row.tenantId, row.principalId, Workspace(row.workspaceId)), status.value,
                                 row.version, mark, row.tenantSecurityVersion, now, row.membershipId));
        tx := tx.(tables := Step(tx.tables, put));
        if row.tenantStatus == "" || row.tenantSecurityVersion <= 0 || row.tenantVersion <= 0 {
          return Failure(Malformed);
        }
        var tenant := PutTenant(row.tenantId,
                                TenantRow(row.tenantStatus, Pair(row.tenantSecurityVersion, row.tenantVersion), mark,
                                    now, None));
        assert Checked(put) && Checked(tenant);
        SeedOne(old(pool.db).tables, rows, i, mark, now);
        tx := tx.(tables := Step(tx.tables, tenant));
      }
      assert rows[..|rows|] == rows;
      if final {
        tx := tx.(watermarks := RecordSnapshot(tx.watermarks, consumer, mark, now));
      }
      if fate.RollsBack? {
        return Failure(Unavailable);
      }
      pool.db := tx;
      if fate.AnswerLost? {
        return Failure(Unavailable);
      }
      return Success(());
    }

    /** The enforcement read. It fails as a whole when the database cannot be read. */
    method Lookup(tenant: Id, principal: Id, readable: bool) returns (r: Result<Record, Error>)
      ensures if readable then Answers(pool.db.tables, tenant, principal, r) else r == Failure(Unavailable)
    {
      if !readable {
        return Failure(Unavailable);
      }
      var t := pool.db.tables;
      if tenant in t.tenants && t.tenants[tenant].status != "active" {
        return Failure(TenantInactive);
      }
      var active := set m | m in t.members && ActiveFor(t, tenant, principal, m);
      if active != {} {
        NewestExists(t, active);
        var m :| m in active && forall other :: other in active ==>
            t.members[other].appliedMark <= t.members[m].appliedMark;
        assert ActiveFor(t, tenant, principal, m);
        if tenant !in t.tenants {
          return Failure(TenantNotProjected);
        }
        assert NewestActive(t, tenant, principal, m);
        return Success(RecordOf(m, t.members[m]));
      }
      assert forall m :: m in t.members ==> (ActiveFor(t, tenant, principal, m) <==> m in active);
      var seen := |set m | m in t.members && RowFor(t, tenant, principal, m)|;
      if seen > 0 {
        var m :| m in (set m | m in t.members && RowFor(t, tenant, principal, m));
        assert RowFor(t, tenant, principal, m);
        return Failure(Withdrawn);
      }
      assert forall m :: m in t.members && RowFor(t, tenant, principal, m) ==>
          m in (set m | m in t.members && RowFor(t, tenant, principal, m));
      return Failure(NotProjected);
    }

    /** No row and a row without a snapshot mark both say that no snapshot completed. */
    method Position() returns (position: Position)
      ensures position.snapshotMark.Some? <==> AgeOf(pool.db, consumer, 0).Success?
      ensures position == PositionOf(pool.db, consumer)
    {
      position := NO_POSITION;
      if consumer in pool.db.watermarks {
        var w := pool.db.watermarks[consumer];
        position := Queries.Position(w.snapshotMark, w.appliedMark, w.bootstrappedAt);
      }
    }

    method Age(now: int, readable: bool) returns (r: Result<int, Error>)
      ensures r == if readable then AgeOf(pool.db, consumer, now) else Failure(Unavailable)
    {
      if !readable {
        return Failure(Unavailable);
      }
      var bootstrapped, age := false, 0;
      if consumer in pool.db.watermarks {
        var w := pool.db.watermarks[consumer];
        bootstrapped, age := w.snapshotMark.Some?, now - w.updatedAt;
      }
      if !bootstrapped {
        return Failure(NotBootstrapped);
      }
      if age < 0 {
        age := 0;
      }
      return Success(age);
    }

    method LookupMembership(m: Id) returns (r: Result<Record, Error>)
      ensures r.Success? <==> m in pool.db.tables.members
      ensures r.Success? ==>
                var row := pool.db.tables.members[m];
                r.value == Record(m, row.identity.tenant, row.identity.principal, row.identity.workspace,
                    Some(row.status),
                                  row.version, row.tenantSecurityVersion, row.appliedMark, row.appliedAt)
      ensures r.Failure? ==> r.error == NotProjected
    {
      if m !in pool.db.tables.members {
        return Failure(NotProjected);
      }
      return Success(RecordOf(m, pool.db.tables.members[m]));
    }

    method Report() returns (r: Result<Report, Error>)
      ensures r == ReportOf(pool.db, consumer)
    {
      var db := pool.db;
      var lines := ReportLines(db, consumer);
      var bootstrapped, mark, rows := false, 0, [];
      ghost var ids := Ascending(ActiveIds(db.tables));
      assert ids == [] <==> ActiveIds(db.tables) == {} by {
        if m :| m in ActiveIds(db.tables) {
          assert m in ids;
        }
      }
      ghost var reported := ReportRows(db.tables, ids);
      for i := 0 to |lines|
        invariant i > 0 ==> bootstrapped && db.watermarks[consumer].snapshotMark.Some?
        invariant i == 0 ==> !bootstrapped
        invariant i > 0 ==> mark == Max(db.watermarks[consumer].snapshotMark.value, db.watermarks[consumer].appliedMark)
        invariant ids == [] ==> rows == []
        invariant ids != [] ==> i <= |ids| && rows == reported[..i]
      {
        assert lines[i].snapshotMark == db.watermarks[consumer].snapshotMark;
        var line := lines[i];
        if line.snapshotMark.None? {
          break;
        }
        bootstrapped := true;
        mark := Max(line.snapshotMark.value, line.appliedMark);
        if line.membership.Some? && line.version.Some? {
          rows := rows + [ReportedRow(line.membership.value, line.version.value)];
        }
      }
      if !bootstrapped {
        return Failure(NotBootstrapped);
      }
      assert reported[..|reported|] == reported;
      assert rows == reported;
      return Success(Queries.Report(consumer, mark, rows));
    }
  }

  /** One more row of a page is two more statements. */
  lemma {:induction false} SeedOne(t: Tables, rows: seq<SnapshotRow>, i: nat, mark: int, at: int)
    requires i < |rows| && FirstError(rows[..i]).None? && RowError(rows[i]).None?
    ensures FirstError(rows[..i + 1]).None?
    ensures Fold(t, PageEffects(rows[..i + 1], mark, at))
            == Step(Step(Fold(t, PageEffects(rows[..i], mark, at)),
                PutMember(rows[i].membershipId, SeedRow(rows[i], mark, at))),
                    PutTenant(rows[i].tenantId, SeedTenant(rows[i], mark, at)))
  {
    assert rows[..i + 1] == rows[..i] + [rows[i]];
    var done, all := PageEffects(rows[..i], mark, at), PageEffects(rows[..i + 1], mark, at);
    var put, tenant := PutMember(rows[i].membershipId, SeedRow(rows[i], mark, at)),
        PutTenant(rows[i].tenantId, SeedTenant(rows[i], mark, at));
    assert rows[..i + 1][..|rows[..i + 1]| - 1] == rows[..i];
    assert all == done + [put, tenant];
    FoldTwo(t, done, put, tenant);
  }

  lemma {:induction false} FoldTwo(t: Tables, es: seq<Effect>, a: Effect, b: Effect)
    ensures Fold(t, es + [a, b]) == Step(Step(Fold(t, es), a), b)
  {
    assert (es + [a, b])[..|es| + 1] == es + [a];
    assert (es + [a])[..|es|] == es;
  }

  lemma {:induction false} NewestExists(t: Tables, ids: set<Id>)
    requires ids != {} && ids <= t.members.Keys
    ensures exists m :: m in ids && forall other :: other in ids ==>
            t.members[other].appliedMark <= t.members[m].appliedMark
    decreases ids
  {
    var x :| x in ids;
    if ids != {x} {
      NewestExists(t, ids - {x});
      var m :| m in ids - {x} && forall other :: other in ids - {x} ==>
          t.members[other].appliedMark <= t.members[m].appliedMark;
      assert forall y :: y in ids ==> y == x || y in ids - {x};
      var newest := if t.members[x].appliedMark <= t.members[m].appliedMark then m else x;
      assert newest in ids && forall other :: other in ids ==>
             t.members[other].appliedMark <= t.members[newest].appliedMark;
    }
  }
}

/** What one delivery, one sweep and one page are accepted for, and what they write: told in the columns of the
    event and of the page themselves, apart from the functions the projector is specified by. */
module Deliveries {
  import opened Wrappers
  import opened Model
  import opened Effects
  import opened Transactions

  /** A finding that can be applied. */
  predicate Applicable(f: Finding) {
    && f.membershipId != NIL
    && match f.state
       case None => f.classification == "extra"
       case Some(s) =>
         && s.membershipId == f.membershipId && s.tenantId != NIL && s.principalId != NIL && s.version > 0
         && s.status in {"active", "suspended", "revoked"}
  }

  /** An event this consumer takes, whatever it then makes of it. */
  predicate Deliverable(c: string, e: Envelope) {
    && e.streamPosition > 0
    && match e.etype
       case MembershipGranted | MembershipRestored | MembershipSuspended | MembershipRevoked =>
         && e.data.membership.Some?
         && var p := e.data.membership.value;
         && p.membershipId != NIL && p.tenantId != NIL && p.principalId != NIL && p.version > 0
       case TenantActivated | TenantSuspended | TenantRestored | TenantRetired =>
         && e.data.tenant.Some?
         && var p := e.data.tenant.value;
         && p.tenantId != NIL && p.status != "" && p.securityVersion > 0 && p.version > 0
       case RepairReconciled =>
         && e.data.repair.Some?
         && var p := e.data.repair.value;
         && (p.consumerId == c ==> forall f :: f in p.findings ==> Applicable(f))
       case Listed(_) => true
       case Unlisted(_) => false
  }

  /** An event this consumer receives and does not act on: a listed type, or a sweep for another consumer. */
  predicate NotForThis(c: string, e: Envelope) {
    e.etype.Listed? || (e.etype.RepairReconciled? && e.data.repair.Some? && e.data.repair.value.consumerId != c)
  }

  /** Which events are accepted, exactly, and by which of the flags: an unlisted type is unknown, anything else that
      is not deliverable is malformed, what is not for this consumer is acknowledged, and of the rest a duplicate is
      one this consumer has registered. */
  lemma {:induction false} AcceptedExactlyWhen(db: Database, c: string, e: Envelope, at: int)
    ensures var r := Answer(db, c, e, at);
            && (r.Success? <==> Deliverable(c, e))
            && (r == Failure(UnknownType) <==> e.etype.Unlisted?)
            && (r == Failure(Malformed) <==> !e.etype.Unlisted? && !Deliverable(c, e))
            && (r.Success? ==>
                  && (r.value.acknowledged <==> NotForThis(c, e))
                  && (r.value.duplicate <==> !NotForThis(c, e) && (e.id, c) in db.inbox))
  {
    if e.etype.RepairReconciled? && e.data.repair.Some? {
      forall f: Finding
        ensures FindingComplete(f) <==> Applicable(f)
      {
      }
    }
  }

  /** This consumer's watermark heard a position at an instant, and nobody else's moved. */
  predicate Heard(before: map<string, Watermark>, after: map<string, Watermark>, c: string, position: int, at: int) {
    && after.Keys == before.Keys + {c}
    && (forall x :: x in before && x != c ==> after[x] == before[x])
    && after[c].updatedAt == at
    && if c !in before then after[c].snapshotMark.None? && after[c].bootstrappedAt.None?
        && after[c].appliedMark == position
       else
         && after[c].snapshotMark == before[c].snapshotMark && after[c].bootstrappedAt == before[c].bootstrappedAt
         && after[c].appliedMark == if before[c].appliedMark < position then position else before[c].appliedMark
  }

  /** What is refused, and what is registered and heard again, changes nothing at all. */
  lemma {:induction false} RefusedOrRepeatedWritesNothing(db: Database, c: string, e: Envelope, at: int)
    requires !Deliverable(c, e) || (!NotForThis(c, e) && (e.id, c) in db.inbox)
    ensures Delivered(db, c, e, at) == db
  {
    AcceptedExactlyWhen(db, c, e, at);
  }

  /** What is not for this consumer moves its watermark alone. */
  lemma {:induction false} AcknowledgingWrites(db: Database, c: string, e: Envelope, at: int)
    requires Deliverable(c, e) && NotForThis(c, e)
    ensures var after := Delivered(db, c, e, at);
            && after.tables == db.tables && after.inbox == db.inbox
            && Heard(db.watermarks, after.watermarks, c, e.streamPosition, at)
  {
  }

  /** The row a proposal leaves of a membership: the proposal where there was none, all of it but the identity where
      its version is higher, and what stood otherwise. */
  function Upserted(before: Option<Row>, own: Row): Option<Row> {
    match before
    case None => Some(own)
    case Some(row) =>
      if row.version < own.version then
        Some(Row(row.identity, own.status, own.version, own.appliedMark, own.tenantSecurityVersion, own.appliedAt,
                 own.eventId))
      else Some(row)
  }

  /** Nothing but one membership's row differs. */
  ghost predicate OnlyMember(before: Tables, after: Tables, m: Id) {
    && after.tenants == before.tenants
    && forall x :: x != m ==> RowAt(after, x) == RowAt(before, x)
  }

  /** A membership event, heard for the first time: its row by its own columns, its state by its type, its record in
      the inbox, its position at the watermark, and nothing else. */
  lemma {:induction false} AMembershipEventWrites(db: Database, c: string, e: Envelope, at: int, status: Status)
    requires Deliverable(c, e) && (e.id, c) !in db.inbox
    requires match e.etype
             case MembershipGranted | MembershipRestored => status == Active
             case MembershipSuspended => status == Suspended
             case MembershipRevoked => status == Revoked
             case _ => false
    ensures var p, after := e.data.membership.value, Delivered(db, c, e, at);
            var workspace := if p.workspaceId == Some(NIL) then None else p.workspaceId;
            var own := Row(Identity(p.tenantId, p.principalId, workspace), status, p.version, e.streamPosition,
                           p.tenantSecurityVersion, at, e.id);
            && RowAt(after.tables, p.membershipId) == Upserted(RowAt(db.tables, p.membershipId), own)
            && OnlyMember(db.tables, after.tables, p.membershipId)
            && after.inbox == db.inbox + {(e.id, c)}
            && Heard(db.watermarks, after.watermarks, c, e.streamPosition, at)
  {
    var put := Judge(c, e, at).effects[0];
    assert Judge(c, e, at).effects == [put];
    FoldOne(db.tables, put);
  }

  /** A tenant event, heard for the first time: the whole of its row where none stood or an older pair did. */
  lemma {:induction false} ATenantEventWrites(db: Database, c: string, e: Envelope, at: int)
    requires Deliverable(c, e) && (e.id, c) !in db.inbox
    requires e.etype.TenantActivated? || e.etype.TenantSuspended? || e.etype.TenantRestored? || e.etype.TenantRetired?
    ensures var p, after := e.data.tenant.value, Delivered(db, c, e, at);
            var own := TenantRow(p.status, Pair(p.securityVersion, p.version), e.streamPosition, at, Some(e.id));
            && after.tables.members == db.tables.members
            && after.tables.tenants == PutTenantOver(db.tables.tenants, p.tenantId, own)
            && after.inbox == db.inbox + {(e.id, c)}
            && Heard(db.watermarks, after.watermarks, c, e.streamPosition, at)
  {
    var put := Judge(c, e, at).effects[0];
    assert Judge(c, e, at).effects == [put];
    FoldOne(db.tables, put);
  }

  /** A tenant's state over what stood: the higher security version, and at the same one the higher version. */
  function PutTenantOver(before: map<Id, TenantRow>, k: Id, own: TenantRow): map<Id, TenantRow> {
    if k in before
       && (own.pair.security < before[k].pair.security
           || (own.pair.security == before[k].pair.security && own.pair.version <= before[k].pair.version)) then before
    else before[k := own]
  }

  /** The three statuses by their names. */
  predicate IsNamed(status: Status, name: string) {
    match status
    case Active => name == "active"
    case Suspended => name == "suspended"
    case Revoked => name == "revoked"
  }

  /** One finding of a sweep: an extra without a state removes its row; a state is upserted by its own columns. */
  lemma {:induction false} OneFindingWrites(t: Tables, f: Finding, e: Envelope, at: int, status: Status)
    requires Applicable(f) && (f.state.Some? ==> IsNamed(status, f.state.value.status))
    ensures FindingComplete(f)
    ensures var after := Fold(t, SweepEffects([f], e, at));
            && OnlyMember(t, after, f.membershipId)
            && match f.state
               case None => RowAt(after, f.membershipId) == None
               case Some(s) =>
                 var workspace := if s.workspaceId == Some(NIL) then None else s.workspaceId;
                 var own := Row(Identity(s.tenantId, s.principalId, workspace), status, s.version, e.streamPosition,
                                s.tenantSecurityVersion, at, e.id);
                 RowAt(after, f.membershipId) == Upserted(RowAt(t, f.membershipId), own)
  {
    var es := SweepEffects([f], e, at);
    assert es == [FindingEffect(f, e, at)];
    FoldOne(t, es[0]);
  }

  lemma {:induction false} ASweepIsJudged(c: string, e: Envelope, at: int)
    requires Deliverable(c, e) && e.etype.RepairReconciled? && !NotForThis(c, e)
    ensures forall f :: f in e.data.repair.value.findings ==> FindingComplete(f)
    ensures Judge(c, e, at) == Project(SweepEffects(e.data.repair.value.findings, e, at))
  {
    forall f | f in e.data.repair.value.findings
      ensures FindingComplete(f)
    {
      assert Applicable(f);
    }
  }

  /** A sweep for this consumer, heard for the first time: its findings one after another, in order. */
  lemma {:induction false} ASweepWrites(db: Database, c: string, e: Envelope, at: int)
    requires Deliverable(c, e) && e.etype.RepairReconciled? && !NotForThis(c, e) && (e.id, c) !in db.inbox
    ensures forall f :: f in e.data.repair.value.findings ==> FindingComplete(f)
    ensures var after := Delivered(db, c, e, at);
            && after.tables == OneByOne(db.tables, e.data.repair.value.findings, e, at)
            && after.inbox == db.inbox + {(e.id, c)}
            && Heard(db.watermarks, after.watermarks, c, e.streamPosition, at)
            && Answer(db, c, e, at).value.applied
  {
    ASweepIsJudged(c, e, at);
    FindingByFinding(db.tables, e.data.repair.value.findings, e, at);
  }

  /** Sweeps of one finding each, in order. */
  function OneByOne(t: Tables, fs: seq<Finding>, e: Envelope, at: int): Tables
    requires forall f :: f in fs ==> FindingComplete(f)
  {
    if fs == [] then t
    else Fold(OneByOne(t, fs[..|fs| - 1], e, at), SweepEffects([fs[|fs| - 1]], e, at))
  }

  lemma {:induction false} FindingByFinding(t: Tables, fs: seq<Finding>, e: Envelope, at: int)
    requires forall f :: f in fs ==> FindingComplete(f)
    ensures Fold(t, SweepEffects(fs, e, at)) == OneByOne(t, fs, e, at)
  {
    if fs != [] {
      var init, last := fs[..|fs| - 1], [fs[|fs| - 1]];
      FindingByFinding(t, init, e, at);
      assert SweepEffects(fs, e, at) == SweepEffects(init, e, at) + SweepEffects(last, e, at);
      FoldConcat(t, SweepEffects(init, e, at), SweepEffects(last, e, at));
    }
  }

  // Snapshot pages.

  /** A snapshot row that can be seeded, and what is wrong with one that cannot, in the order it is found. */
  predicate Seedable(r: SnapshotRow) {
    && r.membershipId != NIL && r.tenantId != NIL && r.principalId != NIL
    && r.status in {"active", "suspended", "revoked"} && r.version > 0
    && r.tenantStatus != "" && r.tenantSecurityVersion > 0 && r.tenantVersion > 0
  }

  /** What a snapshot row says about its membership, in its own columns. */
  function MemberSaid(r: SnapshotRow): Claim {
    MemberClaim(r.membershipId,
                Identity(r.tenantId, r.principalId, if r.workspaceId == Some(NIL) then None else r.workspaceId),
                if r.status == "active" then Active else if r.status == "suspended" then Suspended else Revoked,
                r.version)
  }

  function TenantSaid(r: SnapshotRow): Claim {
    TenantClaim(r.tenantId, r.tenantStatus, Pair(r.tenantSecurityVersion, r.tenantVersion))
  }

  predicate BreaksTheTable(r: SnapshotRow) {
    && r.membershipId != NIL && r.tenantId != NIL && r.principalId != NIL
    && (r.status !in {"active", "suspended", "revoked"} || r.version <= 0)
  }

  /** The i-th row is the first that is wrong. */
  predicate FirstWrong(rows: seq<SnapshotRow>, i: int) {
    0 <= i < |rows| && !Seedable(rows[i]) && forall j :: 0 <= j < i ==> Seedable(rows[j])
  }

  /** Which pages are accepted, exactly; and the error of one that is not is that of its first row that is wrong:
      the table's own for a status or a version it refuses, and malformed otherwise. */
  lemma {:induction false} APageIsAcceptedExactlyWhen(rows: seq<SnapshotRow>, mark: int)
    ensures SeedVerdict(rows, mark).Success? <==> mark > 0 && forall r :: r in rows ==> Seedable(r)
    ensures mark <= 0 ==> SeedVerdict(rows, mark) == Failure(Malformed)
    ensures forall i :: mark > 0 && FirstWrong(rows, i) ==>
              SeedVerdict(rows, mark) == Failure(if BreaksTheTable(rows[i]) then CheckViolated else Malformed)
  {
    forall r: SnapshotRow
      ensures RowError(r).None? <==> Seedable(r)
      ensures !Seedable(r) ==> RowError(r) == Some(if BreaksTheTable(r) then CheckViolated else Malformed)
    {
    }
    forall i | mark > 0 && FirstWrong(rows, i)
      ensures SeedVerdict(rows, mark) == Failure(if BreaksTheTable(rows[i]) then CheckViolated else Malformed)
    {
      assert forall r :: r in rows[..i] ==> Seedable(r);
      FirstErrorIs(rows, i);
    }
  }

  /** A page of one row: the membership by its own columns at the mark, its tenant's state beside it, and no other. */
  lemma {:induction false} APageOfOneWrites(db: Database, c: string, r: SnapshotRow, mark: int, final: bool, at: int,
    status: Status)
    requires mark > 0 && Seedable(r) && IsNamed(status, r.status)
    ensures var after := Seeded(db, c, [r], mark, final, at);
            var workspace := if r.workspaceId == Some(NIL) then None else r.workspaceId;
            var own := Row(Identity(r.tenantId, r.principalId, workspace), status, r.version, mark,
                r.tenantSecurityVersion,
                           at, r.membershipId);
            var tenant := TenantRow(r.tenantStatus, Pair(r.tenantSecurityVersion, r.tenantVersion), mark, at, None);
            && RowAt(after.tables, r.membershipId) == Upserted(RowAt(db.tables, r.membershipId), own)
            && (forall x :: x != r.membershipId ==> RowAt(after.tables, x) == RowAt(db.tables, x))
            && after.tables.tenants == PutTenantOver(db.tables.tenants, r.tenantId, tenant)
            && after.inbox == db.inbox
  {
    var es := PageEffects([r], mark, at);
    assert es[..1] == [es[0]];
    FoldOne(db.tables, es[0]);
  }

  /** A page of several rows is the pages of one row each, in order; only the last may be final. */
  lemma {:induction false} APageIsItsRows(db: Database, c: string, rows: seq<SnapshotRow>, r: SnapshotRow, mark: int,
    final: bool, at: int)
    requires mark > 0 && Seedable(r) && forall x :: x in rows ==> Seedable(x)
    ensures Seeded(db, c, rows + [r], mark, final, at)
            == Seeded(Seeded(db, c, rows, mark, false, at), c, [r], mark, final, at)
  {
    APageIsAcceptedExactlyWhen(rows, mark);
    APageIsAcceptedExactlyWhen([r], mark);
    APageIsAcceptedExactlyWhen(rows + [r], mark);
    assert PageEffects(rows + [r], mark, at) == PageEffects(rows, mark, at) + PageEffects([r], mark, at);
    FoldConcat(db.tables, PageEffects(rows, mark, at), PageEffects([r], mark, at));
  }

  /** The mark is recorded with the last page, and with no other; every page leaves the inbox and everybody else's
      watermark alone. */
  lemma {:induction false} APageRecordsTheMark(db: Database, c: string, rows: seq<SnapshotRow>, mark: int,
    final: bool, at: int)
    requires mark > 0 && forall x :: x in rows ==> Seedable(x)
    ensures var after := Seeded(db, c, rows, mark, final, at);
            && after.inbox == db.inbox
            && (!final ==> after.watermarks == db.watermarks)
            && (final ==>
                  && after.watermarks.Keys == db.watermarks.Keys + {c}
                  && (forall x :: x in db.watermarks && x != c ==> after.watermarks[x] == db.watermarks[x])
                  && after.watermarks[c]
                     == Watermark(Some(mark), if c in db.watermarks then db.watermarks[c].appliedMark
                         else 0, Some(at), at))
  {
    APageIsAcceptedExactlyWhen(rows, mark);
  }

  /** A membership one row of a page names, and no other of it: what the page leaves of it, by that row's columns. */
  lemma {:induction false} APageSeedsEachMembership(db: Database, c: string, rows: seq<SnapshotRow>, i: nat,
    mark: int, final: bool, at: int, status: Status)
    requires mark > 0 && (forall x :: x in rows ==> Seedable(x)) && i < |rows| && IsNamed(status, rows[i].status)
    requires forall j :: 0 <= j < |rows| && j != i ==> rows[j].membershipId != rows[i].membershipId
    ensures var r, after := rows[i], Seeded(db, c, rows, mark, final, at);
            var workspace := if r.workspaceId == Some(NIL) then None else r.workspaceId;
            var own := Row(Identity(r.tenantId, r.principalId, workspace), status, r.version, mark,
                r.tenantSecurityVersion,
                           at, r.membershipId);
            RowAt(after.tables, r.membershipId) == Upserted(RowAt(db.tables, r.membershipId), own)
  {
    APageIsAcceptedExactlyWhen(rows, mark);
    var es, m := PageEffects(rows, mark, at), rows[i].membershipId;
    forall j | 0 <= j < |es|
      ensures About(es[j], m) <==> j == 2 * i
    {
      assert rows[j / 2] in rows && es[j] == PageEffect(rows, j, mark, at);
    }
    assert rows[i] in rows;
    FoldAt(db.tables, es, 2 * i, m);
  }
}

/** What one committed transaction does to the database: the specification the projector's methods are
    proved against, stated as the effects an input stands for rather than as the branches taken. */
module Transactions {
  import opened Wrappers
  import opened Model
  import opened Effects

  /** What this consumer makes of one envelope, before it looks at any table. */
  datatype Verdict =
    | Refuse(error: Error)
    | Acknowledge
    | Project(effects: seq<Effect>)

  predicate MembershipComplete(p: Payload) {
    p.membershipId != NIL && p.tenantId != NIL && p.principalId != NIL && p.version > 0
  }

  function MembershipRow(p: Payload, status: Status, e: Envelope, at: int): Row {
    Row(Identity(p.tenantId, p.principalId, Workspace(p.workspaceId)), status, p.version,
        e.streamPosition, p.tenantSecurityVersion, at, e.id)
  }

  predicate TenantComplete(p: TenantPayload) {
    p.tenantId != NIL && p.status != "" && p.securityVersion > 0 && p.version > 0
  }

  /** A finding without a state removes, and only an extra may say so. */
  predicate FindingComplete(f: Finding) {
    && f.membershipId != NIL
    && match f.state
       case None => f.classification == "extra"
       case Some(s) =>
         s.membershipId == f.membershipId && MembershipComplete(s) && StatusNamed(s.status).Some?
  }

  function FindingEffect(f: Finding, e: Envelope, at: int): Effect
    requires FindingComplete(f)
  {
    match f.state
    case None => Remove(f.membershipId)
    case Some(s) => PutMember(s.membershipId, MembershipRow(s, StatusNamed(s.status).value, e, at))
  }

  function SweepEffects(fs: seq<Finding>, e: Envelope, at: int): (es: seq<Effect>)
    requires forall f :: f in fs ==> FindingComplete(f)
    ensures |es| == |fs| && forall i :: 0 <= i < |fs| ==> es[i] == FindingEffect(fs[i], e, at)
  {
    if fs == [] then []
    else SweepEffects(fs[..|fs| - 1], e, at) + [FindingEffect(fs[|fs| - 1], e, at)]
  }

  function JudgeSweep(consumer: string, e: Envelope, at: int): Verdict {
    match e.data.repair
    case None => Refuse(Malformed)
    case Some(p) =>
      if p.consumerId != consumer then Acknowledge
      else if forall f :: f in p.findings ==> FindingComplete(f) then Project(SweepEffects(p.findings, e, at))
      else Refuse(Malformed)
  }

  function Judge(consumer: string, e: Envelope, at: int): Verdict {
    if e.etype.Unlisted? then Refuse(UnknownType)
    else if e.streamPosition <= 0 then Refuse(Malformed)
    else if e.etype.Listed? then Acknowledge
    else if e.etype.RepairReconciled? then JudgeSweep(consumer, e, at)
    else if e.etype.IsTenant() then
      match e.data.tenant
      case Some(p) =>
        if TenantComplete(p) then
          Project([PutTenant(p.tenantId, TenantRow(p.status, Pair(p.securityVersion, p.version),
                                                   e.streamPosition, at, Some(e.id)))])
        else Refuse(Malformed)
      case None => Refuse(Malformed)
    else
      match e.data.membership
      case Some(p) =>
        if MembershipComplete(p) then
          Project([PutMember(p.membershipId, MembershipRow(p, e.etype.Produces(), e, at))])
        else Refuse(Malformed)
      case None => Refuse(Malformed)
  }

  /** An event that is applied never proposes a row the schema refuses, and says the same whenever it
      is delivered and whatever consumer hears it. */
  lemma {:induction false} JudgedEffects(consumer: string, e: Envelope, at: int)
    requires Judge(consumer, e, at).Project?
    ensures e.streamPosition > 0 && !e.etype.Listed? && !e.etype.Unlisted?
    ensures forall x :: x in Judge(consumer, e, at).effects ==> Checked(x)
    ensures !e.etype.RepairReconciled? ==>
              |Judge(consumer, e, at).effects| == 1 && !Judge(consumer, e, at).effects[0].Remove?
  {
    if e.etype.RepairReconciled? {
      var es := Judge(consumer, e, at).effects;
      forall x | x in es
        ensures Checked(x)
      {
        var i :| 0 <= i < |es| && es[i] == x;
        assert x == FindingEffect(e.data.repair.value.findings[i], e, at);
      }
    }
  }

  lemma {:induction false} SweepClaimsAreTimeless(fs: seq<Finding>, e: Envelope, at: int, at': int)
    requires forall f :: f in fs ==> FindingComplete(f)
    ensures ClaimsOf(SweepEffects(fs, e, at)) == ClaimsOf(SweepEffects(fs, e, at'))
  {
    var a, b := SweepEffects(fs, e, at), SweepEffects(fs, e, at');
    assert forall i :: 0 <= i < |fs| ==> a[i].Claims() == b[i].Claims();
    forall x | x in a ensures x.Claims() in ClaimsOf(b) {
      var i :| 0 <= i < |a| && a[i] == x;
      assert b[i] in b;
    }
    forall x | x in b ensures x.Claims() in ClaimsOf(a) {
      var i :| 0 <= i < |b| && b[i] == x;
      assert a[i] in a;
    }
  }

  function EnvelopeClaims(consumer: string, e: Envelope): set<Claim> {
    match Judge(consumer, e, 0)
    case Project(es) => ClaimsOf(es)
    case _ => {}
  }

  /** What an event says does not depend on when it is heard. */
  lemma {:induction false} ClaimsAreTimeless(consumer: string, e: Envelope, at: int)
    ensures Judge(consumer, e, at).Project? <==> Judge(consumer, e, 0).Project?
    ensures Judge(consumer, e, at).Acknowledge? <==> Judge(consumer, e, 0).Acknowledge?
    ensures Judge(consumer, e, at).Refuse? ==> Judge(consumer, e, at) == Judge(consumer, e, 0)
    ensures Judge(consumer, e, at).Project? ==> ClaimsOf(Judge(consumer, e, at).effects) == EnvelopeClaims(consumer, e)
  {
    if e.etype.RepairReconciled? && Judge(consumer, e, at).Project? {
      SweepClaimsAreTimeless(e.data.repair.value.findings, e, at, 0);
    } else if Judge(consumer, e, at).Project? {
      var a, b := Judge(consumer, e, at).effects, Judge(consumer, e, 0).effects;
      assert a == [a[0]] && b == [b[0]] && a[0].Claims() == b[0].Claims();
      assert ClaimsOf(a) == {a[0].Claims()} && ClaimsOf(b) == {b[0].Claims()};
    }
  }

  function Advance(ws: map<string, Watermark>, consumer: string, position: int, at: int): map<string, Watermark> {
    if consumer in ws then
      ws[consumer := ws[consumer].(appliedMark := Max(ws[consumer].appliedMark, position), updatedAt := at)]
    else
      ws[consumer := Watermark(None, position, None, at)]
  }

  function RecordSnapshot(ws: map<string, Watermark>, consumer: string, mark: int, at: int): map<string, Watermark> {
    if consumer in ws then
      ws[consumer := ws[consumer].(snapshotMark := Some(mark), bootstrappedAt := Some(at), updatedAt := at)]
    else
      ws[consumer := Watermark(Some(mark), 0, Some(at), at)]
  }

  /** The effects, the inbox record and the watermark of one event, with no guard. */
  function Effected(db: Database, consumer: string, e: Envelope, at: int): Database {
    match Judge(consumer, e, at)
    case Refuse(_) => db
    case Acknowledge => db.(watermarks := Advance(db.watermarks, consumer, e.streamPosition, at))
    case Project(es) =>
      Database(Fold(db.tables, es), Advance(db.watermarks, consumer, e.streamPosition, at),
          db.inbox + {(e.id, consumer)})
  }

  /** The guard: an event already registered for this consumer changes nothing at all. */
  predicate Guards(db: Database, consumer: string, e: Envelope, at: int) {
    Judge(consumer, e, at).Project? && (e.id, consumer) in db.inbox
  }

  function Delivered(db: Database, consumer: string, e: Envelope, at: int): Database {
    if Guards(db, consumer, e, at) then db else Effected(db, consumer, e, at)
  }

  function AppliedRecord(e: Envelope, at: int): Record {
    if e.etype.IsMembership() && e.data.membership.Some? then
      var p := e.data.membership.value;
      Record(p.membershipId, p.tenantId, p.principalId, None, Some(e.etype.Produces()), p.version,
             p.tenantSecurityVersion, e.streamPosition, at)
    else if e.etype.IsTenant() && e.data.tenant.Some? then
      var p := e.data.tenant.value;
      NO_RECORD.(tenantId := p.tenantId, tenantSecurityVersion := p.securityVersion,
                 appliedMark := e.streamPosition, appliedAt := at)
    else NO_RECORD
  }

  /** What the caller is told. A sweep is applied whatever its findings changed; any other event is
      superseded exactly when it changes neither table. */
  function Answer(db: Database, consumer: string, e: Envelope, at: int): Result<Outcome, Error> {
    match Judge(consumer, e, at)
    case Refuse(error) => Failure(error)
    case Acknowledge => Success(NO_OUTCOME.(acknowledged := true))
    case Project(es) =>
      if (e.id, consumer) in db.inbox then Success(NO_OUTCOME.(duplicate := true))
      else if !e.etype.RepairReconciled? && Fold(db.tables, es) == db.tables
          then Success(NO_OUTCOME.(superseded := true))
      else Success(NO_OUTCOME.(applied := true, record := AppliedRecord(e, at)))
  }

  // One snapshot page.

  /** What refuses a snapshot row, if anything: an absent identifier, then the table's own checks, then
      an absent tenant state. */
  function RowError(r: SnapshotRow): Option<Error> {
    if r.membershipId == NIL || r.tenantId == NIL || r.principalId == NIL then Some(Malformed)
    else if StatusNamed(r.status).None? || r.version <= 0 then Some(CheckViolated)
    else if r.tenantStatus == "" || r.tenantSecurityVersion <= 0 || r.tenantVersion <= 0 then Some(Malformed)
    else None
  }

  /** The error of the first row that has one. */
  function FirstError(rows: seq<SnapshotRow>): (error: Option<Error>)
    ensures error.None? <==> forall r :: r in rows ==> RowError(r).None?
  {
    if rows == [] then None
    else
      var n := |rows| - 1;
      var earlier := FirstError(rows[..n]);
      assert rows == rows[..n] + [rows[n]];
      if earlier.Some? then earlier else RowError(rows[n])
  }

  /** The first row that is refused decides the page's error. */
  lemma {:induction false} FirstErrorIs(rows: seq<SnapshotRow>, i: nat)
    requires i < |rows| && FirstError(rows[..i]).None? && RowError(rows[i]).Some?
    ensures FirstError(rows) == RowError(rows[i])
    decreases |rows|
  {
    if i < |rows| - 1 {
      assert rows[..|rows| - 1][..i] == rows[..i];
      FirstErrorIs(rows[..|rows| - 1], i);
    }
  }

  function SeedRow(r: SnapshotRow, mark: int, at: int): Row
    requires RowError(r).None?
  {
    Row(Identity(r.tenantId, r.principalId, Workspace(r.workspaceId)), StatusNamed(r.status).value, r.version,
        mark, r.tenantSecurityVersion, at, r.membershipId)
  }

  function SeedTenant(r: SnapshotRow, mark: int, at: int): TenantRow {
    TenantRow(r.tenantStatus, Pair(r.tenantSecurityVersion, r.tenantVersion), mark, at, None)
  }

  /** The j-th statement of a page: every row seeds its membership and then its tenant. */
  function PageEffect(rows: seq<SnapshotRow>, j: nat, mark: int, at: int): Effect
    requires j < 2 * |rows| && RowError(rows[j / 2]).None?
  {
    var r := rows[j / 2];
    if j % 2 == 0 then PutMember(r.membershipId, SeedRow(r, mark, at))
    else PutTenant(r.tenantId, SeedTenant(r, mark, at))
  }

  function PageEffects(rows: seq<SnapshotRow>, mark: int, at: int): (es: seq<Effect>)
    requires forall r :: r in rows ==> RowError(r).None?
    ensures |es| == 2 * |rows|
    ensures forall j :: 0 <= j < |es| ==> es[j] == PageEffect(rows, j, mark, at)
  {
    if rows == [] then []
    else
      var n := |rows| - 1;
      assert rows == rows[..n] + [rows[n]];
      PageEffects(rows[..n], mark, at) + [PageEffect(rows, 2 * n, mark, at), PageEffect(rows, 2 * n + 1, mark, at)]
  }

  function SeedVerdict(rows: seq<SnapshotRow>, mark: int): Result<(), Error> {
    if mark <= 0 then Failure(Malformed)
    else match FirstError(rows) case Some(error) => Failure(error) case None => Success(())
  }

  /** A page that is refused changes nothing; one that is not is seeded at the mark, and the mark is
      recorded with the last page alone. */
  function Seeded(db: Database, consumer: string, rows: seq<SnapshotRow>, mark: int, final: bool, at: int): Database {
    if SeedVerdict(rows, mark).Failure? then db
    else
      Database(Fold(db.tables, PageEffects(rows, mark, at)),
               if final then RecordSnapshot(db.watermarks, consumer, mark, at) else db.watermarks,
               db.inbox)
  }

  function PageClaims(rows: seq<SnapshotRow>, mark: int): set<Claim> {
    if SeedVerdict(rows, mark).Failure? then {} else ClaimsOf(PageEffects(rows, mark, 0))
  }

  lemma {:induction false} PageClaimsAreTimeless(rows: seq<SnapshotRow>, mark: int, at: int)
    requires SeedVerdict(rows, mark).Success?
    ensures ClaimsOf(PageEffects(rows, mark, at)) == PageClaims(rows, mark)
  {
    SamePageClaims(rows, mark, at, 0);
    SamePageClaims(rows, mark, 0, at);
  }

  lemma {:induction false} SamePageClaims(rows: seq<SnapshotRow>, mark: int, at: int, at': int)
    requires SeedVerdict(rows, mark).Success?
    ensures ClaimsOf(PageEffects(rows, mark, at)) <= ClaimsOf(PageEffects(rows, mark, at'))
  {
    var a, b := PageEffects(rows, mark, at), PageEffects(rows, mark, at');
    forall e | e in a
      ensures e.Claims() in ClaimsOf(b)
    {
      var j :| 0 <= j < |a| && a[j] == e;
      assert b[j] in b && b[j].Claims() == e.Claims();
    }
  }
}

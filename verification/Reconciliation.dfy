/** Self-reconciliation: the report, the authority's comparison of it with what it grants, and the sweep
    that repairs the difference. */
module Reconciliation {
  import opened Wrappers
  import opened Model
  import opened Effects
  import opened Transactions
  import opened Queries
  import opened Runs
  import opened Marks
  import opened Integrity

  /** What the authority holds about one membership, in whatever state. */
  datatype MemberState = MemberState(identity: Identity, status: Status, version: int, tenantSecurityVersion: int)

  function NameOf(s: Status): (name: string)
    ensures StatusNamed(name) == Some(s)
  {
    match s
    case Active => "active"
    case Suspended => "suspended"
    case Revoked => "revoked"
  }

  // The environment, named: the authority's side of a run.

  ghost predicate WellFormed(auth: map<Id, MemberState>) {
    forall m :: m in auth ==>
      m != NIL && auth[m].identity.tenant != NIL && auth[m].identity.principal != NIL && auth[m].version > 0
  }

  predicate IsGranted(auth: map<Id, MemberState>, m: Id) {
    m in auth && auth[m].status == Active
  }

  /** The report and the authority disagree about one membership. */
  predicate DiffersIn(rows: seq<ReportedRow>, auth: map<Id, MemberState>, m: Id) {
    if IsGranted(auth, m) then ReportedRow(m, auth[m].version) !in rows
    else exists r :: r in rows && r.membershipId == m
  }

  function Differing(rows: seq<ReportedRow>, auth: map<Id, MemberState>): (ms: set<Id>)
    ensures forall m :: m in ms <==> DiffersIn(rows, auth, m)
  {
    var named := auth.Keys + set r | r in rows :: r.membershipId;
    set m | m in named && DiffersIn(rows, auth, m)
  }

  /** One difference, classified, with the state that repairs it: none for what was never granted. */
  function FindingFor(rows: seq<ReportedRow>, auth: map<Id, MemberState>, m: Id): Finding {
    var classification :=
      if !IsGranted(auth, m) then "extra"
      else if exists r :: r in rows && r.membershipId == m then "mismatch"
      else "missing";
    if m !in auth then Finding(classification, m, None)
    else
      var s := auth[m];
      var own := s.identity;
      Finding(classification, m, Some(Payload(m, own.tenant, own.principal, s.version, own.workspace, NameOf(s.status),
                                              s.tenantSecurityVersion)))
  }

  function FindingsFor(rows: seq<ReportedRow>, auth: map<Id, MemberState>, ids: seq<Id>): (fs: seq<Finding>)
    ensures |fs| == |ids| && forall i :: 0 <= i < |ids| ==> fs[i] == FindingFor(rows, auth, ids[i])
  {
    seq(|ids|, i requires 0 <= i < |ids| => FindingFor(rows, auth, ids[i]))
  }

  /** The run's answer: every difference, once. */
  function Compare(rows: seq<ReportedRow>, auth: map<Id, MemberState>): seq<Finding> {
    FindingsFor(rows, auth, Ascending(Differing(rows, auth)))
  }

  /** A finding's class by its cause, and its state by the authority's own columns. */
  lemma {:induction false} FindingsAreClassified(rows: seq<ReportedRow>, auth: map<Id, MemberState>, f: Finding)
    requires f in Compare(rows, auth)
    ensures var reported := exists r :: r in rows && r.membershipId == f.membershipId;
            && (f.classification == "extra" <==> !IsGranted(auth, f.membershipId))
            && (f.classification == "missing" <==> IsGranted(auth, f.membershipId) && !reported)
            && (f.classification == "mismatch" <==> IsGranted(auth, f.membershipId) && reported)
            && (f.state.None? <==> f.membershipId !in auth)
            && (f.state.Some? ==>
                  var s, own := f.state.value, auth[f.membershipId];
                  && s.membershipId == f.membershipId && s.version == own.version
                  && Identity(s.tenantId, s.principalId, s.workspaceId) == own.identity
                  && StatusNamed(s.status) == Some(own.status) && s.tenantSecurityVersion == own.tenantSecurityVersion)
  {
    var i :| 0 <= i < |Compare(rows, auth)| && Compare(rows, auth)[i] == f;
  }

  function Sweep(consumer: string, id: Id, position: int, mark: int, fs: seq<Finding>): Envelope {
    Envelope(id, RepairReconciled, position, EventData(None, None, Some(RepairPayload(consumer, mark, fs))))
  }

  // What one sweep does to one row.

  /** The table and the authority disagree about one membership. */
  predicate Differs(t: Tables, auth: map<Id, MemberState>, m: Id) {
    if IsGranted(auth, m) then !(m in ActiveIds(t) && t.members[m].version == auth[m].version) else m in ActiveIds(t)
  }

  lemma {:induction false} ReportsDifferAsTablesDo(db: Database, c: string, auth: map<Id, MemberState>, m: Id)
    requires ReportOf(db, c).Success?
    ensures DiffersIn(ReportOf(db, c).value.rows, auth, m) <==> Differs(db.tables, auth, m)
  {
    ReportListsActive(db, c);
    var rows := ReportOf(db, c).value.rows;
    if m in ActiveIds(db.tables) {
      assert ReportedRow(m, db.tables.members[m].version) in rows;
    }
  }

  lemma {:induction false} FindingsAreComplete(rows: seq<ReportedRow>, auth: map<Id, MemberState>, m: Id)
    requires WellFormed(auth) && (forall r :: r in rows ==> r.membershipId != NIL) && DiffersIn(rows, auth, m)
    ensures FindingComplete(FindingFor(rows, auth, m))
  {
  }

  /** Every finding is complete, so the sweep is one this consumer accepts. */
  lemma {:induction false} SweepsAreAccepted(rows: seq<ReportedRow>, auth: map<Id, MemberState>, c: string, id: Id,
    position: int, mark: int, at: int)
    requires WellFormed(auth) && position > 0 && forall r :: r in rows ==> r.membershipId != NIL
    ensures var fs, e := Compare(rows, auth), Sweep(c, id, position, mark, Compare(rows, auth));
            (forall f :: f in fs ==> FindingComplete(f)) && Judge(c, e, at) == Project(SweepEffects(fs, e, at))
  {
    var ids, fs := Ascending(Differing(rows, auth)), Compare(rows, auth);
    forall f | f in fs
      ensures FindingComplete(f)
    {
      var i :| 0 <= i < |fs| && fs[i] == f;
      assert ids[i] in ids;
      FindingsAreComplete(rows, auth, ids[i]);
    }
  }

  /** What a sweep makes of a row it finds different: removed if it was never granted, and otherwise the
      authority's state unless the row is already at that version or above. */
  function Repaired(row: Option<Row>, auth: map<Id, MemberState>, m: Id, e: Envelope, at: int): Option<Row> {
    if m !in auth then None
    else
      var s := auth[m];
      var identity := Identity(s.identity.tenant, s.identity.principal, Workspace(s.identity.workspace));
      var own := Row(identity, s.status, s.version, e.streamPosition, s.tenantSecurityVersion, at, e.id);
      if row.None? then Some(own)
      else if row.value.version < s.version then Some(own.(identity := row.value.identity))
      else row
  }

  lemma {:induction false} SweepStatements(t: Tables, rows: seq<ReportedRow>, auth: map<Id, MemberState>,
    e: Envelope, at: int, m: Id)
    requires forall f :: f in Compare(rows, auth) ==> FindingComplete(f)
    ensures RowAt(Fold(t, SweepEffects(Compare(rows, auth), e, at)), m)
            == (if DiffersIn(rows, auth, m) then Repaired(RowAt(t, m), auth, m, e, at) else RowAt(t, m))
  {
    var ids, fs := Ascending(Differing(rows, auth)), Compare(rows, auth);
    var es := SweepEffects(fs, e, at);
    forall j, x | 0 <= j < |es|
      ensures About(es[j], x) <==> x == ids[j]
    {
      assert fs[j] in fs && es[j] == FindingEffect(fs[j], e, at);
    }
    if DiffersIn(rows, auth, m) {
      var i :| 0 <= i < |ids| && ids[i] == m;
      FoldAt(t, es, i, m);
      assert fs[i] in fs && es[i] == FindingEffect(FindingFor(rows, auth, m), e, at);
      OneFindingRepairs(t, rows, auth, e, at, m);
    } else {
      assert forall j :: 0 <= j < |es| ==> ids[j] in ids;
      FoldElsewhere(t, es, m);
    }
  }

  lemma {:induction false} OneFindingRepairs(t: Tables, rows: seq<ReportedRow>, auth: map<Id, MemberState>,
    e: Envelope, at: int, m: Id)
    requires FindingComplete(FindingFor(rows, auth, m))
    ensures RowAt(Step(t, FindingEffect(FindingFor(rows, auth, m), e, at)), m) == Repaired(RowAt(t, m), auth, m, e, at)
  {
  }

  /** A sweep found from one report, delivered to whatever the tables hold by then: the rows it names become
      what repairing each would make it, and every other row is left alone. */
  lemma {:induction false} SweepRepairsEachRow(db: Database, rows: seq<ReportedRow>, auth: map<Id, MemberState>,
    c: string, id: Id, position: int, mark: int, at: int, m: Id)
    requires WellFormed(auth) && position > 0 && (id, c) !in db.inbox && forall r :: r in rows ==> r.membershipId != NIL
    ensures var e := Sweep(c, id, position, mark, Compare(rows, auth));
            var after := Delivered(db, c, e, at);
            && Answer(db, c, e, at).Success? && Answer(db, c, e, at).value.applied
            && RowAt(after.tables, m)
               == (if DiffersIn(rows, auth, m) then Repaired(RowAt(db.tables, m), auth, m, e, at)
                   else RowAt(db.tables, m))
            && after.watermarks == Advance(db.watermarks, c, position, at)
  {
    SweepsAreAccepted(rows, auth, c, id, position, mark, at);
    SweepStatements(db.tables, rows, auth, Sweep(c, id, position, mark, Compare(rows, auth)), at, m);
  }

  /** The difference a sweep can repair: nothing was granted, nothing is held, or what is held is older. */
  predicate Repairable(t: Tables, auth: map<Id, MemberState>, m: Id) {
    m !in auth || m !in t.members || t.members[m].version < auth[m].version
  }

  lemma {:induction false} RepairingSettlesOne(before: Tables, after: Tables, auth: map<Id, MemberState>, m: Id,
    e: Envelope, at: int)
    requires RowAt(after, m) == (if Differs(before, auth, m) then Repaired(RowAt(before, m), auth, m, e, at)
             else RowAt(before, m))
    ensures Differs(after, auth, m) <==> Differs(before, auth, m) && !Repairable(before, auth, m)
  {
  }

  predicate HoldsActive(t: Tables, r: ReportedRow) {
    r.membershipId in ActiveIds(t) && t.members[r.membershipId].version == r.version
  }

  predicate GrantsActive(auth: map<Id, MemberState>, r: ReportedRow) {
    IsGranted(auth, r.membershipId) && auth[r.membershipId].version == r.version
  }

  /** The active memberships held are the ones the authority grants, at its versions. */
  ghost predicate HoldsWhatIsGranted(t: Tables, auth: map<Id, MemberState>) {
    forall r :: HoldsActive(t, r) <==> GrantsActive(auth, r)
  }

  lemma {:induction false} AgreementIsNoDifference(t: Tables, auth: map<Id, MemberState>)
    ensures HoldsWhatIsGranted(t, auth) <==> forall m :: !Differs(t, auth, m)
  {
    if HoldsWhatIsGranted(t, auth) {
      forall m
        ensures !Differs(t, auth, m)
      {
        assert IsGranted(auth, m) ==> HoldsActive(t, ReportedRow(m, auth[m].version));
        assert m in ActiveIds(t) ==> GrantsActive(auth, ReportedRow(m, t.members[m].version));
      }
    }
    if forall m :: !Differs(t, auth, m) {
      forall r
        ensures HoldsActive(t, r) <==> GrantsActive(auth, r)
      {
        assert !Differs(t, auth, r.membershipId);
      }
    }
  }

  lemma {:induction false} NothingFoundMeansAgreement(db: Database, c: string, auth: map<Id, MemberState>)
    requires ReportOf(db, c).Success?
    ensures Compare(ReportOf(db, c).value.rows, auth) == [] <==> forall m :: !Differs(db.tables, auth, m)
    ensures Compare(ReportOf(db, c).value.rows, auth) == [] <==> HoldsWhatIsGranted(db.tables, auth)
  {
    var rows := ReportOf(db, c).value.rows;
    var ids := Ascending(Differing(rows, auth));
    forall m
      ensures m in ids <==> Differs(db.tables, auth, m)
    {
      ReportsDifferAsTablesDo(db, c, auth, m);
    }
    assert ids != [] ==> ids[0] in ids;
    AgreementIsNoDifference(db.tables, auth);
  }

  lemma {:induction false} ReportsNameMemberships(db: Database, c: string)
    requires ReportOf(db, c).Success? && NIL !in db.tables.members
    ensures forall r :: r in ReportOf(db, c).value.rows ==> r.membershipId != NIL
  {
    ReportListsActive(db, c);
  }

  /** One run of reconciliation, exactly. The sweep is accepted and applied; it settles precisely the
      differences that are repairable and no other membership's; so the next report finds nothing, and the
      active memberships are the authority's, if and only if every difference was repairable. */
  lemma {:induction false} ReconciliationSettlesWhatIsRepairable(db: Database, c: string, auth: map<Id, MemberState>,
    id: Id, position: int, mark: int, at: int)
    requires ReportOf(db, c).Success? && NIL !in db.tables.members && WellFormed(auth) && position > 0
             && (id, c) !in db.inbox
    ensures var e := Sweep(c, id, position, mark, Compare(ReportOf(db, c).value.rows, auth));
            var after := Delivered(db, c, e, at);
            && Answer(db, c, e, at).Success? && Answer(db, c, e, at).value.applied
            && ReportOf(after, c).Success?
            && (forall m ::
                  Differs(after.tables, auth, m) <==> Differs(db.tables, auth, m) && !Repairable(db.tables, auth, m))
            && (Compare(ReportOf(after, c).value.rows, auth) == []
                <==> forall m :: Differs(db.tables, auth, m) ==> Repairable(db.tables, auth, m))
            && (Compare(ReportOf(after, c).value.rows, auth) == [] <==> HoldsWhatIsGranted(after.tables, auth))
  {
    var rows := ReportOf(db, c).value.rows;
    var e := Sweep(c, id, position, mark, Compare(rows, auth));
    var after := Delivered(db, c, e, at);
    ReportsNameMemberships(db, c);
    SweepRepairsEachRow(db, rows, auth, c, id, position, mark, at, NIL);
    assert ReportOf(after, c).Success?;
    forall m
      ensures Differs(after.tables, auth, m) <==> Differs(db.tables, auth, m) && !Repairable(db.tables, auth, m)
    {
      ReportsDifferAsTablesDo(db, c, auth, m);
      SweepRepairsEachRow(db, rows, auth, c, id, position, mark, at, m);
      RepairingSettlesOne(db.tables, after.tables, auth, m, e, at);
    }
    NothingFoundMeansAgreement(after, c, auth);
  }

  /** No row is ahead of the authority: none is newer, and none at its version says otherwise. */
  ghost predicate NotAhead(t: Tables, auth: map<Id, MemberState>) {
    forall m :: m in t.members && m in auth ==>
      t.members[m].version <= auth[m].version
          && (t.members[m].version == auth[m].version ==> t.members[m].status == auth[m].status)
  }

  /** The fixpoint: from any state a run reaches with no row ahead of the authority, one report, its
      comparison and its sweep leave the authority's active set, and the next report finds nothing. */
  lemma {:induction false} ReconciliationReachesAFixpoint(run: seq<Attempt>, c: string, auth: map<Id, MemberState>,
    id: Id, position: int, mark: int, at: int)
    requires ReportOf(Run(EMPTY_DATABASE, run), c).Success? && NotAhead(Run(EMPTY_DATABASE, run).tables, auth)
    requires WellFormed(auth) && position > 0 && (id, c) !in Run(EMPTY_DATABASE, run).inbox
    ensures var db := Run(EMPTY_DATABASE, run);
            var sweep := Sweep(c, id, position, mark, Compare(ReportOf(db, c).value.rows, auth));
            var after := Run(EMPTY_DATABASE, run + [Attempt(c, Event(sweep), at, Commits)]);
            && ReportOf(after, c).Success?
            && HoldsWhatIsGranted(after.tables, auth)
            && Compare(ReportOf(after, c).value.rows, auth) == []
  {
    var db := Run(EMPTY_DATABASE, run);
    EveryRowMeetsTheSchema(EMPTY_DATABASE, run);
    ReconciliationSettlesWhatIsRepairable(db, c, auth, id, position, mark, at);
    var sweep := Attempt(c, Event(Sweep(c, id, position, mark, Compare(ReportOf(db, c).value.rows, auth))), at,
        Commits);
    assert (run + [sweep])[..|run + [sweep]| - 1] == run;
  }

  /** A sweep that arrives after newer inputs rolls nothing back: a row it still names either was never
      granted, and goes, or ends at least as new as it stood when the report was read and when the sweep
      arrived; and one that is by then at the authority's version or above is left as it is. */
  lemma {:induction false} ALateSweepRollsNothingBack(db: Database, newer: seq<Attempt>, c: string,
    auth: map<Id, MemberState>, id: Id, position: int, mark: int, at: int, m: Id)
    requires ReportOf(db, c).Success? && NIL !in db.tables.members && WellFormed(auth) && position > 0
    requires (id, c) !in Run(db, newer).inbox
    requires m in db.tables.members && Removal(m) !in Claims(newer)
    ensures var e := Sweep(c, id, position, mark, Compare(ReportOf(db, c).value.rows, auth));
            var now, after := Run(db, newer), Delivered(Run(db, newer), c, e, at);
            && m in now.tables.members
            && (m !in after.tables.members <==> m !in auth && Differs(db.tables, auth, m))
            && (m in after.tables.members ==>
                  && after.tables.members[m].identity == db.tables.members[m].identity
                  && db.tables.members[m].version <= now.tables.members[m].version <= after.tables.members[m].version
                  && (m in auth && auth[m].version <= now.tables.members[m].version ==>
                        after.tables.members[m] == now.tables.members[m]))
  {
    RowsOnlyAdvance(db, newer, m);
    ReportsNameMemberships(db, c);
    ReportsDifferAsTablesDo(db, c, auth, m);
    SweepRepairsEachRow(Run(db, newer), ReportOf(db, c).value.rows, auth, c, id, position, mark, at, m);
  }
}

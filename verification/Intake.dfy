/** The delivery intake: what the producer's dispatcher is told, and what a receipt may be relied on for. */
module Intake {
  import opened Wrappers
  import opened Model
  import opened Effects
  import opened Transactions
  import opened Runs
  import opened Projectors
  import opened Deliveries
  import opened Samples

  /** The status line, the application receipt, and the outcome that is counted. */
  datatype Response = Response(status: int, receipt: bool, counted: string)

  function DeliveryOutcome(o: Outcome): string {
    if o.acknowledged then "acknowledged"
    else if o.superseded then "superseded"
    else if o.duplicate then "duplicate"
    else "applied"
  }

  function Respond(r: Result<Outcome, Error>): Response {
    match r
    case Failure(error) =>
      if error.UnknownType? || error.Malformed? then Response(400, false, "refused") else Response(503, false, "failed")
    case Success(o) => Response(202, !o.superseded && !o.acknowledged, DeliveryOutcome(o))
  }

  /** The projector's transactions are the attempts runs are made of: one that rolls back leaves the database, and
      one that commits leaves the same whether its answer arrives or is lost. */
  lemma {:induction false} TransactionsAreAttempts(db: Database, a: Attempt)
    ensures var after := match a.input
                         case Event(e) => Delivered(db, a.consumer, e, a.at)
                         case Page(rows, mark, final) => Seeded(db, a.consumer, rows, mark, final, a.at);
            && Ended(db, after, a.fate) == Next(db, a)
            && (a.fate.RollsBack? ==> Next(db, a) == db)
            && (!a.fate.RollsBack? ==> Next(db, a) == after)
  {
  }

  /** What the dispatcher is told, for every event and every way its transaction can end: 400 if and only if the
      event is refused for what it is, 503 if and only if it is not and its transaction failed or its answer was
      lost, and 202 otherwise; a receipt if and only if it is one for this consumer, and was registered before or is
      applied now; and what is counted. */
  lemma {:induction false} StatusExactlyWhen(db: Database, c: string, e: Envelope, at: int, fate: Fate)
    ensures var r := Respond(Seen(Answer(db, c, e, at), fate));
            && r.status == (if !Deliverable(c, e) then 400 else if fate.Commits? then 202 else 503)
            && (r.receipt <==> r.status == 202 && !NotForThis(c, e)
                               && ((e.id, c) in db.inbox || Answer(db, c, e, at).value.applied))
            && r.counted == (if r.status == 400 then "refused" else if r.status == 503 then "failed"
                             else if NotForThis(c, e) then "acknowledged" else if (e.id, c) in db.inbox then "duplicate"
                             else if Answer(db, c, e, at).value.applied then "applied" else "superseded")
  {
    AcceptedExactlyWhen(db, c, e, at);
  }

  /** The handler: a body that is no envelope is refused before anything is applied or counted, and the
      receipt is set only after Apply has returned without an error. */
  method Handle(p: Projector, body: Option<Envelope>, now: int, fate: Fate) returns (response: Response)
    modifies p.pool
    ensures body.None? ==> response == Response(400, false, "") && p.pool.db == old(p.pool.db)
    ensures body.Some? ==>
              && response == Respond(Seen(Answer(old(p.pool.db), p.consumer, body.value, now), fate))
              && p.pool.db == Ended(old(p.pool.db), Delivered(old(p.pool.db), p.consumer, body.value, now), fate)
              && response.status == (if !Deliverable(p.consumer, body.value) then 400 else if fate.Commits? then 202
                  else 503)
  {
    if body.Some? {
      StatusExactlyWhen(p.pool.db, p.consumer, body.value, now, fate);
    }
    if body.None? {
      return Response(400, false, "");
    }
    var result := p.Apply(body.value, now, fate);
    if result.Failure? && (result.error.UnknownType? || result.error.Malformed?) {
      return Response(400, false, "refused");
    }
    if result.Failure? {
      return Response(503, false, "failed");
    }
    var receipt := false;
    if !result.value.superseded && !result.value.acknowledged {
      receipt := true;
    }
    return Response(202, receipt, DeliveryOutcome(result.value));
  }

  function Flags(o: Outcome): nat {
    (if o.applied then 1 else 0) + (if o.duplicate then 1 else 0)
    + (if o.superseded then 1 else 0) + (if o.acknowledged then 1 else 0)
  }

  /** The dispatcher's three cases. Poison is refused again however often it is delivered and whatever the
      tables hold; anything accepted sets exactly one outcome; and an error never reports a receipt. */
  lemma {:induction false} EveryAnswerIsOneOutcome(db: Database, c: string, e: Envelope, at: int)
    ensures var r := Answer(db, c, e, at);
            && (r.Failure? <==> Respond(r).status == 400)
            && (r.Failure? ==>
                  Delivered(db, c, e, at) == db && forall db', at' :: Respond(Answer(db', c, e, at')) == Respond(r))
            && (r.Success? ==> Flags(r.value) == 1 && Respond(r).status == 202)
            && (Respond(r).receipt <==> r.Success? && (r.value.applied || r.value.duplicate))
  {
    if Answer(db, c, e, at).Failure? {
      ClaimsAreTimeless(c, e, at);
      forall db', at'
        ensures Respond(Answer(db', c, e, at')) == Respond(Answer(db, c, e, at))
      {
        ClaimsAreTimeless(c, e, at');
      }
    }
  }

  /** An event that is applied is what its row now holds, in every column but the identity of a row that
      stood before; one that is superseded left a row at its version or above. */
  lemma {:induction false} AppliedMeansWritten(db: Database, c: string, e: Envelope, at: int)
    requires e.etype.IsMembership() && Answer(db, c, e, at).Success? && !Answer(db, c, e, at).value.duplicate
    ensures var p, o, after := e.data.membership.value, Answer(db, c, e, at).value,
            Delivered(db, c, e, at).tables.members;
            && p.membershipId in after
            && (o.applied ==>
                  var row := after[p.membershipId];
                  && o.record == Record(p.membershipId, p.tenantId, p.principalId, None, Some(row.status), p.version,
                                        p.tenantSecurityVersion, e.streamPosition, at)
                  && (row.status == Active <==> e.etype.MembershipGranted? || e.etype.MembershipRestored?)
                  && (row.status == Revoked <==> e.etype.MembershipRevoked?)
                  && row.version == p.version && row.tenantSecurityVersion == p.tenantSecurityVersion
                  && row.appliedMark == e.streamPosition && row.appliedAt == at && row.eventId == e.id
                  && (if p.membershipId in db.tables.members then
                        db.tables.members[p.membershipId].version < p.version
                            && row.identity == db.tables.members[p.membershipId].identity
                      else row.identity == Identity(p.tenantId, p.principalId, Workspace(p.workspaceId))))
            && (o.superseded ==>
                  after == db.tables.members && p.version <= after[p.membershipId].version)
  {
    var put := PutMember(e.data.membership.value.membershipId,
        MembershipRow(e.data.membership.value, e.etype.Produces(), e, at));
    FoldOne(db.tables, put);
    var m := e.data.membership.value.membershipId;
    if m in db.tables.members && db.tables.members[m].version < put.row.version {
      assert Step(db.tables, put).members[m].version != db.tables.members[m].version;
    } else if m !in db.tables.members {
      assert m in Step(db.tables, put).members;
    }
  }

  /** The same for a tenant event, whose whole row is replaced. */
  lemma {:induction false} AppliedTenantMeansWritten(db: Database, c: string, e: Envelope, at: int)
    requires e.etype.IsTenant() && Answer(db, c, e, at).Success? && !Answer(db, c, e, at).value.duplicate
    ensures var p, o, after := e.data.tenant.value, Answer(db, c, e, at).value, Delivered(db, c, e, at).tables.tenants;
            && p.tenantId in after
            && (o.applied ==>
                  && after[p.tenantId] == TenantRow(p.status, Pair(p.securityVersion, p.version), e.streamPosition,
                      at, Some(e.id))
                  && o.record.tenantId == p.tenantId && o.record.tenantSecurityVersion == p.securityVersion
                  && (p.tenantId in db.tables.tenants ==>
                        db.tables.tenants[p.tenantId].pair.Less(Pair(p.securityVersion, p.version))))
            && (o.superseded ==>
                  after == db.tables.tenants && Pair(p.securityVersion, p.version).AtMost(after[p.tenantId].pair))
  {
    var p := e.data.tenant.value;
    var put := Judge(c, e, at).effects[0];
    assert Judge(c, e, at).effects == [put];
    FoldOne(db.tables, put);
    if p.tenantId !in db.tables.tenants || db.tables.tenants[p.tenantId].pair.Less(put.state.pair) {
      assert Step(db.tables, put).tenants[p.tenantId] == put.state;
    }
  }

  /** A receipt, and indeed any 202, for a membership or tenant event says that the projection holds what
      the event says or something newer. */
  lemma {:induction false} ReceiptMeansReflected(run: seq<Attempt>, a: Attempt, claim: Claim)
    requires a.input.Event? && a.fate.Commits? && IdsDetermine(run + [a])
    requires Respond(Answer(Run(EMPTY_DATABASE, run), a.consumer, a.input.envelope, a.at)).status == 202
    requires claim in EnvelopeClaims(a.consumer, a.input.envelope)
    requires claim.MemberClaim? ==> Removal(claim.id) !in Claims(run + [a])
    ensures Reflects(Run(EMPTY_DATABASE, run + [a]).tables, claim)
  {
    assert a in run + [a];
    ClaimsInclude(run + [a], a);
    WhatIsSaidIsReflected(EMPTY_DATABASE, run + [a], claim);
  }

  /** The stronger reading of a receipt, that this event was itself applied, fails for every superseded
      event: it is registered, so its redelivery is reported a duplicate, with a receipt, and neither
      delivery changed a table. */
  lemma {:induction false} ARedeliveredSupersededEventIsReceipted(db: Database, c: string, e: Envelope, at: int,
    later: int)
    requires Answer(db, c, e, at).Success? && Answer(db, c, e, at).value.superseded
    ensures !Respond(Answer(db, c, e, at)).receipt
    ensures var once := Delivered(db, c, e, at);
            && Respond(Answer(once, c, e, later)) == Response(202, true, "duplicate")
            && Delivered(once, c, e, later).tables == db.tables
  {
    ClaimsAreTimeless(c, e, at);
    ClaimsAreTimeless(c, e, later);
  }

  // Exactly when the stronger reading is true.

  /** An event other than a sweep, heard for the first time, is applied exactly when the projection does not yet
      hold what it says or something newer, and superseded exactly when it does. */
  lemma {:induction false} AppliedExactlyWhenNew(db: Database, c: string, e: Envelope, at: int, claim: Claim)
    requires Judge(c, e, at).Project? && !e.etype.RepairReconciled? && (e.id, c) !in db.inbox
    requires claim in EnvelopeClaims(c, e)
    ensures Answer(db, c, e, at).Success?
    ensures Answer(db, c, e, at).value.applied <==> !Reflects(db.tables, claim)
    ensures Answer(db, c, e, at).value.superseded <==> Reflects(db.tables, claim)
  {
    ClaimsAreTimeless(c, e, at);
    JudgedEffects(c, e, at);
    var put := Judge(c, e, at).effects[0];
    assert Judge(c, e, at).effects == [put];
    assert claim == put.Claims();
    FoldOne(db.tables, put);
    if !Reflects(db.tables, claim) {
      assert Reflects(Step(db.tables, put), claim);
    }
  }

  /** The i-th attempt of a run was answered with an event applied. */
  predicate AppliedAt(run: seq<Attempt>, i: nat)
    requires i < |run|
  {
    && run[i].Accepted() && run[i].input.Event?
    && var r := Answer(Run(EMPTY_DATABASE, run[..i]), run[i].consumer, run[i].input.envelope, run[i].at);
    && r.Success? && r.value.applied
  }

  predicate SameEvent(run: seq<Attempt>, i: nat, k: nat)
    requires i < |run| && k < |run|
  {
    run[i].Registers() == run[k].Registers()
  }

  /** The k-th attempt is the first to register its event for its consumer. */
  predicate FirstRegisters(run: seq<Attempt>, k: nat) {
    k < |run| && run[k].Registers() != {} && forall j :: 0 <= j < k ==> !SameEvent(run, j, k)
  }

  lemma {:induction false} SomeAttemptIsFirst(run: seq<Attempt>, i: nat) returns (k: nat)
    requires i < |run| && run[i].Registers() != {}
    ensures FirstRegisters(run, k) && SameEvent(run, i, k)
  {
    k := i;
    if j :| 0 <= j < i && SameEvent(run, j, i) {
      k := SomeAttemptIsFirst(run, j);
    }
  }

  /** A receipt may be read as "this event was applied" exactly when, at the event's first registration, the
      projection held nothing as new. That is for every run and every event but a sweep: every later delivery of
      the event is answered with a receipt, and some delivery of it was applied if and only if its state was new
      to the tables the first one met. */
  lemma {:induction false} AReceiptMeansAppliedExactlyWhen(run: seq<Attempt>, k: nat, claim: Claim)
    requires FirstRegisters(run, k) && !run[k].input.envelope.etype.RepairReconciled?
    requires claim in EnvelopeClaims(run[k].consumer, run[k].input.envelope)
    ensures (exists i :: 0 <= i < |run| && SameEvent(run, i, k) && AppliedAt(run, i))
            <==> !Reflects(Run(EMPTY_DATABASE, run[..k]).tables, claim)
    ensures forall i :: k < i < |run| && SameEvent(run, i, k) ==>
              Respond(Answer(Run(EMPTY_DATABASE, run[..i]), run[i].consumer, run[i].input.envelope, run[i].at)).receipt
  {
    var a := run[k];
    forall i | k <= i < |run| && SameEvent(run, i, k)
      ensures AppliedAt(run, i) ==> i == k
      ensures i == k ==> a.Registers() !! Run(EMPTY_DATABASE, run[..i]).inbox
      ensures i > k ==>
                Respond(Answer(Run(EMPTY_DATABASE, run[..i]), run[i].consumer, run[i].input.envelope,
                    run[i].at)).receipt
    {
      ExactlyOnce(EMPTY_DATABASE, run[..i]);
      if i == k {
        FirstIsNew(run, k);
      } else {
        assert run[..i][k] == a;
        RegistrationsAreKept({}, run[..i], a);
      }
    }
    AppliedExactlyWhenNew(Run(EMPTY_DATABASE, run[..k]), a.consumer, a.input.envelope, a.at, claim);
    assert SameEvent(run, k, k);
  }

  lemma {:induction false} RegistrationsAreKept(inbox: set<(Id, string)>, run: seq<Attempt>, a: Attempt)
    requires a in run
    ensures a.Registers() <= Registered(inbox, run)
  {
    if a != run[|run| - 1] {
      RegistrationsAreKept(inbox, run[..|run| - 1], a);
    }
  }

  lemma {:induction false} FirstIsNew(run: seq<Attempt>, k: nat)
    requires FirstRegisters(run, k)
    ensures run[k].Registers() !! Registered({}, run[..k])
  {
    forall key | key in run[k].Registers() && key in Registered({}, run[..k])
      ensures false
    {
      RegisteredBy({}, run[..k], key);
      var b :| b in run[..k] && key in b.Registers();
      var j :| 0 <= j < k && run[..k][j] == b;
      assert SameEvent(run, j, k);
    }
  }

  /** It happens: a grant overtaken by a revocation, delivered twice. */
  lemma {:induction false} ASupersededEventExists()
    ensures var db := Delivered(EMPTY_DATABASE, "a", Revocation(8, 2, 20), 0);
            && Answer(db, "a", Grant(7, 1, 10), 1).Success? && Answer(db, "a", Grant(7, 1, 10), 1).value.superseded
            && Respond(Answer(Delivered(db, "a", Grant(7, 1, 10), 1), "a", Grant(7, 1, 10), 2)).receipt
            && 1 in db.tables.members && db.tables.members[1].eventId == 8
  {
    var revoke := PutMember(1, MembershipRow(Revocation(8, 2, 20).data.membership.value, Revoked,
        Revocation(8, 2, 20), 0));
    var grant := PutMember(1, MembershipRow(Grant(7, 1, 10).data.membership.value, Active, Grant(7, 1, 10), 1));
    var db := Delivered(EMPTY_DATABASE, "a", Revocation(8, 2, 20), 0);
    FoldOne(NO_TABLES, revoke);
    assert db.tables == Step(NO_TABLES, revoke);
    FoldOne(db.tables, grant);
    ARedeliveredSupersededEventIsReceipted(db, "a", Grant(7, 1, 10), 1, 2);
  }
}

/** The entities of the projection: identifiers, events, table rows and the database they live in.
    A decoded request is a value; a body that does not decode is `None` at its reading. */
module Model {
  import opened Wrappers

  /** A UUID. Only equality, order and the nil value matter to the program. */
  type Id = nat

  const NIL: Id := 0

  datatype Status = Active | Suspended | Revoked

  /** The authority's own spelling of a membership status, as events, findings and pages carry it. */
  function StatusNamed(name: string): (s: Option<Status>)
  {
    if name == "active" then Some(Active)
    else if name == "suspended" then Some(Suspended)
    else if name == "revoked" then Some(Revoked)
    else None
  }

  /** Event types grouped as the dispatch tables group them: four membership types, four tenant types,
      the repair, the types that are listed as received and not acted on, and every other. */
  datatype EventType =
    | MembershipGranted
    | MembershipRestored
    | MembershipSuspended
    | MembershipRevoked
    | TenantActivated
    | TenantSuspended
    | TenantRestored
    | TenantRetired
    | RepairReconciled
    | Listed(name: string)
    | Unlisted(name: string)
  {
    predicate IsMembership() {
      MembershipGranted? || MembershipRestored? || MembershipSuspended? || MembershipRevoked?
    }

    predicate IsTenant() {
      TenantActivated? || TenantSuspended? || TenantRestored? || TenantRetired?
    }

    /** The state a membership event produces, by its type and not by the status it carries. */
    function Produces(): Status
      requires IsMembership()
    {
      if MembershipSuspended? then Suspended else if MembershipRevoked? then Revoked else Active
    }
  }

  datatype Payload = Payload(
    membershipId: Id,
    tenantId: Id,
    principalId: Id,
    version: int,
    workspaceId: Option<Id>,
    status: string,
    tenantSecurityVersion: int)

  datatype TenantPayload = TenantPayload(tenantId: Id, status: string, securityVersion: int, version: int)

  datatype Finding = Finding(classification: string, membershipId: Id, state: Option<Payload>)

  datatype RepairPayload = RepairPayload(consumerId: string, mark: int, findings: seq<Finding>)

  /** The bytes of an event, read as each of the three shapes; `None` where they do not decode. */
  datatype EventData = EventData(
    membership: Option<Payload>,
    tenant: Option<TenantPayload>,
    repair: Option<RepairPayload>)

  datatype Envelope = Envelope(id: Id, etype: EventType, streamPosition: int, data: EventData)

  /** One row of a snapshot page. Its status is the authority's text: only the table checks it. */
  datatype SnapshotRow = SnapshotRow(
    membershipId: Id,
    tenantId: Id,
    principalId: Id,
    workspaceId: Option<Id>,
    status: string,
    version: int,
    tenantSecurityVersion: int,
    tenantStatus: string,
    tenantVersion: int)

  /** A zero workspace is stored as no workspace: it would name one that does not exist. */
  function Workspace(w: Option<Id>): Option<Id> {
    if w == Some(NIL) then None else w
  }

  /** The columns of a membership row that no conflict ever rewrites. */
  datatype Identity = Identity(tenant: Id, principal: Id, workspace: Option<Id>)

  datatype Row = Row(
    identity: Identity,
    status: Status,
    version: int,
    appliedMark: int,
    tenantSecurityVersion: int,
    appliedAt: int,
    eventId: Id)

  /** The pair a tenant's states are ordered by, compared left to right. */
  datatype Pair = Pair(security: int, version: int)
  {
    predicate Less(other: Pair) {
      security < other.security || (security == other.security && version < other.version)
    }

    predicate AtMost(other: Pair) {
      this == other || Less(other)
    }
  }

  datatype TenantRow = TenantRow(
    status: string,
    pair: Pair,
    appliedMark: int,
    appliedAt: int,
    eventId: Option<Id>)

  datatype Watermark = Watermark(
    snapshotMark: Option<int>,
    appliedMark: int,
    bootstrappedAt: Option<int>,
    updatedAt: int)

  datatype Tables = Tables(members: map<Id, Row>, tenants: map<Id, TenantRow>)

  /** Everything one transaction reads or writes. The inbox holds (event, consumer) pairs and the
      watermark one row per consumer, so several consumers may share a database. */
  datatype Database = Database(
    tables: Tables,
    watermarks: map<string, Watermark>,
    inbox: set<(Id, string)>)

  const NO_TABLES := Tables(map[], map[])
  const EMPTY_DATABASE := Database(NO_TABLES, map[], {})

  datatype Error =
    | UnknownType
    | Malformed
    | CheckViolated
    | NotProjected
    | NotBootstrapped
    | TenantInactive
    | TenantNotProjected
    | Withdrawn
    | Unavailable

  datatype Record = Record(
    membershipId: Id,
    tenantId: Id,
    principalId: Id,
    workspaceId: Option<Id>,
    status: Option<Status>,
    version: int,
    tenantSecurityVersion: int,
    appliedMark: int,
    appliedAt: int)

  const NO_RECORD := Record(NIL, NIL, NIL, None, None, 0, 0, 0, 0)

  datatype Outcome = Outcome(
    applied: bool,
    duplicate: bool,
    superseded: bool,
    acknowledged: bool,
    record: Record)

  const NO_OUTCOME := Outcome(false, false, false, false, NO_RECORD)

  /** How a transaction ends: it commits and its answer arrives, it rolls back, or it commits and the
      answer is lost on the way. */
  datatype Fate = Commits | RollsBack | AnswerLost

  function Max(a: int, b: int): int {
    if a >= b then a else b
  }
}

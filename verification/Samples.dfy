/** Concrete events and rows for the lemmas that show a run exists. */
module Samples {
  import opened Wrappers
  import opened Model

  /** One active membership, 1, of principal 3 in the active tenant 2. */
  const SOMEONE := SnapshotRow(1, 2, 3, None, "active", 1, 1, "active", 1)

  function Grant(id: Id, version: int, position: int): Envelope {
    var payload := Payload(1, 2, 3, version, None, "active", 1);
    Envelope(id, MembershipGranted, position, EventData(Some(payload), None, None))
  }

  function Revocation(id: Id, version: int, position: int): Envelope {
    var payload := Payload(1, 2, 3, version, None, "revoked", 1);
    Envelope(id, MembershipRevoked, position, EventData(Some(payload), None, None))
  }

  function TenantEvent(id: Id, etype: EventType, status: string, security: int, version: int, position: int): Envelope {
    Envelope(id, etype, position, EventData(None, Some(TenantPayload(2, status, security, version)), None))
  }
}

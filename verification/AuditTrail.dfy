/** One event of the audit trail, as its readers see it. */
module AuditTrail {
  import opened Options

  /** A row of the trail. `keyId`, `scope`, `verb` and `path` are read out of its metadata. */
  datatype AuditEvent = AuditEvent(
    id: int, occurredAt: int, action: string, outcome: string, severity: string,
    actorType: string, actorId: Option<string>, actorKind: Option<string>,
    resourceType: Option<string>, resourceId: Option<string>, requestId: Option<string>,
    project: Option<string>, environment: Option<string>, worker: Option<string>, tenant: Option<string>,
    scope: Option<string>, keyId: Option<string>, verb: string, path: Option<string>)

  /** SQL equality: null equals nothing, null included. */
  predicate SqlEq(a: Option<string>, b: Option<string>) {
    a.Some? && a == b
  }

  /** The trail's primary key: no two rows share an id. */
  ghost predicate UniqueIds(trail: seq<AuditEvent>) {
    forall i, j | 0 <= i < j < |trail| :: trail[i].id != trail[j].id
  }
}

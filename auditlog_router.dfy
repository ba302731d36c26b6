/** The audit-log routes (api/v1/routers/auditlog.py): reading one entry and
    listing one applicant's entries, each behind the gate. These routes only read;
    no route writes, edits or removes an audit entry. */
module AuditLogRouter {
  import opened Outcomes
  import opened Models
  import opened Tables
  import opened Crud
  import opened Pagination
  import opened Gate
  import AuditLogService

  /** `get_audit_log`: the gate (404, 403), then the stored entry (404). */
  function GetAuditLog(store: Store, requesterId: int, id: int): (r: Result<Row<AuditLog>>)
    reads store
    ensures GetUserObj(store.db.users, requesterId).Err? ==> r == Err(GetUserObj(store.db.users, requesterId).error)
    ensures GetUserObj(store.db.users, requesterId).Ok? && !store.db.auditLog.Has(id) ==>
              r == Err(HttpException(NotFound, "Audit log entry not found"))
    ensures r.Ok? <==> GetUserObj(store.db.users, requesterId).Ok? && store.db.auditLog.Has(id)
    ensures r.Ok? ==> r.value == Row(id, store.db.auditLog.rows[id])
  {
    match GetUserObj(store.db.users, requesterId)
    case Err(e) => Err(e)
    case Ok(_) => store.GetAuditLog(id)
  }

  /** `list_audit_logs_by_applicant`: the gate (404, 403), then the listing of one
      applicant's entries, newest first; page 1 of 20 rows unless the client asks
      otherwise. */
  function ListAuditLogs(store: Store, requesterId: int, applicantId: int, page: int := 1, pageSize: int := 20)
    : (r: Result<Page<Row<AuditLog>>>)
    reads store
    ensures GetUserObj(store.db.users, requesterId).Err? ==> r == Err(GetUserObj(store.db.users, requesterId).error)
    ensures GetUserObj(store.db.users, requesterId).Ok? ==>
              r == AuditLogService.ListAuditLogs(store.db.auditLog, applicantId, page, pageSize)
  {
    match GetUserObj(store.db.users, requesterId)
    case Err(e) => Err(e)
    case Ok(_) => AuditLogService.ListAuditLogs(store.db.auditLog, applicantId, page, pageSize)
  }
}

/** The audit-log service (api/v1/services/auditlog.py): appending an entry after
    the service's own existence checks, reading one entry (the store's
    `get_audit_log` unchanged, `Crud.Store.GetAuditLog`), and listing one
    applicant's entries, newest first. The service offers no way to edit or remove
    an entry. */
module AuditLogService {
  import opened Outcomes
  import opened Models
  import opened Tables
  import opened Crud
  import opened Pagination

  /** `create_audit_log`: a missing applicant (404), then a missing acting user (404);
      the store's `create_audit_log` then repeats both checks, which pass, and appends
      exactly one entry stamped with the current time. */
  method CreateAuditLog(store: Store, applicantId: int, changedByUserId: int, changeType: ChangeType, action: ActionType,
                        beforeData: Option<Snapshot>, afterData: Option<Snapshot>)
    returns (r: Result<Row<AuditLog>>)
    modifies store
    ensures !old(store.db.applicants).Has(applicantId) ==> r == Err(HttpException(NotFound, "Applicant not found"))
    ensures old(store.db.applicants).Has(applicantId) && !old(store.db.users).Has(changedByUserId) ==>
              r == Err(HttpException(NotFound, "User not found"))
    ensures r.Err? ==> store.db == old(store.db)
    ensures r.Ok? <==> old(store.db.applicants).Has(applicantId) && old(store.db.users).Has(changedByUserId)
    ensures r.Ok? ==>
              && r.value == Row(old(store.db.auditLog.nextId),
                   AuditLog(applicantId, changedByUserId, changeType, action, beforeData, afterData, old(store.db.clock)))
              && store.db == old(store.db).(auditLog := old(store.db.auditLog).Add(r.value.val), clock := old(store.db.clock) + 1)
  {
    var applicant := store.GetApplicant(applicantId);
    if applicant.Err? {
      return Err(applicant.error);
    }
    var user := store.GetUser(changedByUserId);
    if user.Err? {
      return Err(user.error);
    }
    r := store.CreateAuditLog(applicantId, changedByUserId, changeType, action, beforeData, afterData);
  }

  /** The entries about one applicant, ordered by `changed_at` descending: stamps
      grow with the key, so this is the applicant's entries in reverse key order. */
  function EntriesFor(log: Table<AuditLog>, applicantId: int): (r: seq<Row<AuditLog>>)
    requires log.Valid()
    ensures forall i :: 0 <= i < |r| ==> r[i].val.applicantId == applicantId && log.Get(r[i].id) == Some(r[i])
    ensures forall id :: log.Has(id) && log.rows[id].applicantId == applicantId ==> Row(id, log.rows[id]) in r
  {
    var entries := Where(log.Listing(), (e: AuditLog) => e.applicantId == applicantId);
    ReversedMembers(entries);
    Reversed(entries)
  }

  /** The applicant's entries come newest first: along the listing the stamps
      strictly decrease. */
  lemma {:induction false} EntriesNewestFirst(log: Table<AuditLog>, clock: nat, applicantId: int)
    requires log.Valid() && AuditChronological(log, clock)
    ensures var r := EntriesFor(log, applicantId);
      forall i, j :: 0 <= i < j < |r| ==> r[i].val.changedAt > r[j].val.changedAt
  {
    var entries := Where(log.Listing(), (e: AuditLog) => e.applicantId == applicantId);
    var r := EntriesFor(log, applicantId);
    assert KeyOrdered(entries);
    forall i, j | 0 <= i < j < |r| ensures r[i].val.changedAt > r[j].val.changedAt {
      var newer, older := r[i], r[j];
      assert newer == entries[|entries| - 1 - i] && older == entries[|entries| - 1 - j];
      assert older.id < newer.id;
      assert log.Get(newer.id) == Some(newer) && log.Get(older.id) == Some(older);
      assert log.rows[older.id].changedAt < log.rows[newer.id].changedAt;
    }
  }

  /** `get_applicant_audit_logs_paginated`: a page below 1 is refused (400);
      otherwise the over-fetch listing of the applicant's entries, newest first. */
  function ListAuditLogs(log: Table<AuditLog>, applicantId: int, page: int, pageSize: int): (r: Result<Page<Row<AuditLog>>>)
    requires log.Valid()
    ensures page < 1 ==> r == Err(PageTooLow)
    ensures 1 <= page && 0 <= pageSize ==> r.Ok? && r.value.page == page
    ensures 1 <= page && 0 <= pageSize ==> (r.value.nextPage <==> |EntriesFor(log, applicantId)| > page * pageSize)
    ensures 1 <= page && 0 <= pageSize ==>
              forall i :: 0 <= i < |r.value.items| ==>
                r.value.items[i].val.applicantId == applicantId && log.Get(r.value.items[i].id) == Some(r.value.items[i])
    ensures 1 <= page && 0 <= pageSize ==> r.value.items == PageRows(EntriesFor(log, applicantId), page, pageSize)
  {
    GuardedPage(EntriesFor(log, applicantId), page, pageSize)
  }
}

/** The applicant routes (api/v1/routers/applicant.py). Every handler first passes
    the requester through the gate; no role is checked, any active user may create,
    update and delete applicants. Because the gate has just found the requester, the
    audit write of a create or an update always finds its acting user. */
module ApplicantRouter {
  import opened Outcomes
  import opened Models
  import opened Tables
  import opened Fields
  import opened Crud
  import opened Pagination
  import opened Gate
  import ApplicantService

  /** The fields of the applicant update request, in declaration order. */
  const UpdateOrder: seq<Column> :=
    [FirstName, LastName, MiddleName, PhoneNumber, Email, NationalId, PassportNumber,
     Citizenship, BirthDate, Gender, IntakePeriod, StatusColumn]

  /** `updates.dict(exclude_unset=True)`: the payload holds exactly the request
      fields the client set, once each, with the values sent; all of them are
      settable, so the service's whitelist never refuses it. */
  function UpdatePayload(sent: map<Column, Value>): (u: Updates)
    ensures DistinctKeys(u) && FirstDisallowed(u, ApplicantFields).None?
    ensures forall k :: 0 <= k < |u| ==> u[k].0.col in sent && u[k].1 == sent[u[k].0.col]
    ensures forall c :: c in sent && c in ApplicantFields ==> Col(c) in Keys(u)
  {
    UpdateOrderFacts();
    SetFieldsAllowed(UpdateOrder, sent, ApplicantFields);
    SetFieldsComplete(UpdateOrder, sent);
    SetFieldsDistinct(UpdateOrder, sent);
    SetFields(UpdateOrder, sent)
  }

  /** The payload sets a NOT NULL column to NULL exactly when the client sent
      null for the first name or the status. */
  lemma PayloadSetsNull(sent: map<Column, Value>)
    ensures SetsNull(UpdatePayload(sent), ApplicantRequired) <==>
              (FirstName in sent && sent[FirstName] == Null) || (StatusColumn in sent && sent[StatusColumn] == Null)
  {
    forall c | c in ApplicantRequired
      ensures c in UpdateOrder
    {
      assert c == UpdateOrder[0] || c == UpdateOrder[11];
    }
    SetFieldsSetsNull(UpdateOrder, sent, ApplicantRequired);
    assert UpdatePayload(sent) == SetFields(UpdateOrder, sent);
    if FirstName in sent && sent[FirstName] == Null {
      assert FirstName in ApplicantRequired;
    } else if StatusColumn in sent && sent[StatusColumn] == Null {
      assert StatusColumn in ApplicantRequired;
    }
  }

  /** The request fields are distinct columns, each on the service's whitelist. */
  lemma UpdateOrderFacts()
    ensures forall i, j :: 0 <= i < j < |UpdateOrder| ==> UpdateOrder[i] != UpdateOrder[j]
    ensures forall i :: 0 <= i < |UpdateOrder| ==> UpdateOrder[i] in ApplicantFields
  {
  }

  /** `create_applicant`: the gate (404, 403); then the service's create. The
      requester is the creator, so a create that passes the duplicate check always
      commits the applicant and its `create` audit entry by the requester. */
  method CreateApplicant(store: Store, requesterId: int, d: ApplicantData) returns (r: Result<Row<Applicant>>)
    modifies store
    ensures GetUserObj(old(store.db.users), requesterId).Err? ==>
              r == Err(GetUserObj(old(store.db.users), requesterId).error) && store.db == old(store.db)
    ensures GetUserObj(old(store.db.users), requesterId).Ok? && DuplicateApplicant(old(store.db.applicants), d.nationalId, d.passportNumber) ==>
              r == Err(HttpException(Conflict, "Applicant with provided national ID or passport already exists")) &&
              store.db == old(store.db)
    ensures GetUserObj(old(store.db.users), requesterId).Ok? && !DuplicateApplicant(old(store.db.applicants), d.nationalId, d.passportNumber) ==>
              var created := Row(old(store.db.applicants.nextId), NewApplicant(d, old(store.db.clock)));
              && r == Ok(created)
              && store.db == old(store.db).(applicants := old(store.db.applicants).Add(created.val),
                   auditLog := old(store.db.auditLog).Add(AuditLog(created.id, requesterId, ApplicantDataChange, Create,
                     None, Some(ApplicantService.NameSnapshot(Str(d.firstName), OptStr(d.lastName))), old(store.db.clock) + 1)),
                   clock := old(store.db.clock) + 2)
  {
    var requester := GetUserObj(store.db.users, requesterId);
    if requester.Err? {
      return Err(requester.error);
    }
    r := ApplicantService.CreateApplicant(store, d, requester.value);
  }

  /** `get_applicant`: the gate (404, 403), then the stored applicant (404). */
  function GetApplicant(store: Store, requesterId: int, id: int): (r: Result<Row<Applicant>>)
    reads store
    ensures GetUserObj(store.db.users, requesterId).Err? ==> r == Err(GetUserObj(store.db.users, requesterId).error)
    ensures GetUserObj(store.db.users, requesterId).Ok? && !store.db.applicants.Has(id) ==>
              r == Err(HttpException(NotFound, "Applicant not found"))
    ensures r.Ok? <==> GetUserObj(store.db.users, requesterId).Ok? && store.db.applicants.Has(id)
    ensures r.Ok? ==> r.value == Row(id, store.db.applicants.rows[id])
  {
    match GetUserObj(store.db.users, requesterId)
    case Err(e) => Err(e)
    case Ok(_) => store.GetApplicant(id)
  }

  /** `update_applicant`: the gate (404, 403); then the service's update of the fields
      the client set: a missing applicant (404); a first name or status sent as null
      (500, nothing written); otherwise the update is committed together with its
      `update` audit entry by the requester. Neither the whitelist
      400 nor the snapshot's server error can reach a client through this route. */
  method UpdateApplicant(store: Store, requesterId: int, id: int, sent: map<Column, Value>) returns (r: Result<Row<Applicant>>)
    modifies store
    ensures GetUserObj(old(store.db.users), requesterId).Err? ==>
              r == Err(GetUserObj(old(store.db.users), requesterId).error) && store.db == old(store.db)
    ensures GetUserObj(old(store.db.users), requesterId).Ok? && !old(store.db.applicants).Has(id) ==>
              r == Err(HttpException(NotFound, "Applicant not found")) && store.db == old(store.db)
    ensures GetUserObj(old(store.db.users), requesterId).Ok? && old(store.db.applicants).Has(id) &&
            SetsNull(UpdatePayload(sent), ApplicantRequired) ==>
              r == Err(DatabaseError) && store.db == old(store.db)
    ensures GetUserObj(old(store.db.users), requesterId).Ok? && old(store.db.applicants).Has(id) &&
            !SetsNull(UpdatePayload(sent), ApplicantRequired) ==>
              var u := UpdatePayload(sent);
              var before := old(store.db.applicants.rows[id]);
              var after := UpdatedApplicant(before, u, old(store.db.clock));
              var snapshots := ApplicantService.UpdateSnapshots(before, after, u);
              && snapshots.Ok?
              && r == Ok(Row(id, after))
              && store.db == old(store.db).(applicants := old(store.db.applicants).Update(id, after),
                   auditLog := old(store.db.auditLog).Add(AuditLog(id, requesterId, ApplicantDataChange, Update,
                     Some(snapshots.value.0), Some(snapshots.value.1), old(store.db.clock) + 1)),
                   clock := old(store.db.clock) + 2)
  {
    var requester := GetUserObj(store.db.users, requesterId);
    if requester.Err? {
      return Err(requester.error);
    }
    r := ApplicantService.UpdateApplicant(store, id, UpdatePayload(sent), requester.value);
  }

  /** `delete_applicant`: the gate (404, 403); then the service's delete. The
      "Applicant deleted" answer is never given: a refused delete answers with its
      error (400 for comments or specialty links, 500 while audit entries refer to
      the applicant, which every applicant created through these routes has), and a
      committed delete answers 404 from the failing audit write. */
  method DeleteApplicant(store: Store, requesterId: int, id: int) returns (r: Result<()>)
    modifies store
    ensures r.Err?
    ensures GetUserObj(old(store.db.users), requesterId).Err? ==>
              r == Err(GetUserObj(old(store.db.users), requesterId).error) && store.db == old(store.db)
    ensures GetUserObj(old(store.db.users), requesterId).Ok? && old(store.db.applicants).Has(id) &&
            !HasComments(old(store.db.comments), id) && !LinkedLeft(old(store.db.applicantSpecialties), id) &&
            HasAuditEntries(old(store.db.auditLog), id) ==>
              r == Err(DatabaseError)
    ensures GetUserObj(old(store.db.users), requesterId).Ok? && old(store.db.applicants).Has(id) &&
            !HasComments(old(store.db.comments), id) && !LinkedLeft(old(store.db.applicantSpecialties), id) &&
            !HasAuditEntries(old(store.db.auditLog), id) ==>
              r == Err(HttpException(NotFound, "Applicant not found")) &&
              store.db == old(store.db).(applicants := old(store.db.applicants).Remove(id))
    ensures !(GetUserObj(old(store.db.users), requesterId).Ok? && old(store.db.applicants).Has(id) &&
              !HasComments(old(store.db.comments), id) && !LinkedLeft(old(store.db.applicantSpecialties), id) &&
              !HasAuditEntries(old(store.db.auditLog), id)) ==>
              store.db == old(store.db)
  {
    var requester := GetUserObj(store.db.users, requesterId);
    if requester.Err? {
      return Err(requester.error);
    }
    r := ApplicantService.DeleteApplicant(store, id, requester.value);
  }

  /** `get_applicants`: the gate (404, 403), then the applicant listing; page 1 of
      20 rows unless the client asks otherwise. */
  function ListApplicants(store: Store, requesterId: int, page: int := 1, pageSize: int := 20): (r: Result<Page<Row<Applicant>>>)
    reads store
    ensures GetUserObj(store.db.users, requesterId).Err? ==> r == Err(GetUserObj(store.db.users, requesterId).error)
    ensures GetUserObj(store.db.users, requesterId).Ok? ==> r == TableListing(store.db.applicants, page, pageSize)
  {
    match GetUserObj(store.db.users, requesterId)
    case Err(e) => Err(e)
    case Ok(_) => TableListing(store.db.applicants, page, pageSize)
  }
}

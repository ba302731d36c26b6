/** The specialty routes (api/v1/routers/specialty.py). Every handler first passes
    the requester through the gate; creating, updating and deleting a specialty is
    further reserved to admins, checked after the gate, so a deactivated admin is
    refused as inactive. Reading and listing need only an active requester. */
module SpecialtyRouter {
  import opened Outcomes
  import opened Models
  import opened Tables
  import opened Fields
  import opened Crud
  import opened Pagination
  import opened Gate
  import SpecialtyService

  /** The fields of the specialty update request, in declaration order. */
  const UpdateOrder: seq<Column> := [Name, Code, Faculty, DegreeLevel]

  /** `updates.dict(exclude_unset=True)`: the payload holds exactly the request
      fields the client set, once each, with the values sent; all of them are on the
      service's whitelist. */
  function UpdatePayload(sent: map<Column, Value>): (u: Updates)
    ensures DistinctKeys(u) && FirstDisallowed(u, SpecialtyColumns).None?
    ensures forall k :: 0 <= k < |u| ==> u[k].0.col in sent && u[k].1 == sent[u[k].0.col]
    ensures forall c :: c in sent && c in SpecialtyColumns ==> Col(c) in Keys(u)
  {
    UpdateOrderFacts();
    SetFieldsAllowed(UpdateOrder, sent, SpecialtyColumns);
    SetFieldsComplete(UpdateOrder, sent);
    SetFieldsDistinct(UpdateOrder, sent);
    SetFields(UpdateOrder, sent)
  }

  /** The payload sets a NOT NULL column to NULL exactly when the client sent
      null for the name or the code. */
  lemma PayloadSetsNull(sent: map<Column, Value>)
    ensures SetsNull(UpdatePayload(sent), SpecialtyRequired) <==>
              (Name in sent && sent[Name] == Null) || (Code in sent && sent[Code] == Null)
  {
    forall c | c in SpecialtyRequired
      ensures c in UpdateOrder
    {
      assert c == UpdateOrder[0] || c == UpdateOrder[1];
    }
    SetFieldsSetsNull(UpdateOrder, sent, SpecialtyRequired);
    assert UpdatePayload(sent) == SetFields(UpdateOrder, sent);
    if Name in sent && sent[Name] == Null {
      assert Name in SpecialtyRequired;
    } else if Code in sent && sent[Code] == Null {
      assert Code in SpecialtyRequired;
    }
  }

  /** The request fields are distinct columns, each on the service's whitelist. */
  lemma UpdateOrderFacts()
    ensures forall i, j :: 0 <= i < j < |UpdateOrder| ==> UpdateOrder[i] != UpdateOrder[j]
    ensures forall i :: 0 <= i < |UpdateOrder| ==> UpdateOrder[i] in SpecialtyColumns
  {
  }

  /** `create_specialty`: the gate (404, 403), the admin check (403); then the
      service's create (409 on a name or code clash). */
  method CreateSpecialty(store: Store, requesterId: int, name: string, code: string, faculty: Option<string>, degreeLevel: Option<string>)
    returns (r: Result<Row<Specialty>>)
    modifies store
    ensures GetAdmin(old(store.db.users), requesterId, "Only admins can create specialties").Err? ==>
              r == Err(GetAdmin(old(store.db.users), requesterId, "Only admins can create specialties").error) &&
              store.db == old(store.db)
    ensures GetAdmin(old(store.db.users), requesterId, "Only admins can create specialties").Ok? &&
            SpecialtyClash(old(store.db.specialties), name, code) ==>
              r == Err(HttpException(Conflict, "Specialty with this name or code already exists")) && store.db == old(store.db)
    ensures GetAdmin(old(store.db.users), requesterId, "Only admins can create specialties").Ok? &&
            !SpecialtyClash(old(store.db.specialties), name, code) ==>
              && r == Ok(Row(old(store.db.specialties.nextId), NewSpecialty(name, code, faculty, degreeLevel)))
              && store.db == old(store.db).(specialties := old(store.db.specialties).Add(r.value.val))
  {
    var requester := GetAdmin(store.db.users, requesterId, "Only admins can create specialties");
    if requester.Err? {
      return Err(requester.error);
    }
    r := SpecialtyService.CreateSpecialty(store, name, code, faculty, degreeLevel);
  }

  /** `get_specialty`: the gate (404, 403), then the stored specialty (404). */
  function GetSpecialty(store: Store, requesterId: int, id: int): (r: Result<Row<Specialty>>)
    reads store
    ensures GetUserObj(store.db.users, requesterId).Err? ==> r == Err(GetUserObj(store.db.users, requesterId).error)
    ensures GetUserObj(store.db.users, requesterId).Ok? && !store.db.specialties.Has(id) ==>
              r == Err(HttpException(NotFound, "Specialty not found"))
    ensures r.Ok? <==> GetUserObj(store.db.users, requesterId).Ok? && store.db.specialties.Has(id)
    ensures r.Ok? ==> r.value == Row(id, store.db.specialties.rows[id])
  {
    match GetUserObj(store.db.users, requesterId)
    case Err(e) => Err(e)
    case Ok(_) => store.GetSpecialty(id)
  }

  /** `update_specialty`: the gate (404, 403), the admin check (403); then the
      service's update of the fields the client set: a missing specialty (404),
      a name or code sent as null (500, nothing written); otherwise those fields take
      the values sent. */
  method UpdateSpecialty(store: Store, requesterId: int, id: int, sent: map<Column, Value>) returns (r: Result<Row<Specialty>>)
    modifies store
    ensures GetAdmin(old(store.db.users), requesterId, "Only admins can update specialties").Err? ==>
              r == Err(GetAdmin(old(store.db.users), requesterId, "Only admins can update specialties").error) &&
              store.db == old(store.db)
    ensures GetAdmin(old(store.db.users), requesterId, "Only admins can update specialties").Ok? &&
            !old(store.db.specialties).Has(id) ==>
              r == Err(HttpException(NotFound, "Specialty not found")) && store.db == old(store.db)
    ensures GetAdmin(old(store.db.users), requesterId, "Only admins can update specialties").Ok? &&
            old(store.db.specialties).Has(id) && SetsNull(UpdatePayload(sent), SpecialtyRequired) ==>
              r == Err(DatabaseError) && store.db == old(store.db)
    ensures GetAdmin(old(store.db.users), requesterId, "Only admins can update specialties").Ok? &&
            old(store.db.specialties).Has(id) && !SetsNull(UpdatePayload(sent), SpecialtyRequired) ==>
              && r == Ok(Row(id, Specialty(Updated(old(store.db.specialties.rows[id]).attrs, UpdatePayload(sent)))))
              && store.db == old(store.db).(specialties := old(store.db.specialties).Update(id, r.value.val))
  {
    var requester := GetAdmin(store.db.users, requesterId, "Only admins can update specialties");
    if requester.Err? {
      return Err(requester.error);
    }
    if store.db.specialties.Has(id) {
      NullsAfterUpdate(store.db.specialties.rows[id].attrs, UpdatePayload(sent), SpecialtyRequired);
    }
    r := SpecialtyService.UpdateSpecialty(store, id, UpdatePayload(sent));
  }

  /** `delete_specialty`: the gate (404, 403), the admin check (403); then the store's
      delete: a missing specialty (404), one linked to applicants or to exams (400);
      otherwise the specialty is removed. */
  method DeleteSpecialty(store: Store, requesterId: int, id: int) returns (r: Result<()>)
    modifies store
    ensures GetAdmin(old(store.db.users), requesterId, "Only admins can delete specialties").Err? ==>
              r == Err(GetAdmin(old(store.db.users), requesterId, "Only admins can delete specialties").error)
    ensures GetAdmin(old(store.db.users), requesterId, "Only admins can delete specialties").Ok? ==>
              && (!old(store.db.specialties).Has(id) ==> r == Err(HttpException(NotFound, "Specialty not found")))
              && (old(store.db.specialties).Has(id) && LinkedRight(old(store.db.applicantSpecialties), id) ==>
                    r == Err(HttpException(BadRequest, "Cannot delete specialty linked to applicants")))
              && (old(store.db.specialties).Has(id) && !LinkedRight(old(store.db.applicantSpecialties), id) &&
                  LinkedLeft(old(store.db.specialtyExams), id) ==>
                    r == Err(HttpException(BadRequest, "Cannot delete specialty linked to exams")))
    ensures r.Err? ==> store.db == old(store.db)
    ensures r.Ok? <==>
              && GetAdmin(old(store.db.users), requesterId, "Only admins can delete specialties").Ok?
              && old(store.db.specialties).Has(id) && !LinkedRight(old(store.db.applicantSpecialties), id)
              && !LinkedLeft(old(store.db.specialtyExams), id)
    ensures r.Ok? ==> store.db == old(store.db).(specialties := old(store.db.specialties).Remove(id))
  {
    var requester := GetAdmin(store.db.users, requesterId, "Only admins can delete specialties");
    if requester.Err? {
      return Err(requester.error);
    }
    r := store.DeleteSpecialty(id);
  }

  /** `list_specialties`: the gate (404, 403), then the specialty listing; page 1 of
      20 rows unless the client asks otherwise. */
  function ListSpecialties(store: Store, requesterId: int, page: int := 1, pageSize: int := 20): (r: Result<Page<Row<Specialty>>>)
    reads store
    ensures GetUserObj(store.db.users, requesterId).Err? ==> r == Err(GetUserObj(store.db.users, requesterId).error)
    ensures GetUserObj(store.db.users, requesterId).Ok? ==> r == TableListing(store.db.specialties, page, pageSize)
  {
    match GetUserObj(store.db.users, requesterId)
    case Err(e) => Err(e)
    case Ok(_) => TableListing(store.db.specialties, page, pageSize)
  }
}

/** The exam routes (api/v1/routers/exam.py). Every handler first passes
    the requester through the gate; creating, updating and deleting an exam is
    further reserved to admins, checked after the gate, so a deactivated admin is
    refused as inactive. Reading and listing need only an active requester. */
module ExamRouter {
  import opened Outcomes
  import opened Models
  import opened Tables
  import opened Fields
  import opened Crud
  import opened Pagination
  import opened Gate
  import ExamService

  /** The fields of the exam update request, in declaration order. */
  const UpdateOrder: seq<Column> := [Name, ExamTypeColumn, MinScore]

  /** `updates.dict(exclude_unset=True)`: the payload holds exactly the request
      fields the client set, once each, with the values sent; all of them are on the
      service's whitelist. */
  function UpdatePayload(sent: map<Column, Value>): (u: Updates)
    ensures DistinctKeys(u) && FirstDisallowed(u, ExamColumns).None?
    ensures forall k :: 0 <= k < |u| ==> u[k].0.col in sent && u[k].1 == sent[u[k].0.col]
    ensures forall c :: c in sent && c in ExamColumns ==> Col(c) in Keys(u)
  {
    UpdateOrderFacts();
    SetFieldsAllowed(UpdateOrder, sent, ExamColumns);
    SetFieldsComplete(UpdateOrder, sent);
    SetFieldsDistinct(UpdateOrder, sent);
    SetFields(UpdateOrder, sent)
  }

  /** The payload sets a NOT NULL column to NULL exactly when the client sent
      null for the name or the type. */
  lemma PayloadSetsNull(sent: map<Column, Value>)
    ensures SetsNull(UpdatePayload(sent), ExamRequired) <==>
              (Name in sent && sent[Name] == Null) || (ExamTypeColumn in sent && sent[ExamTypeColumn] == Null)
  {
    forall c | c in ExamRequired
      ensures c in UpdateOrder
    {
      assert c == UpdateOrder[0] || c == UpdateOrder[1];
    }
    SetFieldsSetsNull(UpdateOrder, sent, ExamRequired);
    assert UpdatePayload(sent) == SetFields(UpdateOrder, sent);
    if Name in sent && sent[Name] == Null {
      assert Name in ExamRequired;
    } else if ExamTypeColumn in sent && sent[ExamTypeColumn] == Null {
      assert ExamTypeColumn in ExamRequired;
    }
  }

  /** The request fields are distinct columns, each on the service's whitelist. */
  lemma UpdateOrderFacts()
    ensures forall i, j :: 0 <= i < j < |UpdateOrder| ==> UpdateOrder[i] != UpdateOrder[j]
    ensures forall i :: 0 <= i < |UpdateOrder| ==> UpdateOrder[i] in ExamColumns
  {
  }

  /** `create_exam`: the gate (404, 403), the admin check (403); then the
      service's create (409 on a clash of both name and type). */
  method CreateExam(store: Store, requesterId: int, name: string, examType: ExamType, minScore: Option<int>)
    returns (r: Result<Row<Exam>>)
    modifies store
    ensures GetAdmin(old(store.db.users), requesterId, "Only admins can create exams").Err? ==>
              r == Err(GetAdmin(old(store.db.users), requesterId, "Only admins can create exams").error) &&
              store.db == old(store.db)
    ensures GetAdmin(old(store.db.users), requesterId, "Only admins can create exams").Ok? &&
            ExamClash(old(store.db.exams), name, examType) ==>
              r == Err(HttpException(Conflict, "Exam with this name and type already exists")) && store.db == old(store.db)
    ensures GetAdmin(old(store.db.users), requesterId, "Only admins can create exams").Ok? &&
            !ExamClash(old(store.db.exams), name, examType) ==>
              && r == Ok(Row(old(store.db.exams.nextId), NewExam(name, examType, minScore)))
              && store.db == old(store.db).(exams := old(store.db.exams).Add(r.value.val))
  {
    var requester := GetAdmin(store.db.users, requesterId, "Only admins can create exams");
    if requester.Err? {
      return Err(requester.error);
    }
    r := ExamService.CreateExam(store, name, examType, minScore);
  }

  /** `get_exam`: the gate (404, 403), then the stored exam (404). */
  function GetExam(store: Store, requesterId: int, id: int): (r: Result<Row<Exam>>)
    reads store
    ensures GetUserObj(store.db.users, requesterId).Err? ==> r == Err(GetUserObj(store.db.users, requesterId).error)
    ensures GetUserObj(store.db.users, requesterId).Ok? && !store.db.exams.Has(id) ==>
              r == Err(HttpException(NotFound, "Exam not found"))
    ensures r.Ok? <==> GetUserObj(store.db.users, requesterId).Ok? && store.db.exams.Has(id)
    ensures r.Ok? ==> r.value == Row(id, store.db.exams.rows[id])
  {
    match GetUserObj(store.db.users, requesterId)
    case Err(e) => Err(e)
    case Ok(_) => store.GetExam(id)
  }

  /** `update_exam`: the gate (404, 403), the admin check (403); then the
      service's update of the fields the client set: a missing exam (404),
      a name or type sent as null (500, nothing written); otherwise those fields take
      the values sent. */
  method UpdateExam(store: Store, requesterId: int, id: int, sent: map<Column, Value>) returns (r: Result<Row<Exam>>)
    modifies store
    ensures GetAdmin(old(store.db.users), requesterId, "Only admins can update exams").Err? ==>
              r == Err(GetAdmin(old(store.db.users), requesterId, "Only admins can update exams").error) &&
              store.db == old(store.db)
    ensures GetAdmin(old(store.db.users), requesterId, "Only admins can update exams").Ok? &&
            !old(store.db.exams).Has(id) ==>
              r == Err(HttpException(NotFound, "Exam not found")) && store.db == old(store.db)
    ensures GetAdmin(old(store.db.users), requesterId, "Only admins can update exams").Ok? &&
            old(store.db.exams).Has(id) && SetsNull(UpdatePayload(sent), ExamRequired) ==>
              r == Err(DatabaseError) && store.db == old(store.db)
    ensures GetAdmin(old(store.db.users), requesterId, "Only admins can update exams").Ok? &&
            old(store.db.exams).Has(id) && !SetsNull(UpdatePayload(sent), ExamRequired) ==>
              && r == Ok(Row(id, Exam(Updated(old(store.db.exams.rows[id]).attrs, UpdatePayload(sent)))))
              && store.db == old(store.db).(exams := old(store.db.exams).Update(id, r.value.val))
  {
    var requester := GetAdmin(store.db.users, requesterId, "Only admins can update exams");
    if requester.Err? {
      return Err(requester.error);
    }
    if store.db.exams.Has(id) {
      NullsAfterUpdate(store.db.exams.rows[id].attrs, UpdatePayload(sent), ExamRequired);
    }
    r := ExamService.UpdateExam(store, id, UpdatePayload(sent));
  }

  /** `delete_exam`: the gate (404, 403), the admin check (403); then the store's
      delete: a missing exam (404), one linked to specialties (400); otherwise the
      exam is removed. */
  method DeleteExam(store: Store, requesterId: int, id: int) returns (r: Result<()>)
    modifies store
    ensures GetAdmin(old(store.db.users), requesterId, "Only admins can delete exams").Err? ==>
              r == Err(GetAdmin(old(store.db.users), requesterId, "Only admins can delete exams").error)
    ensures GetAdmin(old(store.db.users), requesterId, "Only admins can delete exams").Ok? ==>
              && (!old(store.db.exams).Has(id) ==> r == Err(HttpException(NotFound, "Exam not found")))
              && (old(store.db.exams).Has(id) && LinkedRight(old(store.db.specialtyExams), id) ==>
                    r == Err(HttpException(BadRequest, "Cannot delete exam linked to specialties")))
    ensures r.Err? ==> store.db == old(store.db)
    ensures r.Ok? <==>
              && GetAdmin(old(store.db.users), requesterId, "Only admins can delete exams").Ok?
              && old(store.db.exams).Has(id) && !LinkedRight(old(store.db.specialtyExams), id)
    ensures r.Ok? ==> store.db == old(store.db).(exams := old(store.db.exams).Remove(id))
  {
    var requester := GetAdmin(store.db.users, requesterId, "Only admins can delete exams");
    if requester.Err? {
      return Err(requester.error);
    }
    r := store.DeleteExam(id);
  }

  /** `list_exams`: the gate (404, 403), then the exam listing; page 1 of
      20 rows unless the client asks otherwise. */
  function ListExams(store: Store, requesterId: int, page: int := 1, pageSize: int := 20): (r: Result<Page<Row<Exam>>>)
    reads store
    ensures GetUserObj(store.db.users, requesterId).Err? ==> r == Err(GetUserObj(store.db.users, requesterId).error)
    ensures GetUserObj(store.db.users, requesterId).Ok? ==> r == TableListing(store.db.exams, page, pageSize)
  {
    match GetUserObj(store.db.users, requesterId)
    case Err(e) => Err(e)
    case Ok(_) => TableListing(store.db.exams, page, pageSize)
  }
}

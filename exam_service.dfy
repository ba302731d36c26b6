/** The exam service (api/v1/services/exam.py): the service's own name-and-type
    clash check before the store's `create_exam`, its own whitelist loop before the
    store's `update_exam`; its listing is `Pagination.TableListing` over the exams.
    Reading and deleting one exam are the store's `get_exam` and `delete_exam`
    unchanged (`Crud.Store.GetExam`, `Crud.Store.DeleteExam`). */
module ExamService {
  import opened Outcomes
  import opened Models
  import opened Tables
  import opened Fields
  import opened Crud

  /** `create_exam`: a stored exam with the same name and the same type is a
      conflict (409, nothing written); otherwise the store's `create_exam`, whose own
      check passes, adds exactly the new exam. */
  method CreateExam(store: Store, name: string, examType: ExamType, minScore: Option<int>) returns (r: Result<Row<Exam>>)
    modifies store
    ensures ExamClash(old(store.db.exams), name, examType) ==>
              r == Err(HttpException(Conflict, "Exam with this name and type already exists")) && store.db == old(store.db)
    ensures !ExamClash(old(store.db.exams), name, examType) ==>
              && r == Ok(Row(old(store.db.exams.nextId), NewExam(name, examType, minScore)))
              && store.db == old(store.db).(exams := old(store.db.exams).Add(r.value.val))
  {
    if ExamClash(store.db.exams, name, examType) {
      return Err(HttpException(Conflict, "Exam with this name and type already exists"));
    }
    var created := store.CreateExam(name, examType, minScore);
    r := Ok(created.value);
  }

  /** `update_exam`: a key outside {name, type, min_score} is refused (400) before the
      store is looked at, so even for a missing exam; then the store's update: a
      missing exam (404); an update that leaves the name or the type NULL is refused
      by the database (500) and nothing changes; otherwise the named columns take the
      payload's values. No uniqueness is checked again. */
  method UpdateExam(store: Store, id: int, u: Updates) returns (r: Result<Row<Exam>>)
    modifies store
    ensures FirstDisallowed(u, ExamColumns).Some? ==>
              r == Err(FieldError(u[FirstDisallowed(u, ExamColumns).value].0)) && store.db == old(store.db)
    ensures FirstDisallowed(u, ExamColumns).None? && !old(store.db.exams).Has(id) ==>
              r == Err(HttpException(NotFound, "Exam not found")) && store.db == old(store.db)
    ensures FirstDisallowed(u, ExamColumns).None? && old(store.db.exams).Has(id) &&
            !NoNulls(Updated(old(store.db.exams.rows[id]).attrs, u), ExamRequired) ==>
              r == Err(DatabaseError) && store.db == old(store.db)
    ensures FirstDisallowed(u, ExamColumns).None? && old(store.db.exams).Has(id) &&
            NoNulls(Updated(old(store.db.exams.rows[id]).attrs, u), ExamRequired) ==>
              && r == Ok(Row(id, Exam(Updated(old(store.db.exams.rows[id]).attrs, u))))
              && store.db == old(store.db).(exams := old(store.db.exams).Update(id, r.value.val))
  {
    var refused := CheckFields(u, ExamColumns);
    if refused.Some? {
      return Err(refused.value);
    }
    r := store.UpdateExam(id, u);
  }

  /** A clash needs both columns: when every stored exam of that name has another
      type, an exam of the same name and a new type is accepted. */
  lemma {:induction false} SameNameOtherTypeAccepted(t: Table<Exam>, name: string, examType: ExamType)
    requires forall id :: id in t.rows ==> t.rows[id].WellFormed()
    requires forall id :: id in t.rows && t.rows[id].WellFormed() && t.rows[id].attrs[Name] == Str(name) ==>
               t.rows[id].attrs[ExamTypeColumn] != Type(examType)
    ensures !ExamClash(t, name, examType)
  {
    forall id | id in t.rows
      ensures !(Name in t.rows[id].attrs && t.rows[id].attrs[Name] == Str(name) &&
                ExamTypeColumn in t.rows[id].attrs && t.rows[id].attrs[ExamTypeColumn] == Type(examType))
    {
      assert t.rows[id].WellFormed();
    }
  }

  /** An update may give an exam the name and type of another one: the payload is
      accepted and the row takes both. */
  lemma RetypeMayDuplicate(e: Exam, other: Exam)
    requires e.WellFormed() && other.WellFormed()
    ensures var u := [(Col(Name), other.attrs[Name]), (Col(ExamTypeColumn), other.attrs[ExamTypeColumn])];
      && FirstDisallowed(u, ExamColumns).None?
      && Updated(e.attrs, u)[Name] == other.attrs[Name]
      && Updated(e.attrs, u)[ExamTypeColumn] == other.attrs[ExamTypeColumn]
  {
    var u := [(Col(Name), other.attrs[Name]), (Col(ExamTypeColumn), other.attrs[ExamTypeColumn])];
    assert Allowed(u[0].0, ExamColumns) && Allowed(u[1].0, ExamColumns);
    assert DistinctKeys(u);
    AssignedIsPayload(u, 0);
    AssignedIsPayload(u, 1);
  }
}

/** The applicant service (api/v1/services/applicant.py): the store's applicant
    operations, each followed by an audit entry written with the store's
    `create_audit_log`. The change and its audit entry are two commits: a failing
    audit write leaves the change in place. Reading one applicant is the store's
    `get_applicant` (`Crud.Store.GetApplicant`); the listing is
    `Pagination.TableListing` over the applicants. */
module ApplicantService {
  import opened Outcomes
  import opened Models
  import opened Tables
  import opened Fields
  import opened Crud
  import opened Pagination

  /** The snapshot `{"first_name": ..., "last_name": ...}`. */
  function NameSnapshot(firstName: Value, lastName: Value): Snapshot {
    map[FirstName := firstName, LastName := lastName]
  }

  /** `getattr(applicant, field)` finds the attribute: the key names a column of the
      row, or is the primary key `id`. Any other name raises, and the client sees a
      server error. */
  predicate Gettable(a: Applicant, f: Field) {
    (f.Col? && f.col in a.attrs) || f == Unknown("id")
  }

  /** Every key of the payload can be read from the row. */
  predicate AllGettable(a: Applicant, u: Updates) {
    forall k :: 0 <= k < |u| ==> Gettable(a, u[k].0)
  }

  /** The audit snapshots of an update: the payload's columns before and after. */
  function UpdateSnapshots(before: Applicant, after: Applicant, u: Updates): (r: Result<(Snapshot, Snapshot)>)
    ensures r.Ok? <==> forall k :: 0 <= k < |u| ==> u[k].0.Col? && u[k].0.col in before.attrs && u[k].0.col in after.attrs
  {
    match (Fields.Snapshot(before.attrs, Keys(u)), Fields.Snapshot(after.attrs, Keys(u)))
    case (Ok(b), Ok(a)) => Ok((b, a))
    case _ => Err(InternalError)
  }

  /** The audit snapshots of an accepted update record exactly the payload: both
      have the payload's columns as keys, `before` holds the values the row had,
      and `after` holds the values of the payload. */
  lemma UpdateSnapshotsSpec(a: Applicant, u: Updates, now: nat)
    requires a.WellFormed() && DistinctKeys(u)
    requires FirstDisallowed(u, ApplicantFields).None?
    ensures UpdateSnapshots(a, UpdatedApplicant(a, u, now), u).Ok?
    ensures forall c :: c in UpdateSnapshots(a, UpdatedApplicant(a, u, now), u).value.0 <==> Names(u, c)
    ensures forall c :: c in UpdateSnapshots(a, UpdatedApplicant(a, u, now), u).value.1 <==> Names(u, c)
    ensures forall c :: c in UpdateSnapshots(a, UpdatedApplicant(a, u, now), u).value.0 ==>
              UpdateSnapshots(a, UpdatedApplicant(a, u, now), u).value.0[c] == a.attrs[c]
    ensures forall k :: 0 <= k < |u| ==>
              UpdateSnapshots(a, UpdatedApplicant(a, u, now), u).value.1[u[k].0.col] == u[k].1
  {
    UpdatedApplicantSpec(a, u, now);
    PayloadSnapshots(a, UpdatedApplicant(a, u, now), u);
  }

  /** The snapshots of a payload of settable columns, taken from two rows of which
      the second holds the payload's values. */
  lemma PayloadSnapshots(a: Applicant, b: Applicant, u: Updates)
    requires a.WellFormed() && b.WellFormed()
    requires FirstDisallowed(u, ApplicantFields).None?
    requires forall k :: 0 <= k < |u| ==> b.attrs[u[k].0.col] == u[k].1
    ensures UpdateSnapshots(a, b, u).Ok?
    ensures forall c :: c in UpdateSnapshots(a, b, u).value.0 <==> Names(u, c)
    ensures forall c :: c in UpdateSnapshots(a, b, u).value.1 <==> Names(u, c)
    ensures forall c :: c in UpdateSnapshots(a, b, u).value.0 ==> UpdateSnapshots(a, b, u).value.0[c] == a.attrs[c]
    ensures forall k :: 0 <= k < |u| ==> UpdateSnapshots(a, b, u).value.1[u[k].0.col] == u[k].1
  {
    ApplicantFieldsAreColumns();
    forall k | 0 <= k < |u|
      ensures u[k].0.Col? && u[k].0.col in a.attrs && u[k].0.col in b.attrs
    {
      assert Allowed(u[k].0, ApplicantFields);
    }
    forall c {
      KeysName(u, c);
    }
  }

  /** `create_applicant`: the service's own duplicate check (409, nothing written);
      then the store inserts the applicant, and an audit entry `applicant_data` /
      `create` with no `before` and the given first and last name as `after`,
      by the creating user, is appended. An unknown creator fails the audit write
      with 404 after the applicant is committed. Once the entry is written, the
      applicant can no longer be deleted: the entry's foreign key refuses it. */
  method CreateApplicant(store: Store, d: ApplicantData, createdBy: Row<User>) returns (r: Result<Row<Applicant>>)
    modifies store
    ensures DuplicateApplicant(old(store.db.applicants), d.nationalId, d.passportNumber) ==>
              r == Err(HttpException(Conflict, "Applicant with provided national ID or passport already exists")) &&
              store.db == old(store.db)
    ensures !DuplicateApplicant(old(store.db.applicants), d.nationalId, d.passportNumber) ==>
              var created := Row(old(store.db.applicants.nextId), NewApplicant(d, old(store.db.clock)));
              var applicants := old(store.db.applicants).Add(created.val);
              if old(store.db.users).Has(createdBy.id) then
                && r == Ok(created)
                && store.db == old(store.db).(applicants := applicants,
                     auditLog := old(store.db.auditLog).Add(AuditLog(created.id, createdBy.id, ApplicantDataChange, Create,
                       None, Some(NameSnapshot(Str(d.firstName), OptStr(d.lastName))), old(store.db.clock) + 1)),
                     clock := old(store.db.clock) + 2)
              else
                && r == Err(HttpException(NotFound, "User not found"))
                && store.db == old(store.db).(applicants := applicants, clock := old(store.db.clock) + 1)
    ensures r.Ok? ==> HasAuditEntries(store.db.auditLog, r.value.id)
  {
    if DuplicateApplicant(store.db.applicants, d.nationalId, d.passportNumber) {
      return Err(HttpException(Conflict, "Applicant with provided national ID or passport already exists"));
    }
    // The store repeats the duplicate check, which passes here.
    var created := store.CreateApplicant(d);
    var applicant := created.value;
    var entry := store.CreateAuditLog(applicant.id, createdBy.id, ApplicantDataChange, Create,
                                      None, Some(NameSnapshot(Str(d.firstName), OptStr(d.lastName))));
    if entry.Err? {
      return Err(entry.error);
    }
    assert store.db.auditLog.rows[entry.value.id].applicantId == applicant.id;
    r := Ok(applicant);
  }

  /** `update_applicant`: a missing applicant (404); a payload key that is not an
      attribute of the row, met while taking the `before` snapshot (500); then the
      store's update with its whitelist (400) and its refused commit of a NULL first
      name or status (500). Once the update is committed the
      audit entry `applicant_data` / `update`, by the updating user, is appended with
      the payload's columns before and after; an unknown updating user fails that
      write with 404 and the update stays in place. */
  method UpdateApplicant(store: Store, id: int, u: Updates, updatedBy: Row<User>) returns (r: Result<Row<Applicant>>)
    requires DistinctKeys(u)
    modifies store
    ensures !old(store.db.applicants).Has(id) ==>
              r == Err(HttpException(NotFound, "Applicant not found")) && store.db == old(store.db)
    ensures old(store.db.applicants).Has(id) && !AllGettable(old(store.db.applicants.rows[id]), u) ==>
              r == Err(InternalError) && store.db == old(store.db)
    ensures old(store.db.applicants).Has(id) && AllGettable(old(store.db.applicants.rows[id]), u) &&
            FirstDisallowed(u, ApplicantFields).Some? ==>
              r == Err(FieldError(u[FirstDisallowed(u, ApplicantFields).value].0)) && store.db == old(store.db)
    ensures old(store.db.applicants).Has(id) && AllGettable(old(store.db.applicants.rows[id]), u) &&
            FirstDisallowed(u, ApplicantFields).None? && SetsNull(u, ApplicantRequired) ==>
              r == Err(DatabaseError) && store.db == old(store.db)
    ensures old(store.db.applicants).Has(id) && FirstDisallowed(u, ApplicantFields).None? && !SetsNull(u, ApplicantRequired) ==>
              var before := old(store.db.applicants.rows[id]);
              var after := UpdatedApplicant(before, u, old(store.db.clock));
              var applicants := old(store.db.applicants).Update(id, after);
              var snapshots := UpdateSnapshots(before, after, u);
              && snapshots.Ok?
              && (if old(store.db.users).Has(updatedBy.id) then
                    && r == Ok(Row(id, after))
                    && store.db == old(store.db).(applicants := applicants,
                         auditLog := old(store.db.auditLog).Add(AuditLog(id, updatedBy.id, ApplicantDataChange, Update,
                           Some(snapshots.value.0), Some(snapshots.value.1), old(store.db.clock) + 1)),
                         clock := old(store.db.clock) + 2)
                  else
                    && r == Err(HttpException(NotFound, "User not found"))
                    && store.db == old(store.db).(applicants := applicants, clock := old(store.db.clock) + 1))
  {
    var found := store.GetApplicant(id);
    if found.Err? {
      return found;
    }
    if !AllGettable(found.value.val, u) {
      return Err(InternalError);
    }
    r := CommitUpdate(store, id, u, updatedBy);
  }

  /** The update once the `before` snapshot is taken: the store's update with its
      whitelist (400) and its refused commit of a NULL first name or status (500);
      then the audit write. */
  method CommitUpdate(store: Store, id: int, u: Updates, updatedBy: Row<User>) returns (r: Result<Row<Applicant>>)
    requires DistinctKeys(u) && store.db.applicants.Has(id)
    modifies store
    ensures FirstDisallowed(u, ApplicantFields).Some? ==>
              r == Err(FieldError(u[FirstDisallowed(u, ApplicantFields).value].0)) && store.db == old(store.db)
    ensures FirstDisallowed(u, ApplicantFields).None? && SetsNull(u, ApplicantRequired) ==>
              r == Err(DatabaseError) && store.db == old(store.db)
    ensures FirstDisallowed(u, ApplicantFields).None? && !SetsNull(u, ApplicantRequired) ==>
              var before := old(store.db.applicants.rows[id]);
              var after := UpdatedApplicant(before, u, old(store.db.clock));
              var applicants := old(store.db.applicants).Update(id, after);
              var snapshots := UpdateSnapshots(before, after, u);
              && snapshots.Ok?
              && (if old(store.db.users).Has(updatedBy.id) then
                    && r == Ok(Row(id, after))
                    && store.db == old(store.db).(applicants := applicants,
                         auditLog := old(store.db.auditLog).Add(AuditLog(id, updatedBy.id, ApplicantDataChange, Update,
                           Some(snapshots.value.0), Some(snapshots.value.1), old(store.db.clock) + 1)),
                         clock := old(store.db.clock) + 2)
                  else
                    && r == Err(HttpException(NotFound, "User not found"))
                    && store.db == old(store.db).(applicants := applicants, clock := old(store.db.clock) + 1))
  {
    var now := store.db.clock;
    var before := store.db.applicants.rows[id];
    var updated := UpdateRow(store, id, u);
    if updated.Err? {
      return updated;
    }
    UpdateSnapshotsSpec(before, u, now);
    r := RecordUpdate(store, before, u, updatedBy, updated.value);
  }

  /** The store's update of an existing applicant, its refusals stated on the
      payload: a key outside the whitelist (400), a NULL first name or status
      (500). */
  method UpdateRow(store: Store, id: int, u: Updates) returns (r: Result<Row<Applicant>>)
    requires DistinctKeys(u) && store.db.applicants.Has(id)
    modifies store
    ensures FirstDisallowed(u, ApplicantFields).Some? ==>
              r == Err(FieldError(u[FirstDisallowed(u, ApplicantFields).value].0)) && store.db == old(store.db)
    ensures FirstDisallowed(u, ApplicantFields).None? && SetsNull(u, ApplicantRequired) ==>
              r == Err(DatabaseError) && store.db == old(store.db)
    ensures FirstDisallowed(u, ApplicantFields).None? && !SetsNull(u, ApplicantRequired) ==>
              var after := UpdatedApplicant(old(store.db.applicants.rows[id]), u, old(store.db.clock));
              && r == Ok(Row(id, after))
              && store.db == old(store.db).(applicants := old(store.db.applicants).Update(id, after),
                                            clock := old(store.db.clock) + 1)
  {
    var before := store.db.applicants.rows[id];
    ApplicantFieldsAreColumns();
    NullsAfterUpdate(before.attrs, u, ApplicantRequired);
    r := store.UpdateApplicant(id, u);
  }

  /** The audit write after a committed update: the entry `applicant_data` /
      `update` by the updating user, with the payload's columns before and after;
      an unknown updating user fails it with 404 and nothing more is written. */
  method RecordUpdate(store: Store, before: Applicant, u: Updates, updatedBy: Row<User>, updated: Row<Applicant>)
    returns (r: Result<Row<Applicant>>)
    requires store.db.applicants.Has(updated.id)
    requires UpdateSnapshots(before, updated.val, u).Ok?
    modifies store
    ensures var snapshots := UpdateSnapshots(before, updated.val, u).value;
            old(store.db.users).Has(updatedBy.id) ==>
              && r == Ok(updated)
              && store.db == old(store.db).(auditLog := old(store.db.auditLog).Add(AuditLog(updated.id, updatedBy.id,
                   ApplicantDataChange, Update, Some(snapshots.0), Some(snapshots.1), old(store.db.clock))),
                   clock := old(store.db.clock) + 1)
    ensures !old(store.db.users).Has(updatedBy.id) ==>
              r == Err(HttpException(NotFound, "User not found")) && store.db == old(store.db)
  {
    var snapshots := UpdateSnapshots(before, updated.val, u).value;
    var entry := store.CreateAuditLog(updated.id, updatedBy.id, ApplicantDataChange, Update, Some(snapshots.0), Some(snapshots.1));
    r := if entry.Err? then Err(entry.error) else Ok(updated);
  }

  /** `delete_applicant`: a missing applicant (404), then the store's delete with its
      refusals (400) and its refused commit while audit entries refer to the
      applicant (500). After a committed delete the audit write looks the applicant up
      again, no longer finds it, and fails with 404: the delete stays in place, no
      audit entry is written, and the caller gets the 404. */
  method DeleteApplicant(store: Store, id: int, deletedBy: Row<User>) returns (r: Result<()>)
    modifies store
    ensures r.Err?
    ensures !old(store.db.applicants).Has(id) ==>
              r == Err(HttpException(NotFound, "Applicant not found")) && store.db == old(store.db)
    ensures old(store.db.applicants).Has(id) && HasComments(old(store.db.comments), id) ==>
              r == Err(HttpException(BadRequest, "Cannot delete applicant with existing comments")) && store.db == old(store.db)
    ensures old(store.db.applicants).Has(id) && !HasComments(old(store.db.comments), id) &&
            LinkedLeft(old(store.db.applicantSpecialties), id) ==>
              r == Err(HttpException(BadRequest, "Cannot delete applicant linked to specialties")) && store.db == old(store.db)
    ensures old(store.db.applicants).Has(id) && !HasComments(old(store.db.comments), id) &&
            !LinkedLeft(old(store.db.applicantSpecialties), id) && HasAuditEntries(old(store.db.auditLog), id) ==>
              r == Err(DatabaseError) && store.db == old(store.db)
    ensures old(store.db.applicants).Has(id) && !HasComments(old(store.db.comments), id) &&
            !LinkedLeft(old(store.db.applicantSpecialties), id) && !HasAuditEntries(old(store.db.auditLog), id) ==>
              r == Err(HttpException(NotFound, "Applicant not found")) &&
              store.db == old(store.db).(applicants := old(store.db.applicants).Remove(id))
  {
    var found := store.GetApplicant(id);
    if found.Err? {
      return Err(found.error);
    }
    var before := NameSnapshot(found.value.val.attrs[FirstName], found.value.val.attrs[LastName]);
    var deleted := store.DeleteApplicant(id);
    if deleted.Err? {
      return deleted;
    }
    var entry := store.CreateAuditLog(id, deletedBy.id, ApplicantDataChange, Delete, Some(before), None);
    r := if entry.Err? then Err(entry.error) else Ok(());
  }

  /** The duplicate test matches NULL against NULL: once a passport number is given,
      creating an applicant without a national ID conflicts with any stored applicant
      that has none either, whatever the passport numbers are. */
  lemma MissingNationalIdMatchesMissing(t: Table<Applicant>, id: int, pp: string)
    requires t.Has(id) && NationalId in t.rows[id].attrs && t.rows[id].attrs[NationalId] == Null
    requires pp != ""
    ensures DuplicateApplicant(t, None, Some(pp))
  {
    assert IdentityMatch(t.rows[id], None, Some(pp));
  }

  /** An update re-checks no uniqueness: any applicant may take the national ID of
      another one. */
  lemma UpdateMayDuplicateNationalId(a: Applicant, other: Applicant, now: nat)
    requires a.WellFormed() && other.WellFormed()
    ensures var u := [(Col(NationalId), other.attrs[NationalId])];
      && FirstDisallowed(u, ApplicantFields).None?
      && UpdatedApplicant(a, u, now).attrs[NationalId] == other.attrs[NationalId]
  {
    var u := [(Col(NationalId), other.attrs[NationalId])];
    assert Allowed(u[0].0, ApplicantFields);
    PayloadColumn(a, u, now, 0);
  }
}

/** The specialty service (api/v1/services/speciality.py): the service's own
    name-or-code clash check before the store's `create_specialty`, its own
    whitelist loop before the store's `update_specialty`; its listing is
    `Pagination.TableListing` over the specialties. Reading and deleting one
    specialty are the store's `get_specialty` and `delete_specialty` unchanged (`Crud.Store.GetSpecialty`,
    `Crud.Store.DeleteSpecialty`). */
module SpecialtyService {
  import opened Outcomes
  import opened Models
  import opened Tables
  import opened Fields
  import opened Crud
  import opened Pagination

  /** `create_specialty`: a stored specialty with the same name or the same code is
      a conflict (409, nothing written); otherwise the store's `create_specialty`,
      whose own check passes, adds exactly the new specialty. */
  method CreateSpecialty(store: Store, name: string, code: string, faculty: Option<string>, degreeLevel: Option<string>)
    returns (r: Result<Row<Specialty>>)
    modifies store
    ensures SpecialtyClash(old(store.db.specialties), name, code) ==>
              r == Err(HttpException(Conflict, "Specialty with this name or code already exists")) && store.db == old(store.db)
    ensures !SpecialtyClash(old(store.db.specialties), name, code) ==>
              && r == Ok(Row(old(store.db.specialties.nextId), NewSpecialty(name, code, faculty, degreeLevel)))
              && store.db == old(store.db).(specialties := old(store.db.specialties).Add(r.value.val))
  {
    if SpecialtyClash(store.db.specialties, name, code) {
      return Err(HttpException(Conflict, "Specialty with this name or code already exists"));
    }
    var created := store.CreateSpecialty(name, code, faculty, degreeLevel);
    r := Ok(created.value);
  }

  /** `update_specialty`: a key outside {name, code, faculty, degree_level} is
      refused (400) before the store is looked at, so even for a missing specialty;
      then the store's update: a missing specialty (404); an update that leaves the
      name or the code NULL is refused by the database (500) and nothing changes;
      otherwise the named columns take the payload's values. No uniqueness is
      checked again. */
  method UpdateSpecialty(store: Store, id: int, u: Updates) returns (r: Result<Row<Specialty>>)
    modifies store
    ensures FirstDisallowed(u, SpecialtyColumns).Some? ==>
              r == Err(FieldError(u[FirstDisallowed(u, SpecialtyColumns).value].0)) && store.db == old(store.db)
    ensures FirstDisallowed(u, SpecialtyColumns).None? && !old(store.db.specialties).Has(id) ==>
              r == Err(HttpException(NotFound, "Specialty not found")) && store.db == old(store.db)
    ensures FirstDisallowed(u, SpecialtyColumns).None? && old(store.db.specialties).Has(id) &&
            !NoNulls(Updated(old(store.db.specialties.rows[id]).attrs, u), SpecialtyRequired) ==>
              r == Err(DatabaseError) && store.db == old(store.db)
    ensures FirstDisallowed(u, SpecialtyColumns).None? && old(store.db.specialties).Has(id) &&
            NoNulls(Updated(old(store.db.specialties.rows[id]).attrs, u), SpecialtyRequired) ==>
              && r == Ok(Row(id, Specialty(Updated(old(store.db.specialties.rows[id]).attrs, u))))
              && store.db == old(store.db).(specialties := old(store.db.specialties).Update(id, r.value.val))
  {
    var refused := CheckFields(u, SpecialtyColumns);
    if refused.Some? {
      return Err(refused.value);
    }
    r := store.UpdateSpecialty(id, u);
  }

  /** A clash needs only one of the two columns: a stored specialty with the same
      name conflicts whatever its code, and one with the same code whatever its
      name. */
  lemma EitherColumnClashes(t: Table<Specialty>, id: int, name: string, code: string)
    requires t.Has(id) && t.rows[id].WellFormed()
    requires t.rows[id].attrs[Name] == Str(name) || t.rows[id].attrs[Code] == Str(code)
    ensures SpecialtyClash(t, name, code)
  {
    assert id in t.rows;
  }

  /** An update may give a specialty the name of another one: the payload is
      accepted and the row takes that name. */
  lemma RenameMayDuplicate(s: Specialty, other: Specialty)
    requires s.WellFormed() && other.WellFormed()
    ensures var u := [(Col(Name), other.attrs[Name])];
      && FirstDisallowed(u, SpecialtyColumns).None?
      && Updated(s.attrs, u)[Name] == other.attrs[Name]
  {
    var u := [(Col(Name), other.attrs[Name])];
    assert Allowed(u[0].0, SpecialtyColumns);
    AssignedIsPayload(u, 0);
  }
}

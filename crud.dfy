/** The data-access layer (core/db/crud.py): the store and every create, get,
    update and delete it offers. Each operation runs its checks in the source's
    order; the first that fails raises its HTTP error and the store is left as it
    was, and only when all pass is the change committed. */
module Crud {
  import opened Outcomes
  import opened Models
  import opened Tables
  import opened Fields

  /** The key of a link row: the pair of ids it joins. */
  type Link = (int, int)

  /** The whole content of the store at one moment: the tables, the two link
      tables keyed by their id pairs (holding the priority, respectively the
      required score), and the clock that stamps new rows. */
  datatype Db = Db(
    users: Table<User>,
    applicants: Table<Applicant>,
    specialties: Table<Specialty>,
    exams: Table<Exam>,
    comments: Table<Comment>,
    auditLog: Table<AuditLog>,
    applicantSpecialties: map<Link, Option<int>>,
    specialtyExams: map<Link, Option<int>>,
    clock: nat)
  {
    ghost predicate Valid() {
      && users.Valid() && applicants.Valid() && specialties.Valid()
      && exams.Valid() && comments.Valid() && auditLog.Valid()
      && UsernamesUnique(users)
      && ApplicantsWellFormed(applicants) && SpecialtiesWellFormed(specialties) && ExamsWellFormed(exams)
      && ApplicantsFilled(applicants) && SpecialtiesFilled(specialties) && ExamsFilled(exams)
      && LinksResolve(applicantSpecialties, applicants.rows.Keys, specialties.rows.Keys)
      && LinksResolve(specialtyExams, specialties.rows.Keys, exams.rows.Keys)
      && CommentsResolve(comments, applicants.rows.Keys, users.rows.Keys)
      && CommentsChronological(comments, clock)
      && AuditChronological(auditLog, clock)
      && AuditResolves(auditLog, applicants.rows.Keys, users.rows.Keys)
    }
  }

  /** The applicant has at least one comment. */
  predicate HasComments(comments: Table<Comment>, applicantId: int) {
    exists id :: id in comments.rows && comments.rows[id].applicantId == applicantId
  }

  /** `username` is declared unique (core/db/models.py:66). */
  ghost predicate UsernamesUnique(users: Table<User>) {
    forall a, b :: a in users.rows && b in users.rows && a != b ==> users.rows[a].username != users.rows[b].username
  }

  /** Rows set by name have exactly their table's columns. */
  ghost predicate ApplicantsWellFormed(t: Table<Applicant>) {
    forall id :: id in t.rows ==> t.rows[id].WellFormed()
  }

  ghost predicate SpecialtiesWellFormed(t: Table<Specialty>) {
    forall id :: id in t.rows ==> t.rows[id].WellFormed()
  }

  ghost predicate ExamsWellFormed(t: Table<Exam>) {
    forall id :: id in t.rows ==> t.rows[id].WellFormed()
  }

  /** No stored row holds NULL in a NOT NULL column. */
  ghost predicate ApplicantsFilled(t: Table<Applicant>) {
    forall id :: id in t.rows ==> NoNulls(t.rows[id].attrs, ApplicantRequired)
  }

  ghost predicate SpecialtiesFilled(t: Table<Specialty>) {
    forall id :: id in t.rows ==> NoNulls(t.rows[id].attrs, SpecialtyRequired)
  }

  ghost predicate ExamsFilled(t: Table<Exam>) {
    forall id :: id in t.rows ==> NoNulls(t.rows[id].attrs, ExamRequired)
  }

  /** Every link joins rows that exist. */
  ghost predicate LinksResolve(links: map<Link, Option<int>>, left: set<int>, right: set<int>) {
    forall l :: l in links ==> l.0 in left && l.1 in right
  }

  /** Every comment belongs to an applicant and a user that exist. */
  ghost predicate CommentsResolve(comments: Table<Comment>, applicantIds: set<int>, userIds: set<int>) {
    forall id :: id in comments.rows ==> comments.rows[id].applicantId in applicantIds && comments.rows[id].userId in userIds
  }

  /** Comments are stamped in the order they were created, before the current time. */
  ghost predicate CommentsChronological(comments: Table<Comment>, clock: nat) {
    && (forall a, b :: a in comments.rows && b in comments.rows && a < b ==> comments.rows[a].createdAt < comments.rows[b].createdAt)
    && (forall a :: a in comments.rows ==> comments.rows[a].createdAt < clock)
  }

  /** Audit entries are stamped in the order they were created, before the current time. */
  ghost predicate AuditChronological(log: Table<AuditLog>, clock: nat) {
    && (forall a, b :: a in log.rows && b in log.rows && a < b ==> log.rows[a].changedAt < log.rows[b].changedAt)
    && (forall a :: a in log.rows ==> log.rows[a].changedAt < clock)
  }

  /** Every audit entry names an applicant and a user that exist: both columns are
      foreign keys (core/db/models.py:211-212). */
  ghost predicate AuditResolves(log: Table<AuditLog>, applicantIds: set<int>, userIds: set<int>) {
    forall id :: id in log.rows ==> log.rows[id].applicantId in applicantIds && log.rows[id].changedByUserId in userIds
  }

  /** Some audit entry is about the applicant. */
  predicate HasAuditEntries(log: Table<AuditLog>, applicantId: int) {
    exists id :: id in log.rows && log.rows[id].applicantId == applicantId
  }

  /** The answer to a commit the database refuses (an `IntegrityError`): the session
      is rolled back and nothing changes. */
  const DatabaseError: HttpException := HttpException(ServerError, "Database error occurred")

  /** Some link row has `id` on its left side. */
  predicate LinkedLeft(links: map<Link, Option<int>>, id: int) {
    exists l :: l in links && l.0 == id
  }

  /** Some link row has `id` on its right side. */
  predicate LinkedRight(links: map<Link, Option<int>>, id: int) {
    exists l :: l in links && l.1 == id
  }

  /** `select(User).where(User.username == username)` finds a row. */
  predicate UsernameTaken(t: Table<User>, username: string) {
    exists id :: id in t.rows && t.rows[id].username == username
  }

  /** Python truthiness of an optional string: neither None nor empty. */
  predicate Truthy(s: Option<string>) {
    s.Some? && s.value != ""
  }

  /** The row matches `national_id == nid OR passport_number == pp`, where a None
      argument compares as `IS NULL`. */
  predicate IdentityMatch(a: Applicant, nid: Option<string>, pp: Option<string>) {
    || (NationalId in a.attrs && a.attrs[NationalId] == OptStr(nid))
    || (PassportNumber in a.attrs && a.attrs[PassportNumber] == OptStr(pp))
  }

  /** The duplicate test of applicant creation (core/db/crud.py:107-118): it runs only
      when a national ID or a passport number is given, and then any applicant whose
      national ID or passport number equals the given one, NULL matching NULL, is a
      duplicate. */
  predicate DuplicateApplicant(t: Table<Applicant>, nid: Option<string>, pp: Option<string>) {
    && (Truthy(nid) || Truthy(pp))
    && exists id :: id in t.rows && IdentityMatch(t.rows[id], nid, pp)
  }

  /** `(Specialty.name == name) | (Specialty.code == code)` finds a row. */
  predicate SpecialtyClash(t: Table<Specialty>, name: string, code: string) {
    exists id :: id in t.rows &&
      ((Name in t.rows[id].attrs && t.rows[id].attrs[Name] == Str(name)) ||
       (Code in t.rows[id].attrs && t.rows[id].attrs[Code] == Str(code)))
  }

  /** `(Exam.name == name) & (Exam.type == type_)` finds a row. */
  predicate ExamClash(t: Table<Exam>, name: string, examType: ExamType) {
    exists id :: id in t.rows &&
      Name in t.rows[id].attrs && t.rows[id].attrs[Name] == Str(name) &&
      ExamTypeColumn in t.rows[id].attrs && t.rows[id].attrs[ExamTypeColumn] == Type(examType)
  }

  /** `session.get` followed by the 404 of a missing row. */
  function Lookup<T>(t: Table<T>, id: int, missing: string): (r: Result<Row<T>>)
    ensures r.Ok? <==> t.Has(id)
    ensures r.Ok? ==> r.value == Row(id, t.rows[id])
    ensures r.Err? ==> r.error == HttpException(NotFound, missing)
  {
    match t.Get(id)
    case Some(row) => Ok(row)
    case None => Err(HttpException(NotFound, missing))
  }

  /** Whether the flush of an applicant update writes the row: when some column's
      value changed, or when the payload names `status`. The request's status is a
      member of the request schema's own enumeration, a different class from the
      column's, so the ORM never finds it equal to the stored status and always
      writes it, even when the same status is sent again. */
  predicate RowWritten(a: Applicant, u: Updates) {
    Updated(a.attrs, u) != a.attrs || Names(u, StatusColumn)
  }

  /** An applicant row after the updates `u` at time `now`. `updated_at` is an
      `onupdate` column: it is stamped exactly when the row is written. */
  function UpdatedApplicant(a: Applicant, u: Updates, now: nat): (b: Applicant)
    requires a.WellFormed()
    ensures b.WellFormed()
    ensures NoNulls(Updated(a.attrs, u), ApplicantRequired) ==> NoNulls(b.attrs, ApplicantRequired)
  {
    var attrs := Updated(a.attrs, u);
    if !RowWritten(a, u) then a else Applicant(attrs[UpdatedAt := Stamp(now)])
  }

  /** What an applicant update promises: each settable column named in the payload
      holds the payload's value, every other settable or timestamp column keeps its
      value, and `updated_at` moves to the current time when some column changed
      or the payload names `status`; otherwise the row is left as it was. */
  lemma UpdatedApplicantSpec(a: Applicant, u: Updates, now: nat)
    requires a.WellFormed() && DistinctKeys(u)
    requires FirstDisallowed(u, ApplicantFields).None?
    ensures forall k :: 0 <= k < |u| ==> UpdatedApplicant(a, u, now).attrs[u[k].0.col] == u[k].1
    ensures forall c :: c in ApplicantColumns && c != UpdatedAt && !Names(u, c) ==>
              UpdatedApplicant(a, u, now).attrs[c] == a.attrs[c]
    ensures Updated(a.attrs, u) != a.attrs || Names(u, StatusColumn) ==>
              UpdatedApplicant(a, u, now).attrs[UpdatedAt] == Stamp(now)
    ensures Updated(a.attrs, u) == a.attrs && !Names(u, StatusColumn) ==> UpdatedApplicant(a, u, now) == a
  {
    forall k | 0 <= k < |u|
      ensures UpdatedApplicant(a, u, now).attrs[u[k].0.col] == u[k].1
    {
      PayloadColumn(a, u, now, k);
    }
    forall c | c in ApplicantColumns && c != UpdatedAt && !Names(u, c)
      ensures UpdatedApplicant(a, u, now).attrs[c] == a.attrs[c]
    {
      UnnamedColumn(a, u, now, c);
    }
  }

  /** Sending an applicant's own status again changes no value, yet stamps
      `updated_at`. */
  lemma ResentStatusStamps(a: Applicant, now: nat)
    requires a.WellFormed()
    ensures var u := [(Col(StatusColumn), a.attrs[StatusColumn])];
      && Updated(a.attrs, u) == a.attrs
      && UpdatedApplicant(a, u, now).attrs[UpdatedAt] == Stamp(now)
  {
    var u := [(Col(StatusColumn), a.attrs[StatusColumn])];
    assert Names(u, StatusColumn) by {
      assert u[0].0 == Col(StatusColumn);
    }
    UpdatedSpec(a.attrs, u);
    assert Updated(a.attrs, u) == a.attrs by {
      forall c | c in a.attrs
        ensures Updated(a.attrs, u)[c] == a.attrs[c]
      {
        if c == StatusColumn {
          AssignedIsPayload(u, 0);
        }
      }
    }
  }

  /** One payload key: its column is settable, so not `updated_at`, and takes the
      key's value. */
  lemma PayloadColumn(a: Applicant, u: Updates, now: nat, k: nat)
    requires a.WellFormed() && DistinctKeys(u) && k < |u|
    requires Allowed(u[k].0, ApplicantFields)
    ensures UpdatedApplicant(a, u, now).attrs[u[k].0.col] == u[k].1
  {
    ApplicantFieldsAreColumns();
    assert u[k].0.col in a.attrs && u[k].0.col != UpdatedAt;
    AssignedIsPayload(u, k);
  }

  /** A column no payload key names keeps its value, unless it is `updated_at`. */
  lemma UnnamedColumn(a: Applicant, u: Updates, now: nat, c: Column)
    requires a.WellFormed() && c in a.attrs && c != UpdatedAt && !Names(u, c)
    ensures UpdatedApplicant(a, u, now).attrs[c] == a.attrs[c]
  {
    AssignedIffNamed(u, c);
  }

  // Each kind of commit keeps the store's invariant.

  lemma UserAddedValid(db: Db, u: User)
    requires db.Valid() && !UsernameTaken(db.users, u.username)
    ensures db.(users := db.users.Add(u), clock := db.clock + 1).Valid()
  {
  }

  lemma UserReplacedValid(db: Db, id: int, u: User)
    requires db.Valid() && db.users.Has(id) && u.username == db.users.rows[id].username
    ensures db.(users := db.users.Update(id, u)).Valid()
  {
  }

  lemma ApplicantAddedValid(db: Db, a: Applicant)
    requires db.Valid() && a.WellFormed() && NoNulls(a.attrs, ApplicantRequired)
    ensures db.(applicants := db.applicants.Add(a), clock := db.clock + 1).Valid()
  {
  }

  lemma ApplicantReplacedValid(db: Db, id: int, a: Applicant)
    requires db.Valid() && db.applicants.Has(id) && a.WellFormed() && NoNulls(a.attrs, ApplicantRequired)
    ensures db.(applicants := db.applicants.Update(id, a), clock := db.clock + 1).Valid()
  {
  }

  lemma ApplicantRemovedValid(db: Db, id: int)
    requires db.Valid() && db.applicants.Has(id)
    requires !HasComments(db.comments, id)
    requires !LinkedLeft(db.applicantSpecialties, id)
    requires !HasAuditEntries(db.auditLog, id)
    ensures db.(applicants := db.applicants.Remove(id)).Valid()
  {
  }

  lemma SpecialtyAddedValid(db: Db, s: Specialty)
    requires db.Valid() && s.WellFormed() && NoNulls(s.attrs, SpecialtyRequired)
    ensures db.(specialties := db.specialties.Add(s)).Valid()
  {
  }

  lemma SpecialtyReplacedValid(db: Db, id: int, s: Specialty)
    requires db.Valid() && db.specialties.Has(id) && s.WellFormed() && NoNulls(s.attrs, SpecialtyRequired)
    ensures db.(specialties := db.specialties.Update(id, s)).Valid()
  {
  }

  lemma SpecialtyRemovedValid(db: Db, id: int)
    requires db.Valid() && db.specialties.Has(id)
    requires !LinkedRight(db.applicantSpecialties, id) && !LinkedLeft(db.specialtyExams, id)
    ensures db.(specialties := db.specialties.Remove(id)).Valid()
  {
  }

  lemma ExamAddedValid(db: Db, e: Exam)
    requires db.Valid() && e.WellFormed() && NoNulls(e.attrs, ExamRequired)
    ensures db.(exams := db.exams.Add(e)).Valid()
  {
  }

  lemma ExamReplacedValid(db: Db, id: int, e: Exam)
    requires db.Valid() && db.exams.Has(id) && e.WellFormed() && NoNulls(e.attrs, ExamRequired)
    ensures db.(exams := db.exams.Update(id, e)).Valid()
  {
  }

  lemma ExamRemovedValid(db: Db, id: int)
    requires db.Valid() && db.exams.Has(id)
    requires !LinkedRight(db.specialtyExams, id)
    ensures db.(exams := db.exams.Remove(id)).Valid()
  {
  }

  lemma CommentAddedValid(db: Db, c: Comment)
    requires db.Valid() && db.applicants.Has(c.applicantId) && db.users.Has(c.userId) && c.createdAt == db.clock
    ensures db.(comments := db.comments.Add(c), clock := db.clock + 1).Valid()
  {
  }

  lemma CommentRemovedValid(db: Db, id: int)
    requires db.Valid() && db.comments.Has(id)
    ensures db.(comments := db.comments.Remove(id)).Valid()
  {
  }

  lemma AuditAddedValid(db: Db, e: AuditLog)
    requires db.Valid() && db.applicants.Has(e.applicantId) && db.users.Has(e.changedByUserId) && e.changedAt == db.clock
    ensures db.(auditLog := db.auditLog.Add(e), clock := db.clock + 1).Valid()
  {
  }

  /** A store content that satisfies every integrity rule. */
  type ValidDb = db: Db | db.Valid()
    witness Db(Table(map[], 1), Table(map[], 1), Table(map[], 1), Table(map[], 1), Table(map[], 1), Table(map[], 1), map[], map[], 0)

  /** The store: its content, which every method keeps valid. Every method commits
      at most once, after all of its checks. */
  class Store {
    var db: ValidDb

    // ---------- Users ----------

    /** `create_user`: the role must name a `UserRole` member (400), the username
        must be free (409); then a user with the given password hash, that role,
        active, is inserted under the next id. */
    method CreateUser(username: string, passwordHash: string, role: string) returns (r: Result<Row<User>>)
      modifies this
      ensures ParseRole(role).None? ==> r == Err(HttpException(BadRequest, "Invalid role"))
      ensures ParseRole(role).Some? && UsernameTaken(old(db.users), username) ==>
                r == Err(HttpException(Conflict, "Username already exists"))
      ensures r.Err? ==> db == old(db)
      ensures r.Ok? <==> ParseRole(role).Some? && !UsernameTaken(old(db.users), username)
      ensures r.Ok? ==> r.value == Row(old(db.users.nextId), NewUser(username, passwordHash, ParseRole(role).value, old(db.clock)))
      ensures r.Ok? ==> db == old(db).(users := old(db.users).Add(r.value.val), clock := old(db.clock) + 1)
    {
      var parsed := ParseRole(role);
      if parsed.None? {
        return Err(HttpException(BadRequest, "Invalid role"));
      }
      if UsernameTaken(db.users, username) {
        return Err(HttpException(Conflict, "Username already exists"));
      }
      var user := NewUser(username, passwordHash, parsed.value, db.clock);
      UserAddedValid(db, user);
      r := Ok(Row(db.users.nextId, user));
      db := db.(users := db.users.Add(user), clock := db.clock + 1);
    }

    /** `get_user`. */
    function GetUser(id: int): (r: Result<Row<User>>)
      reads this
      ensures r.Ok? <==> db.users.Has(id)
      ensures r.Ok? ==> r.value == Row(id, db.users.rows[id])
      ensures r.Err? ==> r.error == HttpException(NotFound, "User not found")
    {
      Lookup(db.users, id, "User not found")
    }

    /** `update_user_role`: changing one's own role (400), a non-admin caller (403),
        a missing user (404), a role that names no member (400), in this order;
        then only that user's role changes. */
    method UpdateUserRole(userId: int, newRole: string, current: Row<User>) returns (r: Result<Row<User>>)
      modifies this
      ensures userId == current.id ==> r == Err(HttpException(BadRequest, "You cannot change your own role"))
      ensures userId != current.id && current.val.role != Admin ==>
                r == Err(HttpException(Forbidden, "Only admins can change roles"))
      ensures userId != current.id && current.val.role == Admin && !old(db.users).Has(userId) ==>
                r == Err(HttpException(NotFound, "User not found"))
      ensures userId != current.id && current.val.role == Admin && old(db.users).Has(userId) && ParseRole(newRole).None? ==>
                r == Err(HttpException(BadRequest, "Invalid role"))
      ensures r.Err? ==> db == old(db)
      ensures r.Ok? <==> userId != current.id && current.val.role == Admin && old(db.users).Has(userId) && ParseRole(newRole).Some?
      ensures r.Ok? ==> r.value == Row(userId, old(db.users.rows[userId]).(role := ParseRole(newRole).value))
      ensures r.Ok? ==> db == old(db).(users := old(db.users).Update(userId, r.value.val))
    {
      if userId == current.id {
        return Err(HttpException(BadRequest, "You cannot change your own role"));
      }
      if current.val.role != Admin {
        return Err(HttpException(Forbidden, "Only admins can change roles"));
      }
      var found := GetUser(userId);
      if found.Err? {
        return found;
      }
      var parsed := ParseRole(newRole);
      if parsed.None? {
        return Err(HttpException(BadRequest, "Invalid role"));
      }
      var user := found.value.val.(role := parsed.value);
      UserReplacedValid(db, userId, user);
      db := db.(users := db.users.Update(userId, user));
      r := Ok(Row(userId, user));
    }

    /** `deactivate_user`: a missing user (404), oneself (400), a non-admin caller
        (403), in this order; then only that user's `is_active` becomes false. */
    method DeactivateUser(userId: int, current: Row<User>) returns (r: Result<()>)
      modifies this
      ensures !old(db.users).Has(userId) ==> r == Err(HttpException(NotFound, "User not found"))
      ensures old(db.users).Has(userId) && userId == current.id ==>
                r == Err(HttpException(BadRequest, "You cannot deactivate yourself"))
      ensures old(db.users).Has(userId) && userId != current.id && current.val.role != Admin ==>
                r == Err(HttpException(Forbidden, "Only admins can deactivate users"))
      ensures r.Err? ==> db == old(db)
      ensures r.Ok? <==> old(db.users).Has(userId) && userId != current.id && current.val.role == Admin
      ensures r.Ok? ==> db == old(db).(users := old(db.users).Update(userId, old(db.users.rows[userId]).(isActive := false)))
    {
      var found := GetUser(userId);
      if found.Err? {
        return Err(found.error);
      }
      if found.value.id == current.id {
        return Err(HttpException(BadRequest, "You cannot deactivate yourself"));
      }
      if current.val.role != Admin {
        return Err(HttpException(Forbidden, "Only admins can deactivate users"));
      }
      var user := found.value.val.(isActive := false);
      UserReplacedValid(db, userId, user);
      db := db.(users := db.users.Update(userId, user));
      r := Ok(());
    }

    // ---------- Applicants ----------

    /** `create_applicant`: a duplicate national ID or passport number (409); then the
        applicant is inserted under the next id with the given columns. */
    method CreateApplicant(d: ApplicantData) returns (r: Result<Row<Applicant>>)
      modifies this
      ensures DuplicateApplicant(old(db.applicants), d.nationalId, d.passportNumber) ==>
                r == Err(HttpException(Conflict, "Applicant with provided national ID or passport already exists"))
      ensures r.Err? ==> db == old(db)
      ensures r.Ok? <==> !DuplicateApplicant(old(db.applicants), d.nationalId, d.passportNumber)
      ensures r.Ok? ==> r.value == Row(old(db.applicants.nextId), NewApplicant(d, old(db.clock)))
      ensures r.Ok? ==> db == old(db).(applicants := old(db.applicants).Add(r.value.val), clock := old(db.clock) + 1)
    {
      if DuplicateApplicant(db.applicants, d.nationalId, d.passportNumber) {
        return Err(HttpException(Conflict, "Applicant with provided national ID or passport already exists"));
      }
      var applicant := NewApplicant(d, db.clock);
      ApplicantAddedValid(db, applicant);
      r := Ok(Row(db.applicants.nextId, applicant));
      db := db.(applicants := db.applicants.Add(applicant), clock := db.clock + 1);
    }

    /** `get_applicant`. */
    function GetApplicant(id: int): (r: Result<Row<Applicant>>)
      reads this
      ensures r.Ok? <==> db.applicants.Has(id)
      ensures r.Ok? ==> r.value == Row(id, db.applicants.rows[id])
      ensures r.Err? ==> r.error == HttpException(NotFound, "Applicant not found")
    {
      Lookup(db.applicants, id, "Applicant not found")
    }

    /** `update_applicant`: a missing applicant (404), a key outside the twelve
        settable columns (400, the first such key), a NULL left in a NOT NULL column,
        which the commit refuses (500); then exactly the given columns take the given
        values, `updated_at` is stamped when the row is written (`RowWritten`), and
        nothing else changes. */
    method UpdateApplicant(id: int, u: Updates) returns (r: Result<Row<Applicant>>)
      modifies this
      ensures !old(db.applicants).Has(id) ==> r == Err(HttpException(NotFound, "Applicant not found"))
      ensures old(db.applicants).Has(id) && FirstDisallowed(u, ApplicantFields).Some? ==>
                r == Err(FieldError(u[FirstDisallowed(u, ApplicantFields).value].0))
      ensures old(db.applicants).Has(id) && FirstDisallowed(u, ApplicantFields).None? &&
              !NoNulls(Updated(old(db.applicants.rows[id]).attrs, u), ApplicantRequired) ==>
                r == Err(DatabaseError)
      ensures r.Err? ==> db == old(db)
      ensures r.Ok? <==>
                old(db.applicants).Has(id) && FirstDisallowed(u, ApplicantFields).None? &&
                NoNulls(Updated(old(db.applicants.rows[id]).attrs, u), ApplicantRequired)
      ensures r.Ok? ==> r.value == Row(id, UpdatedApplicant(old(db.applicants.rows[id]), u, old(db.clock)))
      ensures r.Ok? ==> db == old(db).(applicants := old(db.applicants).Update(id, r.value.val), clock := old(db.clock) + 1)
    {
      var found := GetApplicant(id);
      if found.Err? {
        return found;
      }
      assert found.value.val.WellFormed();
      ApplicantFieldsAreColumns();
      var attrs := AssignFields(found.value.val.attrs, ApplicantFields, u);
      if attrs.Err? {
        return Err(attrs.error);
      }
      if !NoNulls(attrs.value, ApplicantRequired) {
        return Err(DatabaseError);
      }
      var applicant := if attrs.value == found.value.val.attrs && !Names(u, StatusColumn) then found.value.val
                       else Applicant(attrs.value[UpdatedAt := Stamp(db.clock)]);
      assert applicant == UpdatedApplicant(found.value.val, u, db.clock);
      ReplaceApplicant(id, applicant);
      r := Ok(Row(id, applicant));
    }

    /** The commit of an accepted applicant update: the row is replaced. */
    method ReplaceApplicant(id: int, a: Applicant)
      requires db.applicants.Has(id) && a.WellFormed() && NoNulls(a.attrs, ApplicantRequired)
      modifies this
      ensures db == old(db).(applicants := old(db.applicants).Update(id, a), clock := old(db.clock) + 1)
    {
      ApplicantReplacedValid(db, id, a);
      db := db.(applicants := db.applicants.Update(id, a), clock := db.clock + 1);
    }

    /** `delete_applicant`: a missing applicant (404), one with comments (400), one
        linked to specialties (400), in this order; then the row is removed, unless
        audit entries still refer to it, in which case the commit breaks their
        foreign key and is refused (500). */
    method DeleteApplicant(id: int) returns (r: Result<()>)
      modifies this
      ensures !old(db.applicants).Has(id) ==> r == Err(HttpException(NotFound, "Applicant not found"))
      ensures old(db.applicants).Has(id) && HasComments(old(db.comments), id) ==>
                r == Err(HttpException(BadRequest, "Cannot delete applicant with existing comments"))
      ensures old(db.applicants).Has(id) && !HasComments(old(db.comments), id) && LinkedLeft(old(db.applicantSpecialties), id) ==>
                r == Err(HttpException(BadRequest, "Cannot delete applicant linked to specialties"))
      ensures old(db.applicants).Has(id) && !HasComments(old(db.comments), id) && !LinkedLeft(old(db.applicantSpecialties), id) &&
              HasAuditEntries(old(db.auditLog), id) ==>
                r == Err(DatabaseError)
      ensures r.Err? ==> db == old(db)
      ensures r.Ok? <==>
                old(db.applicants).Has(id) && !HasComments(old(db.comments), id) && !LinkedLeft(old(db.applicantSpecialties), id) &&
                !HasAuditEntries(old(db.auditLog), id)
      ensures r.Ok? ==> db == old(db).(applicants := old(db.applicants).Remove(id))
    {
      var found := GetApplicant(id);
      if found.Err? {
        return Err(found.error);
      }
      if HasComments(db.comments, id) {
        return Err(HttpException(BadRequest, "Cannot delete applicant with existing comments"));
      }
      if LinkedLeft(db.applicantSpecialties, id) {
        return Err(HttpException(BadRequest, "Cannot delete applicant linked to specialties"));
      }
      if HasAuditEntries(db.auditLog, id) {
        return Err(DatabaseError);
      }
      ApplicantRemovedValid(db, id);
      db := db.(applicants := db.applicants.Remove(id));
      r := Ok(());
    }

    // ---------- Specialties ----------

    /** `create_specialty`: a specialty with the same name or the same code (409);
        then the specialty is inserted under the next id. */
    method CreateSpecialty(name: string, code: string, faculty: Option<string>, degreeLevel: Option<string>)
      returns (r: Result<Row<Specialty>>)
      modifies this
      ensures SpecialtyClash(old(db.specialties), name, code) ==>
                r == Err(HttpException(Conflict, "Specialty with this name or code already exists"))
      ensures r.Err? ==> db == old(db)
      ensures r.Ok? <==> !SpecialtyClash(old(db.specialties), name, code)
      ensures r.Ok? ==> r.value == Row(old(db.specialties.nextId), NewSpecialty(name, code, faculty, degreeLevel))
      ensures r.Ok? ==> db == old(db).(specialties := old(db.specialties).Add(r.value.val))
    {
      if SpecialtyClash(db.specialties, name, code) {
        return Err(HttpException(Conflict, "Specialty with this name or code already exists"));
      }
      var specialty := NewSpecialty(name, code, faculty, degreeLevel);
      SpecialtyAddedValid(db, specialty);
      r := Ok(Row(db.specialties.nextId, specialty));
      db := db.(specialties := db.specialties.Add(specialty));
    }

    /** `get_specialty`. */
    function GetSpecialty(id: int): (r: Result<Row<Specialty>>)
      reads this
      ensures r.Ok? <==> db.specialties.Has(id)
      ensures r.Ok? ==> r.value == Row(id, db.specialties.rows[id])
      ensures r.Err? ==> r.error == HttpException(NotFound, "Specialty not found")
    {
      Lookup(db.specialties, id, "Specialty not found")
    }

    /** `update_specialty`: a missing specialty (404), a key outside name, code,
        faculty and degree level (400), a NULL name or code, which the commit
        refuses (500); then exactly the given columns change. */
    method UpdateSpecialty(id: int, u: Updates) returns (r: Result<Row<Specialty>>)
      modifies this
      ensures !old(db.specialties).Has(id) ==> r == Err(HttpException(NotFound, "Specialty not found"))
      ensures old(db.specialties).Has(id) && FirstDisallowed(u, SpecialtyColumns).Some? ==>
                r == Err(FieldError(u[FirstDisallowed(u, SpecialtyColumns).value].0))
      ensures old(db.specialties).Has(id) && FirstDisallowed(u, SpecialtyColumns).None? &&
              !NoNulls(Updated(old(db.specialties.rows[id]).attrs, u), SpecialtyRequired) ==>
                r == Err(DatabaseError)
      ensures r.Err? ==> db == old(db)
      ensures r.Ok? <==>
                old(db.specialties).Has(id) && FirstDisallowed(u, SpecialtyColumns).None? &&
                NoNulls(Updated(old(db.specialties.rows[id]).attrs, u), SpecialtyRequired)
      ensures r.Ok? ==> r.value == Row(id, Specialty(Updated(old(db.specialties.rows[id]).attrs, u)))
      ensures r.Ok? ==> db == old(db).(specialties := old(db.specialties).Update(id, r.value.val))
    {
      var found := GetSpecialty(id);
      if found.Err? {
        return found;
      }
      var attrs := AssignFields(found.value.val.attrs, SpecialtyColumns, u);
      if attrs.Err? {
        return Err(attrs.error);
      }
      if !NoNulls(attrs.value, SpecialtyRequired) {
        return Err(DatabaseError);
      }
      var specialty := Specialty(attrs.value);
      SpecialtyReplacedValid(db, id, specialty);
      db := db.(specialties := db.specialties.Update(id, specialty));
      r := Ok(Row(id, specialty));
    }

    /** `delete_specialty`: a missing specialty (404), one linked to applicants (400),
        one linked to exams (400), in this order; then the row is removed. */
    method DeleteSpecialty(id: int) returns (r: Result<()>)
      modifies this
      ensures !old(db.specialties).Has(id) ==> r == Err(HttpException(NotFound, "Specialty not found"))
      ensures old(db.specialties).Has(id) && LinkedRight(old(db.applicantSpecialties), id) ==>
                r == Err(HttpException(BadRequest, "Cannot delete specialty linked to applicants"))
      ensures old(db.specialties).Has(id) && !LinkedRight(old(db.applicantSpecialties), id) && LinkedLeft(old(db.specialtyExams), id) ==>
                r == Err(HttpException(BadRequest, "Cannot delete specialty linked to exams"))
      ensures r.Err? ==> db == old(db)
      ensures r.Ok? <==> old(db.specialties).Has(id) && !LinkedRight(old(db.applicantSpecialties), id) && !LinkedLeft(old(db.specialtyExams), id)
      ensures r.Ok? ==> db == old(db).(specialties := old(db.specialties).Remove(id))
    {
      var found := GetSpecialty(id);
      if found.Err? {
        return Err(found.error);
      }
      if LinkedRight(db.applicantSpecialties, id) {
        return Err(HttpException(BadRequest, "Cannot delete specialty linked to applicants"));
      }
      if LinkedLeft(db.specialtyExams, id) {
        return Err(HttpException(BadRequest, "Cannot delete specialty linked to exams"));
      }
      SpecialtyRemovedValid(db, id);
      db := db.(specialties := db.specialties.Remove(id));
      r := Ok(());
    }

    // ---------- Exams ----------

    /** `create_exam`: an exam with the same name and the same type (409); then the
        exam is inserted under the next id. */
    method CreateExam(name: string, examType: ExamType, minScore: Option<int>) returns (r: Result<Row<Exam>>)
      modifies this
      ensures ExamClash(old(db.exams), name, examType) ==>
                r == Err(HttpException(Conflict, "Exam with this name and type already exists"))
      ensures r.Err? ==> db == old(db)
      ensures r.Ok? <==> !ExamClash(old(db.exams), name, examType)
      ensures r.Ok? ==> r.value == Row(old(db.exams.nextId), NewExam(name, examType, minScore))
      ensures r.Ok? ==> db == old(db).(exams := old(db.exams).Add(r.value.val))
    {
      if ExamClash(db.exams, name, examType) {
        return Err(HttpException(Conflict, "Exam with this name and type already exists"));
      }
      var exam := NewExam(name, examType, minScore);
      ExamAddedValid(db, exam);
      r := Ok(Row(db.exams.nextId, exam));
      db := db.(exams := db.exams.Add(exam));
    }

    /** `get_exam`. */
    function GetExam(id: int): (r: Result<Row<Exam>>)
      reads this
      ensures r.Ok? <==> db.exams.Has(id)
      ensures r.Ok? ==> r.value == Row(id, db.exams.rows[id])
      ensures r.Err? ==> r.error == HttpException(NotFound, "Exam not found")
    {
      Lookup(db.exams, id, "Exam not found")
    }

    /** `update_exam`: a missing exam (404), a key outside name, type and minimum
        score (400), a NULL name or type, which the commit refuses (500); then
        exactly the given columns change. */
    method UpdateExam(id: int, u: Updates) returns (r: Result<Row<Exam>>)
      modifies this
      ensures !old(db.exams).Has(id) ==> r == Err(HttpException(NotFound, "Exam not found"))
      ensures old(db.exams).Has(id) && FirstDisallowed(u, ExamColumns).Some? ==>
                r == Err(FieldError(u[FirstDisallowed(u, ExamColumns).value].0))
      ensures old(db.exams).Has(id) && FirstDisallowed(u, ExamColumns).None? &&
              !NoNulls(Updated(old(db.exams.rows[id]).attrs, u), ExamRequired) ==>
                r == Err(DatabaseError)
      ensures r.Err? ==> db == old(db)
      ensures r.Ok? <==>
                old(db.exams).Has(id) && FirstDisallowed(u, ExamColumns).None? &&
                NoNulls(Updated(old(db.exams.rows[id]).attrs, u), ExamRequired)
      ensures r.Ok? ==> r.value == Row(id, Exam(Updated(old(db.exams.rows[id]).attrs, u)))
      ensures r.Ok? ==> db == old(db).(exams := old(db.exams).Update(id, r.value.val))
    {
      var found := GetExam(id);
      if found.Err? {
        return found;
      }
      var attrs := AssignFields(found.value.val.attrs, ExamColumns, u);
      if attrs.Err? {
        return Err(attrs.error);
      }
      if !NoNulls(attrs.value, ExamRequired) {
        return Err(DatabaseError);
      }
      var exam := Exam(attrs.value);
      ExamReplacedValid(db, id, exam);
      db := db.(exams := db.exams.Update(id, exam));
      r := Ok(Row(id, exam));
    }

    /** `delete_exam`: a missing exam (404), one linked to specialties (400); then the
        row is removed. */
    method DeleteExam(id: int) returns (r: Result<()>)
      modifies this
      ensures !old(db.exams).Has(id) ==> r == Err(HttpException(NotFound, "Exam not found"))
      ensures old(db.exams).Has(id) && LinkedRight(old(db.specialtyExams), id) ==>
                r == Err(HttpException(BadRequest, "Cannot delete exam linked to specialties"))
      ensures r.Err? ==> db == old(db)
      ensures r.Ok? <==> old(db.exams).Has(id) && !LinkedRight(old(db.specialtyExams), id)
      ensures r.Ok? ==> db == old(db).(exams := old(db.exams).Remove(id))
    {
      var found := GetExam(id);
      if found.Err? {
        return Err(found.error);
      }
      if LinkedRight(db.specialtyExams, id) {
        return Err(HttpException(BadRequest, "Cannot delete exam linked to specialties"));
      }
      ExamRemovedValid(db, id);
      db := db.(exams := db.exams.Remove(id));
      r := Ok(());
    }

    // ---------- Comments ----------

    /** `create_comment`: a missing applicant (404), then a missing user (404); then
        the comment is inserted under the next id, stamped with the current time. */
    method CreateComment(applicantId: int, userId: int, text: string) returns (r: Result<Row<Comment>>)
      modifies this
      ensures !old(db.applicants).Has(applicantId) ==> r == Err(HttpException(NotFound, "Applicant not found"))
      ensures old(db.applicants).Has(applicantId) && !old(db.users).Has(userId) ==>
                r == Err(HttpException(NotFound, "User not found"))
      ensures r.Err? ==> db == old(db)
      ensures r.Ok? <==> old(db.applicants).Has(applicantId) && old(db.users).Has(userId)
      ensures r.Ok? ==> r.value == Row(old(db.comments.nextId), Comment(applicantId, userId, text, old(db.clock)))
      ensures r.Ok? ==> db == old(db).(comments := old(db.comments).Add(r.value.val), clock := old(db.clock) + 1)
    {
      var applicant := GetApplicant(applicantId);
      if applicant.Err? {
        return Err(applicant.error);
      }
      var user := GetUser(userId);
      if user.Err? {
        return Err(user.error);
      }
      var comment := Comment(applicantId, userId, text, db.clock);
      CommentAddedValid(db, comment);
      r := Ok(Row(db.comments.nextId, comment));
      db := db.(comments := db.comments.Add(comment), clock := db.clock + 1);
    }

    /** `get_comment`. */
    function GetComment(id: int): (r: Result<Row<Comment>>)
      reads this
      ensures r.Ok? <==> db.comments.Has(id)
      ensures r.Ok? ==> r.value == Row(id, db.comments.rows[id])
      ensures r.Err? ==> r.error == HttpException(NotFound, "Comment not found")
    {
      Lookup(db.comments, id, "Comment not found")
    }

    /** `delete_comment`: a missing comment (404), a caller who is neither its author
        nor an admin (403); then the comment is removed. */
    method DeleteComment(id: int, current: Row<User>) returns (r: Result<()>)
      modifies this
      ensures !old(db.comments).Has(id) ==> r == Err(HttpException(NotFound, "Comment not found"))
      ensures old(db.comments).Has(id) && old(db.comments.rows[id]).userId != current.id && current.val.role != Admin ==>
                r == Err(HttpException(Forbidden, "Only the comment author or admins can delete this comment"))
      ensures r.Err? ==> db == old(db)
      ensures r.Ok? <==> old(db.comments).Has(id) && (old(db.comments.rows[id]).userId == current.id || current.val.role == Admin)
      ensures r.Ok? ==> db == old(db).(comments := old(db.comments).Remove(id))
    {
      var found := GetComment(id);
      if found.Err? {
        return Err(found.error);
      }
      if found.value.val.userId != current.id && current.val.role != Admin {
        return Err(HttpException(Forbidden, "Only the comment author or admins can delete this comment"));
      }
      CommentRemovedValid(db, id);
      db := db.(comments := db.comments.Remove(id));
      r := Ok(());
    }

    // ---------- Audit log ----------

    /** `create_audit_log`: a missing applicant (404), then a missing user (404); then
        exactly one entry is appended with the given applicant, actor, change type,
        action and snapshots, stamped with the current time. */
    method CreateAuditLog(applicantId: int, changedByUserId: int, changeType: ChangeType, action: ActionType,
                          beforeData: Option<Snapshot>, afterData: Option<Snapshot>)
      returns (r: Result<Row<AuditLog>>)
      modifies this
      ensures !old(db.applicants).Has(applicantId) ==> r == Err(HttpException(NotFound, "Applicant not found"))
      ensures old(db.applicants).Has(applicantId) && !old(db.users).Has(changedByUserId) ==>
                r == Err(HttpException(NotFound, "User not found"))
      ensures r.Err? ==> db == old(db)
      ensures r.Ok? <==> old(db.applicants).Has(applicantId) && old(db.users).Has(changedByUserId)
      ensures r.Ok? ==> r.value == Row(old(db.auditLog.nextId),
                AuditLog(applicantId, changedByUserId, changeType, action, beforeData, afterData, old(db.clock)))
      ensures r.Ok? ==> db == old(db).(auditLog := old(db.auditLog).Add(r.value.val), clock := old(db.clock) + 1)
    {
      var applicant := GetApplicant(applicantId);
      if applicant.Err? {
        return Err(applicant.error);
      }
      var user := GetUser(changedByUserId);
      if user.Err? {
        return Err(user.error);
      }
      var entry := AuditLog(applicantId, changedByUserId, changeType, action, beforeData, afterData, db.clock);
      AuditAddedValid(db, entry);
      r := Ok(Row(db.auditLog.nextId, entry));
      db := db.(auditLog := db.auditLog.Add(entry), clock := db.clock + 1);
    }

    /** `get_audit_log`. */
    function GetAuditLog(id: int): (r: Result<Row<AuditLog>>)
      reads this
      ensures r.Ok? <==> db.auditLog.Has(id)
      ensures r.Ok? ==> r.value == Row(id, db.auditLog.rows[id])
      ensures r.Err? ==> r.error == HttpException(NotFound, "Audit log entry not found")
    {
      Lookup(db.auditLog, id, "Audit log entry not found")
    }
  }
}

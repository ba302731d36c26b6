/** The tables and enumerations of the admissions store (core/db/models.py).

    Users, comments and audit entries are records with typed columns. Applicants,
    specialties and exams are the rows whose columns the data-access layer sets by
    name (`setattr(row, field, value)`), so their columns are kept as a map from
    `Column` to value; `WellFormed` fixes which columns each of them has.
    Timestamps are ticks of the store's clock. */
module Models {
  import opened Outcomes

  datatype UserRole = Admin | Editor | Viewer

  datatype ApplicantStatus = New | InProgress | Admitted | Rejected

  datatype ExamType = Utbk | TesMandiri | Interview | Portfolio | International

  /** What an audit entry is about. */
  datatype ChangeType = StatusChange | CommentChange | SpecialtyChange | ExamChange | ApplicantDataChange

  datatype ActionType = Create | Update | Delete

  /** The member name of a role. */
  function RoleName(r: UserRole): string {
    match r
    case Admin => "admin"
    case Editor => "editor"
    case Viewer => "viewer"
  }

  /** The role whose member name is `name`, if there is one: the lookup
      `role in UserRole.__dict__` performed before a role is stored. */
  function ParseRole(name: string): (r: Option<UserRole>)
    ensures r.Some? ==> RoleName(r.value) == name
    ensures r.None? ==> forall role :: RoleName(role) != name
  {
    if name == "admin" then Some(Admin)
    else if name == "editor" then Some(Editor)
    else if name == "viewer" then Some(Viewer)
    else None
  }

  /** A value held in a column that is set by name, or in an audit snapshot. */
  datatype Value =
    | Null
    | Str(s: string)
    | Int(i: int)
    | Date(day: int)
    | Status(status: ApplicantStatus)
    | Type(examType: ExamType)
    | Stamp(tick: nat)

  /** An optional string as a column value: None is SQL NULL. */
  function OptStr(o: Option<string>): Value {
    match o
    case None => Null
    case Some(s) => Str(s)
  }

  function OptInt(o: Option<int>): Value {
    match o
    case None => Null
    case Some(i) => Int(i)
  }

  function OptDate(o: Option<int>): Value {
    match o
    case None => Null
    case Some(d) => Date(d)
  }

  /** The columns that the data-access layer reads and writes by name. */
  datatype Column =
    | FirstName | LastName | MiddleName | PhoneNumber | Email | NationalId | PassportNumber
    | Citizenship | BirthDate | Gender | IntakePeriod | StatusColumn
    | RegistrationDate | CreatedAt | UpdatedAt
    | Name | Code | Faculty | DegreeLevel
    | ExamTypeColumn | MinScore

  /** The attribute name of a column. */
  function ColumnName(c: Column): string {
    match c
    case FirstName => "first_name"
    case LastName => "last_name"
    case MiddleName => "middle_name"
    case PhoneNumber => "phone_number"
    case Email => "email"
    case NationalId => "national_id"
    case PassportNumber => "passport_number"
    case Citizenship => "citizenship"
    case BirthDate => "birth_date"
    case Gender => "gender"
    case IntakePeriod => "intake_period"
    case StatusColumn => "status"
    case RegistrationDate => "registration_date"
    case CreatedAt => "created_at"
    case UpdatedAt => "updated_at"
    case Name => "name"
    case Code => "code"
    case Faculty => "faculty"
    case DegreeLevel => "degree_level"
    case ExamTypeColumn => "type"
    case MinScore => "min_score"
  }

  /** The column whose attribute name is `name`, if there is one. */
  function ParseColumn(name: string): (r: Option<Column>)
    ensures r.Some? ==> ColumnName(r.value) == name
    ensures r.None? ==> forall c :: ColumnName(c) != name
  {
    if name == "first_name" then Some(FirstName)
    else if name == "last_name" then Some(LastName)
    else if name == "middle_name" then Some(MiddleName)
    else if name == "phone_number" then Some(PhoneNumber)
    else if name == "email" then Some(Email)
    else if name == "national_id" then Some(NationalId)
    else if name == "passport_number" then Some(PassportNumber)
    else if name == "citizenship" then Some(Citizenship)
    else if name == "birth_date" then Some(BirthDate)
    else if name == "gender" then Some(Gender)
    else if name == "intake_period" then Some(IntakePeriod)
    else if name == "status" then Some(StatusColumn)
    else if name == "registration_date" then Some(RegistrationDate)
    else if name == "created_at" then Some(CreatedAt)
    else if name == "updated_at" then Some(UpdatedAt)
    else if name == "name" then Some(Name)
    else if name == "code" then Some(Code)
    else if name == "faculty" then Some(Faculty)
    else if name == "degree_level" then Some(DegreeLevel)
    else if name == "type" then Some(ExamTypeColumn)
    else if name == "min_score" then Some(MinScore)
    else None
  }

  /** Distinct columns have distinct attribute names, so a name denotes at most one column. */
  lemma ColumnNamesDistinct(c: Column, d: Column)
    ensures ColumnName(c) == ColumnName(d) ==> c == d
    ensures ParseColumn(ColumnName(c)) == Some(c)
  {
    ParseColumnName(c);
    ParseColumnName(d);
  }

  /** Parsing a column's own name gives back the column. */
  lemma ParseColumnName(c: Column)
    ensures ParseColumn(ColumnName(c)) == Some(c)
  {
    if c in ApplicantFields {
      ParseApplicantFieldName(c);
    } else {
      ParseOtherColumnName(c);
    }
  }

  lemma ParseApplicantFieldName(c: Column)
    requires c in ApplicantFields
    ensures ParseColumn(ColumnName(c)) == Some(c)
  {
    match c
    case FirstName =>
    case LastName =>
    case MiddleName =>
    case PhoneNumber =>
    case Email =>
    case NationalId =>
    case PassportNumber =>
    case Citizenship =>
    case BirthDate =>
    case Gender =>
    case IntakePeriod =>
    case StatusColumn =>
  }

  lemma ParseOtherColumnName(c: Column)
    requires c !in ApplicantFields
    ensures ParseColumn(ColumnName(c)) == Some(c)
  {
    match c
    case RegistrationDate =>
    case CreatedAt =>
    case UpdatedAt =>
    case Name =>
    case Code =>
    case Faculty =>
    case DegreeLevel =>
    case ExamTypeColumn =>
    case MinScore =>
  }

  /** A before/after snapshot of an audit entry: the recorded columns and their values. */
  type Snapshot = map<Column, Value>

  datatype User = User(username: string, passwordHash: string, role: UserRole, isActive: bool, createdAt: nat)

  /** A new user row: `is_active` defaults to true, `created_at` to the current time. */
  function NewUser(username: string, passwordHash: string, role: UserRole, now: nat): (u: User)
    ensures u.isActive && u.role == role && u.username == username && u.passwordHash == passwordHash
    ensures u.createdAt == now
  {
    User(username, passwordHash, role, true, now)
  }

  /** The applicant columns a caller may set by name. */
  const ApplicantFields: set<Column> := {
    FirstName, LastName, MiddleName, PhoneNumber, Email, NationalId,
    PassportNumber, Citizenship, BirthDate, Gender, IntakePeriod, StatusColumn
  }

  /** All applicant columns besides the key: the settable ones and the three timestamps. */
  const ApplicantColumns: set<Column> := {
    FirstName, LastName, MiddleName, PhoneNumber, Email, NationalId,
    PassportNumber, Citizenship, BirthDate, Gender, IntakePeriod, StatusColumn,
    RegistrationDate, CreatedAt, UpdatedAt
  }

  /** The settable columns are applicant columns. */
  lemma ApplicantFieldsAreColumns()
    ensures ApplicantFields <= ApplicantColumns && UpdatedAt !in ApplicantFields
  {
  }

  const SpecialtyColumns: set<Column> := {Name, Code, Faculty, DegreeLevel}

  const ExamColumns: set<Column> := {Name, ExamTypeColumn, MinScore}

  /** The columns declared without `Optional`, which the database creates NOT NULL:
      an applicant's first name and status, a specialty's name and code, an exam's
      name and type. */
  const ApplicantRequired: set<Column> := {FirstName, StatusColumn}

  const SpecialtyRequired: set<Column> := {Name, Code}

  const ExamRequired: set<Column> := {Name, ExamTypeColumn}

  /** None of the `required` columns present in `attrs` holds NULL. */
  predicate NoNulls(attrs: map<Column, Value>, required: set<Column>) {
    forall c :: c in required && c in attrs ==> attrs[c] != Null
  }

  datatype Applicant = Applicant(attrs: map<Column, Value>) {
    predicate WellFormed() {
      attrs.Keys == ApplicantColumns
    }
  }

  datatype Specialty = Specialty(attrs: map<Column, Value>) {
    predicate WellFormed() {
      attrs.Keys == SpecialtyColumns
    }
  }

  datatype Exam = Exam(attrs: map<Column, Value>) {
    predicate WellFormed() {
      attrs.Keys == ExamColumns
    }
  }

  datatype Comment = Comment(applicantId: int, userId: int, text: string, createdAt: nat)

  datatype AuditLog = AuditLog(
    applicantId: int,
    changedByUserId: int,
    changeType: ChangeType,
    action: ActionType,
    beforeData: Option<Snapshot>,
    afterData: Option<Snapshot>,
    changedAt: nat)

  /** The keyword arguments with which an applicant is created. `birthDate` is a day number. */
  datatype ApplicantData = ApplicantData(
    firstName: string,
    lastName: Option<string>,
    middleName: Option<string>,
    phoneNumber: Option<string>,
    email: Option<string>,
    nationalId: Option<string>,
    passportNumber: Option<string>,
    citizenship: Option<string>,
    birthDate: Option<int>,
    gender: Option<string>,
    intakePeriod: Option<string>,
    status: ApplicantStatus)

  /** The value a new applicant row takes in column `c`: the argument of the same name,
      or the current time for the registration, creation and update times. */
  function InitialValue(d: ApplicantData, now: nat, c: Column): Value {
    match c
    case FirstName => Str(d.firstName)
    case LastName => OptStr(d.lastName)
    case MiddleName => OptStr(d.middleName)
    case PhoneNumber => OptStr(d.phoneNumber)
    case Email => OptStr(d.email)
    case NationalId => OptStr(d.nationalId)
    case PassportNumber => OptStr(d.passportNumber)
    case Citizenship => OptStr(d.citizenship)
    case BirthDate => OptDate(d.birthDate)
    case Gender => OptStr(d.gender)
    case IntakePeriod => OptStr(d.intakePeriod)
    case StatusColumn => Status(d.status)
    case _ => Stamp(now)
  }

  /** A new applicant row: every applicant column, each with its initial value. */
  function NewApplicant(d: ApplicantData, now: nat): (a: Applicant)
    ensures a.WellFormed() && NoNulls(a.attrs, ApplicantRequired)
  {
    Applicant(map c | c in ApplicantColumns :: InitialValue(d, now, c))
  }

  /** A new applicant holds the status, names and identity documents it was created
      with, and its registration, creation and update times are all the creation time. */
  lemma NewApplicantColumns(d: ApplicantData, now: nat)
    ensures NewApplicant(d, now).attrs[StatusColumn] == Status(d.status)
    ensures NewApplicant(d, now).attrs[FirstName] == Str(d.firstName)
    ensures NewApplicant(d, now).attrs[LastName] == OptStr(d.lastName)
    ensures NewApplicant(d, now).attrs[NationalId] == OptStr(d.nationalId)
    ensures NewApplicant(d, now).attrs[PassportNumber] == OptStr(d.passportNumber)
    ensures NewApplicant(d, now).attrs[RegistrationDate] == Stamp(now)
    ensures NewApplicant(d, now).attrs[CreatedAt] == Stamp(now)
    ensures NewApplicant(d, now).attrs[UpdatedAt] == Stamp(now)
  {
  }

  function NewSpecialty(name: string, code: string, faculty: Option<string>, degreeLevel: Option<string>): (s: Specialty)
    ensures s.WellFormed() && NoNulls(s.attrs, SpecialtyRequired)
    ensures s.attrs[Name] == Str(name) && s.attrs[Code] == Str(code)
  {
    Specialty(map[Name := Str(name), Code := Str(code), Faculty := OptStr(faculty), DegreeLevel := OptStr(degreeLevel)])
  }

  function NewExam(name: string, examType: ExamType, minScore: Option<int>): (e: Exam)
    ensures e.WellFormed() && NoNulls(e.attrs, ExamRequired)
    ensures e.attrs[Name] == Str(name) && e.attrs[ExamTypeColumn] == Type(examType)
  {
    Exam(map[Name := Str(name), ExamTypeColumn := Type(examType), MinScore := OptInt(minScore)])
  }
}

# Admissions backend: store, services, routes and paging in Dafny

This project models the core of an admissions-management backend. The backend
tracks applicants through admission, records staff comments on them, manages
specialties and exams, and keeps an audit trail of changes to applicant records.
Staff are admins, editors and viewers, and they reach it through an HTTP API.

The model has five layers:

- **The store** (`Crud.Store`) is a class whose one field holds the whole database
  content, `Crud.Db`. That content has six tables (`Tables.Table`: rows by key plus
  the next key of the sequence), the two link tables, and a clock that stamps new
  rows. Each operation of the data-access layer is a method. It runs the source's
  checks in the source's order and raises the source's HTTP error, leaving the
  store unchanged. Only when every check passes does it commit. The store's
  integrity rules (`Crud.Db.Valid`) are part of the field's type, so every commit
  is proved to keep them. The rules are: unique usernames, rows that have exactly
  their table's columns, no NULL in a column declared without `Optional`, links,
  comments and audit entries that point at existing rows, and stamps that grow
  with the key. A commit that would break the NULL rule or the audit entries'
  foreign keys is refused the way the source's `IntegrityError` handler refuses it:
  500 "Database error occurred", with nothing changed.
- **Updates by attribute name** (`Fields`): the `updates` dict, the whitelist it is
  checked against, the `setattr` loop (`Fields.AssignFields`, proved against
  `Fields.Updated`), and the before/after snapshots of the applicant audit.
- **The services** (`ApplicantService`, `AuditLogService`, `CommentService`,
  `SpecialtyService`, `ExamService`, `UserService`): their own checks ahead of the
  store's, and the audit entries the applicant service appends. The change and its
  audit entry are two separate commits.
- **The routes** (`ApplicantRouter`, `SpecialtyRouter`, `ExamRouter`, `UserRouter`,
  `CommentRouter`, `AuditLogRouter`). Each passes the requester through the gate
  (`Gate.GetUserObj`: 404 for an unknown user, 403 for an inactive one). Where the
  source reserves a route to admins, the admin check follows (`Gate.GetAdmin`).
- **Paging** (`Pagination`): `paginate`, and the over-fetch listing that fetches
  `page_size + 1` rows to learn whether a next page exists.

Timestamps are ticks of the store's clock. A listing without an `ORDER BY`
returns rows in key order. The comment and audit listings are ordered by their
stamps, and the lemmas prove that this is key order and its reverse.

Two behaviours of the code are worth stating on their own:

- An applicant change and its audit entry are two separate commits. A failing
  audit write leaves the change in place. `ApplicantService.UpdateApplicant` and
  `ApplicantService.CreateApplicant` state this.
- The duplicate check compares a missing national ID or passport number as
  `IS NULL`. A passport-only applicant therefore conflicts with every stored
  applicant that has no national ID
  (`ApplicantService.MissingNationalIdMatchesMissing`).

## Model

| member | source | states |
|---|---|---|
| `Models.ParseRole` | core/db/crud.py:27-28 | a name is accepted as a role exactly when it is some role's member name, and the role found has that name |
| `Models.ParseColumn` | core/db/models.py:76-146 | a name parses to a column exactly when it is that column's attribute name |
| `Models.ColumnNamesDistinct` | core/db/models.py:76-146 | distinct columns have distinct attribute names, and parsing a column's own name gives the column back |
| `Models.ParseColumnName` | core/db/models.py:76-146 | parsing any column's attribute name yields that column |
| `Models.ParseApplicantFieldName` | core/db/crud.py:160-173 | parsing the attribute name of any settable applicant field yields that field |
| `Models.ParseOtherColumnName` | core/db/models.py:76-146 | parsing the attribute name of any other column yields that column |
| `Models.NewUser` | core/db/models.py:62-70 | a new user is active, carries the given name, hash and role, and is stamped with the current time |
| `Models.ApplicantFieldsAreColumns` | core/db/crud.py:160-173 | the twelve settable fields are applicant columns, and `updated_at` is not among them |
| `Models.NewApplicant` | core/db/crud.py:120-133 | a new applicant row has exactly the applicant columns, and neither its first name nor its status is NULL |
| `Models.NewApplicantColumns` | core/db/models.py:95-102 | a new applicant holds the given status, names and identity documents, and its registration, creation and update times are the creation time |
| `Models.NewSpecialty` | core/db/crud.py:225-227 | a new specialty has exactly the specialty columns, with the given name and code, neither of them NULL |
| `Models.NewExam` | core/db/crud.py:301 | a new exam has exactly the exam columns, with the given name and type, neither of them NULL |
| `Tables.Table.Get` | core/db/crud.py:48 | `session.get` finds a row exactly when the key is stored, and returns that key's row |
| `Tables.Table.Add` | core/db/crud.py:34-38 | an insert stores the row under the next key, which no row held, advances the sequence and leaves every other key's row as it was |
| `Tables.Table.Update` | core/db/crud.py:69-70 | a commit of an edited row replaces that row only; keys and sequence stay |
| `Tables.Table.Remove` | core/db/crud.py:202-205 | a delete removes that key's row only |
| `Tables.Table.Listing` | api/v1/services/speciality.py:71 | an unordered select yields every stored row once, only stored rows, in key order |
| `Tables.RowsFromSpec` | api/v1/services/speciality.py:71 | the listing from a key on holds exactly the stored rows from that key, in key order |
| `Tables.ListingAdd` | core/db/crud.py:34-38 | a row added under the next key comes last in the listing, after the earlier rows in their order |
| `Tables.RowsFromAdd` | core/db/crud.py:34-38 | after an insert, the rows from any key up to the next one are the earlier rows from that key followed by the new row |
| `Tables.Where` | api/v1/services/comment.py:58 | a `WHERE` filter keeps exactly the rows that satisfy the predicate and keeps their key order |
| `Tables.HeadBelowTail` | api/v1/services/comment.py:59 | in a key-ordered listing, the first row's key is below that of every later row |
| `Tables.Reversed` | api/v1/services/auditlog.py:59 | a descending order reads the ascending one back to front |
| `Tables.ReversedMembers` | api/v1/services/auditlog.py:59 | reading back to front keeps the same rows |
| `Fields.FieldOf` | core/db/crud.py:175-178 | a dict key denotes the column of that attribute name, or no column when none has that name |
| `Fields.FieldNamesFaithful` | core/db/crud.py:175-178 | keys and fields correspond one to one |
| `Fields.Keys` | core/db/crud.py:175 | the dict's keys in iteration order, one per entry |
| `Fields.SetFields` | api/v1/routers/applicant.py:84 | `dict(exclude_unset=True)` holds only fields of the request schema that the client set, each with the value sent |
| `Fields.SetFieldsComplete` | api/v1/routers/applicant.py:84 | every schema field the client set is a key of the dict |
| `Fields.SetFieldsDistinct` | api/v1/routers/applicant.py:84 | the dict holds each key once |
| `Fields.SetFieldsAllowed` | api/v1/routers/applicant.py:84 | when every schema field is whitelisted, the whitelist never refuses the dict |
| `Fields.SetFieldsSetsNull` | api/v1/routers/applicant.py:84 | the dict sets a NOT NULL column to NULL exactly when the client sent null for such a field of the schema |
| `Fields.FirstDisallowed` | core/db/crud.py:175-177 | the first key in iteration order that is not on the whitelist; none exactly when all keys are whitelisted |
| `Fields.KeysName` | core/db/crud.py:175 | a column is among the dict's keys exactly when some key names it |
| `Fields.AssignedIffNamed` | core/db/crud.py:175-178 | the loop assigns a column exactly when some key names it |
| `Fields.AssignedIsPayload` | core/db/crud.py:175-178 | with distinct keys, a named column takes exactly its key's value |
| `Fields.Updated` | core/db/crud.py:175-178 | the setattr loop keeps the row's set of columns |
| `Fields.UpdatedSpec` | core/db/crud.py:175-178 | after the loop every named column holds its key's value and every other column is unchanged |
| `Fields.NullsAfterUpdate` | core/db/crud.py:175-181 | starting from a row without NULL in its NOT NULL columns, the loop leaves such a NULL exactly when the payload sets one of them to NULL |
| `Fields.AssignFields` | core/db/crud.py:175-178 | the loop stops with the 400 naming the first key off the whitelist; otherwise its result is `Updated` |
| `Fields.CheckFields` | api/v1/services/speciality.py:49-53 | a service's own whitelist loop reports the first key off the whitelist, and reports nothing exactly when every key is whitelisted |
| `Fields.Snapshot` | api/v1/services/applicant.py:100 | `{field: getattr(row, field)}` succeeds exactly when every key is a column of the row; it then holds exactly those columns with the row's values, and otherwise it is a server error |
| `Crud.Lookup` | core/db/crud.py:47-51 | a lookup succeeds exactly when the key is stored, and otherwise raises the 404 with the table's message |
| `Crud.UpdatedApplicant` | core/db/models.py:100-102 | an updated applicant keeps exactly the applicant columns, and holds no NULL in its first name or status when the assigned columns hold none |
| `Crud.UpdatedApplicantSpec` | core/db/crud.py:153-187 | each payload column holds the payload's value and every other column keeps its value; `updated_at` moves to the current time when some column changed or the payload names `status`, and otherwise the row is left exactly as it was |
| `Crud.ResentStatusStamps` | core/request_models/applicant.py:7-11 | sending an applicant's current status again changes no value, yet the row is written and `updated_at` moves to the current time, because the request's status enumeration never compares equal to the column's |
| `Crud.PayloadColumn` | core/db/crud.py:175-178 | a whitelisted payload key sets its column, which is never `updated_at` |
| `Crud.UnnamedColumn` | core/db/crud.py:175-178 | a column that no key names keeps its value |
| `Crud.UserAddedValid` | core/db/models.py:66 | inserting a user whose name is free keeps every integrity rule |
| `Crud.UserReplacedValid` | core/db/crud.py:69-70 | editing a user without renaming them keeps every integrity rule |
| `Crud.ApplicantAddedValid` | core/db/crud.py:134-137 | inserting a well-formed applicant with a first name and a status keeps every integrity rule |
| `Crud.ApplicantReplacedValid` | core/db/crud.py:178-181 | replacing an applicant by a well-formed row with a first name and a status keeps every integrity rule |
| `Crud.ApplicantRemovedValid` | core/db/crud.py:195-207 | removing an applicant without comments, specialty links or audit entries keeps every integrity rule |
| `Crud.SpecialtyAddedValid` | core/db/crud.py:228-231 | inserting a well-formed specialty with a name and a code keeps every integrity rule |
| `Crud.SpecialtyReplacedValid` | core/db/crud.py:259-262 | replacing a specialty by a well-formed row with a name and a code keeps every integrity rule |
| `Crud.SpecialtyRemovedValid` | core/db/crud.py:276-282 | removing a specialty without applicant or exam links keeps every integrity rule |
| `Crud.ExamAddedValid` | core/db/crud.py:302-305 | inserting a well-formed exam with a name and a type keeps every integrity rule |
| `Crud.ExamReplacedValid` | core/db/crud.py:331-334 | replacing an exam by a well-formed row with a name and a type keeps every integrity rule |
| `Crud.ExamRemovedValid` | core/db/crud.py:348-351 | removing an exam without specialty links keeps every integrity rule |
| `Crud.CommentAddedValid` | core/db/models.py:196-199 | inserting a comment on an existing applicant by an existing user, stamped now, keeps every integrity rule |
| `Crud.CommentRemovedValid` | core/db/crud.py:403-406 | removing a comment keeps every integrity rule |
| `Crud.AuditAddedValid` | core/db/models.py:210-217 | appending an entry about an existing applicant by an existing user, stamped now, keeps every integrity rule |
| `Crud.Store.CreateUser` | core/db/crud.py:24-44 | an unknown role name gives 400 and a taken username 409, with the store unchanged; otherwise exactly one active user with that role is added under the next key |
| `Crud.Store.GetUser` | core/db/crud.py:47-51 | returns the stored user, or 404 exactly when the key is not stored |
| `Crud.Store.UpdateUserRole` | core/db/crud.py:54-72 | the caller's own id gives 400, a non-admin caller 403, a missing user 404 and an unknown role 400, in that order and with nothing changed; otherwise only that user's role changes |
| `Crud.Store.DeactivateUser` | core/db/crud.py:75-87 | a missing user gives 404, the caller themself 400 and a non-admin caller 403, in that order; otherwise only that user's active flag turns false |
| `Crud.Store.CreateApplicant` | core/db/crud.py:90-143 | a duplicate national ID or passport number gives 409 and changes nothing; otherwise exactly the new applicant is added, stamped now |
| `Crud.Store.GetApplicant` | core/db/crud.py:146-150 | returns the stored applicant, or 404 exactly when the key is not stored |
| `Crud.Store.UpdateApplicant` | core/db/crud.py:153-187 | a missing applicant gives 404 and the first key off the whitelist 400; an update leaving the first name or status NULL gives 500; each with nothing changed; the update succeeds exactly otherwise, and then only that applicant changes, into `UpdatedApplicant`, stamped whenever a value changed or `status` was sent |
| `Crud.Store.DeleteApplicant` | core/db/crud.py:190-208 | a missing applicant gives 404, one with comments 400 and one with specialty links 400, in that order; one that audit entries refer to gives 500; each with nothing changed; otherwise only that row is removed |
| `Crud.Store.CreateSpecialty` | core/db/crud.py:211-237 | a stored specialty with the same name or code gives 409; otherwise exactly the new specialty is added |
| `Crud.Store.GetSpecialty` | core/db/crud.py:240-244 | returns the stored specialty, or 404 exactly when the key is not stored |
| `Crud.Store.UpdateSpecialty` | core/db/crud.py:247-268 | a missing specialty gives 404 and a key off the whitelist 400; an update leaving the name or code NULL gives 500; each with nothing changed; otherwise only that row changes, into `Updated` |
| `Crud.Store.DeleteSpecialty` | core/db/crud.py:271-288 | a missing specialty gives 404, an applicant link 400 and an exam link 400, in that order; otherwise only that row is removed |
| `Crud.Store.CreateExam` | core/db/crud.py:291-311 | a stored exam with the same name and the same type gives 409; otherwise exactly the new exam is added |
| `Crud.Store.GetExam` | core/db/crud.py:314-318 | returns the stored exam, or 404 exactly when the key is not stored |
| `Crud.Store.UpdateExam` | core/db/crud.py:321-340 | a missing exam gives 404 and a key off the whitelist 400; an update leaving the name or type NULL gives 500; each with nothing changed; otherwise only that row changes, into `Updated` |
| `Crud.Store.DeleteExam` | core/db/crud.py:343-357 | a missing exam gives 404 and a specialty link 400; otherwise only that row is removed |
| `Crud.Store.CreateComment` | core/db/crud.py:360-382 | a missing applicant gives 404, then a missing user 404; otherwise exactly one comment by that user is added, stamped now |
| `Crud.Store.GetComment` | core/db/crud.py:385-389 | returns the stored comment, or 404 exactly when the key is not stored |
| `Crud.Store.DeleteComment` | core/db/crud.py:392-409 | a missing comment gives 404, and a caller who is neither its author nor an admin 403; otherwise only that comment is removed |
| `Crud.Store.CreateAuditLog` | core/db/crud.py:412-447 | a missing applicant gives 404, then a missing user 404; otherwise exactly one entry with the given data is appended, stamped now |
| `Crud.Store.GetAuditLog` | core/db/crud.py:450-454 | returns the stored entry, or 404 exactly when the key is not stored |
| `Gate.GetUserObj` | api/v1/routers/applicant.py:18-22 | an unknown requester gives 404 and an inactive one 403; the requester passes exactly when stored and active |
| `Gate.GetAdmin` | api/v1/routers/exam.py:35-37 | the gate's error passes through, and an active non-admin gets 403 with the route's message; the requester passes exactly when an active admin |
| `UserService.CreateUser` | api/v1/services/user.py:21-26 | a password under 8 characters gives 400 before the store is touched; then the store's checks, and on success exactly the new user is added |
| `UserService.UpdateRole` | api/v1/services/user.py:33-38 | a non-admin caller gives 403 "Only admins can change user roles" before the store runs, so the store's own 403 never surfaces; an admin meets the store's checks |
| `UserService.ListUsers` | api/v1/services/user.py:49-64 | fetching and trimming the users is exactly the over-fetch listing of the users in key order, with no page guard |
| `UserService.UsersPageUnguarded` | api/v1/services/user.py:49-56 | with page size 0 every page number, 0 and below included, is answered with no rows, where a guarded listing refuses pages below 1 |
| `ApplicantService.UpdateSnapshots` | api/v1/services/applicant.py:100-107 | the before and after snapshots are taken exactly when every payload key is a column of both rows |
| `ApplicantService.UpdateSnapshotsSpec` | api/v1/services/applicant.py:97-117 | the snapshots of an accepted update hold exactly the payload's columns: the old values before, the payload's values after |
| `ApplicantService.PayloadSnapshots` | api/v1/services/applicant.py:100-107 | snapshots of a whitelisted payload from two rows, the second holding the payload's values, record exactly the payload's columns |
| `ApplicantService.CreateApplicant` | api/v1/services/applicant.py:27-86 | a duplicate gives 409 with nothing written; otherwise the applicant is committed and then a create entry with its names is appended, after which audit entries refer to the applicant; an unknown creator fails that write with 404 and the applicant stays |
| `ApplicantService.UpdateApplicant` | api/v1/services/applicant.py:93-119 | a missing applicant gives 404; a key that is not an attribute gives 500, a key off the whitelist 400 and a NULL first name or status 500, with nothing changed; otherwise the update is committed, then an update entry with the payload's before and after values; an unknown updater fails that write with 404 and the update stays |
| `ApplicantService.CommitUpdate` | api/v1/services/applicant.py:102-117 | after the `before` snapshot: the whitelist 400 and the NULL 500 with nothing changed; otherwise the committed update into `UpdatedApplicant` (stamped whenever a value changed or `status` was sent) followed by its audit entry, or the audit write's 404 with the update in place |
| `ApplicantService.UpdateRow` | core/db/crud.py:153-187 | the store's update of an existing applicant, its refusals stated on the payload: 400 for a key off the whitelist, 500 when the payload sets the first name or status to NULL, each with nothing changed; otherwise the row becomes `UpdatedApplicant`, stamped whenever a value changed or `status` was sent |
| `ApplicantService.RecordUpdate` | api/v1/services/applicant.py:107-117 | the update entry holds the payload's columns before and after, by the updating user, stamped now; an unknown user gives 404 with nothing written |
| `ApplicantService.DeleteApplicant` | api/v1/services/applicant.py:122-143 | never succeeds: the store's refusals come back unchanged, including the 500 while audit entries refer to the applicant, and a committed delete is answered with the audit write's 404 with no entry written |
| `ApplicantService.MissingNationalIdMatchesMissing` | core/db/crud.py:107-118 | once a passport number is given, an applicant without a national ID conflicts with any stored one without a national ID |
| `ApplicantService.UpdateMayDuplicateNationalId` | core/db/crud.py:160-178 | an update re-checks no uniqueness: any applicant may take another's national ID |
| `AuditLogService.CreateAuditLog` | api/v1/services/auditlog.py:16-42 | a missing applicant gives 404, then a missing user 404; otherwise exactly one entry is appended, stamped now |
| `AuditLogService.EntriesFor` | api/v1/services/auditlog.py:56-60 | the selected entries are exactly the stored entries about that applicant |
| `AuditLogService.EntriesNewestFirst` | api/v1/services/auditlog.py:59 | along the selected entries the stamps strictly decrease |
| `AuditLogService.ListAuditLogs` | api/v1/services/auditlog.py:49-69 | a page below 1 gives 400; otherwise the page is exactly the slice of the applicant's entries, newest first, from `(page - 1) * page_size` up to `page * page_size`, with a next page exactly when more entries follow |
| `CommentService.CreateComment` | api/v1/services/comment.py:15-29 | a missing applicant gives 404, then a missing user 404; otherwise exactly one comment by that user is added |
| `CommentService.DeleteCommentAsWritten` | api/v1/services/comment.py:36-46 | a missing comment gives 404 and a stranger 403; a permitted delete ends in a server error; the store never changes |
| `CommentService.DeleteComment` | api/v1/services/comment.py:36-46 | a missing comment gives 404 and a requester who is neither author nor admin 403, with the comment kept; otherwise exactly that comment is removed |
| `CommentService.CommentsFor` | api/v1/services/comment.py:58-59 | the selected comments are exactly the stored comments on that applicant, in key order |
| `CommentService.CommentsOldestFirst` | api/v1/services/comment.py:59 | along the selected comments the stamps strictly increase |
| `CommentService.ListComments` | api/v1/services/comment.py:49-69 | a page below 1 gives 400; otherwise the page is exactly the slice of the applicant's comments, oldest first, from `(page - 1) * page_size` up to `page * page_size`, with a next page exactly when more comments follow |
| `SpecialtyService.CreateSpecialty` | api/v1/services/speciality.py:18-38 | a name or code clash gives 409 with nothing written; otherwise exactly the new specialty is added |
| `SpecialtyService.UpdateSpecialty` | api/v1/services/speciality.py:45-57 | a key off the whitelist gives 400 even for a missing specialty; then 404 for a missing one; an update leaving the name or code NULL gives 500 with nothing changed; otherwise the named columns take the payload's values |
| `SpecialtyService.EitherColumnClashes` | api/v1/services/speciality.py:26-32 | a stored specialty with the same name, or with the same code, is a clash |
| `SpecialtyService.RenameMayDuplicate` | api/v1/services/speciality.py:45-57 | an update may give a specialty another's name |
| `ExamService.CreateExam` | api/v1/services/exam.py:18-33 | a clash on name and type gives 409 with nothing written; otherwise exactly the new exam is added |
| `ExamService.UpdateExam` | api/v1/services/exam.py:40-48 | a key off the whitelist gives 400 even for a missing exam; then 404 for a missing one; an update leaving the name or type NULL gives 500 with nothing changed; otherwise the named columns take the payload's values |
| `ExamService.SameNameOtherTypeAccepted` | api/v1/services/exam.py:25-29 | an exam whose name is taken only by exams of other types is no clash |
| `ExamService.RetypeMayDuplicate` | api/v1/services/exam.py:40-48 | an update may give an exam another's name and type |
| `Pagination.Prefix` | core/utilities/pagination.py:3 | Python's `items[:n]` is the leading `n` items, or all but the last `-n` when `n` is negative |
| `Pagination.PaginateSpec` | core/utilities/pagination.py:1-3 | the page number is echoed, a next page is reported exactly when more than `page_size` items were given, and the items are the leading `page_size` in order |
| `Pagination.PaginateExact` | core/utilities/pagination.py:1-3 | exactly `page_size` items: no next page, all items returned |
| `Pagination.PaginateOneExtra` | core/utilities/pagination.py:1-3 | one item over `page_size`: a next page, and the extra item is held back |
| `Pagination.Window` | api/v1/services/applicant.py:153 | `offset`/`limit` fail with 500 exactly when one is negative; otherwise they give the rows from the offset, at most `limit` of them |
| `Pagination.OverFetchAt` | api/v1/services/applicant.py:153-163 | from any offset, a next page is reported exactly when rows remain past the page, and the items are the rows from the offset |
| `Pagination.FetchPageSpec` | api/v1/services/applicant.py:153-163 | a valid page reports a next page exactly when rows remain past `page * page_size`, and returns exactly the rows from `(page - 1) * page_size` up to `page * page_size`, cut at the end |
| `Pagination.LastPageReachesEnd` | api/v1/services/applicant.py:153-163 | a page without a next page reaches the end of the listing |
| `Pagination.ConsecutivePages` | api/v1/services/applicant.py:153-163 | when a page reports a next page, it is full and the next page starts right after it |
| `Pagination.GuardedPage` | api/v1/services/applicant.py:150-163 | a page below 1 gives 400; a valid page is exactly the slice of the rows from `(page - 1) * page_size` up to `page * page_size`, with a next page exactly when rows follow; a page size below -1 gives 500 |
| `Pagination.TrimOverFetch` | api/v1/services/user.py:52-60 | the users listing's own trimming reports a next page when more than `page_size` rows came back and then drops the last row, which for any over-fetch is `paginate` |
| `Pagination.TablePage` | api/v1/services/applicant.py:146-164 | a valid page of a table holds only stored rows, in key order |
| `Pagination.TableListing` | api/v1/services/speciality.py:64-77 | the specialty, exam and applicant listing refuses pages below 1 and otherwise returns exactly the slice of the table's rows in key order from `(page - 1) * page_size` up to `page * page_size`, with a next page exactly when rows follow |
| `ApplicantRouter.UpdatePayload` | api/v1/routers/applicant.py:84 | the payload holds exactly the request fields the client set, once each, and always passes the whitelist |
| `ApplicantRouter.UpdateOrderFacts` | api/v1/routers/applicant.py:84 | the applicant update request declares each field once, and each is a settable applicant field |
| `ApplicantRouter.PayloadSetsNull` | api/v1/routers/applicant.py:84 | the payload sets a NOT NULL column to NULL exactly when the client sent null for the first name or the status |
| `ApplicantRouter.CreateApplicant` | api/v1/routers/applicant.py:28-52 | the gate's error comes first; then a duplicate gives 409; otherwise the applicant and its create entry by the requester are both committed |
| `ApplicantRouter.GetApplicant` | api/v1/routers/applicant.py:58-66 | the gate's error, then 404 for a missing applicant; otherwise the stored applicant |
| `ApplicantRouter.UpdateApplicant` | api/v1/routers/applicant.py:72-86 | the gate's error, then 404 for a missing applicant, then 500 with nothing changed when a first name or status is sent as null; otherwise the sent fields are applied and the update entry by the requester is appended |
| `ApplicantRouter.DeleteApplicant` | api/v1/routers/applicant.py:92-103 | never answers success: the gate's or the store's refusal (500 while audit entries refer to the applicant, as they do for every applicant created through these routes), or after a committed delete the audit write's 404 |
| `ApplicantRouter.ListApplicants` | api/v1/routers/applicant.py:109-118 | the gate's error, otherwise the applicant listing, page 1 of 20 by default |
| `SpecialtyRouter.UpdatePayload` | api/v1/routers/specialty.py:80 | the payload holds exactly the request fields the client set, once each, and always passes the whitelist |
| `SpecialtyRouter.UpdateOrderFacts` | api/v1/routers/specialty.py:80 | the specialty update request declares each field once, and each is a specialty column |
| `SpecialtyRouter.PayloadSetsNull` | api/v1/routers/specialty.py:80 | the payload sets a NOT NULL column to NULL exactly when the client sent null for the name or the code |
| `SpecialtyRouter.CreateSpecialty` | api/v1/routers/specialty.py:28-45 | the gate's error, then 403 for a non-admin, then the service's clash 409; otherwise exactly the new specialty |
| `SpecialtyRouter.GetSpecialty` | api/v1/routers/specialty.py:51-59 | the gate's error, then 404 for a missing specialty; otherwise the stored specialty |
| `SpecialtyRouter.UpdateSpecialty` | api/v1/routers/specialty.py:65-81 | the gate's error, then 403 for a non-admin, then 404, then 500 with nothing changed when the name or code is sent as null; otherwise the sent fields are applied |
| `SpecialtyRouter.DeleteSpecialty` | api/v1/routers/specialty.py:87-99 | the gate's error, then 403 for a non-admin, then the store's 404 and link refusals; otherwise only that specialty is removed |
| `SpecialtyRouter.ListSpecialties` | api/v1/routers/specialty.py:105-116 | the gate's error, otherwise the specialty listing, page 1 of 20 by default |
| `ExamRouter.UpdatePayload` | api/v1/routers/exam.py:74 | the payload holds exactly the request fields the client set, once each, and always passes the whitelist |
| `ExamRouter.UpdateOrderFacts` | api/v1/routers/exam.py:74 | the exam update request declares each field once, and each is an exam column |
| `ExamRouter.PayloadSetsNull` | api/v1/routers/exam.py:74 | the payload sets a NOT NULL column to NULL exactly when the client sent null for the name or the type |
| `ExamRouter.CreateExam` | api/v1/routers/exam.py:28-41 | the gate's error, then 403 for a non-admin, then the service's clash 409; otherwise exactly the new exam |
| `ExamRouter.GetExam` | api/v1/routers/exam.py:47-55 | the gate's error, then 404 for a missing exam; otherwise the stored exam |
| `ExamRouter.UpdateExam` | api/v1/routers/exam.py:61-75 | the gate's error, then 403 for a non-admin, then 404, then 500 with nothing changed when the name or type is sent as null; otherwise the sent fields are applied |
| `ExamRouter.DeleteExam` | api/v1/routers/exam.py:81-93 | the gate's error, then 403 for a non-admin, then the store's 404 and link refusal; otherwise only that exam is removed |
| `ExamRouter.ListExams` | api/v1/routers/exam.py:99-108 | the gate's error, otherwise the exam listing, page 1 of 20 by default |
| `UserRouter.RequestRoleAccepted` | api/v1/routers/user.py:44 | a role sent in a request always names a role the store accepts |
| `UserRouter.CreateUser` | api/v1/routers/user.py:29-46 | the gate's error, then 403 for a non-admin, then the short-password 400 and the taken-name 409; otherwise exactly the new user with the requested role |
| `UserRouter.GetUser` | api/v1/routers/user.py:52-60 | the gate's error, then 404 for a missing user; otherwise the stored user |
| `UserRouter.ListUsers` | api/v1/routers/user.py:66-75 | the gate's error, otherwise the unguarded users listing, page 1 of 20 by default |
| `UserRouter.UpdateUserRole` | api/v1/routers/user.py:81-90 | the gate's error, then the service's 403 for a non-admin, then the store's checks; the role changes exactly when an active admin changes another existing user's role |
| `UserRouter.DeactivateUser` | api/v1/routers/user.py:96-105 | the gate's error, then the store's 404, self 400 and non-admin 403; otherwise only that user is deactivated |
| `CommentRouter.CreateComment` | api/v1/routers/comment.py:28-41 | the gate's error, then 404 for a missing applicant; otherwise exactly one comment authored by the requester |
| `CommentRouter.GetComment` | api/v1/routers/comment.py:47-55 | the gate's error, then 404 for a missing comment; otherwise the stored comment |
| `CommentRouter.DeleteComment` | api/v1/routers/comment.py:61-72 | the gate's error, then 404, then 403 unless the loaded requester is author or admin; otherwise exactly that comment is removed. Built on the corrected service `CommentService.DeleteComment`; as written every permitted delete is a 500 (`CommentService.DeleteCommentAsWritten`, see Findings) |
| `CommentRouter.ListComments` | api/v1/routers/comment.py:78-90 | the gate's error, otherwise the applicant's comments listing, page 1 of 20 by default |
| `AuditLogRouter.GetAuditLog` | api/v1/routers/auditlog.py:27-35 | the gate's error, then 404 for a missing entry; otherwise the stored entry |
| `AuditLogRouter.ListAuditLogs` | api/v1/routers/auditlog.py:41-53 | the gate's error, otherwise the applicant's entries listing, page 1 of 20 by default |

## Left out

- Access tokens, JWT signing and checking, sign-in, sign-up, refresh and logout are not modelled. The routes take the requester's id as a parameter.
- argon2 is not modelled: the password hash is a parameter of user creation, and password verification is left out.
- An `IntegrityError` at commit answers 500 "Database error occurred" with nothing changed where the model's integrity rules foresee it: a NULL first name, status, specialty name or code, exam name or type, and the delete of an applicant that audit entries refer to. Other clashes the database could report do not arise in the model: every other foreign key is checked before the commit, and usernames are unique.
- `session.refresh` is not modelled: the returned row is the committed row.
- Deletes are not awaited in the source (`session.delete` is a coroutine). The model removes the row, as the calls evidently intend, and so meets the audit entries' foreign key at the commit.
- Request validation by the request models (422 answers, required fields, types) is not modelled. Update payloads arrive as the map of fields the client set.
- Response serialisation, JSON encoding of the snapshots and the datetime formatter are not modelled.
- Wall-clock time is not modelled: timestamps are ticks of a clock that every stamped insert advances.
- Listings without an `ORDER BY` return rows in key order. The database may return any order.
- Comment stamps that tie in the same instant are not modelled, because every insert advances the clock.
- Concurrent requests, sessions, connection pooling and application start-up are not modelled.
- Reading one user, specialty, exam, comment, audit entry or applicant through its service is the store's read unchanged. Deactivating a user and deleting a specialty or exam through the service are the store's operation unchanged. The store member stands for each of them.
- `getattr` on an attribute that is neither a column nor `id` is modelled as a 500. Relationship attributes such as `comments` are treated the same way.
- `ApplicantService.UpdateApplicant`: requires distinct payload keys, which every Python dict has.
- `Crud.Store.DeleteApplicant`: reads `applicant.comments` and `applicant.applicant_specialties` (core/db/crud.py:196, 199) as loaded lists. On an async session these relationships are not loaded, and the implicit lazy load raises, which the client sees as a 500. The model follows the checks as written.
- `Crud.Store.DeleteSpecialty`: reads `specialty.applicant_specialties` and `specialty.specialty_exams` (core/db/crud.py:276, 279) as loaded lists; on an async session the lazy load raises (500). The model follows the checks as written.
- `Crud.Store.DeleteExam`: reads `exam.specialty_exams` (core/db/crud.py:348) as a loaded list; on an async session the lazy load raises (500). The model follows the check as written.
- `ApplicantService.CreateApplicant`: reads `created_by.id` (api/v1/services/applicant.py:79) after the applicant's commit. The session factory (core/db/__init__.py:13-15) keeps the default of expiring objects on commit, so this read needs a refresh that the async session refuses and raises: a 500 after the applicant is committed, with no audit entry written. The model reads the requester's key as loaded.
- `ApplicantService.UpdateApplicant`: reads `updated_by.id` (api/v1/services/applicant.py:112) after the update's commit. The session factory (core/db/__init__.py:13-15) expires objects on commit, so this read raises: a 500 after the update is committed, with no audit entry written. The model reads the requester's key as loaded.
- `ApplicantService.DeleteApplicant`: reads `deleted_by.id` (api/v1/services/applicant.py:138) after the delete's commit. The session factory (core/db/__init__.py:13-15) expires objects on commit, so this read raises: a 500 after the delete is committed, with no audit entry written. The model reads the requester's key as loaded, and also follows the store's delete checks as loaded lists.
- `ApplicantRouter.CreateApplicant`: built on `ApplicantService.CreateApplicant`; the route opens its session from the same factory, so the source answers 500 after the commit where the model answers with the created applicant.
- `ApplicantRouter.UpdateApplicant`: built on `ApplicantService.UpdateApplicant`; the route opens its session from the same factory, so the source answers 500 after the commit where the model answers with the updated applicant.
- `ApplicantRouter.DeleteApplicant`: built on `ApplicantService.DeleteApplicant`, with the same readings of the relationships and of the requester's key.
- `SpecialtyRouter.DeleteSpecialty`: built on `Crud.Store.DeleteSpecialty`, with the same reading of the relationships.
- `ExamRouter.DeleteExam`: built on `Crud.Store.DeleteExam`, with the same reading of the relationship.
- `Models.ParseRole`: `role not in UserRole.__dict__` (core/db/crud.py:27, 66) also accepts the class's own attribute names, such as `__module__` or `__doc__`. The model accepts only member names, so `Crud.Store.CreateUser` and `Crud.Store.UpdateUserRole` refuse those names with 400, where the source passes them on to the database.
- `Crud.Lookup`: keys are unbounded integers. The database's keys are 32-bit (`int4`), so a key above 2147483647 makes the lookup fail with a 500 where the model answers 404.
- `Pagination.Window`: page numbers, page sizes and offsets are unbounded integers. An offset or limit beyond the database's 64-bit range is a 500 in the source, where the model answers with a page.

## Findings

| source | as written | input that shows it | evidently intended | confidence | as-written member | corrected member |
|---|---|---|---|---|---|---|
| api/v1/services/comment.py:46 | the service calls the store's `delete_comment(session, comment_id)` without its required `current_user` argument, which raises a `TypeError` | any delete by the comment's author or by an admin of an existing comment: the answer is a 500 and the comment stays | pass the loaded requester on, so that a permitted delete removes the comment; the route `CommentRouter.DeleteComment` is built on this corrected service | high; not executed | `CommentService.DeleteCommentAsWritten` | `CommentService.DeleteComment` |

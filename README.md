# Enrollment core of the people/courses service, in Dafny

This project models the enrollment layer of a Go web service that keeps three Postgres tables:
`person`, `course`, and the many-to-many association table `person_course`. The model covers:

- the person service (`api/services/person.go`): the filtered listing, lookup by first name,
  update followed by a re-read, transactional creation with enrollments, and delete by first name;
- the batch enrollment (`api/services/personcourse.go`);
- the course service (`api/services/course.go`);
- the store-facing logic of three HTTP handlers (`api/handlers/handlers.go`): the age filter of
  the listing, the validation before creating a person, and the update of a person with additive
  enrollments.

The database is a class, `Database.Db`. It holds:

- the three tables as sequences of rows, in store order;
- the two id sequences, with serial semantics: ids start at 1, are never reused, and are not rolled back.

`Db.Valid()` states:

- unique primary keys, which the store enforces, each below its sequence value. The store does
  not enforce that bound, since an insert with an explicit id would pass. It holds because the
  services never supply an id: every key comes from the sequence;
- a unique `(person_id, course_id)` pair, which the store enforces in the assumed schema;
- no foreign keys, also an assumption about the schema;
- that every association's person id was handed out by the person sequence. The store does not
  enforce this bound: the services keep it, because they insert associations only for an id the
  sequence has already produced.

Each SQL statement the services issue is one `Db` method. Its contract is stated over the pure
table functions of module `Tables`: selection `Filter`, `Named`, `UpdateNamed`, the join
`JoinedCourses`, the conflict-ignoring insert `AddLinks`, and so on. The laws of those functions are
proved as lemmas. Each statement takes a `fail` flag for any failure of the store or connection.
A statement issued in a loop takes a set of failing item indices instead. The service operations
are imperative methods that issue these statements in the source's order and with the source's
early returns. Each method is proved against the table functions.

Modules:

- `Models`: entities and results;
- `Tables`: table functions and their laws;
- `Strconv`: Go's `strconv.Atoi` and `%d`;
- `Database`: the store;
- `PersonService`, `PersonCourseService`, `CourseService`, `Handlers`.

The association inserts differ between callers. The batch enrollment
(`api/services/personcourse.go:33-37`) and person creation (`api/services/person.go:92-94`) issue a
plain insert, while the update handler (`api/handlers/handlers.go:248-252`) adds
`ON CONFLICT (person_id, course_id) DO NOTHING`. So in the batch and in creation a course id given
twice, or one already linked, fails on the unique pair: as a recorded failure in the batch, and as a
rolled-back transaction in creation. The batch also checks and inserts person 0 rather than the
given person (see Findings). Deletion by first name deletes the associations of the person, as the
comment at `api/services/person.go:120` says, but only of the first row with that name, while it
deletes every row with that name (see Findings).

The loops over query results (`api/services/person.go:27-38` and `:149-156`) stop when
`rows.Next()` returns false and never call `rows.Err()`. A cursor error that ends the rows early
therefore returns the rows read so far with no error. The model gives each such cursor an optional
stop position (`stop`, `joinStop`, `joinStops`) and returns the truncated listing as a success,
through `Tables.Truncate` and `Tables.PeopleRead`. The course listing (`api/services/course.go:35`)
does check the cursor's error, and there it is an error.

## Model

| member | source | states |
|---|---|---|
| Tables.PeopleMatchingSpec | api/services/person.go:17 | a row is listed exactly when it is in the table and passes both filters, where an empty name and a zero age each mean "no condition" |
| Tables.UnfilteredListingIsTable | api/services/person.go:17 | with neither filter set, the listing is the whole table in store order |
| Tables.EmptyListing | api/services/person.go:17-38 | the listing is empty exactly when no row passes the filters |
| Tables.JoinedCoursesSpec | api/services/person.go:138-142 | a course row is in a person's join exactly when the row exists and an association links it to the person |
| Tables.EnrolledSpec | api/services/person.go:134-157 | a person's course ids are exactly the ids linked to the person whose course row still exists |
| Tables.PeopleReadSpec | api/services/person.go:27-38 | a listing read through cursors that may stop early lists each row with a prefix of its course ids, the full list where no course cursor stopped; with no stop at all it is the full view |
| Tables.PersonNamedSpec | api/services/person.go:42-58 | a lookup by first name yields the first row with that name, with its course ids; it yields the zero person (id 0) exactly when no row has the name |
| Tables.WithoutNamedSpec | api/services/person.go:126 | after a delete by first name, no row has that name and every other row is kept |
| Tables.UpdateNamedSpec | api/services/person.go:64 | an update by first name keeps every id and the key's uniqueness; no row keeps the old name unless it is also the new one |
| Tables.WithoutLinksOfSpec | api/services/person.go:121 | deleting a person's associations removes exactly the rows of that person id |
| Tables.LinksMembership | api/services/person.go:91-98 | the rows inserted for a new person are exactly the pairs of that id with a requested course |
| Tables.RenameCourseSpec | api/services/course.go:63-67 | a course rename keeps the id column and uniqueness; an absent id changes nothing |
| Tables.WithoutCourseSpec | api/services/course.go:96-100 | a course delete removes exactly the rows with that id; an absent id changes nothing |
| Tables.JoinAfterCourseDelete | api/services/course.go:98 | after a course delete, every person's join is the old join without that course, although no association changed |
| Tables.AddLinksExtends | api/handlers/handlers.go:246-258 | conflict-ignoring inserts never remove an association: the old table is a prefix of the new one |
| Tables.AddLinksMembership | api/handlers/handlers.go:246-258 | after conflict-ignoring inserts, a pair is present exactly when it was before or was requested |
| Tables.AddLinksIdempotent | api/handlers/handlers.go:248-252 | repeating the same conflict-ignoring inserts changes nothing |
| Tables.AddLinksKeepsDistinct | api/handlers/handlers.go:248-252 | conflict-ignoring inserts never create a duplicate pair |
| Database.Db.SelectPeople | api/services/person.go:17 | the filtered listing query returns the selected rows in store order, or a store error |
| Database.Db.SelectPersonByFirstName | api/services/person.go:46-51 | a single-row query by first name returns the first row with that name, or "no rows" when none has it |
| Database.Db.SelectPersonById | api/services/personcourse.go:25 | the person check succeeds exactly when a row with that id exists |
| Database.Db.SelectJoinedCourses | api/services/person.go:138-142 | the course join of one person |
| Database.Db.UpdatePeopleByFirstName | api/services/person.go:64 | overwrites the four columns of every row with that first name and keeps the store valid |
| Database.Db.InsertPerson | api/services/person.go:83-85 | appends a row under the next sequence value and returns that id |
| Database.Db.InsertPersonCourse | api/services/person.go:92-94 | a plain association insert that fails on an existing pair |
| Database.Db.InsertPersonCourseIgnoringConflict | api/handlers/handlers.go:248-252 | an association insert that does nothing on an existing pair |
| Database.Db.DeletePersonCourseByPerson | api/services/person.go:121 | deletes every association of one person id |
| Database.Db.DeletePersonCourseByPersons | api/services/person.go:121 | corrected cascade: deletes every association of any of the given person ids |
| Database.Db.DeletePeopleByFirstName | api/services/person.go:126 | deletes every row with that first name |
| Database.Db.BeginTx | api/services/person.go:76 | a transaction starts from a snapshot of the three tables, or fails |
| Database.Db.Rollback | api/services/person.go:80 | a rollback restores the tables but not the id sequences |
| Database.Db.Commit | api/services/person.go:101-103 | a commit reports an error exactly when it fails |
| Database.Db.SelectCourses | api/services/course.go:15 | the course listing query returns every course row in store order |
| Database.Db.SelectCourseById | api/services/course.go:48-52 | a single-row query by course id returns "no rows" exactly when no row has the id |
| Database.Db.UpdateCourseName | api/services/course.go:63-67 | sets the name of the row with that id and keeps the store valid |
| Database.Db.InsertCourse | api/services/course.go:80-84 | appends a course row under the next sequence value and returns that id |
| Database.Db.DeleteCourseById | api/services/course.go:96-100 | deletes the row with that id and touches no association |
| PersonService.GetCoursesByPersonID | api/services/person.go:134-157 | returns the ids of the joined course rows in join order, cut where a cursor error ends the rows, with no error; every listed id is linked and its course exists, and without a cursor stop every such id is listed |
| PersonService.GetAllPeople | api/services/person.go:11-39 | returns the rows passing the filters, in store order, up to where the listing cursor stops, each with its course ids up to where its own cursor stops, and no error for a stopped cursor; a failed course query for any listed row fails the whole listing with no partial list |
| PersonService.GetPersonByName | api/services/person.go:42-58 | returns the first row with that name and its courses (cut where the course cursor stops), the zero person without an error when none has it, and an error on any other read failure |
| PersonService.UpdatePersonByName | api/services/person.go:61-69 | overwrites every row with the old name, then returns the lookup of the new first name; a failed update is returned as is and nothing is read |
| PersonService.CreatePerson | api/services/person.go:72-106 | all or nothing: on success, one row with a fresh id and one association per requested course, in order, with the input person returned under the new id; on any failure, no row and no association is added |
| PersonService.InsertEnrollments | api/services/person.go:91-98 | the association inserts of a new person succeed exactly when no insert fails and no course id repeats, and then append the pairs in order; on a failure, the table holds the pairs of exactly the items before the first failing item, which is a failed insert or a repeated course id |
| PersonService.DeletePersonByName | api/services/person.go:109-131 | as written: no row with the name is an error with nothing deleted; a failed association delete leaves every row; otherwise the associations of the first such row's id and then every row with the name are deleted |
| PersonService.DeletePersonByNameCascade | api/services/person.go:109-131 | corrected: deletes the associations of every row with that name, so no association outlives its person |
| PersonService.CascadeKeepsReferences | api/services/person.go:121-126 | after the corrected deletion, every association still references an existing person |
| PersonService.DeleteByNameCanOrphan | api/services/person.go:114-126 | with two rows of the same first name, the deletion as written leaves an association whose person is gone |
| PersonCourseService.Step | api/services/personcourse.go:14-41 | one item either appends its pair, only when the course and the checked person exist and the pair is new, or records exactly one failure naming its course id |
| PersonCourseService.Enroll | api/services/personcourse.go:14-42 | the batch, item by item: the old associations stay a prefix, and each item adds one association or records one failure |
| PersonCourseService.EnrollEach | api/services/personcourse.go:14-42 | the batch loop leaves the association table and the failure list that the item-by-item definition gives |
| PersonCourseService.AddPersonToCourse | api/services/personcourse.go:10-50 | as written: the batch checks and inserts person 0 rather than the given person; it returns no error exactly when no item failed, else one error carrying every failure |
| PersonCourseService.AddPersonToCourseIntended | api/services/personcourse.go:10-50 | corrected: the same batch for the given person id |
| PersonCourseService.Outcome | api/services/personcourse.go:45-49 | the result is nil exactly when no item failed; otherwise it is one error wrapping the whole failure list |
| PersonCourseService.EnrollAddsOnlyChecked | api/services/personcourse.go:17-37 | an association is added only for a requested course that exists and a person that exists |
| PersonCourseService.EnrollKeepsReferences | api/services/personcourse.go:23-37 | a batch keeps every association pointing at an existing person |
| PersonCourseService.EnrollFailuresInOrder | api/services/personcourse.go:14-42 | each course id contributes at most one failure, and failures follow the input order |
| PersonCourseService.EnrollWithoutPerson | api/services/personcourse.go:23-29 | when the checked person does not exist, nothing is added and every item fails with a missing course or person |
| PersonCourseService.AddPersonToCourseNeverEnrolls | api/services/personcourse.go:24-37 | since ids start at 1, the batch as written never adds an association and reports a failure for every course id |
| PersonCourseService.EnrollAllSucceed | api/services/personcourse.go:14-42 | with no store failure, an existing person and existing, distinct, unlinked courses, the corrected batch enrolls the person in every course, in order, without error |
| PersonCourseService.ShadowedPersonExample | api/services/personcourse.go:24-25 | for person 1 and existing course 1, the batch as written reports the person missing; the corrected batch adds the pair |
| PersonCourseService.FailureMessage | api/services/personcourse.go:19-40 | each failure message ends with ": " and the reason: "course not found", "person not found", or the failed insert's own store text |
| PersonCourseService.JoinedMessages | api/services/personcourse.go:46 | the messages joined by spaces, as `%v` prints a slice of errors: empty exactly when there is no failure, and ending with the last failure's message |
| PersonCourseService.JoinedMessagesPrefix | api/services/personcourse.go:46 | the messages of the first k failures are a prefix of the messages of all of them |
| PersonCourseService.AggregateListsFailures | api/services/personcourse.go:45-46 | the aggregate error text begins with "failed to add some courses: [" and ends with "]"; for each failure, the messages up to and including its own follow the prefix and end with its message, so every failure is listed, in order |
| PersonCourseService.FailureMessageNamesCourse | api/services/personcourse.go:19-40 | each failure message begins "failed to add course " followed by the decimal id, which parses back to the id |
| CourseService.GetAllCourses | api/services/course.go:12-39 | returns every course row in store order, so an empty table gives an empty listing; a query or cursor error gives an error |
| CourseService.GetCourseByID | api/services/course.go:42-56 | "no rows" exactly when no row has the id; otherwise the one row with that id |
| CourseService.UpdateCourse | api/services/course.go:59-73 | renames the row with that id and returns the input course unchanged; an absent id is no error |
| CourseService.CreateCourse | api/services/course.go:76-89 | appends one row under a fresh id and returns the input course with that id, advancing the course id sequence by one; on failure neither the table nor the sequence changes |
| CourseService.DeleteCourse | api/services/course.go:92-105 | removes the row with that id and leaves person_course untouched; an absent id is no error |
| CourseService.CreatedCourseIsFound | api/services/course.go:80-84 | a created course is found by its new id, and no other id's lookup changes |
| CourseService.RenamedCourseIsFound | api/services/course.go:63-67 | after a rename, the row with that id carries the new name and every other row is kept |
| CourseService.DeletedCourseLeavesJoin | api/services/course.go:96-100 | after a course delete, a person's course ids are the old ones without the deleted id |
| Strconv.Atoi | api/handlers/handlers.go:150 | Go's `strconv.Atoi` on 64 bits: an accepted string is a sign or digit followed by digits only, and its value fits in 64 bits |
| Strconv.Itoa | api/services/personcourse.go:19 | the `%d` text of an integer: a leading minus exactly for a negative value, then decimal digits |
| Strconv.AtoiItoaRange | api/handlers/handlers.go:150 | a decimal integer parses back to itself exactly when it fits in 64 bits |
| Strconv.AtoiRejectsNonDigit | api/handlers/handlers.go:150-153 | a character that is neither a digit nor the leading sign makes the parse fail |
| Handlers.ParseAgeQuery | api/handlers/handlers.go:141-155 | an absent age means 0, and any accepted age fits in 64 bits |
| Handlers.AgeQueryRoundTrip | api/handlers/handlers.go:141-155 | every 64-bit age written in decimal is read back as itself |
| Handlers.AgeQueryRejectsNonDigit | api/handlers/handlers.go:148-154 | an age with a non-digit character is rejected |
| Handlers.HandleGetAllPeople | api/handlers/handlers.go:140-162 | an absent age means 0; a malformed age is a bad request, answered without a store read; otherwise the filtered listing as far as its cursors got, or a server error |
| Handlers.ValidNewPerson | api/handlers/handlers.go:288 | a body is accepted only with both names non-empty, so the zero person is rejected |
| Handlers.HandleCreatePerson | api/handlers/handlers.go:281-302 | a body without both names is a bad request and neither table nor the id sequence changes; otherwise the transactional create, answered with the new id and the requested courses, with the id sequence advanced once the row insert succeeds; the course table never changes |
| Handlers.FirstFailure | api/handlers/handlers.go:247-256 | the first failing item index, or the item count when no item fails |
| Handlers.HandleUpdatePersonByName | api/handlers/handlers.go:209-268 | an empty name is a bad request and an unknown name is not found, both without a mutation; otherwise every row with the name is overwritten, then the first such row's id is linked to each requested course until the first failing insert, with nothing undone; the answer carries that id and the requested courses |
| Handlers.LinkCourses | api/handlers/handlers.go:246-258 | the conflict-ignoring inserts up to the first failure, which is reported |
| Handlers.UpdateKeepsReferences | api/handlers/handlers.go:235-258 | the update and its inserts keep every association pointing at an existing person |
| Handlers.UpdateIsIdempotent | api/handlers/handlers.go:224-258 | for an update whose new first name is the path name, the resent request finds the same first row and so links the same id, and it changes neither the rows nor the associations |

## Findings

| source | as written | input that shows it | evidently intended | confidence | as-written member | corrected member |
|---|---|---|---|---|---|---|
| api/services/personcourse.go:24-37 | the person check and the insert use a local `personID` declared inside the loop, which shadows the parameter and is 0 | person 1 and course 1 both exist, and the batch is called for person 1 with courses `[1]`: it reports "person not found" and adds nothing | the parameter is used, and the pair (1, 1) is added | high (not executed) | PersonCourseService.AddPersonToCourse, PersonCourseService.AddPersonToCourseNeverEnrolls, PersonCourseService.ShadowedPersonExample | PersonCourseService.AddPersonToCourseIntended, PersonCourseService.EnrollAllSucceed |
| api/services/person.go:114-126 | the associations of only the first row with the name are deleted, but every row with that name is | rows (1, "Ann") and (2, "Ann") and the association (2, 7): deleting "Ann" removes both rows and leaves (2, 7) | the associations of every deleted row are removed | medium (not executed) | PersonService.DeletePersonByName, PersonService.DeleteByNameCanOrphan | PersonService.DeletePersonByNameCascade, PersonService.CascadeKeepsReferences |

## Left out

- JSON decoding and encoding, HTTP status writing and logging. A response is the `Handlers.Response` value. An undecodable request body is the `None` body.
- `rows.Scan` failures and `rows.Close` errors are not modelled. A cursor error that ends a result loop early is a stop position. Every other store failure is a flag, and all store errors are one outcome, `DbError`.
- Go returns a zero value together with an error, for example an empty person or course. The model returns `Err(DbError)` alone. This affects `PersonService.CreatePerson`, `PersonService.GetPersonByName`, `CourseService.CreateCourse`, `CourseService.UpdateCourse` and `CourseService.GetCourseByID`.
- Go's nil and empty slices are both the empty sequence.
- PersonCourseService.FailureMessageNamesCourse: covers only the fixed part and the id of each message. For a failed insert, the store's own text is a parameter, one per failure. The aggregate text (`%v` of the error list) is proved to carry its prefix and every message in order, but no lemma matches a whole aggregate text to a literal string.
- The schema is not part of this model. Two things about it are assumed. First, a unique `(person_id, course_id)` constraint: both the idempotent insert of the update handler and the duplicate failure of the plain inserts depend on it. Second, no foreign key on `person_course`: a person delete neither cascades to nor is refused by its associations, so the orphan of the second finding, and a deleted course dropping out of a person's courses only through the join, both depend on it.
- Column widths: ids and ages are unbounded integers. Serial overflow and the database's integer column range are not modelled. The age query parameter is parsed with 64-bit `strconv.Atoi` semantics.
- Transaction isolation and concurrent requests. The operations without a transaction are modelled as one uninterrupted sequence of statements.
- The deferred `tx.Rollback` of creation is modelled as an explicit rollback at each failure after the transaction began: the row insert, the association inserts and the commit. The id sequence is not rolled back.
- `api/services/courses.go` is a superseded duplicate of the course service and is not part of this model.
- The other handlers only forward to the services and map errors to status 500, so they are not part of this model. Neither are configuration, the database connection, `cmd/main.go` and routing.
- Row order. A query without `ORDER BY` has no fixed order in Postgres. The model takes store order everywhere: rows are kept in insertion order, and an update keeps a row in place. So "the first row with that name" is the earliest inserted one.

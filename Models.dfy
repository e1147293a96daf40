/** Entities of the people/courses service, and the outcomes its operations report. */
module Models {

  /** A row of the `person` table. Go's `Type` field is called `kind` here (`type` is a keyword). */
  datatype PersonRow = PersonRow(id: int, firstName: string, lastName: string, kind: string, age: int)

  /** A person as the services hand it out: a person row plus the course ids read from `person_course`. */
  datatype Person = Person(id: int, firstName: string, lastName: string, kind: string, age: int, courses: seq<int>)

  /** A row of the `course` table. */
  datatype Course = Course(id: int, name: string)

  /** A row of the `person_course` association table. */
  datatype Enrollment = Enrollment(personId: int, courseId: int)

  /** Why one course id of a batch enrollment was not added. */
  datatype CourseFailure =
    | CourseNotFound(courseId: int)
    | PersonNotFound(courseId: int)
    | InsertFailed(courseId: int)

  /** The errors the services return: any store failure, the "no rows" signal of a single-row
      query, and the aggregate error of a batch enrollment. */
  datatype Error =
    | DbError
    | NoRows
    | AddCoursesFailed(failures: seq<CourseFailure>)

  datatype Result<T> = Ok(value: T) | Err(error: Error)

  datatype Option<T> = None | Some(value: T)

  /** The zero value of a person (Go's `models.Person{}`). */
  const ZeroPerson := Person(0, "", "", "", 0, [])

  /** The stored columns of a person. */
  function RowOf(p: Person): PersonRow {
    PersonRow(p.id, p.firstName, p.lastName, p.kind, p.age)
  }

  /** A person row with its course ids attached. */
  function WithCourses(r: PersonRow, courses: seq<int>): Person {
    Person(r.id, r.firstName, r.lastName, r.kind, r.age, courses)
  }
}

/** The course operations of the service layer: create, read, update and delete on the course
    table. Deleting a course does not touch the association table. */
module CourseService {
  import opened Models
  import opened Tables
  import opened Database

  /** Every course row, in store order; an empty table gives an empty listing. `iterFails` is an
      error reported by the row cursor once the rows have been read. */
  method GetAllCourses(db: Db, selectFails: bool, iterFails: bool) returns (r: Result<seq<Course>>)
    ensures r == if selectFails || iterFails then Err(DbError) else Ok(db.courses)
  {
    var rows := db.SelectCourses(selectFails);
    if rows.Err? {
      return Err(rows.error);
    }
    var courses: seq<Course> := [];
    var i := 0;
    while i < |rows.value|
      invariant 0 <= i <= |rows.value|
      invariant courses == rows.value[..i]
    {
      courses := courses + [rows.value[i]];
      i := i + 1;
    }
    if iterFails {
      return Err(DbError);
    }
    assert rows.value[..i] == rows.value;
    return Ok(courses);
  }

  /** The course row with id `id`; "no rows" exactly when there is none. */
  method GetCourseByID(db: Db, id: int, fail: bool) returns (r: Result<Course>)
    requires db.Valid()
    ensures fail ==> r == Err(DbError)
    ensures r == Err(NoRows) <==> !fail && !HasCourse(db.courses, id)
    ensures !fail && HasCourse(db.courses, id) ==> r.Ok?
    ensures r.Ok? ==> r.value in db.courses && r.value.id == id && forall c :: c in db.courses && c.id == id ==> c == r.value
  {
    r := db.SelectCourseById(id, fail);
    if r.Ok? {
      forall c | c in db.courses && c.id == id ensures c == r.value {
        UniqueRowWithKey(db.courses, CourseKey, c, r.value);
      }
    }
  }

  /** Sets the name of the course row with id `id` and returns the given course unchanged (its
      own id is neither used nor checked). An absent id changes nothing and is no error. */
  method UpdateCourse(db: Db, id: int, course: Course, fail: bool) returns (r: Result<Course>)
    requires db.Valid()
    modifies db`courses
    ensures db.Valid()
    ensures r == if fail then Err(DbError) else Ok(course)
    ensures db.courses == if fail then old(db.courses) else RenameCourse(old(db.courses), id, course.name)
  {
    var err := db.UpdateCourseName(id, course.name, fail);
    if err.Some? {
      return Err(err.value);
    }
    return Ok(course);
  }

  /** Inserts a course row under a fresh id and returns the given course with that id. */
  method CreateCourse(db: Db, course: Course, fail: bool) returns (r: Result<Course>)
    requires db.Valid()
    modifies db`courses, db`courseSeq
    ensures db.Valid()
    ensures fail ==> r == Err(DbError) && db.courses == old(db.courses)
    ensures !fail ==>
      && r == Ok(course.(id := old(db.courseSeq)))
      && !HasCourse(old(db.courses), r.value.id)
      && db.courses == old(db.courses) + [r.value]
    ensures db.courseSeq == old(db.courseSeq) + (if fail then 0 else 1)
  {
    var id := db.InsertCourse(course.name, fail);
    if id.Err? {
      return Err(id.error);
    }
    return Ok(course.(id := id.value));
  }

  /** Deletes the course row with id `id`. The person_course table is not touched, so the
      deleted course leaves a person's course ids only through the join. An absent id is no error. */
  method DeleteCourse(db: Db, id: int, fail: bool) returns (err: Option<Error>)
    requires db.Valid()
    modifies db`courses
    ensures db.Valid()
    ensures err == if fail then Some(DbError) else None
    ensures db.courses == if fail then old(db.courses) else WithoutCourse(old(db.courses), id)
  {
    err := db.DeleteCourseById(id, fail);
  }

  // ---------------------------------------------------------------------------
  // Laws of the course table
  // ---------------------------------------------------------------------------

  /** A created course is found by its new id, and no other id's lookup changes. */
  lemma CreatedCourseIsFound(courses: seq<Course>, c: Course, id: int)
    requires !HasCourse(courses, c.id)
    ensures CoursesWithId(courses + [c], c.id) == [c]
    ensures id != c.id ==> CoursesWithId(courses + [c], id) == CoursesWithId(courses, id)
  {
    FilterAppend((x: Course) => x.id == c.id, courses, [c]);
    FilterEmpty((x: Course) => x.id == c.id, courses);
    FilterAppend((x: Course) => x.id == id, courses, [c]);
    assert [c][..0] == [];
  }

  /** After a rename, the lookup of that id finds the new name, and every other row is as it was. */
  lemma RenamedCourseIsFound(courses: seq<Course>, id: int, name: string)
    requires DistinctBy(courses, CourseKey)
    ensures var renamed := RenameCourse(courses, id, name);
      && (HasCourse(courses, id) <==> HasCourse(renamed, id))
      && (forall c :: c in renamed && c.id == id ==> c.name == name)
      && (forall c :: c in courses && c.id != id ==> c in renamed)
  {
    var renamed := RenameCourse(courses, id, name);
    forall c | c in courses && c.id != id ensures c in renamed {
      var i :| 0 <= i < |courses| && courses[i] == c;
      assert renamed[i] == c;
    }
    if HasCourse(courses, id) {
      var c :| c in courses && c.id == id;
      var i :| 0 <= i < |courses| && courses[i] == c;
      assert renamed[i] in renamed;
    }
    if HasCourse(renamed, id) {
      var c :| c in renamed && c.id == id;
      var i :| 0 <= i < |renamed| && renamed[i] == c;
      assert courses[i] in courses;
    }
  }

  /** After a delete, no row has that id, and a person's course ids are the old ones less the
      deleted id, although no association was removed. */
  lemma DeletedCourseLeavesJoin(links: seq<Enrollment>, courses: seq<Course>, id: int, pid: int)
    ensures !HasCourse(WithoutCourse(courses, id), id)
    ensures forall x :: x in Enrolled(links, WithoutCourse(courses, id), pid) <==> x in Enrolled(links, courses, pid) && x != id
  {
    WithoutCourseSpec(courses, id);
    EnrolledSpec(links, courses, pid);
    EnrolledSpec(links, WithoutCourse(courses, id), pid);
    forall x ensures x in CourseIds(WithoutCourse(courses, id)) <==> x in CourseIds(courses) && x != id {
      CourseIdsMembership(courses, x);
      CourseIdsMembership(WithoutCourse(courses, id), x);
    }
  }
}

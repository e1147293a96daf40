/** The relational store the services talk to, held in memory: the `person`, `course` and
    `person_course` tables and the two id sequences. Each method is one SQL statement the
    services issue; its `fail` flag stands for any failure of the store or the connection,
    which the statement then reports as `DbError` without changing anything. */
module Database {
  import opened Models
  import opened Tables

  /** The tables as a transaction saw them when it began; a rollback restores them. */
  datatype Snapshot = Snapshot(people: seq<PersonRow>, courses: seq<Course>, personCourse: seq<Enrollment>)

  class Db {
    var people: seq<PersonRow>
    var courses: seq<Course>
    var personCourse: seq<Enrollment>
    /** Next value of the person id sequence; ids start at 1 and are never reused. */
    var personSeq: int
    /** Next value of the course id sequence. */
    var courseSeq: int

    /** The store's constraints together with the invariants the services keep. The store
        enforces unique primary keys and, in the assumed schema, a unique (person_id, course_id)
        pair. There are no foreign keys: an association may name a course that was deleted, or
        never existed, and deleting a person leaves its associations alone. That every key, and
        every association's person id, was handed out by its sequence is not a store constraint:
        an insert with an explicit id would pass. It holds because the services never supply an
        id of their own and insert associations only for an id the sequence has handed out. */
    ghost predicate Valid()
      reads this
    {
      && 1 <= personSeq && 1 <= courseSeq
      && DistinctBy(people, PersonKey) && (forall r :: r in people ==> 1 <= r.id < personSeq)
      && DistinctBy(courses, CourseKey) && (forall c :: c in courses ==> 1 <= c.id < courseSeq)
      && DistinctBy(personCourse, LinkKey) && (forall l :: l in personCourse ==> l.personId < personSeq)
    }

    /** Tables that may be put back in place of the current ones without breaking the constraints. */
    ghost predicate Restorable(s: Snapshot)
      reads this`personSeq, this`courseSeq
    {
      && DistinctBy(s.people, PersonKey) && (forall r :: r in s.people ==> 1 <= r.id < personSeq)
      && DistinctBy(s.courses, CourseKey) && (forall c :: c in s.courses ==> 1 <= c.id < courseSeq)
      && DistinctBy(s.personCourse, LinkKey) && (forall l :: l in s.personCourse ==> l.personId < personSeq)
    }

    /** An empty database. */
    constructor ()
      ensures Valid()
      ensures people == [] && courses == [] && personCourse == []
    {
      people, courses, personCourse := [], [], [];
      personSeq, courseSeq := 1, 1;
    }

    // --- person ----------------------------------------------------------------

    /** The filtered person listing of GetAllPeople. */
    method SelectPeople(name: string, age: int, fail: bool) returns (r: Result<seq<PersonRow>>)
      ensures r == if fail then Err(DbError) else Ok(PeopleMatching(people, name, age))
    {
      if fail { return Err(DbError); }
      return Ok(PeopleMatching(people, name, age));
    }

    /** A single-row query by first name: the first matching row, or "no rows". */
    method SelectPersonByFirstName(name: string, fail: bool) returns (r: Result<PersonRow>)
      ensures fail ==> r == Err(DbError)
      ensures !fail && Named(people, name) == [] ==> r == Err(NoRows)
      ensures !fail && Named(people, name) != [] ==> r == Ok(Named(people, name)[0])
      ensures r.Ok? ==> r.value in people && r.value.firstName == name
    {
      if fail { return Err(DbError); }
      var rows := Named(people, name);
      if rows == [] { return Err(NoRows); }
      FilterMembership((p: PersonRow) => p.firstName == name, people);
      assert rows[0] in rows;
      return Ok(rows[0]);
    }

    /** A single-row query for a person id: the id back if such a row exists, or "no rows". */
    method SelectPersonById(id: int, fail: bool) returns (r: Result<int>)
      ensures fail ==> r == Err(DbError)
      ensures !fail ==> r == if id in PersonIds(people) then Ok(id) else Err(NoRows)
    {
      if fail { return Err(DbError); }
      var rows := PeopleWithId(people, id);
      FilterMembership((p: PersonRow) => p.id == id, people);
      if rows == [] {
        FilterEmpty((p: PersonRow) => p.id == id, people);
        return Err(NoRows);
      }
      assert rows[0] in rows;
      return Ok(rows[0].id);
    }

    /** The join of a person's association rows with the course table. */
    method SelectJoinedCourses(pid: int, fail: bool) returns (r: Result<seq<Course>>)
      ensures r == if fail then Err(DbError) else Ok(JoinedCourses(personCourse, courses, pid))
    {
      if fail { return Err(DbError); }
      return Ok(JoinedCourses(personCourse, courses, pid));
    }

    /** Overwrites the four columns of every row whose first name is `name`. */
    method UpdatePeopleByFirstName(name: string, first: string, last: string, kind: string, age: int, fail: bool)
      returns (err: Option<Error>)
      requires Valid()
      modifies this`people
      ensures Valid()
      ensures err == if fail then Some(DbError) else None
      ensures people == if fail then old(people) else UpdateNamed(old(people), name, first, last, kind, age)
    {
      if fail { return Some(DbError); }
      UpdateNamedSpec(people, name, first, last, kind, age);
      people := UpdateNamed(people, name, first, last, kind, age);
      return None;
    }

    /** Inserts a person row and returns the id the sequence generated for it. */
    method InsertPerson(first: string, last: string, kind: string, age: int, fail: bool) returns (r: Result<int>)
      requires Valid()
      modifies this`people, this`personSeq
      ensures Valid()
      ensures fail ==> r == Err(DbError) && people == old(people) && personSeq == old(personSeq)
      ensures !fail ==>
        && r == Ok(old(personSeq))
        && people == old(people) + [PersonRow(old(personSeq), first, last, kind, age)]
        && personSeq == old(personSeq) + 1
    {
      if fail { return Err(DbError); }
      var id := personSeq;
      var row := PersonRow(id, first, last, kind, age);
      forall i, j | 0 <= i < j < |people + [row]| ensures PersonKey((people + [row])[i]) != PersonKey((people + [row])[j]) {
        assert (people + [row])[i] in people;
      }
      people := people + [row];
      personSeq := personSeq + 1;
      return Ok(id);
    }

    /** A plain association insert: fails when the pair is already present (unique constraint). */
    method InsertPersonCourse(pid: int, cid: int, fail: bool) returns (err: Option<Error>)
      requires Valid() && pid < personSeq
      modifies this`personCourse
      ensures Valid()
      ensures err == if fail || Enrollment(pid, cid) in old(personCourse) then Some(DbError) else None
      ensures personCourse == if err.Some? then old(personCourse) else old(personCourse) + [Enrollment(pid, cid)]
    {
      var l := Enrollment(pid, cid);
      if fail || l in personCourse { return Some(DbError); }
      AppendKeepsDistinct(personCourse, l);
      personCourse := personCourse + [l];
      return None;
    }

    /** An association insert that does nothing when the pair is already present. */
    method InsertPersonCourseIgnoringConflict(pid: int, cid: int, fail: bool) returns (err: Option<Error>)
      requires Valid() && pid < personSeq
      modifies this`personCourse
      ensures Valid()
      ensures err == if fail then Some(DbError) else None
      ensures personCourse == if fail then old(personCourse) else AddLink(old(personCourse), Enrollment(pid, cid))
    {
      if fail { return Some(DbError); }
      var l := Enrollment(pid, cid);
      if l !in personCourse {
        AppendKeepsDistinct(personCourse, l);
      }
      personCourse := AddLink(personCourse, l);
      return None;
    }

    /** Deletes every association row of person `pid`. */
    method DeletePersonCourseByPerson(pid: int, fail: bool) returns (err: Option<Error>)
      requires Valid()
      modifies this`personCourse
      ensures Valid()
      ensures err == if fail then Some(DbError) else None
      ensures personCourse == if fail then old(personCourse) else WithoutLinksOf(old(personCourse), pid)
    {
      if fail { return Some(DbError); }
      FilterKeepsDistinct((l: Enrollment) => l.personId != pid, LinkKey, personCourse);
      FilterMembership((l: Enrollment) => l.personId != pid, personCourse);
      personCourse := WithoutLinksOf(personCourse, pid);
      return None;
    }

    /** Deletes every association row of a person in `pids`. */
    method DeletePersonCourseByPersons(pids: set<int>, fail: bool) returns (err: Option<Error>)
      requires Valid()
      modifies this`personCourse
      ensures Valid()
      ensures err == if fail then Some(DbError) else None
      ensures personCourse == if fail then old(personCourse) else WithoutLinksOfAny(old(personCourse), pids)
    {
      if fail { return Some(DbError); }
      FilterKeepsDistinct((l: Enrollment) => l.personId !in pids, LinkKey, personCourse);
      FilterMembership((l: Enrollment) => l.personId !in pids, personCourse);
      personCourse := WithoutLinksOfAny(personCourse, pids);
      return None;
    }

    /** Deletes every person row whose first name is `name`. */
    method DeletePeopleByFirstName(name: string, fail: bool) returns (err: Option<Error>)
      requires Valid()
      modifies this`people
      ensures Valid()
      ensures err == if fail then Some(DbError) else None
      ensures people == if fail then old(people) else WithoutNamed(old(people), name)
    {
      if fail { return Some(DbError); }
      FilterKeepsDistinct((r: PersonRow) => r.firstName != name, PersonKey, people);
      FilterMembership((r: PersonRow) => r.firstName != name, people);
      people := WithoutNamed(people, name);
      return None;
    }

    // --- transactions ------------------------------------------------------------

    /** Starts a transaction: remembers the tables so that a rollback can restore them. */
    method BeginTx(fail: bool) returns (r: Result<Snapshot>)
      ensures r == if fail then Err(DbError) else Ok(Snapshot(people, courses, personCourse))
    {
      if fail { return Err(DbError); }
      return Ok(Snapshot(people, courses, personCourse));
    }

    /** Ends a transaction; a failed commit leaves the transaction to be rolled back. */
    method Commit(fail: bool) returns (err: Option<Error>)
      ensures err == if fail then Some(DbError) else None
    {
      return if fail then Some(DbError) else None;
    }

    /** Undoes a transaction. The id sequences are not transactional and keep their values. */
    method Rollback(s: Snapshot)
      requires Valid() && Restorable(s)
      modifies this`people, this`courses, this`personCourse
      ensures Valid()
      ensures people == s.people && courses == s.courses && personCourse == s.personCourse
    {
      people, courses, personCourse := s.people, s.courses, s.personCourse;
    }

    // --- course --------------------------------------------------------------------

    /** Every course row, in store order. */
    method SelectCourses(fail: bool) returns (r: Result<seq<Course>>)
      ensures r == if fail then Err(DbError) else Ok(courses)
    {
      if fail { return Err(DbError); }
      return Ok(courses);
    }

    /** A single-row query by course id: the row, or "no rows". */
    method SelectCourseById(id: int, fail: bool) returns (r: Result<Course>)
      ensures fail ==> r == Err(DbError)
      ensures !fail && CoursesWithId(courses, id) == [] ==> r == Err(NoRows)
      ensures !fail && CoursesWithId(courses, id) != [] ==> r == Ok(CoursesWithId(courses, id)[0])
      ensures r.Ok? ==> r.value in courses && r.value.id == id
      ensures r == Err(NoRows) <==> !fail && !HasCourse(courses, id)
    {
      FilterEmpty((c: Course) => c.id == id, courses);
      if fail { return Err(DbError); }
      var rows := CoursesWithId(courses, id);
      if rows == [] { return Err(NoRows); }
      FilterMembership((c: Course) => c.id == id, courses);
      assert rows[0] in rows;
      return Ok(rows[0]);
    }

    /** Sets the name of the course row with id `id`. */
    method UpdateCourseName(id: int, name: string, fail: bool) returns (err: Option<Error>)
      requires Valid()
      modifies this`courses
      ensures Valid()
      ensures err == if fail then Some(DbError) else None
      ensures courses == if fail then old(courses) else RenameCourse(old(courses), id, name)
    {
      if fail { return Some(DbError); }
      RenameCourseSpec(courses, id, name);
      var renamed := RenameCourse(courses, id, name);
      forall c | c in renamed ensures 1 <= c.id < courseSeq {
        var i :| 0 <= i < |renamed| && renamed[i] == c;
        assert courses[i] in courses;
      }
      courses := renamed;
      return None;
    }

    /** Inserts a course row and returns the id the sequence generated for it. */
    method InsertCourse(name: string, fail: bool) returns (r: Result<int>)
      requires Valid()
      modifies this`courses, this`courseSeq
      ensures Valid()
      ensures fail ==> r == Err(DbError) && courses == old(courses) && courseSeq == old(courseSeq)
      ensures !fail ==>
        && r == Ok(old(courseSeq))
        && courses == old(courses) + [Course(old(courseSeq), name)]
        && courseSeq == old(courseSeq) + 1
    {
      if fail { return Err(DbError); }
      var id := courseSeq;
      var row := Course(id, name);
      forall i, j | 0 <= i < j < |courses + [row]| ensures CourseKey((courses + [row])[i]) != CourseKey((courses + [row])[j]) {
        assert (courses + [row])[i] in courses;
      }
      courses := courses + [row];
      courseSeq := courseSeq + 1;
      return Ok(id);
    }

    /** Deletes the course row with id `id`; association rows are not touched. */
    method DeleteCourseById(id: int, fail: bool) returns (err: Option<Error>)
      requires Valid()
      modifies this`courses
      ensures Valid()
      ensures err == if fail then Some(DbError) else None
      ensures courses == if fail then old(courses) else WithoutCourse(old(courses), id)
    {
      if fail { return Some(DbError); }
      FilterKeepsDistinct((c: Course) => c.id != id, CourseKey, courses);
      FilterMembership((c: Course) => c.id != id, courses);
      courses := WithoutCourse(courses, id);
      return None;
    }
  }
}

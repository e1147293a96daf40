/** The person operations of the service layer: listing, lookup, update, creation with
    enrollments, and deletion by first name. Each takes the store explicitly, as the service
    functions take their database handle, plus one failure flag per statement it issues (a set
    of item indices for the statements it issues in a loop). */
module PersonService {
  import opened Models
  import opened Tables
  import opened Database

  /** The course ids of a person: the ids of the course rows the join yields, in join order.
      `stop` is a cursor error that ends the rows after that many: the loop never asks the
      cursor for its error, so the ids read so far come back as a success. */
  method GetCoursesByPersonID(db: Db, personId: int, fail: bool, stop: Option<nat>) returns (r: Result<seq<int>>)
    ensures fail ==> r == Err(DbError)
    ensures !fail ==> r == Ok(Truncate(Enrolled(db.personCourse, db.courses, personId), stop))
    ensures r.Ok? ==> forall x :: x in r.value ==> Enrollment(personId, x) in db.personCourse && x in CourseIds(db.courses)
    ensures r.Ok? && stop.None? ==>
      forall x :: Enrollment(personId, x) in db.personCourse && x in CourseIds(db.courses) ==> x in r.value
  {
    EnrolledSpec(db.personCourse, db.courses, personId);
    var rows := db.SelectJoinedCourses(personId, fail);
    if rows.Err? {
      return Err(rows.error);
    }
    var ids: seq<int> := [];
    var i := 0;
    while i < |rows.value| && stop != Some(i)
      invariant 0 <= i <= |rows.value|
      invariant stop.Some? ==> i <= stop.value
      invariant ids == CourseIds(rows.value[..i])
    {
      ids := ids + [rows.value[i].id];
      i := i + 1;
    }
    assert rows.value[..i] == Truncate(rows.value, stop);
    assert CourseIds(rows.value[..i]) == CourseIds(rows.value)[..i];
    return Ok(ids);
  }

  /** The person listing: every row that passes the name and age filters, in store order, each
      with its course ids. A failed course read for any listed row fails the whole listing. The
      cursor of the listing (`stop`) and that of each row's courses (`joinStops`, by position)
      may end early on an error; the loops never ask for it, so what was read is returned. */
  method GetAllPeople(db: Db, name: string, age: int, selectFails: bool, stop: Option<nat>, joinFails: set<nat>, joinStops: map<nat, nat>)
    returns (r: Result<seq<Person>>)
    ensures selectFails ==> r == Err(DbError)
    ensures !selectFails ==>
      var rows := Truncate(PeopleMatching(db.people, name, age), stop);
      r == if exists k :: k in joinFails && k < |rows| then Err(DbError)
           else Ok(PeopleRead(rows, db.personCourse, db.courses, joinStops))
  {
    var rows := db.SelectPeople(name, age, selectFails);
    if rows.Err? {
      return Err(rows.error);
    }
    var people: seq<Person> := [];
    var i := 0;
    while i < |rows.value| && stop != Some(i)
      invariant 0 <= i <= |rows.value|
      invariant stop.Some? ==> i <= stop.value
      invariant forall k :: k in joinFails ==> k >= i
      invariant people == PeopleRead(rows.value[..i], db.personCourse, db.courses, joinStops)
    {
      var row := rows.value[i];
      var courses := GetCoursesByPersonID(db, row.id, i in joinFails, StopOf(joinStops, i));
      if courses.Err? {
        assert i < |Truncate(rows.value, stop)|;
        return Err(courses.error);
      }
      PeopleReadStep(rows.value, db.personCourse, db.courses, joinStops, i);
      people := people + [WithCourses(row, courses.value)];
      i := i + 1;
    }
    assert rows.value[..i] == Truncate(rows.value, stop);
    return Ok(people);
  }

  /** The lookup by first name: the first row with that name with its course ids, or the zero
      person, without an error, when no row has that name. `joinStop` is a cursor error that
      ends the course ids early, unreported. */
  method GetPersonByName(db: Db, name: string, selectFails: bool, joinFails: bool, joinStop: Option<nat>) returns (r: Result<Person>)
    ensures selectFails ==> r == Err(DbError)
    ensures !selectFails ==>
      r == if Named(db.people, name) != [] && joinFails then Err(DbError)
           else Ok(CutCourses(PersonNamed(db.people, db.personCourse, db.courses, name), joinStop))
  {
    var row := db.SelectPersonByFirstName(name, selectFails);
    if row.Err? {
      if row.error == NoRows {
        return Ok(ZeroPerson);
      }
      return Err(row.error);
    }
    var courses := GetCoursesByPersonID(db, row.value.id, joinFails, joinStop);
    if courses.Err? {
      return Err(courses.error);
    }
    return Ok(WithCourses(row.value, courses.value));
  }

  /** Overwrites every row whose first name is `name`, then looks the person up again under the
      new first name. A failed update is returned as is and nothing is read. */
  method UpdatePersonByName(db: Db, name: string, person: Person, updateFails: bool, selectFails: bool, joinFails: bool, joinStop: Option<nat>)
    returns (r: Result<Person>)
    requires db.Valid()
    modifies db`people
    ensures db.Valid()
    ensures updateFails ==> r == Err(DbError) && db.people == old(db.people)
    ensures !updateFails ==>
      && db.people == UpdateNamed(old(db.people), name, person.firstName, person.lastName, person.kind, person.age)
      && (selectFails ==> r == Err(DbError))
      && (!selectFails ==>
            r == if Named(db.people, person.firstName) != [] && joinFails then Err(DbError)
                 else Ok(CutCourses(PersonNamed(db.people, db.personCourse, db.courses, person.firstName), joinStop)))
  {
    var err := db.UpdatePeopleByFirstName(name, person.firstName, person.lastName, person.kind, person.age, updateFails);
    if err.Some? {
      return Err(err.value);
    }
    r := GetPersonByName(db, person.firstName, selectFails, joinFails, joinStop);
  }

  /** Creates a person and the person's enrollments in one transaction. Either everything is
      stored (one new row with a fresh id, then one association per course id, in order) or, on
      any failure, no row at all; the id sequence is not rolled back. */
  method CreatePerson(db: Db, person: Person, beginFails: bool, insertFails: bool, linkFails: set<nat>, commitFails: bool)
    returns (r: Result<Person>)
    requires db.Valid()
    modifies db`people, db`courses, db`personCourse, db`personSeq
    ensures db.Valid()
    ensures db.courses == old(db.courses)
    ensures r.Ok? <==>
      && !beginFails && !insertFails && !commitFails
      && (forall k :: k in linkFails ==> k >= |person.courses|)
      && NoDuplicates(person.courses)
    ensures r.Ok? ==>
      && r.value == person.(id := old(db.personSeq))
      && r.value.id !in PersonIds(old(db.people))
      && db.people == old(db.people) + [RowOf(r.value)]
      && db.personCourse == old(db.personCourse) + Links(r.value.id, person.courses)
    ensures r.Err? ==> r.error == DbError && db.people == old(db.people) && db.personCourse == old(db.personCourse)
    ensures db.personSeq == old(db.personSeq) + (if beginFails || insertFails then 0 else 1)
  {
    var tx := db.BeginTx(beginFails);
    if tx.Err? {
      return Err(tx.error);
    }
    var id := db.InsertPerson(person.firstName, person.lastName, person.kind, person.age, insertFails);
    assert db.Restorable(tx.value);
    if id.Err? {
      db.Rollback(tx.value);
      return Err(id.error);
    }
    var err := InsertEnrollments(db, id.value, person.courses, linkFails);
    if err.Some? {
      db.Rollback(tx.value);
      return Err(err.value);
    }
    err := db.Commit(commitFails);
    if err.Some? {
      db.Rollback(tx.value);
      return Err(err.value);
    }
    return Ok(person.(id := id.value));
  }

  /** The association inserts of CreatePerson, inside its transaction: one plain insert of
      (pid, c) per course id, in order, stopping at the first failure. A course id given twice
      fails on the unique pair. */
  method InsertEnrollments(db: Db, pid: int, courseIds: seq<int>, linkFails: set<nat>) returns (err: Option<Error>)
    requires db.Valid() && pid < db.personSeq
    requires forall l :: l in db.personCourse ==> l.personId != pid
    modifies db`personCourse
    ensures db.Valid()
    ensures err.None? <==> (forall k :: k in linkFails ==> k >= |courseIds|) && NoDuplicates(courseIds)
    ensures err.Some? ==> err == Some(DbError)
    ensures err.None? ==> db.personCourse == old(db.personCourse) + Links(pid, courseIds)
    ensures err.Some? ==> exists k ::
      && 0 <= k < |courseIds|
      && (k in linkFails || courseIds[k] in courseIds[..k])
      && (forall j :: j in linkFails ==> j >= k)
      && NoDuplicates(courseIds[..k])
      && db.personCourse == old(db.personCourse) + Links(pid, courseIds[..k])
  {
    var i := 0;
    while i < |courseIds|
      invariant 0 <= i <= |courseIds|
      invariant db.Valid()
      invariant db.personCourse == old(db.personCourse) + Links(pid, courseIds[..i])
      invariant forall k :: k in linkFails ==> k >= i
      invariant NoDuplicates(courseIds[..i])
    {
      var courseId := courseIds[i];
      LinksContains(pid, courseIds[..i], courseId);
      assert Enrollment(pid, courseId) in old(db.personCourse) + Links(pid, courseIds[..i]) <==> courseId in courseIds[..i];
      NoDuplicatesStep(courseIds, i);
      err := db.InsertPersonCourse(pid, courseId, i in linkFails);
      if err.Some? {
        assert i in linkFails || courseIds[i] in courseIds[..i];
        return;
      }
      LinksStep(pid, courseIds, i);
      i := i + 1;
    }
    assert courseIds[..i] == courseIds;
    return None;
  }

  /** Deletes by first name: looks up the id of the first row with that name, deletes that id's
      associations, then deletes every row with that name. Without a transaction, a failed row
      delete leaves the associations deleted. */
  method DeletePersonByName(db: Db, name: string, selectFails: bool, unlinkFails: bool, deleteFails: bool)
    returns (err: Option<Error>)
    requires db.Valid()
    modifies db`people, db`personCourse
    ensures db.Valid()
    ensures selectFails ==> err == Some(DbError)
    ensures !selectFails && Named(old(db.people), name) == [] ==> err == Some(NoRows)
    ensures selectFails || Named(old(db.people), name) == [] || unlinkFails ==>
      db.people == old(db.people) && db.personCourse == old(db.personCourse)
    ensures !selectFails && Named(old(db.people), name) != [] ==>
      var id := Named(old(db.people), name)[0].id;
      && (unlinkFails ==> err == Some(DbError))
      && (!unlinkFails ==>
            && db.personCourse == WithoutLinksOf(old(db.personCourse), id)
            && err == (if deleteFails then Some(DbError) else None)
            && db.people == if deleteFails then old(db.people) else WithoutNamed(old(db.people), name))
  {
    var row := db.SelectPersonByFirstName(name, selectFails);
    if row.Err? {
      return Some(row.error);
    }
    err := db.DeletePersonCourseByPerson(row.value.id, unlinkFails);
    if err.Some? {
      return err;
    }
    err := db.DeletePeopleByFirstName(name, deleteFails);
  }

  /** Deletion by first name that clears the associations of every row with that name, not only
      of the first one, so that no association outlives its person. */
  method DeletePersonByNameCascade(db: Db, name: string, selectFails: bool, unlinkFails: bool, deleteFails: bool)
    returns (err: Option<Error>)
    requires db.Valid()
    modifies db`people, db`personCourse
    ensures db.Valid()
    ensures selectFails ==> err == Some(DbError)
    ensures !selectFails && Named(old(db.people), name) == [] ==> err == Some(NoRows)
    ensures selectFails || Named(old(db.people), name) == [] || unlinkFails ==>
      db.people == old(db.people) && db.personCourse == old(db.personCourse)
    ensures !selectFails && Named(old(db.people), name) != [] ==>
      && (unlinkFails ==> err == Some(DbError))
      && (!unlinkFails ==>
            && db.personCourse == WithoutLinksOfAny(old(db.personCourse), PersonIds(Named(old(db.people), name)))
            && err == (if deleteFails then Some(DbError) else None)
            && db.people == if deleteFails then old(db.people) else WithoutNamed(old(db.people), name))
    ensures LinksReferencePeople(old(db.people), old(db.personCourse)) ==> LinksReferencePeople(db.people, db.personCourse)
  {
    var row := db.SelectPersonByFirstName(name, selectFails);
    if row.Err? {
      return Some(row.error);
    }
    var ids := PersonIds(Named(db.people, name));
    err := db.DeletePersonCourseByPersons(ids, unlinkFails);
    if err.Some? {
      return err;
    }
    ghost var before := old(db.people);
    err := db.DeletePeopleByFirstName(name, deleteFails);
    CascadeKeepsReferences(before, old(db.personCourse), name);
  }

  /** Removing a name's rows together with all of their associations leaves no association
      pointing at a missing person, whether or not the row delete went through. */
  lemma CascadeKeepsReferences(people: seq<PersonRow>, links: seq<Enrollment>, name: string)
    ensures var unlinked := WithoutLinksOfAny(links, PersonIds(Named(people, name)));
      && (LinksReferencePeople(people, links) ==> LinksReferencePeople(people, unlinked))
      && (LinksReferencePeople(people, links) ==> LinksReferencePeople(WithoutNamed(people, name), unlinked))
  {
    var ids := PersonIds(Named(people, name));
    var unlinked := WithoutLinksOfAny(links, ids);
    FilterMembership((l: Enrollment) => l.personId !in ids, links);
    FilterMembership((r: PersonRow) => r.firstName == name, people);
    FilterMembership((r: PersonRow) => r.firstName != name, people);
    if LinksReferencePeople(people, links) {
      forall l | l in unlinked ensures l.personId in PersonIds(WithoutNamed(people, name)) {
        var r :| r in people && r.id == l.personId;
        assert r !in Named(people, name);
        assert r in WithoutNamed(people, name);
      }
    }
  }

  /** The deletion as written can leave an association whose person is gone: with two rows named
      "Ann", only the first one's associations are deleted, but both rows are. */
  lemma DeleteByNameCanOrphan()
    ensures var people := [PersonRow(1, "Ann", "Lee", "student", 20), PersonRow(2, "Ann", "Ray", "student", 21)];
      var links := [Enrollment(2, 7)];
      && LinksReferencePeople(people, links)
      && Named(people, "Ann")[0].id == 1
      && WithoutLinksOf(links, 1) == links
      && WithoutNamed(people, "Ann") == []
      && !LinksReferencePeople(WithoutNamed(people, "Ann"), WithoutLinksOf(links, 1))
  {
    var people := [PersonRow(1, "Ann", "Lee", "student", 20), PersonRow(2, "Ann", "Ray", "student", 21)];
    var links := [Enrollment(2, 7)];
    assert people[1] in people;
    assert people[..1][..0] == [];
    assert links[..0] == [];
  }
}

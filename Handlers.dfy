/** The store-facing logic of three HTTP handlers: the age filter of the person listing, the
    validation before creating a person, and the update of a person by first name with additive
    enrollments. A handler's answer is a `Response`: the status, with the body it would encode. */
module Handlers {
  import opened Models
  import opened Tables
  import opened Database
  import opened Strconv
  import opened PersonService

  datatype Response =
    | BadRequest
    | NotFound
    | InternalServerError
    | OkPeople(people: seq<Person>)
    | OkPerson(person: Person)
    | Created(person: Person)

  // ---------------------------------------------------------------------------
  // The person listing
  // ---------------------------------------------------------------------------

  /** The age filter from the query string: an absent (empty) parameter means 0, no filter;
      otherwise the string must be a 64-bit decimal integer. */
  function ParseAgeQuery(ageString: string): (age: Option<int>)
    ensures ageString == "" ==> age == Some(0)
    ensures age.Some? ==> MinInt64 <= age.value <= MaxInt64
  {
    if ageString == "" then Some(0) else Atoi(ageString)
  }

  /** Every 64-bit age written in decimal is read back as itself. */
  lemma AgeQueryRoundTrip(age: int)
    requires MinInt64 <= age <= MaxInt64
    ensures ParseAgeQuery(Itoa(age)) == Some(age)
  {
    AtoiItoaRange(age);
    assert |NatDigits(if age < 0 then -age else age)| > 0;
  }

  /** An age with a character that is neither a digit nor a leading sign is rejected. */
  lemma AgeQueryRejectsNonDigit(ageString: string, i: nat)
    requires i < |ageString| && !IsDigit(ageString[i])
    requires i == 0 ==> ageString[0] != '-' && ageString[0] != '+'
    ensures ParseAgeQuery(ageString) == None
  {
    AtoiRejectsNonDigit(ageString, i);
  }

  /** The listing handler: a malformed age is a bad request, answered without reading the store;
      otherwise the filtered listing, or a server error when the service fails. */
  method HandleGetAllPeople(db: Db, name: string, ageString: string, selectFails: bool, stop: Option<nat>, joinFails: set<nat>, joinStops: map<nat, nat>)
    returns (resp: Response)
    ensures ParseAgeQuery(ageString) == None ==> resp == BadRequest
    ensures ParseAgeQuery(ageString).Some? ==>
      var rows := Truncate(PeopleMatching(db.people, name, ParseAgeQuery(ageString).value), stop);
      resp == if selectFails || exists k :: k in joinFails && k < |rows| then InternalServerError
              else OkPeople(PeopleRead(rows, db.personCourse, db.courses, joinStops))
  {
    var age := 0;
    if ageString != "" {
      var parsed := Atoi(ageString);
      if parsed.None? {
        return BadRequest;
      }
      age := parsed.value;
    }
    var people := GetAllPeople(db, name, age, selectFails, stop, joinFails, joinStops);
    if people.Err? {
      return InternalServerError;
    }
    return OkPeople(people.value);
  }

  // ---------------------------------------------------------------------------
  // Creating a person
  // ---------------------------------------------------------------------------

  /** A new person needs a first and a last name; the id, kind, age and courses of the body are
      not checked. An empty body decodes to the zero person, which is rejected. */
  predicate ValidNewPerson(p: Person): (ok: bool)
    ensures ok ==> p != ZeroPerson
  {
    p.firstName != "" && p.lastName != ""
  }

  /** The create handler: an undecodable body (None) or a person without both names is a bad
      request and the store is not touched; otherwise the transactional create, answered with the
      stored person and the requested courses. */
  method HandleCreatePerson(db: Db, body: Option<Person>, beginFails: bool, insertFails: bool, linkFails: set<nat>, commitFails: bool)
    returns (resp: Response)
    requires db.Valid()
    modifies db`people, db`courses, db`personCourse, db`personSeq
    ensures db.Valid()
    ensures db.courses == old(db.courses)
    ensures body.None? || !ValidNewPerson(body.value) ==>
      resp == BadRequest && db.people == old(db.people) && db.personCourse == old(db.personCourse) && db.personSeq == old(db.personSeq)
    ensures body.Some? && ValidNewPerson(body.value) ==>
      db.personSeq == old(db.personSeq) + (if beginFails || insertFails then 0 else 1)
    ensures resp.Created? <==>
      && body.Some? && ValidNewPerson(body.value)
      && !beginFails && !insertFails && !commitFails
      && (forall k :: k in linkFails ==> k >= |body.value.courses|)
      && NoDuplicates(body.value.courses)
    ensures resp.Created? ==>
      && resp.person == body.value.(id := old(db.personSeq))
      && db.people == old(db.people) + [RowOf(resp.person)]
      && db.personCourse == old(db.personCourse) + Links(resp.person.id, body.value.courses)
    ensures !resp.Created? ==> db.people == old(db.people) && db.personCourse == old(db.personCourse)
    ensures resp.BadRequest? || resp.InternalServerError? || resp.Created?
  {
    if body.None? {
      return BadRequest;
    }
    var person := body.value;
    if person.firstName == "" || person.lastName == "" {
      return BadRequest;
    }
    var created := CreatePerson(db, person, beginFails, insertFails, linkFails, commitFails);
    if created.Err? {
      return InternalServerError;
    }
    return Created(created.value.(courses := person.courses));
  }

  // ---------------------------------------------------------------------------
  // Updating a person by first name
  // ---------------------------------------------------------------------------

  /** The index of the first of the items `0 .. n - 1` that is in `fails`, or `n` when none is. */
  function FirstFailure(fails: set<nat>, n: nat): (m: nat)
    ensures m <= n
    ensures forall k: nat :: k < m ==> k !in fails
    ensures m < n ==> m in fails
    decreases n
  {
    if n == 0 then 0
    else
      var m := FirstFailure(fails, n - 1);
      if m < n - 1 then m else if n - 1 in fails then n - 1 else n
  }

  /** The update handler. A missing name or an undecodable body is a bad request and a name no
      row has is not found, both without changing anything. Otherwise every row with that name
      is overwritten, then the first such row's id is linked to each requested course, in order,
      ignoring pairs already present, until an insert fails; nothing done before a failure is
      undone. The answer carries that id and exactly the requested courses. */
  method HandleUpdatePersonByName(db: Db, name: string, body: Option<Person>, lookupFails: bool, updateFails: bool, linkFails: set<nat>)
    returns (resp: Response)
    requires db.Valid()
    modifies db`people, db`personCourse
    ensures db.Valid()
    ensures name == "" || body.None? ==>
      resp == BadRequest && db.people == old(db.people) && db.personCourse == old(db.personCourse)
    ensures name != "" && body.Some? && (lookupFails || Named(old(db.people), name) == []) ==>
      && resp == (if lookupFails then InternalServerError else NotFound)
      && db.people == old(db.people) && db.personCourse == old(db.personCourse)
    ensures name != "" && body.Some? && !lookupFails && Named(old(db.people), name) != [] ==>
      var person := body.value;
      var id := Named(old(db.people), name)[0].id;
      var done := FirstFailure(linkFails, |person.courses|);
      && db.people == (if updateFails then old(db.people)
                       else UpdateNamed(old(db.people), name, person.firstName, person.lastName, person.kind, person.age))
      && db.personCourse == (if updateFails then old(db.personCourse)
                             else AddLinks(old(db.personCourse), id, person.courses[..done]))
      && resp == (if updateFails || done < |person.courses| then InternalServerError else OkPerson(person.(id := id)))
    ensures LinksReferencePeople(old(db.people), old(db.personCourse)) ==> LinksReferencePeople(db.people, db.personCourse)
  {
    if name == "" {
      return BadRequest;
    }
    if body.None? {
      return BadRequest;
    }
    var person := body.value;
    var existing := db.SelectPersonByFirstName(name, lookupFails);
    if existing.Err? {
      return if existing.error == NoRows then NotFound else InternalServerError;
    }
    var id := existing.value.id;
    assert id in PersonIds(old(db.people));
    var err := db.UpdatePeopleByFirstName(name, person.firstName, person.lastName, person.kind, person.age, updateFails);
    if err.Some? {
      return InternalServerError;
    }
    err := LinkCourses(db, id, person.courses, linkFails);
    UpdateKeepsReferences(old(db.people), old(db.personCourse), name, person, id, person.courses[..FirstFailure(linkFails, |person.courses|)]);
    if err.Some? {
      return InternalServerError;
    }
    return OkPerson(person.(id := id));
  }

  /** The enrollment loop of the update handler: a conflict-ignoring insert of `(id, c)` for each
      course id `c`, in order, stopping at the first insert that fails. */
  method LinkCourses(db: Db, id: int, courseIds: seq<int>, linkFails: set<nat>) returns (err: Option<Error>)
    requires db.Valid() && id < db.personSeq
    modifies db`personCourse
    ensures db.Valid()
    ensures var done := FirstFailure(linkFails, |courseIds|);
      && db.personCourse == AddLinks(old(db.personCourse), id, courseIds[..done])
      && err == (if done < |courseIds| then Some(DbError) else None)
  {
    ghost var done := FirstFailure(linkFails, |courseIds|);
    var i := 0;
    while i < |courseIds|
      invariant 0 <= i <= |courseIds|
      invariant i <= done
      invariant db.Valid()
      invariant db.personCourse == AddLinks(old(db.personCourse), id, courseIds[..i])
    {
      err := db.InsertPersonCourseIgnoringConflict(id, courseIds[i], i in linkFails);
      if err.Some? {
        assert done == i;
        return;
      }
      AddLinksStep(old(db.personCourse), id, courseIds, i);
      i := i + 1;
    }
    assert courseIds[..i] == courseIds;
    return None;
  }

  /** Overwriting rows by first name and linking an existing id to courses keeps every
      association pointing at an existing person. */
  lemma UpdateKeepsReferences(people: seq<PersonRow>, links: seq<Enrollment>, name: string, p: Person, id: int, cs: seq<int>)
    requires id in PersonIds(people)
    ensures LinksReferencePeople(people, links) ==>
      LinksReferencePeople(UpdateNamed(people, name, p.firstName, p.lastName, p.kind, p.age), AddLinks(links, id, cs))
  {
    UpdateNamedSpec(people, name, p.firstName, p.lastName, p.kind, p.age);
    AddLinksMembership(links, id, cs);
  }

  /** Re-sending an update whose new first name is the path name changes nothing more: the
      resent request finds the same first row, so it links the same id; the rows already carry
      the new columns and every requested association is already present. */
  lemma UpdateIsIdempotent(people: seq<PersonRow>, links: seq<Enrollment>, name: string, p: Person)
    requires p.firstName == name
    ensures var rows := UpdateNamed(people, name, p.firstName, p.lastName, p.kind, p.age);
      && (Named(people, name) != [] ==> Named(rows, name) != [] && Named(rows, name)[0].id == Named(people, name)[0].id)
      && UpdateNamed(rows, name, p.firstName, p.lastName, p.kind, p.age) == rows
      && (Named(people, name) != [] ==>
            var id := Named(people, name)[0].id;
            AddLinks(AddLinks(links, id, p.courses), id, p.courses) == AddLinks(links, id, p.courses))
  {
    var rows := UpdateNamed(people, name, p.firstName, p.lastName, p.kind, p.age);
    if Named(people, name) != [] {
      SameFirstNamed(people, rows, name, p);
      AddLinksIdempotent(links, Named(people, name)[0].id, p.courses);
    }
  }

  /** An update that keeps the first name leaves the first row with that name first, under the
      same id. */
  lemma SameFirstNamed(people: seq<PersonRow>, rows: seq<PersonRow>, name: string, p: Person)
    requires p.firstName == name && Named(people, name) != []
    requires rows == UpdateNamed(people, name, p.firstName, p.lastName, p.kind, p.age)
    ensures Named(rows, name) != [] && Named(rows, name)[0].id == Named(people, name)[0].id
  {
    var named := (r: PersonRow) => r.firstName == name;
    assert forall j :: 0 <= j < |rows| ==> (named(rows[j]) <==> named(people[j])) && rows[j].id == people[j].id;
    FilterHead(named, people);
    var i :| 0 <= i < |people| && people[i] == Named(people, name)[0] && named(people[i])
      && forall j :: 0 <= j < i ==> !named(people[j]);
    FilterMembership(named, rows);
    assert rows[i] in rows;
    FilterHead(named, rows);
    var k :| 0 <= k < |rows| && rows[k] == Named(rows, name)[0] && named(rows[k])
      && forall j :: 0 <= j < k ==> !named(rows[j]);
    assert k == i;
  }
}

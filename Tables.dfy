/** The relational operations the services' statements perform on the three tables, as pure
    functions over rows kept in store order, together with their laws. */
module Tables {
  import opened Models

  // ---------------------------------------------------------------------------
  // Selection (a WHERE clause) and key uniqueness
  // ---------------------------------------------------------------------------

  /** The rows of `s` that satisfy `p`, in the order of `s`. */
  function Filter<T>(p: T -> bool, s: seq<T>): (r: seq<T>)
    ensures |r| <= |s|
    decreases |s|
  {
    if s == [] then [] else Filter(p, s[..|s| - 1]) + (if p(s[|s| - 1]) then [s[|s| - 1]] else [])
  }

  /** A row is selected exactly when it is in the table and satisfies the condition. */
  lemma {:induction false} FilterMembership<T>(p: T -> bool, s: seq<T>)
    ensures forall x :: x in Filter(p, s) <==> x in s && p(x)
    decreases |s|
  {
    if s != [] {
      var init := s[..|s| - 1];
      FilterMembership(p, init);
      assert s == init + [s[|s| - 1]];
    }
  }

  /** Selection distributes over concatenation, so it keeps the store order of the rows. */
  lemma {:induction false} FilterAppend<T>(p: T -> bool, a: seq<T>, b: seq<T>)
    ensures Filter(p, a + b) == Filter(p, a) + Filter(p, b)
    decreases |b|
  {
    if b == [] {
      assert a + b == a;
    } else {
      var init, last := b[..|b| - 1], b[|b| - 1];
      var tail := if p(last) then [last] else [];
      FilterAppend(p, a, init);
      assert (a + b)[..|a + b| - 1] == a + init;
      assert (a + b)[|a + b| - 1] == last;
      assert Filter(p, a + b) == Filter(p, a + init) + tail;
      assert Filter(p, b) == Filter(p, init) + tail;
    }
  }

  /** A condition every row satisfies selects the whole table. */
  lemma {:induction false} FilterKeepsAll<T>(p: T -> bool, s: seq<T>)
    requires forall x :: x in s ==> p(x)
    ensures Filter(p, s) == s
    decreases |s|
  {
    if s != [] {
      var init, last := s[..|s| - 1], s[|s| - 1];
      assert s == init + [last];
      assert p(last);
      forall x | x in init ensures p(x) {
        assert x in s;
      }
      FilterKeepsAll(p, init);
    }
  }

  /** A condition no row satisfies selects nothing, and only such a condition does. */
  lemma FilterEmpty<T>(p: T -> bool, s: seq<T>)
    ensures Filter(p, s) == [] <==> forall x :: x in s ==> !p(x)
  {
    FilterMembership(p, s);
    if Filter(p, s) != [] {
      assert Filter(p, s)[0] in Filter(p, s);
    }
  }

  /** The first selected row is the first row of the table that satisfies the condition. */
  lemma {:induction false} FilterHead<T>(p: T -> bool, s: seq<T>)
    requires Filter(p, s) != []
    ensures exists i :: 0 <= i < |s| && s[i] == Filter(p, s)[0] && p(s[i]) && forall j :: 0 <= j < i ==> !p(s[j])
    decreases |s|
  {
    var init, last := s[..|s| - 1], s[|s| - 1];
    var tail := if p(last) then [last] else [];
    assert Filter(p, s) == Filter(p, init) + tail;
    if Filter(p, init) != [] {
      FilterHead(p, init);
      var i :| 0 <= i < |init| && init[i] == Filter(p, init)[0] && p(init[i]) && forall j :: 0 <= j < i ==> !p(init[j]);
      assert Filter(p, s)[0] == Filter(p, init)[0];
      forall j | 0 <= j < i ensures !p(s[j]) {
        assert s[j] == init[j];
      }
      assert s[i] == init[i];
    } else {
      FilterEmpty(p, init);
      assert Filter(p, s) == [last] && p(last);
      forall j | 0 <= j < |s| - 1 ensures !p(s[j]) {
        assert s[j] == init[j];
        assert init[j] in init;
      }
    }
  }

  /** No two rows of `s` share a key (a primary key or unique constraint). */
  ghost predicate DistinctBy<T, K>(s: seq<T>, key: T -> K) {
    forall i, j :: 0 <= i < j < |s| ==> key(s[i]) != key(s[j])
  }

  /** Deleting rows never breaks a unique constraint. */
  lemma {:induction false} FilterKeepsDistinct<T(!new), K>(p: T -> bool, key: T -> K, s: seq<T>)
    requires DistinctBy(s, key)
    ensures DistinctBy(Filter(p, s), key)
    decreases |s|
  {
    if s != [] {
      var init := s[..|s| - 1];
      var last := s[|s| - 1];
      assert DistinctBy(init, key) by {
        forall i, j | 0 <= i < j < |init| ensures key(init[i]) != key(init[j]) {
          assert init[i] == s[i] && init[j] == s[j];
        }
      }
      FilterKeepsDistinct(p, key, init);
      var f := Filter(p, init);
      if p(last) {
        FilterMembership(p, init);
        forall i | 0 <= i < |f| ensures key(f[i]) != key(last) {
          assert f[i] in Filter(p, init);
          assert f[i] in init;
          var k :| 0 <= k < |init| && init[k] == f[i];
          assert s[k] == f[i];
        }
        var g := f + [last];
        assert Filter(p, s) == g;
        forall i, j | 0 <= i < j < |g| ensures key(g[i]) != key(g[j]) {
          if j < |f| {
            assert g[i] == f[i] && g[j] == f[j];
          } else {
            assert g[i] == f[i] && g[j] == last;
          }
        }
      }
    }
  }

  function PersonKey(r: PersonRow): int { r.id }
  function CourseKey(c: Course): int { c.id }
  function LinkKey(l: Enrollment): (int, int) { (l.personId, l.courseId) }

  /** Keys are unique, so at most one row carries a given id. */
  lemma UniqueRowWithKey<T>(s: seq<T>, key: T -> int, a: T, b: T)
    requires DistinctBy(s, key)
    requires a in s && b in s && key(a) == key(b)
    ensures a == b
  {
    var i :| 0 <= i < |s| && s[i] == a;
    var j :| 0 <= j < |s| && s[j] == b;
  }

  // ---------------------------------------------------------------------------
  // The person table
  // ---------------------------------------------------------------------------

  /** The listing filter: an empty name and a zero age each mean "no condition on that column". */
  predicate Matches(r: PersonRow, name: string, age: int) {
    (name == "" || r.firstName == name) && (age == 0 || r.age == age)
  }

  /** Rows selected by the filtered person listing, in store order. */
  function PeopleMatching(people: seq<PersonRow>, name: string, age: int): seq<PersonRow> {
    Filter((r: PersonRow) => Matches(r, name, age), people)
  }

  /** Rows whose first name is `name`, in store order. */
  function Named(people: seq<PersonRow>, name: string): seq<PersonRow> {
    Filter((r: PersonRow) => r.firstName == name, people)
  }

  /** The table after deleting every row whose first name is `name`. */
  function WithoutNamed(people: seq<PersonRow>, name: string): seq<PersonRow> {
    Filter((r: PersonRow) => r.firstName != name, people)
  }

  /** Rows whose id is `id` (at most one, the id being the primary key). */
  function PeopleWithId(people: seq<PersonRow>, id: int): seq<PersonRow> {
    Filter((r: PersonRow) => r.id == id, people)
  }

  /** The ids present in the person table. */
  function PersonIds(people: seq<PersonRow>): set<int> {
    set r | r in people :: r.id
  }

  /** The table after overwriting the four columns of every row whose first name is `name`. */
  function UpdateNamed(people: seq<PersonRow>, name: string, first: string, last: string, kind: string, age: int): seq<PersonRow> {
    seq(|people|, i requires 0 <= i < |people| =>
      if people[i].firstName == name then PersonRow(people[i].id, first, last, kind, age) else people[i])
  }

  /** The listing returns exactly the rows that satisfy the filter. */
  lemma PeopleMatchingSpec(people: seq<PersonRow>, name: string, age: int)
    ensures forall r :: r in PeopleMatching(people, name, age) <==> r in people && Matches(r, name, age)
  {
    FilterMembership((r: PersonRow) => Matches(r, name, age), people);
  }

  /** With neither filter set, the listing is the whole table in store order. */
  lemma UnfilteredListingIsTable(people: seq<PersonRow>)
    ensures PeopleMatching(people, "", 0) == people
  {
    FilterKeepsAll((r: PersonRow) => Matches(r, "", 0), people);
  }

  /** The listing is empty exactly when no row satisfies the filter. */
  lemma EmptyListing(people: seq<PersonRow>, name: string, age: int)
    ensures PeopleMatching(people, name, age) == [] <==> forall r :: r in people ==> !Matches(r, name, age)
  {
    FilterEmpty((r: PersonRow) => Matches(r, name, age), people);
  }

  /** After a delete by first name no row has that name, and every other row is kept. */
  lemma WithoutNamedSpec(people: seq<PersonRow>, name: string)
    ensures forall r :: r in WithoutNamed(people, name) <==> r in people && r.firstName != name
    ensures Named(WithoutNamed(people, name), name) == []
  {
    FilterMembership((r: PersonRow) => r.firstName != name, people);
    FilterEmpty((r: PersonRow) => r.firstName == name, WithoutNamed(people, name));
  }

  /** An update by first name keeps every id, and leaves no row under the old name unless that
      name is also the new one. */
  lemma UpdateNamedSpec(people: seq<PersonRow>, name: string, first: string, last: string, kind: string, age: int)
    ensures PersonIds(UpdateNamed(people, name, first, last, kind, age)) == PersonIds(people)
    ensures DistinctBy(people, PersonKey) ==> DistinctBy(UpdateNamed(people, name, first, last, kind, age), PersonKey)
    ensures first != name ==> Named(UpdateNamed(people, name, first, last, kind, age), name) == []
  {
    var u := UpdateNamed(people, name, first, last, kind, age);
    forall x | x in PersonIds(people) ensures x in PersonIds(u) {
      var r :| r in people && r.id == x;
      var i :| 0 <= i < |people| && people[i] == r;
      assert u[i].id == x;
      assert u[i] in u;
    }
    forall x | x in PersonIds(u) ensures x in PersonIds(people) {
      var r :| r in u && r.id == x;
      var i :| 0 <= i < |u| && u[i] == r;
      assert people[i] in people;
    }
    if first != name {
      FilterEmpty((r: PersonRow) => r.firstName == name, u);
    }
  }

  // ---------------------------------------------------------------------------
  // The course table
  // ---------------------------------------------------------------------------

  /** Rows whose id is `id` (at most one, the id being the primary key). */
  function CoursesWithId(courses: seq<Course>, id: int): seq<Course> {
    Filter((c: Course) => c.id == id, courses)
  }

  /** The table after deleting the row with id `id`. */
  function WithoutCourse(courses: seq<Course>, id: int): seq<Course> {
    Filter((c: Course) => c.id != id, courses)
  }

  /** The table after setting the name of the row with id `id`. */
  function RenameCourse(courses: seq<Course>, id: int, name: string): seq<Course> {
    seq(|courses|, i requires 0 <= i < |courses| => if courses[i].id == id then Course(id, name) else courses[i])
  }

  /** Whether some course row has id `id`. */
  predicate HasCourse(courses: seq<Course>, id: int) {
    exists c :: c in courses && c.id == id
  }

  /** The id column of a sequence of course rows. */
  function CourseIds(rows: seq<Course>): seq<int> {
    seq(|rows|, i requires 0 <= i < |rows| => rows[i].id)
  }

  /** An id is in the id column exactly when some row carries it. */
  lemma CourseIdsMembership(rows: seq<Course>, x: int)
    ensures x in CourseIds(rows) <==> HasCourse(rows, x)
  {
    if x in CourseIds(rows) {
      var i :| 0 <= i < |rows| && CourseIds(rows)[i] == x;
      assert rows[i] in rows;
    }
    if HasCourse(rows, x) {
      var c :| c in rows && c.id == x;
      var i :| 0 <= i < |rows| && rows[i] == c;
      assert CourseIds(rows)[i] == x;
    }
  }

  /** A rename touches only the name of the row with that id; with no such row it changes nothing. */
  lemma RenameCourseSpec(courses: seq<Course>, id: int, name: string)
    ensures CourseIds(RenameCourse(courses, id, name)) == CourseIds(courses)
    ensures DistinctBy(courses, CourseKey) ==> DistinctBy(RenameCourse(courses, id, name), CourseKey)
    ensures (forall c :: c in courses ==> c.id != id) ==> RenameCourse(courses, id, name) == courses
  {
    var r := RenameCourse(courses, id, name);
    if forall c :: c in courses ==> c.id != id {
      forall i | 0 <= i < |courses| ensures r[i] == courses[i] {
        assert courses[i] in courses;
      }
    }
  }

  /** A delete removes exactly the rows with that id; with no such row it changes nothing. */
  lemma WithoutCourseSpec(courses: seq<Course>, id: int)
    ensures forall c :: c in WithoutCourse(courses, id) <==> c in courses && c.id != id
    ensures (forall c :: c in courses ==> c.id != id) ==> WithoutCourse(courses, id) == courses
  {
    FilterMembership((c: Course) => c.id != id, courses);
    if forall c :: c in courses ==> c.id != id {
      FilterKeepsAll((c: Course) => c.id != id, courses);
    }
  }

  // ---------------------------------------------------------------------------
  // The person_course table and the course join
  // ---------------------------------------------------------------------------

  /** The association table after deleting every row of person `pid`. */
  function WithoutLinksOf(links: seq<Enrollment>, pid: int): seq<Enrollment> {
    Filter((l: Enrollment) => l.personId != pid, links)
  }

  /** The association table after deleting every row of a person in `pids`. */
  function WithoutLinksOfAny(links: seq<Enrollment>, pids: set<int>): seq<Enrollment> {
    Filter((l: Enrollment) => l.personId !in pids, links)
  }

  /** No course id occurs twice. */
  predicate NoDuplicates(cs: seq<int>) {
    forall i, j :: 0 <= i < j < |cs| ==> cs[i] != cs[j]
  }

  /** A prefix grows by one item without a duplicate exactly when the new item is not in it. */
  lemma NoDuplicatesStep(cs: seq<int>, i: nat)
    requires i < |cs|
    ensures NoDuplicates(cs[..i + 1]) <==> NoDuplicates(cs[..i]) && cs[i] !in cs[..i]
    ensures NoDuplicates(cs) ==> NoDuplicates(cs[..i + 1])
  {
    var p := cs[..i + 1];
    if cs[i] in cs[..i] {
      var j :| 0 <= j < i && cs[..i][j] == cs[i];
      assert p[j] == p[i];
    }
    if NoDuplicates(cs[..i]) && cs[i] !in cs[..i] {
      forall a, b | 0 <= a < b < |p| ensures p[a] != p[b] {
        if b == i {
          assert p[a] == cs[..i][a];
        } else {
          assert p[a] == cs[..i][a] && p[b] == cs[..i][b];
        }
      }
    }
  }

  /** The association rows for person `pid` and each of `cs`, in order. */
  function Links(pid: int, cs: seq<int>): seq<Enrollment> {
    seq(|cs|, i requires 0 <= i < |cs| => Enrollment(pid, cs[i]))
  }

  /** The rows of `Links(pid, cs)` are the pairs of `pid` with a course of `cs`. */
  lemma LinksMembership(pid: int, cs: seq<int>)
    ensures forall l :: l in Links(pid, cs) <==> l.personId == pid && l.courseId in cs
  {
    forall l: Enrollment | l.personId == pid && l.courseId in cs ensures l in Links(pid, cs) {
      var k :| 0 <= k < |cs| && cs[k] == l.courseId;
      assert Links(pid, cs)[k] == l;
    }
  }

  /** Person `pid` is linked to `c` by `Links(pid, cs)` exactly when `c` is in `cs`. */
  lemma LinksContains(pid: int, cs: seq<int>, c: int)
    ensures Enrollment(pid, c) in Links(pid, cs) <==> c in cs
  {
    LinksMembership(pid, cs);
  }

  /** The rows for one more course id are the rows so far plus one. */
  lemma LinksStep(pid: int, cs: seq<int>, i: nat)
    requires i < |cs|
    ensures Links(pid, cs[..i + 1]) == Links(pid, cs[..i]) + [Enrollment(pid, cs[i])]
  {
  }

  /** An insert that does nothing when the pair is already present (ON CONFLICT DO NOTHING). */
  function AddLink(links: seq<Enrollment>, l: Enrollment): seq<Enrollment> {
    if l in links then links else links + [l]
  }

  /** Conflict-ignoring inserts of (pid, c) for each c of `cs`, in order. */
  function AddLinks(links: seq<Enrollment>, pid: int, cs: seq<int>): seq<Enrollment>
    decreases |cs|
  {
    if cs == [] then links else AddLink(AddLinks(links, pid, cs[..|cs| - 1]), Enrollment(pid, cs[|cs| - 1]))
  }

  /** The inserts for one more course id are the inserts so far plus one. */
  lemma AddLinksStep(links: seq<Enrollment>, pid: int, cs: seq<int>, i: nat)
    requires i < |cs|
    ensures AddLinks(links, pid, cs[..i + 1]) == AddLink(AddLinks(links, pid, cs[..i]), Enrollment(pid, cs[i]))
  {
    assert cs[..i + 1][..i] == cs[..i];
  }

  /** Every association refers to a person row that exists. */
  predicate LinksReferencePeople(people: seq<PersonRow>, links: seq<Enrollment>) {
    forall l :: l in links ==> l.personId in PersonIds(people)
  }

  /** The rows of a person's course join: for each association row of `pid`, in association
      order, the course rows with that id. */
  function JoinedCourses(links: seq<Enrollment>, courses: seq<Course>, pid: int): seq<Course>
    decreases |links|
  {
    if links == [] then []
    else
      var l := links[|links| - 1];
      JoinedCourses(links[..|links| - 1], courses, pid) + (if l.personId == pid then CoursesWithId(courses, l.courseId) else [])
  }

  /** The course ids a person read from the store carries. */
  function Enrolled(links: seq<Enrollment>, courses: seq<Course>, pid: int): seq<int> {
    CourseIds(JoinedCourses(links, courses, pid))
  }

  /** A person row with its enrolled course ids. */
  function PersonView(r: PersonRow, links: seq<Enrollment>, courses: seq<Course>): Person {
    WithCourses(r, Enrolled(links, courses, r.id))
  }

  /** Each row of `rows` with its enrolled course ids, in order. */
  function PeopleView(rows: seq<PersonRow>, links: seq<Enrollment>, courses: seq<Course>): seq<Person> {
    seq(|rows|, i requires 0 <= i < |rows| => PersonView(rows[i], links, courses))
  }

  /** The rows a cursor yields when an error ends it after `stop` rows (`None`: no error). A
      loop over `rows.Next()` that never asks the cursor for its error sees only these. */
  function Truncate<T>(s: seq<T>, stop: Option<nat>): seq<T> {
    if stop.Some? && stop.value < |s| then s[..stop.value] else s
  }

  /** The cursor stop of item `i`, when the map names one. */
  function StopOf(stops: map<nat, nat>, i: nat): Option<nat> {
    if i in stops then Some(stops[i]) else None
  }

  /** A person whose course ids were read through a cursor that may have stopped early. */
  function CutCourses(p: Person, stop: Option<nat>): Person {
    p.(courses := Truncate(p.courses, stop))
  }

  /** The listing as the cursors deliver it: each row with its course ids, as far as the course
      cursor of the row at position `i` got (`StopOf(stops, i)`). */
  function PeopleRead(rows: seq<PersonRow>, links: seq<Enrollment>, courses: seq<Course>, stops: map<nat, nat>): seq<Person> {
    seq(|rows|, i requires 0 <= i < |rows| => CutCourses(PersonView(rows[i], links, courses), StopOf(stops, i)))
  }

  /** Reading one more row of a listing appends that row's person. */
  lemma PeopleReadStep(rows: seq<PersonRow>, links: seq<Enrollment>, courses: seq<Course>, stops: map<nat, nat>, i: nat)
    requires i < |rows|
    ensures PeopleRead(rows[..i + 1], links, courses, stops)
         == PeopleRead(rows[..i], links, courses, stops) + [CutCourses(PersonView(rows[i], links, courses), StopOf(stops, i))]
  {
  }

  /** Every person of a listing read through cursors is its row with a prefix of the row's course
      ids, and the prefix falls short only where a course cursor stopped; with no stop at all the
      listing is the full view. */
  lemma PeopleReadSpec(rows: seq<PersonRow>, links: seq<Enrollment>, courses: seq<Course>, stops: map<nat, nat>)
    ensures var read := PeopleRead(rows, links, courses, stops);
      && |read| == |rows|
      && (forall i :: 0 <= i < |rows| ==>
            && RowOf(read[i]) == rows[i]
            && read[i].courses <= Enrolled(links, courses, rows[i].id)
            && (i !in stops ==> read[i].courses == Enrolled(links, courses, rows[i].id)))
      && (stops == map[] ==> read == PeopleView(rows, links, courses))
  {
  }

  /** What a lookup by first name yields: the first row with that name, or the zero person. */
  function PersonNamed(people: seq<PersonRow>, links: seq<Enrollment>, courses: seq<Course>, name: string): Person {
    var m := Named(people, name);
    if m == [] then ZeroPerson else PersonView(m[0], links, courses)
  }

  /** A course row is in a person's join exactly when it exists and an association links it to
      the person. */
  lemma {:induction false} JoinedCoursesSpec(links: seq<Enrollment>, courses: seq<Course>, pid: int)
    ensures forall c :: c in JoinedCourses(links, courses, pid) <==> c in courses && Enrollment(pid, c.id) in links
    decreases |links|
  {
    if links != [] {
      var init := links[..|links| - 1];
      var l := links[|links| - 1];
      JoinedCoursesSpec(init, courses, pid);
      FilterMembership((c: Course) => c.id == l.courseId, courses);
      assert links == init + [l];
    }
  }

  /** A person's course ids are those linked to the person whose course row still exists. */
  lemma EnrolledSpec(links: seq<Enrollment>, courses: seq<Course>, pid: int)
    ensures forall x :: x in Enrolled(links, courses, pid) <==> Enrollment(pid, x) in links && x in CourseIds(courses)
  {
    JoinedCoursesSpec(links, courses, pid);
    var j := JoinedCourses(links, courses, pid);
    forall x ensures x in Enrolled(links, courses, pid) <==> Enrollment(pid, x) in links && x in CourseIds(courses) {
      if x in Enrolled(links, courses, pid) {
        var i :| 0 <= i < |j| && j[i].id == x;
        assert j[i] in j;
        var k :| 0 <= k < |courses| && courses[k] == j[i];
        assert CourseIds(courses)[k] == x;
      }
      if Enrollment(pid, x) in links && x in CourseIds(courses) {
        var k :| 0 <= k < |courses| && CourseIds(courses)[k] == x;
        assert courses[k] in courses;
        assert courses[k] in j;
        var i :| 0 <= i < |j| && j[i] == courses[k];
        assert CourseIds(j)[i] == x;
      }
    }
  }

  /** Selecting the rows whose id is `cid` out of a table from which `id` was deleted. */
  lemma CoursesWithIdAfterDelete(courses: seq<Course>, id: int, cid: int)
    ensures CoursesWithId(WithoutCourse(courses, id), cid) == WithoutCourse(CoursesWithId(courses, cid), id)
  {
    var a := CoursesWithId(WithoutCourse(courses, id), cid);
    var b := WithoutCourse(CoursesWithId(courses, cid), id);
    FilterMembership((c: Course) => c.id != id, courses);
    FilterMembership((c: Course) => c.id == cid, courses);
    FilterMembership((c: Course) => c.id == cid, WithoutCourse(courses, id));
    FilterMembership((c: Course) => c.id != id, CoursesWithId(courses, cid));
    if cid == id {
      FilterEmpty((c: Course) => c.id == cid, WithoutCourse(courses, id));
      FilterEmpty((c: Course) => c.id != id, CoursesWithId(courses, cid));
    } else {
      FilterKeepsAll((c: Course) => c.id != id, CoursesWithId(courses, cid));
      SelectAfterDelete(courses, id, cid);
    }
  }

  /** When `cid != id`, deleting `id` first does not change which rows have id `cid`. */
  lemma {:induction false} SelectAfterDelete(courses: seq<Course>, id: int, cid: int)
    requires cid != id
    ensures CoursesWithId(WithoutCourse(courses, id), cid) == CoursesWithId(courses, cid)
    decreases |courses|
  {
    if courses != [] {
      var init := courses[..|courses| - 1];
      var c := courses[|courses| - 1];
      SelectAfterDelete(init, id, cid);
      FilterAppend((x: Course) => x.id == cid, WithoutCourse(init, id), if c.id != id then [c] else []);
      assert [c][..0] == [];
    }
  }

  /** Deleting a course leaves the association table alone: its associations drop out of every
      person's join, and nothing else does. */
  lemma {:induction false} JoinAfterCourseDelete(links: seq<Enrollment>, courses: seq<Course>, id: int, pid: int)
    ensures JoinedCourses(links, WithoutCourse(courses, id), pid) == WithoutCourse(JoinedCourses(links, courses, pid), id)
    decreases |links|
  {
    if links != [] {
      var init := links[..|links| - 1];
      var l := links[|links| - 1];
      JoinAfterCourseDelete(init, courses, id, pid);
      var rest := if l.personId == pid then CoursesWithId(courses, l.courseId) else [];
      FilterAppend((c: Course) => c.id != id, JoinedCourses(init, courses, pid), rest);
      if l.personId == pid {
        CoursesWithIdAfterDelete(courses, id, l.courseId);
      }
    }
  }

  /** A lookup by first name finds the first row with that name, with its courses, and yields
      the zero person (whose id no row has) exactly when no row has that name. */
  lemma PersonNamedSpec(people: seq<PersonRow>, links: seq<Enrollment>, courses: seq<Course>, name: string)
    requires forall r :: r in people ==> r.id >= 1
    ensures var p := PersonNamed(people, links, courses, name);
      && (p.id == 0 <==> forall r :: r in people ==> r.firstName != name)
      && (p.id != 0 ==>
            && p.firstName == name
            && p.courses == Enrolled(links, courses, p.id)
            && exists i :: 0 <= i < |people| && people[i] == RowOf(p) && forall j :: 0 <= j < i ==> people[j].firstName != name)
  {
    var f := (r: PersonRow) => r.firstName == name;
    FilterEmpty(f, people);
    FilterMembership(f, people);
    if Named(people, name) != [] {
      FilterHead(f, people);
      assert Named(people, name)[0] in Named(people, name);
    }
  }

  /** No association is ever removed by conflict-ignoring inserts: the old table is a prefix. */
  lemma {:induction false} AddLinksExtends(links: seq<Enrollment>, pid: int, cs: seq<int>)
    ensures links <= AddLinks(links, pid, cs)
    decreases |cs|
  {
    if cs != [] {
      AddLinksExtends(links, pid, cs[..|cs| - 1]);
    }
  }

  /** After conflict-ignoring inserts, a row is present exactly when it was before or was asked for. */
  lemma {:induction false} AddLinksMembership(links: seq<Enrollment>, pid: int, cs: seq<int>)
    ensures forall l :: l in AddLinks(links, pid, cs) <==> l in links || (l.personId == pid && l.courseId in cs)
    decreases |cs|
  {
    if cs != [] {
      var init := cs[..|cs| - 1];
      AddLinksMembership(links, pid, init);
      assert cs == init + [cs[|cs| - 1]];
    }
  }

  /** Conflict-ignoring inserts of pairs that are all present change nothing. */
  lemma {:induction false} AddLinksPresent(links: seq<Enrollment>, pid: int, cs: seq<int>)
    requires forall c :: c in cs ==> Enrollment(pid, c) in links
    ensures AddLinks(links, pid, cs) == links
    decreases |cs|
  {
    if cs != [] {
      AddLinksPresent(links, pid, cs[..|cs| - 1]);
      assert cs[|cs| - 1] in cs;
    }
  }

  /** Enrolling a person in the same courses twice is the same as doing it once. */
  lemma AddLinksIdempotent(links: seq<Enrollment>, pid: int, cs: seq<int>)
    ensures AddLinks(AddLinks(links, pid, cs), pid, cs) == AddLinks(links, pid, cs)
  {
    AddLinksMembership(links, pid, cs);
    AddLinksPresent(AddLinks(links, pid, cs), pid, cs);
  }

  /** Conflict-ignoring inserts never create a duplicate pair. */
  lemma {:induction false} AddLinksKeepsDistinct(links: seq<Enrollment>, pid: int, cs: seq<int>)
    requires DistinctBy(links, LinkKey)
    ensures DistinctBy(AddLinks(links, pid, cs), LinkKey)
    decreases |cs|
  {
    if cs != [] {
      var prev := AddLinks(links, pid, cs[..|cs| - 1]);
      AddLinksKeepsDistinct(links, pid, cs[..|cs| - 1]);
      var l := Enrollment(pid, cs[|cs| - 1]);
      if l !in prev {
        AppendKeepsDistinct(prev, l);
      }
    }
  }

  /** Appending a pair that is not yet present keeps the pairs unique. */
  lemma AppendKeepsDistinct(links: seq<Enrollment>, l: Enrollment)
    requires DistinctBy(links, LinkKey) && l !in links
    ensures DistinctBy(links + [l], LinkKey)
  {
    var g := links + [l];
    forall i, j | 0 <= i < j < |g| ensures LinkKey(g[i]) != LinkKey(g[j]) {
      if j == |links| {
        assert g[i] in links;
      }
    }
  }

  /** Deleting a person's associations removes all of them and no other row. */
  lemma WithoutLinksOfSpec(links: seq<Enrollment>, pid: int)
    ensures forall l :: l in WithoutLinksOf(links, pid) <==> l in links && l.personId != pid
  {
    FilterMembership((l: Enrollment) => l.personId != pid, links);
  }
}

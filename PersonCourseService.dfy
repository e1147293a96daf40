/** Batch enrollment of one person in several courses. Each course id is handled on its own:
    the course must exist, the person must exist, then one association row is inserted; an item
    that fails is recorded and the batch goes on with the next id. Nothing is rolled back, and
    all recorded failures are returned together as one error. */
module PersonCourseService {
  import opened Models
  import opened Tables
  import opened Database
  import opened Strconv

  /** Store failures injected into one batch, as the item indices at which each of the three
      statements of an item fails. */
  datatype BatchFaults = BatchFaults(courseCheck: set<nat>, personCheck: set<nat>, insert: set<nat>)

  /** The state of a batch: the association table so far and the failures recorded so far. */
  datatype Batch = Batch(links: seq<Enrollment>, failures: seq<CourseFailure>)

  /** No statement of items `0 .. n - 1` fails in the store. */
  predicate NoFaultsBefore(faults: BatchFaults, n: nat) {
    forall k :: 0 <= k < n ==> k !in faults.courseCheck && k !in faults.personCheck && k !in faults.insert
  }

  /** Item `k` of a batch, for course id `c`, where `pid` is the id the person check and the
      insert use. A failed course check is reported as a missing course and a failed person
      check as a missing person, whatever the store's reason. */
  function Step(people: seq<PersonRow>, courses: seq<Course>, b: Batch, pid: int, c: int, k: nat, faults: BatchFaults): (r: Batch)
    ensures || (r.links == b.links + [Enrollment(pid, c)] && r.failures == b.failures)
            || (r.links == b.links && |r.failures| == |b.failures| + 1
                && r.failures[..|b.failures|] == b.failures && r.failures[|b.failures|].courseId == c)
    ensures r.links != b.links ==> HasCourse(courses, c) && pid in PersonIds(people) && Enrollment(pid, c) !in b.links
  {
    if k in faults.courseCheck || !HasCourse(courses, c) then Batch(b.links, b.failures + [CourseNotFound(c)])
    else if k in faults.personCheck || pid !in PersonIds(people) then Batch(b.links, b.failures + [PersonNotFound(c)])
    else if k in faults.insert || Enrollment(pid, c) in b.links then Batch(b.links, b.failures + [InsertFailed(c)])
    else Batch(b.links + [Enrollment(pid, c)], b.failures)
  }

  /** The whole batch over `cs`, item by item, starting from the association table `links`. */
  function Enroll(people: seq<PersonRow>, courses: seq<Course>, links: seq<Enrollment>, pid: int, cs: seq<int>, faults: BatchFaults): (b: Batch)
    ensures links <= b.links
    ensures |b.failures| + (|b.links| - |links|) == |cs|
    decreases |cs|
  {
    if cs == [] then Batch(links, [])
    else Step(people, courses, Enroll(people, courses, links, pid, cs[..|cs| - 1], faults), pid, cs[|cs| - 1], |cs| - 1, faults)
  }

  /** The batch over one more course id is one more step. */
  lemma EnrollStep(people: seq<PersonRow>, courses: seq<Course>, links: seq<Enrollment>, pid: int, cs: seq<int>, i: nat, faults: BatchFaults)
    requires i < |cs|
    ensures Enroll(people, courses, links, pid, cs[..i + 1], faults)
         == Step(people, courses, Enroll(people, courses, links, pid, cs[..i], faults), pid, cs[i], i, faults)
  {
    assert cs[..i + 1][..i] == cs[..i];
  }

  /** The error a batch returns: none when every item went through, otherwise one error carrying
      every failure. */
  function Outcome(failures: seq<CourseFailure>): (err: Option<Error>)
    ensures err == None <==> failures == []
    ensures err.Some? ==> err.value.AddCoursesFailed? && err.value.failures == failures
  {
    if failures == [] then None else Some(AddCoursesFailed(failures))
  }

  /** The loop of the batch: for each course id, in order, a course check, a person check for
      `checkedId` and an insert of `(checkedId, course id)`. */
  method EnrollEach(db: Db, checkedId: int, courseIDs: seq<int>, faults: BatchFaults) returns (failures: seq<CourseFailure>)
    requires db.Valid()
    modifies db`personCourse
    ensures db.Valid()
    ensures Batch(db.personCourse, failures) == Enroll(db.people, db.courses, old(db.personCourse), checkedId, courseIDs, faults)
  {
    failures := [];
    var i := 0;
    while i < |courseIDs|
      invariant 0 <= i <= |courseIDs|
      invariant db.Valid()
      invariant Batch(db.personCourse, failures) == Enroll(db.people, db.courses, old(db.personCourse), checkedId, courseIDs[..i], faults)
    {
      var id := courseIDs[i];
      var course := db.SelectCourseById(id, i in faults.courseCheck);
      if course.Err? {
        failures := failures + [CourseNotFound(id)];
      } else {
        var person := db.SelectPersonById(checkedId, i in faults.personCheck);
        if person.Err? {
          failures := failures + [PersonNotFound(id)];
        } else {
          var err := db.InsertPersonCourse(person.value, id, i in faults.insert);
          if err.Some? {
            failures := failures + [InsertFailed(id)];
          }
        }
      }
      EnrollStep(db.people, db.courses, old(db.personCourse), checkedId, courseIDs, i, faults);
      i := i + 1;
    }
    assert courseIDs[..i] == courseIDs;
  }

  /** The batch as written. The person check and the insert use a local variable declared inside
      the loop that shadows the `personID` parameter and still holds zero, so the parameter never
      reaches the store. */
  method AddPersonToCourse(db: Db, personID: int, courseIDs: seq<int>, faults: BatchFaults) returns (err: Option<Error>)
    requires db.Valid()
    modifies db`personCourse
    ensures db.Valid()
    ensures var b := Enroll(db.people, db.courses, old(db.personCourse), 0, courseIDs, faults);
      db.personCourse == b.links && err == Outcome(b.failures)
  {
    var failures := EnrollEach(db, 0, courseIDs, faults);
    err := Outcome(failures);
  }

  /** The batch as evidently intended: the person check and the insert use `personID`. */
  method AddPersonToCourseIntended(db: Db, personID: int, courseIDs: seq<int>, faults: BatchFaults) returns (err: Option<Error>)
    requires db.Valid()
    modifies db`personCourse
    ensures db.Valid()
    ensures var b := Enroll(db.people, db.courses, old(db.personCourse), personID, courseIDs, faults);
      db.personCourse == b.links && err == Outcome(b.failures)
  {
    var failures := EnrollEach(db, personID, courseIDs, faults);
    err := Outcome(failures);
  }

  // ---------------------------------------------------------------------------
  // Laws of a batch
  // ---------------------------------------------------------------------------

  /** A new association is one asked for, for a person and a course that both exist. */
  lemma {:induction false} EnrollAddsOnlyChecked(people: seq<PersonRow>, courses: seq<Course>, links: seq<Enrollment>, pid: int, cs: seq<int>, faults: BatchFaults)
    ensures forall l :: l in Enroll(people, courses, links, pid, cs, faults).links ==>
      l in links || (l.personId == pid && pid in PersonIds(people) && l.courseId in cs && HasCourse(courses, l.courseId))
    decreases |cs|
  {
    if cs != [] {
      var init := cs[..|cs| - 1];
      EnrollAddsOnlyChecked(people, courses, links, pid, init, faults);
      assert cs == init + [cs[|cs| - 1]];
    }
  }

  /** A batch keeps every association pointing at an existing person. */
  lemma EnrollKeepsReferences(people: seq<PersonRow>, courses: seq<Course>, links: seq<Enrollment>, pid: int, cs: seq<int>, faults: BatchFaults)
    requires LinksReferencePeople(people, links)
    ensures LinksReferencePeople(people, Enroll(people, courses, links, pid, cs, faults).links)
  {
    EnrollAddsOnlyChecked(people, courses, links, pid, cs, faults);
  }

  /** Indices `idx` pick out items of a sequence of length `n` in increasing order. */
  ghost predicate IncreasingIndices(idx: seq<nat>, n: nat) {
    (forall j :: 0 <= j < |idx| ==> idx[j] < n) && (forall i, j :: 0 <= i < j < |idx| ==> idx[i] < idx[j])
  }

  /** The failures `f` name the course ids of an increasing selection of the items of `cs`. */
  ghost predicate FailuresFollow(f: seq<CourseFailure>, cs: seq<int>) {
    exists idx :: IncreasingIndices(idx, |cs|) && |idx| == |f| && forall j :: 0 <= j < |f| ==> f[j].courseId == cs[idx[j]]
  }

  /** Each course id contributes at most one failure, and the failures follow the input order. */
  lemma {:induction false} EnrollFailuresInOrder(people: seq<PersonRow>, courses: seq<Course>, links: seq<Enrollment>, pid: int, cs: seq<int>, faults: BatchFaults)
    ensures FailuresFollow(Enroll(people, courses, links, pid, cs, faults).failures, cs)
    decreases |cs|
  {
    if cs == [] {
      assert IncreasingIndices([], 0);
    } else {
      var n := |cs| - 1;
      var b := Enroll(people, courses, links, pid, cs[..n], faults);
      EnrollFailuresInOrder(people, courses, links, pid, cs[..n], faults);
      FollowOneMore(b.failures, Step(people, courses, b, pid, cs[n], n, faults).failures, cs);
    }
  }

  /** Failures that follow the first items of `cs`, plus at most one more for its last item,
      follow `cs`. */
  lemma FollowOneMore(g: seq<CourseFailure>, f: seq<CourseFailure>, cs: seq<int>)
    requires cs != [] && FailuresFollow(g, cs[..|cs| - 1])
    requires f == g || (|f| == |g| + 1 && f[..|g|] == g && f[|g|].courseId == cs[|cs| - 1])
    ensures FailuresFollow(f, cs)
  {
    var n := |cs| - 1;
    var idx :| IncreasingIndices(idx, n) && |idx| == |g| && forall j :: 0 <= j < |g| ==> g[j].courseId == cs[..n][idx[j]];
    if f == g {
      forall j | 0 <= j < |f| ensures f[j].courseId == cs[idx[j]] {
        assert cs[..n][idx[j]] == cs[idx[j]];
      }
      assert IncreasingIndices(idx, |cs|);
    } else {
      var idx' := idx + [n];
      forall j | 0 <= j < |f| ensures f[j].courseId == cs[idx'[j]] {
        if j < |g| {
          assert f[j] == g[j];
          assert idx'[j] == idx[j] && cs[..n][idx[j]] == cs[idx[j]];
        }
      }
      assert IncreasingIndices(idx', |cs|);
    }
  }

  /** When the checked person does not exist, no association is added and every item fails. */
  lemma {:induction false} EnrollWithoutPerson(people: seq<PersonRow>, courses: seq<Course>, links: seq<Enrollment>, pid: int, cs: seq<int>, faults: BatchFaults)
    requires pid !in PersonIds(people)
    ensures var b := Enroll(people, courses, links, pid, cs, faults);
      b.links == links && |b.failures| == |cs| && forall f :: f in b.failures ==> !f.InsertFailed?
    decreases |cs|
  {
    if cs != [] {
      EnrollWithoutPerson(people, courses, links, pid, cs[..|cs| - 1], faults);
    }
  }

  /** Person ids start at 1, so the batch as written, which checks person 0, never enrolls
      anyone and reports a failure for every course id. */
  lemma AddPersonToCourseNeverEnrolls(people: seq<PersonRow>, courses: seq<Course>, links: seq<Enrollment>, cs: seq<int>, faults: BatchFaults)
    requires forall r :: r in people ==> r.id >= 1
    ensures var b := Enroll(people, courses, links, 0, cs, faults);
      b.links == links && |b.failures| == |cs| && (cs != [] ==> Outcome(b.failures).Some?)
  {
    assert 0 !in PersonIds(people);
    EnrollWithoutPerson(people, courses, links, 0, cs, faults);
  }

  /** With no store failure, an existing person and existing, distinct, not yet linked courses,
      the intended batch enrolls the person in every course, in order, and reports nothing. */
  lemma {:induction false} EnrollAllSucceed(people: seq<PersonRow>, courses: seq<Course>, links: seq<Enrollment>, pid: int, cs: seq<int>, faults: BatchFaults)
    requires NoFaultsBefore(faults, |cs|)
    requires pid in PersonIds(people)
    requires forall c :: c in cs ==> HasCourse(courses, c) && Enrollment(pid, c) !in links
    requires NoDuplicates(cs)
    ensures Enroll(people, courses, links, pid, cs, faults) == Batch(links + Links(pid, cs), [])
    decreases |cs|
  {
    if cs != [] {
      var n := |cs| - 1;
      var init, c := cs[..n], cs[n];
      assert cs[..n + 1] == cs;
      NoDuplicatesStep(cs, n);
      assert c in cs && c !in init;
      EnrollAllSucceed(people, courses, links, pid, init, faults) by {
        assert forall x :: x in init ==> x in cs;
      }
      var b := Batch(links + Links(pid, init), []);
      assert Enrollment(pid, c) !in b.links by {
        LinksContains(pid, init, c);
      }
      assert Step(people, courses, b, pid, c, n, faults) == Batch(b.links + [Enrollment(pid, c)], []);
      LinksStep(pid, cs, n);
    }
  }

  /** The case of a single existing course for person 1: the batch as written reports the person
      as missing and adds nothing; the intended batch adds the association. */
  lemma ShadowedPersonExample()
    ensures var people := [PersonRow(1, "Ann", "Lee", "student", 20)];
      var courses := [Course(1, "Math")];
      var faults := BatchFaults({}, {}, {});
      && Enroll(people, courses, [], 0, [1], faults) == Batch([], [PersonNotFound(1)])
      && Enroll(people, courses, [], 1, [1], faults) == Batch([Enrollment(1, 1)], [])
  {
    var people := [PersonRow(1, "Ann", "Lee", "student", 20)];
    var courses := [Course(1, "Math")];
    assert courses[0] in courses;
    assert people[0] in people;
    assert 0 !in PersonIds(people);
  }

  // ---------------------------------------------------------------------------
  // The error text
  // ---------------------------------------------------------------------------

  /** Why one course id was not added; `storeText` is the store's own message for the failed insert. */
  function Reason(f: CourseFailure, storeText: string): string {
    match f
    case CourseNotFound(_) => "course not found"
    case PersonNotFound(_) => "person not found"
    case InsertFailed(_) => storeText
  }

  /** The message of one failure: the course id, then the reason. */
  function FailureMessage(f: CourseFailure, storeText: string): (m: string)
    ensures var r := Reason(f, storeText);
      |m| >= |r| + 2 && m[|m| - |r|..] == r && m[|m| - |r| - 2..|m| - |r|] == ": "
  {
    "failed to add course " + Itoa(f.courseId) + ": " + Reason(f, storeText)
  }

  /** Strings separated by single spaces. */
  function JoinWithSpaces(ms: seq<string>): string
    decreases |ms|
  {
    if ms == [] then ""
    else if |ms| == 1 then ms[0]
    else JoinWithSpaces(ms[..|ms| - 1]) + " " + ms[|ms| - 1]
  }

  /** Joined strings end with the last of them. */
  lemma JoinWithSpacesLast(ms: seq<string>)
    requires ms != []
    ensures var m, last := JoinWithSpaces(ms), ms[|ms| - 1]; |last| <= |m| && m[|m| - |last|..] == last
  {
    if |ms| > 1 {
      var init := JoinWithSpaces(ms[..|ms| - 1]) + " ";
      assert JoinWithSpaces(ms) == init + ms[|ms| - 1];
      assert (init + ms[|ms| - 1])[|init|..] == ms[|ms| - 1];
    }
  }

  /** Joining the first `k` strings gives a prefix of joining them all. */
  lemma {:induction false} JoinWithSpacesPrefix(ms: seq<string>, k: nat)
    requires k <= |ms|
    ensures JoinWithSpaces(ms[..k]) <= JoinWithSpaces(ms)
    decreases |ms|
  {
    if k == |ms| {
      assert ms[..k] == ms;
    } else if k == 0 {
      assert ms[..k] == [];
    } else {
      var n := |ms| - 1;
      var a, b := JoinWithSpaces(ms[..k]), JoinWithSpaces(ms[..n]);
      JoinWithSpacesPrefix(ms[..n], k);
      assert ms[..n][..k] == ms[..k];
      assert a <= b;
      var c := " " + ms[n];
      assert JoinWithSpaces(ms) == b + c;
      assert (b + c)[..|a|] == b[..|a|];
    }
  }

  /** The message of each failure in `fs`; the failure at position `j` wraps the store's own
      text `storeTexts(j)`. */
  function Messages(fs: seq<CourseFailure>, storeTexts: nat -> string): seq<string> {
    seq(|fs|, j requires 0 <= j < |fs| => FailureMessage(fs[j], storeTexts(j)))
  }

  /** The messages of `fs`, separated by single spaces (how `%v` prints a slice of errors). */
  function JoinedMessages(fs: seq<CourseFailure>, storeTexts: nat -> string): (m: string)
    ensures m == "" <==> fs == []
    ensures fs != [] ==>
      var last := FailureMessage(fs[|fs| - 1], storeTexts(|fs| - 1));
      |last| <= |m| && m[|m| - |last|..] == last
  {
    var ms := Messages(fs, storeTexts);
    if fs == [] then ""
    else
      assert ms[|ms| - 1] == FailureMessage(fs[|fs| - 1], storeTexts(|fs| - 1));
      JoinWithSpacesLast(ms);
      JoinWithSpaces(ms)
  }

  /** The messages of the first `k` failures are a prefix of the messages of all of them. */
  lemma JoinedMessagesPrefix(fs: seq<CourseFailure>, storeTexts: nat -> string, k: nat)
    requires k <= |fs|
    ensures JoinedMessages(fs[..k], storeTexts) <= JoinedMessages(fs, storeTexts)
  {
    assert Messages(fs[..k], storeTexts) == Messages(fs, storeTexts)[..k];
    JoinWithSpacesPrefix(Messages(fs, storeTexts), k);
  }

  /** The text of the aggregate error: a fixed prefix, then the joined messages in square brackets. */
  function AggregateMessage(fs: seq<CourseFailure>, storeTexts: nat -> string): string
  {
    "failed to add some courses: [" + JoinedMessages(fs, storeTexts) + "]"
  }

  /** The aggregate error begins with its fixed prefix and closes with a bracket, and it lists
      the failures' messages in order: for each failure `k`, the messages up to and including its
      own follow the prefix, ending with its own. */
  lemma AggregateListsFailures(fs: seq<CourseFailure>, storeTexts: nat -> string, k: nat)
    requires k < |fs|
    ensures var m := AggregateMessage(fs, storeTexts);
      var p := "failed to add some courses: [";
      var ms := Messages(fs, storeTexts);
      var upTo := JoinWithSpaces(ms[..k + 1]);
      && |m| > |p| && m[..|p|] == p && m[|m| - 1] == ']'
      && |p| + |upTo| < |m|
      && m[|p|..|p| + |upTo|] == upTo
      && |ms[k]| <= |upTo| && m[|p| + |upTo| - |ms[k]|..|p| + |upTo|] == ms[k]
      && ms[k] == FailureMessage(fs[k], storeTexts(k))
  {
    AggregateIsJoined(fs, storeTexts);
    BracketedInOrder("failed to add some courses: [", Messages(fs, storeTexts), k);
  }

  /** `p`, the joined strings and a closing bracket: after `p`, the joined strings up to string
      `k` come first and end with it. */
  lemma BracketedInOrder(p: string, ms: seq<string>, k: nat)
    requires k < |ms|
    ensures var m := p + JoinWithSpaces(ms) + "]";
      var upTo := JoinWithSpaces(ms[..k + 1]);
      && |m| > |p| && m[..|p|] == p && m[|m| - 1] == ']'
      && |p| + |upTo| < |m|
      && m[|p|..|p| + |upTo|] == upTo
      && |ms[k]| <= |upTo| && m[|p| + |upTo| - |ms[k]|..|p| + |upTo|] == ms[k]
  {
    var m := p + JoinWithSpaces(ms) + "]";
    assert m[..|p|] == p;
    var upTo := JoinWithSpaces(ms[..k + 1]);
    JoinWithSpacesPrefix(ms, k + 1);
    JoinWithSpacesLast(ms[..k + 1]);
    assert ms[..k + 1][k] == ms[k];
    SliceOfJoined(p, JoinWithSpaces(ms), "]", upTo, ms[k]);
  }

  /** The aggregate text is the fixed prefix, the joined messages and a closing bracket. */
  lemma AggregateIsJoined(fs: seq<CourseFailure>, storeTexts: nat -> string)
    ensures AggregateMessage(fs, storeTexts) == "failed to add some courses: [" + JoinWithSpaces(Messages(fs, storeTexts)) + "]"
  {
    assert JoinedMessages(fs, storeTexts) == JoinWithSpaces(Messages(fs, storeTexts));
  }

  /** Slicing a prefix `u` of the middle part, and a suffix `own` of `u`, out of `p + all + tail`. */
  lemma SliceOfJoined(p: string, all: string, tail: string, u: string, own: string)
    requires u <= all && |own| <= |u| && u[|u| - |own|..] == own && tail != []
    ensures var m := p + all + tail;
      && |p| + |u| < |m|
      && m[|p|..|p| + |u|] == u
      && m[|p| + |u| - |own|..|p| + |u|] == own
  {
    var m := p + all + tail;
    assert m[|p|..|p| + |u|] == all[..|u|];
    assert m[|p| + |u| - |own|..|p| + |u|] == u[|u| - |own|..];
  }

  /** The course id in a failure message reads back as the id. */
  lemma FailureMessageNamesCourse(f: CourseFailure, storeText: string)
    requires MinInt64 <= f.courseId <= MaxInt64
    ensures var m := FailureMessage(f, storeText);
      var p := "failed to add course ";
      var digits := Itoa(f.courseId);
      && m[..|p|] == p
      && Atoi(m[|p|..|p| + |digits|]) == Some(f.courseId)
  {
    var p := "failed to add course ";
    var digits := Itoa(f.courseId);
    var m := p + digits + (": " + Reason(f, storeText));
    assert FailureMessage(f, storeText) == m;
    assert m[..|p|] == p;
    assert m[|p|..|p| + |digits|] == digits;
    AtoiItoaRange(f.courseId);
  }
}

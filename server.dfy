/** The REST handlers of the API service, as methods on a store that holds the
    two collections. Each handler is a sequential, atomic transition: it returns
    the HTTP status (with the error message the service sends) and changes
    the collections the way its MongoDB calls do. */
module Server {
  import opened Documents

  /** What a handler answers: 200, 201, or an error status with its message. */
  datatype Reply = Ok | Created | Error(status: int, message: string)
  {
    function Status(): (code: int)
    {
      match this
      case Ok => 200
      case Created => 201
      case Error(status, _) => status
    }
  }

  const TitleAndCodeRequired := Error(400, "title and code are required")
  const CodeExists := Error(409, "Course code already exists")
  const NotFound := Error(404, "Not found")
  const NameRequired := Error(400, "name is required")
  const CourseIdRequired := Error(400, "courseId is required")
  const StudentNotFound := Error(404, "Student not found")
  const CourseNotFound := Error(404, "Course not found")
  const AlreadyRegistered := Error(409, "Already registered")

  /** A string field of a request passes the `!field` check: it is present,
      not null and not empty. */
  predicate Given(field: Option<string>)
  {
    field.Some? && field.value != ""
  }

  /** `email || null`: an absent or empty email is stored as null. */
  function StoredEmail(email: Option<string>): (stored: Option<string>)
  {
    if Given(email) then email else None
  }

  /** The stored email is never the empty string, it is present exactly when
      one was given, and a client that sends it back stores it unchanged. */
  lemma StoredEmailStable(email: Option<string>)
    ensures StoredEmail(email) != Some("")
    ensures StoredEmail(StoredEmail(email)) == StoredEmail(email)
    ensures Given(StoredEmail(email)) <==> Given(email)
  {
    if Given(email) {
      assert StoredEmail(email) == email;
    } else {
      assert StoredEmail(email) == None;
    }
  }

  /** `collection.find(filter).toArray()`: every stored document that passes the
      filter, each once, with its id; the order is not modelled. */
  method Find<T>(collection: map<Id, T>, filter: T -> bool) returns (docs: seq<(Id, T)>)
    ensures forall i | 0 <= i < |docs| ::
      docs[i].0 in collection && collection[docs[i].0] == docs[i].1 && filter(docs[i].1)
    ensures forall id | id in collection && filter(collection[id]) ::
      exists i | 0 <= i < |docs| :: docs[i].0 == id
    ensures forall i, j | 0 <= i < j < |docs| :: docs[i].0 != docs[j].0
  {
    docs := [];
    var pending := collection.Keys;
    while pending != {}
      invariant pending <= collection.Keys
      invariant forall i | 0 <= i < |docs| ::
        docs[i].0 in collection && docs[i].0 !in pending
        && collection[docs[i].0] == docs[i].1 && filter(docs[i].1)
      invariant forall id | id in collection && id !in pending && filter(collection[id]) ::
        exists i | 0 <= i < |docs| :: docs[i].0 == id
      invariant forall i, j | 0 <= i < j < |docs| :: docs[i].0 != docs[j].0
      decreases pending
    {
      var id :| id in pending;
      if filter(collection[id]) {
        ghost var before := docs;
        docs := docs + [(id, collection[id])];
        assert docs[|before|].0 == id;
        forall other | other in collection && other !in pending && filter(collection[other])
          ensures exists i | 0 <= i < |docs| :: docs[i].0 == other
        {
          var i :| 0 <= i < |before| && before[i].0 == other;
          assert docs[i] == before[i];
        }
      }
      pending := pending - {id};
    }
  }

  // ---------------------------------------------------------------------------
  // Demo data written by the seed handler

  const SeedCourses: seq<Course> := [
    Course("Intro to Programming", "CS101"),
    Course("Data Structures", "CS201"),
    Course("Web Development", "WEB101"),
    Course("Databases", "DB101"),
    Course("Operating Systems", "OS201")
  ]

  const SeedStudents: seq<Student> := [
    Student("Majd Kassem", Some("majd@example.com"), []),
    Student("Maradona", Some("maradona@example.com"), []),
    Student("Elon Musk", Some("Elon@example.com"), []),
    Student("John doe", Some("jd@example.com"), [])
  ]

  /** The seeded catalogue has no two courses with one code, and every seeded
      student starts with no registrations. */
  lemma SeedDataConsistent(courseIds: seq<Id>, studentIds: seq<Id>)
    requires |courseIds| == |SeedCourses| && Distinct(courseIds)
    requires |studentIds| == |SeedStudents| && Distinct(studentIds)
    ensures CodesUnique(Seeded(courseIds, SeedCourses))
    ensures forall id | id in Seeded(studentIds, SeedStudents) ::
      Seeded(studentIds, SeedStudents)[id].registeredCourses == []
  {
    var m := Seeded(courseIds, SeedCourses);
    forall a, b | a in m && b in m && a != b
      ensures m[a].code != m[b].code
    {
      var i :| 0 <= i < |courseIds| && courseIds[i] == a;
      var j :| 0 <= j < |courseIds| && courseIds[j] == b;
      assert i != j;
      assert m[a] == SeedCourses[i] && m[b] == SeedCourses[j];
    }
    var s := Seeded(studentIds, SeedStudents);
    forall id | id in s
      ensures s[id].registeredCourses == []
    {
      var i :| 0 <= i < |studentIds| && studentIds[i] == id;
      assert s[id] == SeedStudents[i];
    }
  }

  // ---------------------------------------------------------------------------
  // The store and its handlers

  class Store {
    var courses: map<Id, Course>
    var students: map<Id, Student>

    /** The invariant every handler preserves. */
    ghost predicate Valid()
      reads this
    {
      OneRegistrationPerCourse(students)
    }

    constructor ()
      ensures courses == map[] && students == map[]
      ensures Valid()
    {
      courses := map[];
      students := map[];
    }

    /** GET /api/courses: every course, once each. */
    method ListCourses() returns (docs: seq<(Id, Course)>)
      ensures forall i | 0 <= i < |docs| :: docs[i].0 in courses && courses[docs[i].0] == docs[i].1
      ensures forall id | id in courses :: exists i | 0 <= i < |docs| :: docs[i].0 == id
      ensures forall i, j | 0 <= i < j < |docs| :: docs[i].0 != docs[j].0
    {
      docs := Find(courses, (c: Course) => true);
    }

    /** GET /api/courses/:id. */
    method GetCourse(id: Id) returns (reply: Reply, doc: Option<Course>)
      ensures id in courses ==> reply == Ok && doc == Some(courses[id])
      ensures id !in courses ==> reply == NotFound && doc == None
    {
      if id in courses {
        return Ok, Some(courses[id]);
      }
      return NotFound, None;
    }

    /** POST /api/courses. */
    method CreateCourse(title: Option<string>, code: Option<string>, newId: Id) returns (reply: Reply)
      requires newId !in courses
      modifies this
      ensures !Given(title) || !Given(code) ==> reply == TitleAndCodeRequired
      ensures Given(title) && Given(code) && CodeTaken(old(courses), code.value) ==> reply == CodeExists
      ensures reply == Created <==> Given(title) && Given(code) && !CodeTaken(old(courses), code.value)
      ensures reply == Created ==> courses == old(courses)[newId := Course(title.value, code.value)]
      ensures reply != Created ==> courses == old(courses)
      ensures students == old(students)
      ensures old(CodesUnique(courses)) ==> CodesUnique(courses)
    {
      if !Given(title) || !Given(code) {
        return TitleAndCodeRequired;
      }
      if CodeTaken(courses, code.value) {
        return CodeExists;
      }
      var course := Course(title.value, code.value);
      InsertKeepsCodesUnique(courses, newId, course);
      courses := courses[newId := course];
      return Created;
    }

    /** PUT /api/courses/:id. The code is not checked against other courses
        (see UpdateCanDuplicateCode), and the snapshots students hold are left
        as they were. */
    method UpdateCourse(id: Id, title: Option<string>, code: Option<string>) returns (reply: Reply)
      modifies this
      ensures !Given(title) || !Given(code) ==> reply == TitleAndCodeRequired
      ensures Given(title) && Given(code) && id !in old(courses) ==> reply == NotFound
      ensures reply == Ok <==> Given(title) && Given(code) && id in old(courses)
      ensures reply == Ok ==> courses == old(courses)[id := Course(title.value, code.value)]
      ensures reply != Ok ==> courses == old(courses)
      ensures students == old(students)
    {
      if !Given(title) || !Given(code) {
        return TitleAndCodeRequired;
      }
      if id !in courses {
        return NotFound;
      }
      courses := courses[id := Course(title.value, code.value)];
      return Ok;
    }

    /** DELETE /api/courses/:id, with its cascade into every student's list. */
    method DeleteCourse(id: Id) returns (reply: Reply)
      modifies this
      ensures id !in old(courses) ==> reply == NotFound && courses == old(courses) && students == old(students)
      ensures id in old(courses) ==>
        reply == Ok && courses == old(courses) - {id} && students == PullFromAll(old(students), id)
      ensures old(Valid()) ==> Valid()
      ensures old(CodesUnique(courses)) ==> CodesUnique(courses)
    {
      if id !in courses {
        return NotFound;
      }
      courses := courses - {id};
      PullFromAllKeepsInvariant(students, id);
      students := PullFromAll(students, id);
      return Ok;
    }

    /** GET /api/students?name=: every student, once each, whose name the
        case-insensitive pattern matches when a pattern is given. MongoDB's
        regular-expression engine is the parameter `matches`. */
    method ListStudents(name: Option<string>, matches: (string, string) -> bool) returns (docs: seq<(Id, Student)>)
      ensures forall i | 0 <= i < |docs| ::
        docs[i].0 in students && students[docs[i].0] == docs[i].1
        && (Given(name) ==> matches(name.value, docs[i].1.name))
      ensures forall id | id in students && (Given(name) ==> matches(name.value, students[id].name)) ::
        exists i | 0 <= i < |docs| :: docs[i].0 == id
      ensures forall i, j | 0 <= i < j < |docs| :: docs[i].0 != docs[j].0
    {
      docs := Find(students, (s: Student) => Given(name) ==> matches(name.value, s.name));
    }

    /** GET /api/students/:id. */
    method GetStudent(id: Id) returns (reply: Reply, doc: Option<Student>)
      ensures id in students ==> reply == Ok && doc == Some(students[id])
      ensures id !in students ==> reply == NotFound && doc == None
    {
      if id in students {
        return Ok, Some(students[id]);
      }
      return NotFound, None;
    }

    /** POST /api/students. */
    method CreateStudent(name: Option<string>, email: Option<string>, newId: Id) returns (reply: Reply)
      requires newId !in students
      modifies this
      ensures !Given(name) ==> reply == NameRequired && students == old(students)
      ensures Given(name) ==>
        reply == Created && students == old(students)[newId := Student(name.value, StoredEmail(email), [])]
      ensures courses == old(courses)
      ensures old(Valid()) ==> Valid()
    {
      if !Given(name) {
        return NameRequired;
      }
      students := students[newId := Student(name.value, StoredEmail(email), [])];
      return Created;
    }

    /** PUT /api/students/:id: only the name and email change. */
    method UpdateStudent(id: Id, name: Option<string>, email: Option<string>) returns (reply: Reply)
      modifies this
      ensures !Given(name) ==> reply == NameRequired
      ensures Given(name) && id !in old(students) ==> reply == NotFound
      ensures reply == Ok <==> Given(name) && id in old(students)
      ensures reply == Ok ==> students == old(students)[id := old(students)[id].(name := name.value, email := StoredEmail(email))]
      ensures reply != Ok ==> students == old(students)
      ensures courses == old(courses)
      ensures old(Valid()) ==> Valid()
    {
      if !Given(name) {
        return NameRequired;
      }
      if id !in students {
        return NotFound;
      }
      students := students[id := students[id].(name := name.value, email := StoredEmail(email))];
      return Ok;
    }

    /** DELETE /api/students/:id. Nothing refers to a student, so nothing cascades. */
    method DeleteStudent(id: Id) returns (reply: Reply)
      modifies this
      ensures id !in old(students) ==> reply == NotFound && students == old(students)
      ensures id in old(students) ==> reply == Ok && students == old(students) - {id}
      ensures courses == old(courses)
      ensures old(Valid()) ==> Valid()
    {
      if id !in students {
        return NotFound;
      }
      students := students - {id};
      return Ok;
    }

    /** POST /api/students/:id/register. The validations run in the handler's order:
        missing courseId, missing student, missing course, already registered.
        On success the course's current title and code are copied into a new
        record at the end of the student's list. */
    method Register(studentId: Id, courseId: Option<Id>, now: string) returns (reply: Reply)
      modifies this
      ensures !Given(courseId) ==> reply == CourseIdRequired
      ensures Given(courseId) && studentId !in old(students) ==> reply == StudentNotFound
      ensures Given(courseId) && studentId in old(students) && courseId.value !in old(courses)
        ==> reply == CourseNotFound
      ensures Given(courseId) && studentId in old(students) && courseId.value in old(courses)
        && HasRegistration(old(students)[studentId].registeredCourses, courseId.value)
        ==> reply == AlreadyRegistered
      ensures reply == Ok <==>
        Given(courseId) && studentId in old(students) && courseId.value in old(courses)
        && !HasRegistration(old(students)[studentId].registeredCourses, courseId.value)
      ensures reply == Ok ==> students == Pushed(old(students), studentId,
        Registration(courseId.value, old(courses)[courseId.value].title, old(courses)[courseId.value].code, now))
      ensures reply != Ok ==> students == old(students)
      ensures courses == old(courses)
      ensures old(Valid()) ==> Valid()
    {
      if !Given(courseId) {
        return CourseIdRequired;
      }
      var cid := courseId.value;
      if studentId !in students {
        return StudentNotFound;
      }
      if cid !in courses {
        return CourseNotFound;
      }
      if HasRegistration(students[studentId].registeredCourses, cid) {
        return AlreadyRegistered;
      }
      var course := courses[cid];
      var embedded := Registration(cid, course.title, course.code, now);
      PushedKeepsInvariant(students, studentId, embedded);
      students := Pushed(students, studentId, embedded);
      return Ok;
    }

    /** POST /api/students/:id/unregister. Succeeds whether or not the student
        holds the course. */
    method Unregister(studentId: Id, courseId: Option<Id>) returns (reply: Reply)
      modifies this
      ensures !Given(courseId) ==> reply == CourseIdRequired && students == old(students)
      ensures Given(courseId) && studentId !in old(students) ==> reply == StudentNotFound && students == old(students)
      ensures Given(courseId) && studentId in old(students) ==>
        reply == Ok && students == Pulled(old(students), studentId, courseId.value)
      ensures old(Valid()) && reply == Ok
        && HasRegistration(old(students)[studentId].registeredCourses, courseId.value)
        ==> |students[studentId].registeredCourses| == |old(students)[studentId].registeredCourses| - 1
      ensures courses == old(courses)
      ensures old(Valid()) ==> Valid()
    {
      if !Given(courseId) {
        return CourseIdRequired;
      }
      if studentId !in students {
        return StudentNotFound;
      }
      if OneRegistrationPerCourse(students) && HasRegistration(students[studentId].registeredCourses, courseId.value) {
        PullCourseRemovesOne(students[studentId].registeredCourses, courseId.value);
      }
      PulledKeepsInvariant(students, studentId, courseId.value);
      students := Pulled(students, studentId, courseId.value);
      return Ok;
    }

    /** POST /api/seed: empties both collections and inserts the demo data under
        fresh ids. The result does not depend on what was stored before. */
    method Seed(courseIds: seq<Id>, studentIds: seq<Id>) returns (reply: Reply)
      requires |courseIds| == |SeedCourses| && Distinct(courseIds)
      requires |studentIds| == |SeedStudents| && Distinct(studentIds)
      modifies this
      ensures reply == Ok
      ensures courses == Seeded(courseIds, SeedCourses)
      ensures students == Seeded(studentIds, SeedStudents)
      ensures Valid() && CodesUnique(courses)
    {
      courses := map[];
      students := map[];
      courses := Seeded(courseIds, SeedCourses);
      students := Seeded(studentIds, SeedStudents);
      SeedDataConsistent(courseIds, studentIds);
      return Ok;
    }
  }

  // ---------------------------------------------------------------------------
  // A whole session, against an empty store

  /** Create the course "Algorithms" (CS301), try to create a second course with
      the same code, create the student "Ada", register the student for the
      course twice, and unregister the student. `registered` is the student's
      list after the first registration, `left` the student's list at the end. */
  method RegistrationSession(courseId: Id, otherCourseId: Id, studentId: Id, now: string)
    returns (replies: seq<Reply>, registered: seq<Registration>, left: seq<Registration>)
    requires courseId != "" && courseId != otherCourseId
    ensures replies == [Created, CodeExists, Created, Ok, AlreadyRegistered, Ok]
    ensures replies[0].Status() == 201 && replies[1].Status() == 409 && replies[2].Status() == 201
    ensures replies[3].Status() == 200 && replies[4].Status() == 409 && replies[5].Status() == 200
    ensures registered == [Registration(courseId, "Algorithms", "CS301", now)]
    ensures left == []
  {
    var store := new Store();
    var algorithms := Course("Algorithms", "CS301");
    var course := store.CreateCourse(Some("Algorithms"), Some("CS301"), courseId);
    assert course == Created && store.courses == map[courseId := algorithms];
    assert store.courses[courseId].code == "CS301";
    var duplicate := store.CreateCourse(Some("Algorithms II"), Some("CS301"), otherCourseId);
    assert duplicate == CodeExists;
    var student := store.CreateStudent(Some("Ada"), None, studentId);
    assert student == Created && store.students == map[studentId := Student("Ada", None, [])];
    var first := store.Register(studentId, Some(courseId), now);
    var reg := Registration(courseId, "Algorithms", "CS301", now);
    assert first == Ok;
    assert store.students == map[studentId := Student("Ada", None, [reg])];
    registered := store.students[studentId].registeredCourses;
    assert registered[0].courseId == courseId;
    var second := store.Register(studentId, Some(courseId), now);
    assert second == AlreadyRegistered;
    var dropped := store.Unregister(studentId, Some(courseId));
    assert dropped == Ok;
    left := store.students[studentId].registeredCourses;
    assert left == PullCourse([reg], courseId);
    replies := [course, duplicate, student, first, second, dropped];
    assert replies == [Created, CodeExists, Created, Ok, AlreadyRegistered, Ok];
    assert Created.Status() == 201 && CodeExists.Status() == 409;
    assert Ok.Status() == 200 && AlreadyRegistered.Status() == 409;
  }

  /** Two courses with distinct codes, then an update that gives the second
      the first one's code: the update handler answers 200 and the catalogue
      no longer has unique codes. `before` and `after` are the courses around
      the update. */
  method UpdateCanDuplicateCode(firstId: Id, secondId: Id)
    returns (reply: Reply, before: map<Id, Course>, after: map<Id, Course>)
    requires firstId != secondId
    ensures reply == Ok
    ensures CodesUnique(before) && !CodesUnique(after)
    ensures after.Keys == before.Keys == {firstId, secondId}
  {
    var store := new Store();
    var first := store.CreateCourse(Some("Databases"), Some("DB101"), firstId);
    assert first == Created && store.courses == map[firstId := Course("Databases", "DB101")];
    assert !CodeTaken(store.courses, "CS301");
    var second := store.CreateCourse(Some("Algorithms"), Some("CS301"), secondId);
    assert second == Created;
    before := store.courses;
    reply := store.UpdateCourse(secondId, Some("Algorithms"), Some("DB101"));
    after := store.courses;
    assert after[firstId].code == after[secondId].code;
  }
}

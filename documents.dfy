/** The documents held in the `courses` and `students` collections. This module
    also gives the array update operators the handlers apply to a student's
    embedded `registeredCourses` list (`$push`, `$pull`, `updateMany` with
    `$pull`), stated as functions on values, with the facts the handlers rely on. */
module Documents {

  /** A document id in its string form: the text of an ObjectId. */
  type Id = string

  datatype Option<T> = None | Some(value: T)

  /** A document of the `courses` collection, without its `_id`. */
  datatype Course = Course(title: string, code: string)

  /** One element of a student's `registeredCourses`. It holds the course id
      and a snapshot of the course's title and code, taken at registration. */
  datatype Registration = Registration(courseId: Id, title: string, code: string, registeredAt: string)

  /** A document of the `students` collection, without its `_id`. */
  datatype Student = Student(name: string, email: Option<string>, registeredCourses: seq<Registration>)

  // ---------------------------------------------------------------------------
  // Registrations of one student

  /** The query `"registeredCourses.courseId": courseId` matches the list. */
  predicate HasRegistration(regs: seq<Registration>, courseId: Id)
  {
    exists i | 0 <= i < |regs| :: regs[i].courseId == courseId
  }

  /** At most one registration per course id. */
  predicate UniqueCourseIds(regs: seq<Registration>)
  {
    forall i, j | 0 <= i < j < |regs| :: regs[i].courseId != regs[j].courseId
  }

  /** The store's invariant: every student holds at most one registration per course. */
  predicate OneRegistrationPerCourse(students: map<Id, Student>)
  {
    forall id | id in students :: UniqueCourseIds(students[id].registeredCourses)
  }

  /** `$pull: { registeredCourses: { courseId } }` on one list: drops every
      element whose `courseId` matches and keeps the rest in their order. */
  function PullCourse(regs: seq<Registration>, courseId: Id): (r: seq<Registration>)
    ensures |r| <= |regs|
    ensures !HasRegistration(r, courseId)
    ensures forall x | x in r :: x in regs
  {
    if regs == [] then []
    else if regs[0].courseId == courseId then PullCourse(regs[1..], courseId)
    else [regs[0]] + PullCourse(regs[1..], courseId)
  }

  /** An element survives the pull exactly when it was there and does not match. */
  lemma {:induction false} PullCourseKeeps(regs: seq<Registration>, courseId: Id, x: Registration)
    ensures x in PullCourse(regs, courseId) <==> x in regs && x.courseId != courseId
  {
    if regs != [] {
      PullCourseKeeps(regs[1..], courseId, x);
      assert regs == [regs[0]] + regs[1..];
    }
  }

  /** PullCourseKeeps for every registration at once. */
  lemma PullCourseKeepsAll(regs: seq<Registration>, courseId: Id)
    ensures forall x :: x in PullCourse(regs, courseId) <==> x in regs && x.courseId != courseId
  {
    forall x {
      PullCourseKeeps(regs, courseId, x);
    }
  }

  /** The pull works element by element, so it keeps the order of what remains. */
  lemma {:induction false} PullCourseConcat(a: seq<Registration>, b: seq<Registration>, courseId: Id)
    ensures PullCourse(a + b, courseId) == PullCourse(a, courseId) + PullCourse(b, courseId)
  {
    if a == [] {
      assert a + b == b;
    } else {
      assert (a + b)[0] == a[0];
      assert (a + b)[1..] == a[1..] + b;
      PullCourseConcat(a[1..], b, courseId);
    }
  }

  /** A pull that matches nothing leaves the list as it was. */
  lemma {:induction false} PullCourseAbsent(regs: seq<Registration>, courseId: Id)
    requires !HasRegistration(regs, courseId)
    ensures PullCourse(regs, courseId) == regs
  {
    if regs != [] {
      assert regs[0].courseId != courseId;
      assert !HasRegistration(regs[1..], courseId) by {
        forall i | 0 <= i < |regs| - 1
          ensures regs[1..][i].courseId != courseId
        {
          assert regs[1..][i] == regs[i + 1];
        }
      }
      PullCourseAbsent(regs[1..], courseId);
    }
  }

  /** Pulling the same course twice is the same as pulling it once. */
  lemma PullCourseIdempotent(regs: seq<Registration>, courseId: Id)
    ensures PullCourse(PullCourse(regs, courseId), courseId) == PullCourse(regs, courseId)
  {
    PullCourseAbsent(PullCourse(regs, courseId), courseId);
  }

  /** A pull never creates a duplicate. */
  lemma {:induction false} PullCourseUnique(regs: seq<Registration>, courseId: Id)
    requires UniqueCourseIds(regs)
    ensures UniqueCourseIds(PullCourse(regs, courseId))
  {
    if regs != [] {
      var tail := regs[1..];
      assert UniqueCourseIds(tail) by {
        forall i, j | 0 <= i < j < |tail|
          ensures tail[i].courseId != tail[j].courseId
        {
          assert tail[i] == regs[i + 1] && tail[j] == regs[j + 1];
        }
      }
      PullCourseUnique(tail, courseId);
      if regs[0].courseId != courseId {
        var rest := PullCourse(tail, courseId);
        var r := [regs[0]] + rest;
        forall j | 0 <= j < |rest|
          ensures regs[0].courseId != rest[j].courseId
        {
          assert rest[j] in tail;
          var k :| 0 <= k < |tail| && tail[k] == rest[j];
          assert tail[k] == regs[k + 1];
        }
        forall i, j | 0 <= i < j < |r|
          ensures r[i].courseId != r[j].courseId
        {
          assert r[j] == rest[j - 1];
          if i > 0 {
            assert r[i] == rest[i - 1];
          }
        }
      }
    }
  }

  /** In a duplicate-free list that holds the course, the pull removes exactly
      one registration. */
  lemma {:induction false} PullCourseRemovesOne(regs: seq<Registration>, courseId: Id)
    requires UniqueCourseIds(regs)
    requires HasRegistration(regs, courseId)
    ensures |PullCourse(regs, courseId)| == |regs| - 1
  {
    var tail := regs[1..];
    assert UniqueCourseIds(tail) by {
      forall i, j | 0 <= i < j < |tail|
        ensures tail[i].courseId != tail[j].courseId
      {
        assert tail[i] == regs[i + 1] && tail[j] == regs[j + 1];
      }
    }
    if regs[0].courseId == courseId {
      assert !HasRegistration(tail, courseId) by {
        forall i | 0 <= i < |tail|
          ensures tail[i].courseId != courseId
        {
          assert tail[i] == regs[i + 1];
        }
      }
      PullCourseAbsent(tail, courseId);
    } else {
      var k :| 0 <= k < |regs| && regs[k].courseId == courseId;
      assert tail[k - 1] == regs[k];
      PullCourseRemovesOne(tail, courseId);
    }
  }

  /** `$push` of a course the list does not hold keeps the list free of duplicates. */
  lemma PushUnique(regs: seq<Registration>, reg: Registration)
    requires UniqueCourseIds(regs)
    requires !HasRegistration(regs, reg.courseId)
    ensures UniqueCourseIds(regs + [reg])
  {
    var r := regs + [reg];
    forall i, j | 0 <= i < j < |r|
      ensures r[i].courseId != r[j].courseId
    {
      assert r[i] == regs[i];
      if j < |regs| {
        assert r[j] == regs[j];
      }
    }
  }

  /** Pulling the course just pushed gives back the list as it was before the push. */
  lemma PullAfterPush(regs: seq<Registration>, reg: Registration)
    requires !HasRegistration(regs, reg.courseId)
    ensures PullCourse(regs + [reg], reg.courseId) == regs
  {
    PullCourseConcat(regs, [reg], reg.courseId);
    PullCourseAbsent(regs, reg.courseId);
    assert PullCourse([reg], reg.courseId) == [];
  }

  /** The "already registered" query and the pull agree: the pull changes the
      list exactly when the query matches it. */
  lemma PullChangesIffHeld(regs: seq<Registration>, courseId: Id)
    ensures PullCourse(regs, courseId) == regs <==> !HasRegistration(regs, courseId)
  {
    if !HasRegistration(regs, courseId) {
      PullCourseAbsent(regs, courseId);
    }
  }

  /** After a push the query matches the list exactly when it matched before
      or the pushed record is for that course: a second register of the same
      course meets the 409 reply. */
  lemma HasRegistrationAfterPush(regs: seq<Registration>, reg: Registration, courseId: Id)
    ensures HasRegistration(regs + [reg], courseId) <==> HasRegistration(regs, courseId) || reg.courseId == courseId
  {
    var r := regs + [reg];
    assert r[|regs|] == reg;
    if HasRegistration(regs, courseId) {
      var i :| 0 <= i < |regs| && regs[i].courseId == courseId;
      assert r[i] == regs[i];
    }
    if HasRegistration(r, courseId) && reg.courseId != courseId {
      var i :| 0 <= i < |r| && r[i].courseId == courseId;
      assert r[i] == regs[i];
    }
  }

  // ---------------------------------------------------------------------------
  // The `students` collection under the same operators

  /** `findOneAndUpdate({_id: id}, {$push: {registeredCourses: reg}})`. */
  function Pushed(students: map<Id, Student>, id: Id, reg: Registration): (r: map<Id, Student>)
    requires id in students
    ensures r.Keys == students.Keys
    ensures forall other | other in students && other != id :: r[other] == students[other]
    ensures r[id].name == students[id].name && r[id].email == students[id].email
    ensures |r[id].registeredCourses| == |students[id].registeredCourses| + 1
    ensures r[id].registeredCourses[..|students[id].registeredCourses|] == students[id].registeredCourses
    ensures r[id].registeredCourses[|students[id].registeredCourses|] == reg
  {
    students[id := students[id].(registeredCourses := students[id].registeredCourses + [reg])]
  }

  /** `findOneAndUpdate({_id: id}, {$pull: {registeredCourses: {courseId}}})`. */
  function Pulled(students: map<Id, Student>, id: Id, courseId: Id): (r: map<Id, Student>)
    requires id in students
    ensures r.Keys == students.Keys
    ensures forall other | other in students && other != id :: r[other] == students[other]
    ensures r[id].name == students[id].name && r[id].email == students[id].email
    ensures !HasRegistration(r[id].registeredCourses, courseId)
    ensures forall x :: x in r[id].registeredCourses <==> x in students[id].registeredCourses && x.courseId != courseId
  {
    PullCourseKeepsAll(students[id].registeredCourses, courseId);
    students[id := students[id].(registeredCourses := PullCourse(students[id].registeredCourses, courseId))]
  }

  /** `updateMany({}, {$pull: {registeredCourses: {courseId}}})`: the pull applied
      to every student. */
  function PullFromAll(students: map<Id, Student>, courseId: Id): (r: map<Id, Student>)
    ensures r.Keys == students.Keys
    ensures forall id | id in r ::
      r[id].name == students[id].name && r[id].email == students[id].email
      && !HasRegistration(r[id].registeredCourses, courseId)
  {
    map id | id in students :: students[id].(registeredCourses := PullCourse(students[id].registeredCourses, courseId))
  }

  /** After the cascade a student keeps exactly the registrations of other courses. */
  lemma PullFromAllKeeps(students: map<Id, Student>, courseId: Id, id: Id, x: Registration)
    requires id in students
    ensures x in PullFromAll(students, courseId)[id].registeredCourses
        <==> x in students[id].registeredCourses && x.courseId != courseId
  {
    PullCourseKeeps(students[id].registeredCourses, courseId, x);
  }

  /** Registering a course the student does not hold keeps the invariant. */
  lemma PushedKeepsInvariant(students: map<Id, Student>, id: Id, reg: Registration)
    requires id in students
    requires !HasRegistration(students[id].registeredCourses, reg.courseId)
    ensures OneRegistrationPerCourse(students) ==> OneRegistrationPerCourse(Pushed(students, id, reg))
  {
    if OneRegistrationPerCourse(students) {
      PushUnique(students[id].registeredCourses, reg);
    }
  }

  /** Unregistering keeps the invariant. */
  lemma PulledKeepsInvariant(students: map<Id, Student>, id: Id, courseId: Id)
    requires id in students
    ensures OneRegistrationPerCourse(students) ==> OneRegistrationPerCourse(Pulled(students, id, courseId))
  {
    if OneRegistrationPerCourse(students) {
      PullCourseUnique(students[id].registeredCourses, courseId);
    }
  }

  /** The course-delete cascade keeps the invariant. */
  lemma PullFromAllKeepsInvariant(students: map<Id, Student>, courseId: Id)
    ensures OneRegistrationPerCourse(students) ==> OneRegistrationPerCourse(PullFromAll(students, courseId))
  {
    if OneRegistrationPerCourse(students) {
      forall id | id in students
        ensures UniqueCourseIds(PullFromAll(students, courseId)[id].registeredCourses)
      {
        PullCourseUnique(students[id].registeredCourses, courseId);
      }
    }
  }

  /** Unregistering twice leaves the same collection as unregistering once. */
  lemma PulledIdempotent(students: map<Id, Student>, id: Id, courseId: Id)
    requires id in students
    ensures Pulled(Pulled(students, id, courseId), id, courseId) == Pulled(students, id, courseId)
  {
    PullCourseIdempotent(students[id].registeredCourses, courseId);
  }

  /** Registering a course and then unregistering it restores the collection. */
  lemma PushedThenPulled(students: map<Id, Student>, id: Id, reg: Registration)
    requires id in students
    requires !HasRegistration(students[id].registeredCourses, reg.courseId)
    ensures Pulled(Pushed(students, id, reg), id, reg.courseId) == students
  {
    PullAfterPush(students[id].registeredCourses, reg);
  }

  // ---------------------------------------------------------------------------
  // The `courses` collection

  /** The query `findOne({ code })` finds a course. */
  predicate CodeTaken(courses: map<Id, Course>, code: string)
  {
    exists id | id in courses :: courses[id].code == code
  }

  /** No two courses share a code. */
  predicate CodesUnique(courses: map<Id, Course>)
  {
    forall a, b | a in courses && b in courses && a != b :: courses[a].code != courses[b].code
  }

  /** Inserting a course under a fresh id with an unused code keeps codes unique. */
  lemma InsertKeepsCodesUnique(courses: map<Id, Course>, id: Id, course: Course)
    requires id !in courses
    requires !CodeTaken(courses, course.code)
    ensures CodesUnique(courses) ==> CodesUnique(courses[id := course])
  {
    var m := courses[id := course];
    if CodesUnique(courses) {
      forall a, b | a in m && b in m && a != b
        ensures m[a].code != m[b].code
      {
        if a == id {
          assert b in courses && courses[b] == m[b];
        } else if b == id {
          assert a in courses && courses[a] == m[a];
        }
      }
    }
  }

  /** After an insert under a fresh id, `findOne({ code })` finds a course
      exactly when it found one before or the new course has that code: a
      second create with the same code meets the 409 reply. */
  lemma CodeTakenAfterInsert(courses: map<Id, Course>, id: Id, course: Course, code: string)
    requires id !in courses
    ensures CodeTaken(courses[id := course], code) <==> CodeTaken(courses, code) || course.code == code
  {
    var m := courses[id := course];
    assert m[id] == course;
    if CodeTaken(courses, code) {
      var w :| w in courses && courses[w].code == code;
      assert w in m && m[w] == courses[w];
    }
    if CodeTaken(m, code) && course.code != code {
      var w :| w in m && m[w].code == code;
      assert w != id && w in courses && courses[w] == m[w];
    }
  }

  /** With codes unique, deleting a course frees its code and no other:
      afterwards `findOne({ code })` finds a course exactly when it found one
      before and that one was not the deleted course. */
  lemma CodeTakenAfterRemove(courses: map<Id, Course>, id: Id, code: string)
    requires CodesUnique(courses)
    requires id in courses
    ensures CodeTaken(courses - {id}, code) <==> CodeTaken(courses, code) && courses[id].code != code
  {
    var m := courses - {id};
    if CodeTaken(m, code) {
      var w :| w in m && m[w].code == code;
      assert w in courses && w != id && courses[w] == m[w];
    }
    if CodeTaken(courses, code) && courses[id].code != code {
      var w :| w in courses && courses[w].code == code;
      assert w != id && w in m && m[w] == courses[w];
    }
  }

  // ---------------------------------------------------------------------------
  // insertMany into an emptied collection

  predicate Distinct(ids: seq<Id>)
  {
    forall i, j | 0 <= i < j < |ids| :: ids[i] != ids[j]
  }

  /** `insertMany(docs)` into an empty collection: the i-th document is stored
      under the i-th of the fresh ids, and nothing else is stored. */
  function Seeded<T>(ids: seq<Id>, docs: seq<T>): (m: map<Id, T>)
    requires |ids| == |docs| && Distinct(ids)
    ensures m.Keys == set i | 0 <= i < |ids| :: ids[i]
    ensures forall i | 0 <= i < |ids| :: m[ids[i]] == docs[i]
  {
    map i | 0 <= i < |ids| :: ids[i] := docs[i]
  }
}

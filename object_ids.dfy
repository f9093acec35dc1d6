/** How the register handler compares course ids. `new ObjectId(text)` accepts
    the 24 hex digits in either case, and `toString()` gives them back in lower
    case. The lookup of the course therefore works for any spelling, and the
    record stores the lower-case text. The "already registered" query, however,
    compares the text exactly as the client sent it. This module holds that step
    as written, the step with the comparison made on the parsed id, and the
    input on which the two differ. The store in module Server takes ids in their
    lower-case form, where its register handler is the step as written and the
    two agree (RegisterOnPrintedText). */
module ObjectIds {
  import opened Documents
  import Server

  predicate IsHexDigit(c: char)
  {
    '0' <= c <= '9' || 'a' <= c <= 'f' || 'A' <= c <= 'F'
  }

  /** A text `new ObjectId(text)` accepts. */
  predicate IsObjectIdText(s: string)
  {
    |s| == 24 && forall i | 0 <= i < |s| :: IsHexDigit(s[i])
  }

  function LowerHex(c: char): (r: char)
  {
    if 'A' <= c <= 'F' then (c as int - 'A' as int + 'a' as int) as char else c
  }

  /** `new ObjectId(s).toString()`: the same hex digits in lower case. */
  function Canonical(s: string): (r: string)
    ensures |r| == |s|
    ensures forall i | 0 <= i < |s| :: r[i] == LowerHex(s[i])
    ensures forall i | 0 <= i < |r| :: !('A' <= r[i] <= 'F')
  {
    seq(|s|, i requires 0 <= i < |s| => LowerHex(s[i]))
  }

  /** Parsing the printed id again prints the same text. */
  lemma CanonicalIdempotent(s: string)
    ensures Canonical(Canonical(s)) == Canonical(s)
  {
  }

  /** The successful tail of the register handler as written, once the course
      has been found by the text `sent`: the duplicate query compares `sent`
      itself, the record stores the id's printed text. None is the 409 reply.
      From a duplicate-free list, the step keeps the list duplicate-free exactly
      when the printed id was not yet held, whatever the 409 query saw. */
  function RegisterAsWritten(regs: seq<Registration>, sent: string, course: Course, now: string): (r: Option<seq<Registration>>)
    ensures r.Some? && UniqueCourseIds(regs) ==>
      (UniqueCourseIds(r.value) <==> !HasRegistration(regs, Canonical(sent)))
  {
    if HasRegistration(regs, sent) then None
    else
      var reg := Registration(Canonical(sent), course.title, course.code, now);
      var pushed := regs + [reg];
      assert UniqueCourseIds(regs) ==> (UniqueCourseIds(pushed) <==> !HasRegistration(regs, reg.courseId)) by {
        if UniqueCourseIds(regs) {
          if HasRegistration(regs, reg.courseId) {
            var i :| 0 <= i < |regs| && regs[i].courseId == reg.courseId;
            assert pushed[i] == regs[i] && pushed[|regs|] == reg;
          } else {
            PushUnique(regs, reg);
          }
        }
      }
      Some(pushed)
  }

  /** The same step with the duplicate query made on the parsed id. It keeps
      the at-most-one-registration-per-course invariant for every spelling. */
  function RegisterByObjectId(regs: seq<Registration>, sent: string, course: Course, now: string): (r: Option<seq<Registration>>)
    ensures r.None? <==> HasRegistration(regs, Canonical(sent))
    ensures r.Some? ==> r.value == regs + [Registration(Canonical(sent), course.title, course.code, now)]
    ensures r.Some? && UniqueCourseIds(regs) ==> UniqueCourseIds(r.value)
  {
    if HasRegistration(regs, Canonical(sent)) then None
    else
      var reg := Registration(Canonical(sent), course.title, course.code, now);
      assert UniqueCourseIds(regs) ==> UniqueCourseIds(regs + [reg]) by {
        if UniqueCourseIds(regs) {
          PushUnique(regs, reg);
        }
      }
      Some(regs + [reg])
  }

  /** When the client sends the id in lower case, the step as written and the
      corrected step agree. */
  lemma RegisterAgreeOnCanonicalText(regs: seq<Registration>, sent: string, course: Course, now: string)
    requires Canonical(sent) == sent
    ensures RegisterAsWritten(regs, sent, course, now) == RegisterByObjectId(regs, sent, course, now)
  {
  }

  /** The store's register handler, given the printed text of a stored course's
      id for a stored student, is the step as written: it answers 409 exactly
      when the step as written refuses, and on success the student's list is
      the one that step gives. On printed text the corrected step agrees. */
  method RegisterOnPrintedText(store: Server.Store, studentId: Id, courseId: Id, now: string)
    returns (reply: Server.Reply)
    requires courseId != "" && Canonical(courseId) == courseId
    modifies store
    ensures studentId in old(store.students) && courseId in old(store.courses) ==>
      var step := RegisterAsWritten(old(store.students)[studentId].registeredCourses, courseId,
                                    old(store.courses)[courseId], now);
      (reply == Server.AlreadyRegistered <==> step.None?)
      && (reply == Server.Ok <==> step.Some?)
      && studentId in store.students
      && (reply == Server.Ok ==> store.students[studentId].registeredCourses == step.value)
      && step == RegisterByObjectId(old(store.students)[studentId].registeredCourses, courseId,
                                    old(store.courses)[courseId], now)
  {
    if studentId in store.students && courseId in store.courses {
      RegisterAgreeOnCanonicalText(store.students[studentId].registeredCourses, courseId, store.courses[courseId], now);
    }
    reply := store.Register(studentId, Some(courseId), now);
  }

  /** Any spelling of an id with an upper-case hex digit registers the course a
      second time after the lower-case spelling: the handler as written breaks
      the invariant. */
  lemma UpperCaseRegistersTwice(sent: string, course: Course, t0: string, t1: string)
    requires Canonical(sent) != sent
    ensures RegisterAsWritten([], Canonical(sent), course, t0).Some?
    ensures var once := RegisterAsWritten([], Canonical(sent), course, t0).value;
            UniqueCourseIds(once)
            && RegisterAsWritten(once, sent, course, t1).Some?
            && !UniqueCourseIds(RegisterAsWritten(once, sent, course, t1).value)
  {
    var c := Canonical(sent);
    assert Canonical(c) == c;
    var once := [Registration(c, course.title, course.code, t0)];
    assert !HasRegistration([], c);
    assert [] + once == once;
    assert RegisterAsWritten([], c, course, t0) == Some(once);
    assert !HasRegistration(once, sent);
    var twice := RegisterAsWritten(once, sent, course, t1).value;
    assert twice[0].courseId == twice[1].courseId;
  }

  /** The corrected step refuses the second spelling with the 409 reply. */
  lemma ByObjectIdRefusesOtherSpelling(sent: string, course: Course, t0: string, t1: string)
    ensures RegisterByObjectId([], Canonical(sent), course, t0).Some?
    ensures RegisterByObjectId(RegisterByObjectId([], Canonical(sent), course, t0).value, sent, course, t1).None?
  {
    var c := Canonical(sent);
    assert Canonical(c) == c;
    var once := RegisterByObjectId([], c, course, t0).value;
    assert once[0].courseId == Canonical(sent);
  }

  /** A concrete input: the id printed as 507f1f77bcf86cd799439011, sent once in
      lower case and once in upper case. */
  lemma UpperCaseExample()
    ensures var upper := "507F1F77BCF86CD799439011";
            IsObjectIdText(upper) && Canonical(upper) == "507f1f77bcf86cd799439011"
            && Canonical(upper) != upper
  {
    var upper := "507F1F77BCF86CD799439011";
    assert Canonical(upper)[3] == 'f';
  }
}

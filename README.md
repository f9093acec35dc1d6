# SchoolDashboard course and registration store, in Dafny

SchoolDashboard is a small admin service with two MongoDB collections. The
`courses` collection holds a title and a code per course. Creating a course
checks that the code is unused; updating a course does not. The
`students` collection holds a name, an optional email and an embedded, ordered
list of registrations per student. Each registration is a course id plus a
snapshot of that course's title and code, taken when the student registered.
This project models the REST handlers of `src/server.js` as a state machine
over those two collections, and proves the rules the handlers enforce.

- `documents.dfy` (module `Documents`) holds the documents as datatypes. It
  also gives MongoDB's array operators on a student's list as functions:
  `$push` is `Pushed`, `$pull` is `PullCourse`/`Pulled`, and `updateMany` with
  `$pull` is `PullFromAll`. Lemmas about them cover membership, order,
  idempotence, the round trip register-then-unregister, and preservation of the
  store's invariant. The invariant is that a student holds at most one
  registration per course id.
- `server.dfy` (module `Server`) holds the class `Store`. Its fields are the
  two collections, kept as maps from id to document. It has one method per
  route handler. Each method returns the handler's status code and error
  message, and says exactly what the collections hold afterwards. The validations
  run in the handler's order, and the mutating methods preserve `Valid()`.
  `Find` models `find(filter).toArray()`. `RegistrationSession` runs a whole
  create / register / unregister session against an empty store.
- `object_ids.dfy` (module `ObjectIds`) holds the one finding below: how the
  register handler compares course ids.

Conventions:
- Ids are opaque strings, the text form of an ObjectId. The store takes every
  id in the lower-case form that `ObjectId.toString()` prints. Under that
  convention the id stored in a registration equals the `courseId` the client
  sent.
- A request field is an `Option<string>`. `None` stands for a field that is
  absent or null. The handlers' `!field` test is `Given`, and `email || null`
  is `StoredEmail`.
- `HasRegistration` is the "already registered" query on one student's list,
  and `CodeTaken` is `findOne({ code })` on the courses.
- A fresh id from `insertOne`/`insertMany` is a parameter of the method, which
  requires it to be unused. The registration timestamp is the parameter `now`.

## Model

| member | source | states |
|---|---|---|
| `Documents.PullCourse` | src/server.js:147-151 | `$pull` on one list leaves no registration of the course, adds nothing and never grows the list |
| `Documents.PullCourseKeeps` | src/server.js:149 | a registration survives the pull exactly when it was in the list and is for another course |
| `Documents.PullCourseKeepsAll` | src/server.js:149 | the same membership fact, for every registration at once |
| `Documents.PullCourseConcat` | src/server.js:149 | the pull distributes over concatenation, so the surviving registrations keep their original order |
| `Documents.PullCourseAbsent` | src/server.js:147-152 | a pull that matches nothing leaves the list unchanged (unregister succeeds with no change) |
| `Documents.PullCourseIdempotent` | src/server.js:141-153 | pulling a course twice gives the same list as pulling it once |
| `Documents.PullCourseUnique` | src/server.js:147-151 | a pull keeps a duplicate-free list duplicate-free |
| `Documents.PullCourseRemovesOne` | src/server.js:147-151 | in a duplicate-free list that holds the course, the pull removes exactly one registration |
| `Documents.PushUnique` | src/server.js:120-135 | `$push` of a course that the 409 query did not find keeps the list duplicate-free |
| `Documents.PullAfterPush` | src/server.js:133-151 | pulling the course just pushed returns the list to what it was |
| `Documents.PullChangesIffHeld` | src/server.js:120-151 | the unregister pull changes a list exactly when the register handler's "already registered" query matches it, so an unregister of a course not held changes nothing and one of a held course changes the list |
| `Documents.HasRegistrationAfterPush` | src/server.js:120-137 | after a push, the "already registered" query matches exactly when it matched before or the pushed record is for that course, so a second register of the same course meets the 409 reply |
| `Documents.Pushed` | src/server.js:133-137 | `$push` on one student: every other student is unchanged, and the name and email stay. The student's list keeps its old registrations as a prefix and gains the new one at the end |
| `Documents.Pulled` | src/server.js:147-151 | `$pull` on one student: every other student is unchanged, and the name and email stay. The student keeps exactly their registrations for other courses and none for this one |
| `Documents.PullFromAll` | src/server.js:66 | the cascade keeps every student, and each student's name and email, and leaves no student holding the deleted course |
| `Documents.PullFromAllKeeps` | src/server.js:66 | after the cascade, each student keeps exactly their registrations for other courses |
| `Documents.PushedKeepsInvariant` | src/server.js:120-137 | a successful register keeps every student's list free of duplicates |
| `Documents.PulledKeepsInvariant` | src/server.js:147-151 | unregister keeps every student's list free of duplicates |
| `Documents.PullFromAllKeepsInvariant` | src/server.js:64-66 | the course-delete cascade keeps every student's list free of duplicates |
| `Documents.PulledIdempotent` | src/server.js:141-153 | unregistering twice leaves the collection as unregistering once does |
| `Documents.PushedThenPulled` | src/server.js:111-153 | registering a course the student does not hold and then unregistering it restores the collection |
| `Documents.InsertKeepsCodesUnique` | src/server.js:43-45 | inserting a course whose code no course holds, under a fresh id, keeps codes unique |
| `Documents.CodeTakenAfterInsert` | src/server.js:43-45 | after an insert under a fresh id, `findOne({ code })` finds a course exactly when it found one before or the new course has that code, so a second create with the same code meets the 409 reply |
| `Documents.CodeTakenAfterRemove` | src/server.js:43-64 | with codes unique, deleting a course frees exactly its code: `findOne({ code })` afterwards finds a course exactly when it found one before that was not the deleted one |
| `Documents.Seeded` | src/server.js:170-173 | `insertMany` into an emptied collection stores the i-th document under the i-th fresh id and nothing else |
| `Server.StoredEmailStable` | src/server.js:87-97 | the stored email is never the empty string, is non-null exactly when one was given, and re-submitting the stored email stores it unchanged |
| `Server.Find` | src/server.js:30 | a collection read returns each stored document passing the filter, once, with its id, and nothing else |
| `Server.SeedDataConsistent` | src/server.js:157-169 | the seeded courses have five distinct codes, and every seeded student has an empty list |
| `Server.Store.ListCourses` | src/server.js:29-32 | returns every course once with its id (order not stated) |
| `Server.Store.GetCourse` | src/server.js:34-38 | returns the stored course, or 404 "Not found" when the id is absent |
| `Server.Store.CreateCourse` | src/server.js:40-48 | 400 on an empty title or code; then 409 when any course holds the code; in both cases nothing changes; otherwise 201, one course added under the fresh id, students untouched, code uniqueness kept |
| `Server.Store.UpdateCourse` | src/server.js:50-60 | 400 on an empty title or code; then 404 when the id is absent; otherwise only that course's title and code change; no student (and no snapshot) changes |
| `Server.Store.DeleteCourse` | src/server.js:62-68 | 404 and no change when the id is absent; otherwise the course is removed and every student is replaced by the cascade `PullFromAll`; the invariant and code uniqueness are kept |
| `Server.Store.ListStudents` | src/server.js:71-76 | returns, once each, exactly the students whose name the pattern matches (all students when no pattern is given) |
| `Server.Store.GetStudent` | src/server.js:78-82 | returns the stored student, or 404 "Not found" when the id is absent |
| `Server.Store.CreateStudent` | src/server.js:84-90 | 400 and no change on an empty name; otherwise 201 and one student added with the stored email and an empty list |
| `Server.Store.UpdateStudent` | src/server.js:92-102 | 400 on an empty name; then 404 when the id is absent; otherwise only the name and email change and the registrations stay |
| `Server.Store.DeleteStudent` | src/server.js:104-108 | 404 and no change when the id is absent; otherwise only that student is removed |
| `Server.Store.Register` | src/server.js:111-139 | 400 on empty courseId; 404 for a missing student, checked before the course; 404 for a missing course; 409 when the student holds that course id; any failure leaves the store unchanged; success appends one record with the course's current title and code at the end of that student's list, and the invariant is kept |
| `Server.Store.Unregister` | src/server.js:141-153 | 400 on empty courseId; 404 for a missing student; otherwise 200 and every record of the course is pulled from that student only, even when none matched; under the invariant, a held course shortens the list by exactly one |
| `Server.Store.Seed` | src/server.js:156-175 | the collections hold exactly the fixed demo courses and students under the fresh ids, whatever they held before; codes are unique and the invariant holds |
| `Server.UpdateCanDuplicateCode` | src/server.js:50-57 | on a store whose two courses have distinct codes, the update handler answers 200 to giving the second the first one's code, and afterwards the codes are no longer unique |
| `Server.RegistrationSession` | src/server.js:40-153 | on an empty store, with each reply and its status code pinned: create course 201, second create with the same code 409, create student 201, register 200 with one record holding code CS301, second register 409, unregister 200 leaving the list empty |
| `ObjectIds.Canonical` | src/server.js:127 | an id's printed text has the same length as the sent text, with hex digits in lower case |
| `ObjectIds.CanonicalIdempotent` | src/server.js:127 | printing a parsed printed id gives the same text |
| `ObjectIds.RegisterAsWritten` | src/server.js:120-135 | as written, from a duplicate-free list: when the 409 query lets the call through, the list stays duplicate-free exactly when the printed id was not already held, whatever spelling was sent |
| `ObjectIds.RegisterByObjectId` | src/server.js:120-135 | with the comparison made on the parsed id: 409 exactly when the id is registered; otherwise the list gains, at the end, one record with the id's printed text and the course's title, code and timestamp, and a duplicate-free list stays duplicate-free |
| `ObjectIds.RegisterOnPrintedText` | src/server.js:111-135 | for a stored student and course whose id is sent as printed text, the store's register handler answers 409 exactly when the step as written refuses, succeeds exactly when it appends, leaves the list that step gives, and that step equals the corrected one |
| `ObjectIds.RegisterAgreeOnCanonicalText` | src/server.js:120-135 | when the client sends the printed text, the step as written and the corrected step agree |
| `ObjectIds.UpperCaseRegistersTwice` | src/server.js:120-135 | an id sent with an upper-case hex digit after its lower-case form is registered a second time by the step as written |
| `ObjectIds.ByObjectIdRefusesOtherSpelling` | src/server.js:120-135 | the corrected step refuses that second spelling |
| `ObjectIds.UpperCaseExample` | src/server.js:116-127 | `507F1F77BCF86CD799439011` is a valid ObjectId text whose printed form differs from it |

## Left out

- Express routing, CORS, static files, the catch-all page route, `app.listen` and the health check (src/server.js:10-26, 177-183) are HTTP plumbing.
- `src/db.js` is not part of this model: it holds only the connection singleton and environment configuration.
- `public/app.js` is not part of this model: it is browser rendering, fetch calls, dialogs and notifications.
- Server.Store.ListCourses: does not state the ordering by title, which belongs to MongoDB's sort.
- Server.Store.ListStudents: does not state the ordering by name. The case-insensitive `$regex` match belongs to MongoDB's regular-expression engine and is the parameter `matches`.
- Server.Find: the order in which the cursor yields documents is not modelled.
- Malformed ids: `new ObjectId(...)` throws on them and the request fails with an unhandled server error. The model takes every id as well formed, so an id that is not stored reads as absent.
- The course delete is two separate MongoDB calls (src/server.js:64-66) and is not atomic under concurrent requests. The model runs every handler as one sequential, atomic step.
- The value of `new Date().toISOString()` is the parameter `now`. ObjectId generation is the fresh-id parameter of each create and of the seed.
- Response bodies: the saved course and the updated student that the handlers return are the store's state after the call. The mutating methods return only the status and message.
- Request fields that are JSON values other than strings or null (numbers, booleans, objects) are not modelled.
- Requests that fail before the handler's checks are not modelled. A request with no JSON body leaves `req.body` undefined under Express 5, so the destructuring of the body (src/server.js:41, 51, 85, 93, 113, 143) throws and the reply is a 500; the model reads every field as `None` and answers 400. An invalid `$regex` pattern (src/server.js:73) makes the list request fail; the total parameter `matches` cannot show that.
- Unregister and the course-delete cascade also compare the id text as sent. An upper-case spelling of a registered id therefore pulls nothing. This has the same root as the finding below and is not modelled separately.

## Findings

| source | as written | input that shows it | evidently intended | confidence | as-written member | corrected member |
|---|---|---|---|---|---|---|
| src/server.js:116-135 | The course is found through `new ObjectId(courseId)`, which accepts hex digits in either case. The record stores `course._id.toString()`, which is lower case. But the "already registered" query compares the `courseId` text exactly as it was sent. | Register `507f1f77bcf86cd799439011`, then register `507F1F77BCF86CD799439011` for the same student. The second call passes the 409 check and appends a second record with the same course id. | A course is registered at most once per student, whatever spelling of its id is sent. | not executed; medium (rests on ObjectId accepting upper-case hex) | `ObjectIds.RegisterAsWritten`, `ObjectIds.UpperCaseRegistersTwice` | `ObjectIds.RegisterByObjectId` (`Server.Store.Register` takes ids in printed form, where it is the step as written and both agree: `ObjectIds.RegisterOnPrintedText`) |

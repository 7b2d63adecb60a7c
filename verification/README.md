# Students and courses: a Dafny model of the enrollment API

This project models the core of a small Express/Mongoose service that keeps
two collections, `estudiantes` (students) and `cursos` (courses), linked by
a many-to-many enrollment. A student has `nombre`, `correo` and a list
`cursos` of course ids. A course has `titulo`, an optional `descripcion` and
a list `estudiantes` of student ids.

The database is two finite maps, `Id -> Student` and `Id -> Course`
(`Db.Store`). Every request handler is a pure transition
`(store, request) -> (reply, store')` (`Db.Step`). The reply carries the
HTTP status the handler sends: 201, 200, 400, 404 or 500.

Modules, in the order the program layers them:

- `Text`: JavaScript's `trim` and UTF-16 string length.
- `CorreoRegex`: the unanchored pattern `.+@.+\..+` that a stored `correo` must
  match. It comes with a one-pass matcher proved equal to the pattern.
- `Refs`: Mongoose array `pull` on reference lists. `push` is plain append.
- `Records`: the two document schemas of `models/estudientes.js`. These
  cover trim setters, default-empty arrays, validators run on save, and
  `$set` updates.
- `Payload`: the Joi request schemas of `routes.js`. Validation stops at
  the first violation.
- `Db`: the store, replies, the unique-`correo` property and the enrollment
  invariant ("a course lists a student exactly when the student lists the
  course").
- `Handlers`: POST/PUT/DELETE for students and courses.
- `Enrollment`: `inscribir` (enroll) and `remover` (remove).
- `Invariants`: what the create, update and delete handlers do to the two
  store properties.

Inputs the model cannot see are parameters:

- Joi's `email()` rule is the parameter `isEmail: string -> bool`.
- The id the store issues on create is the parameter `newId`, required to
  be absent from its collection.

Four behaviours of the code are easy to misread; the model follows the code:

- `PUT` is `findByIdAndUpdate(id, body)`. That is a `$set` of the keys the
  payload carries, not a full replace. A student update without `cursos`
  keeps the old list. A course update without `descripcion` keeps the old
  one.
- The trim setters run on updates, but the `required` and `match`
  validators do not, because update validators are off. So `nombre: "  "`
  passes Joi and is stored as the empty string.
- A duplicate `correo` fails at the unique index (MongoDB error 11000). It
  reaches the handler's catch and is answered with 500. This holds on
  create and on update.
- A student payload may carry `cursos` on create and on update. Those ids
  are stored as given, and no course is updated.
  `Invariants.PostStudentLinked` states exactly when this breaks the
  enrollment invariant.

## Model

| member | source | states |
|---|---|---|
| Text.Trim | models/estudientes.js:8 | the trimmed value has no JavaScript whitespace or line terminator at either end and is no longer than the input |
| Text.TrimIsSlice | models/estudientes.js:8 | trim keeps one contiguous slice of the input and drops only whitespace on either side of it |
| Text.TrimStripsSurroundings | models/estudientes.js:8 | for any whitespace prefix and suffix around a trimmed core, trim returns exactly that core |
| Text.TrimIdempotent | models/estudientes.js:8 | trimming an already trimmed value changes nothing |
| Text.Utf16Length | routes.js:10 | the length Joi measures counts two units for a character outside the Basic Multilingual Plane, so it lies between the character count and twice it |
| Text.Utf16LengthCounts | routes.js:10 | the length Joi measures is exactly the character count plus the number of characters outside the Basic Multilingual Plane |
| Text.Utf16LengthConcat | routes.js:10 | the length Joi measures of a concatenation is the sum of the parts' lengths |
| CorreoRegex.MatchCorreo | models/estudientes.js:14 | a single left-to-right scan answers true exactly when `.+@.+\..+` matches somewhere in the string, where `.` excludes line terminators |
| CorreoRegex.CorreoShape | models/estudientes.js:14 | an accepted `correo` has an `@` after its first character and a later `.` that is neither adjacent to the `@` nor last |
| Refs.Pull | routes.js:137-138 | `pull` leaves no occurrence of the id and keeps every other id with its number of occurrences |
| Refs.PullConcat | routes.js:137-138 | pulling from a concatenation pulls from each part in place, so the remaining ids keep their relative order |
| Refs.PullAbsent | routes.js:137-138 | pulling an id that is not in the list returns the list unchanged |
| Refs.PullIdempotent | routes.js:137-138 | pulling the same id twice gives the same list as pulling it once |
| Refs.PullAfterPush | routes.js:118-119 | pushing an id the list did not hold and then pulling it gives back the original list |
| Records.NewStudent | models/estudientes.js:4-22 | a new student document has its `nombre` trimmed, its `correo` as given, and an empty `cursos` when the payload has none |
| Records.StudentViolations | models/estudientes.js:5-15 | saving a student fails on `nombre` exactly when it is empty, and on `correo` exactly when it is empty or outside the pattern; the schema validators pass exactly when neither fails |
| Records.NewCourse | models/estudientes.js:25-41 | a new course document has `titulo` trimmed, `descripcion` trimmed when present and absent otherwise, and no students |
| Records.CourseViolations | models/estudientes.js:26-30 | saving a course fails exactly when its trimmed `titulo` is empty |
| Records.SetStudent | routes.js:46 | a student update sets a trimmed `nombre` and the given `correo`, and keeps the old `cursos` unless the payload sends one |
| Records.SetCourse | routes.js:92 | a course update sets a trimmed `titulo`, replaces `descripcion` only when sent, and never changes `estudiantes` |
| Payload.CheckItems | routes.js:10 | reports the first array item that is not a 24-unit string, and reports none exactly when every item is one |
| Payload.CheckIdArray | routes.js:10 | an optional `cursos` passes exactly when it is absent or an array whose every item is a 24-unit string |
| Payload.ValidateStudent | routes.js:7-11 | a student payload passes exactly when `nombre` and `correo` are non-empty strings, `correo` is an email, every `cursos` item is a 24-unit string and no other key is present; a missing `nombre` is the violation reported first |
| Payload.ValidateCourse | routes.js:13-16 | a course payload passes exactly when `titulo` is a non-empty string, any `descripcion` is a non-empty string and no other key is present; a missing `titulo` is reported first |
| Handlers.PostStudent | routes.js:19-30 | a bad payload is a 400 exactly when validation fails; the reply is 201 exactly when the payload is valid, its trimmed `nombre` is non-empty, its `correo` matches the pattern and no student holds that `correo`; nothing is stored otherwise; a created student has the new id, the trimmed `nombre`, the given `correo`, the sent `cursos` ids in order, or empty `cursos` when none was sent |
| Handlers.PutStudent | routes.js:41-52 | 400 exactly for a bad payload (checked before the lookup), 404 exactly for a valid payload and a missing id, 500 exactly when the student exists and another student holds the sent `correo`; only a 200 changes the store, and only that student, with the trimmed `nombre`, the sent `correo`, and the sent `cursos` replacing the list or the old list kept when none was sent |
| Handlers.DeleteStudent | routes.js:54-62 | 404 with no change exactly when the id is missing; otherwise the reply is the deleted document, only its key is removed, and courses are untouched |
| Handlers.PostCourse | routes.js:65-76 | 400 exactly for a bad payload, 500 exactly when the `titulo` trims to nothing; a 201 adds only the new course, with a trimmed non-empty `titulo`, the trimmed sent `descripcion` or none when none was sent, and no students |
| Handlers.PutCourse | routes.js:87-98 | 400 exactly for a bad payload, 404 exactly for a valid payload and a missing id; a 200 changes only that course, sets the trimmed `titulo`, replaces `descripcion` with the trimmed sent value or keeps the old one when none was sent, and keeps its `estudiantes` |
| Handlers.DeleteCourse | routes.js:100-108 | 404 with no change exactly when the id is missing; otherwise only that key is removed and students are untouched |
| Enrollment.Enroll | routes.js:111-128 | 404 with no change exactly when the course or the student is missing; otherwise the student id is appended to the course's list and the course id to the student's list, each id's count grows by exactly one, and only those two documents are replaced |
| Enrollment.Remove | routes.js:130-147 | 404 with no change exactly when the course or the student is missing; otherwise each list is the `pull` of the other's id (so the id is gone and the remaining ids keep their counts and relative order), the other fields stay, and only those two documents are replaced |
| Enrollment.EnrollPreservesInvariants | routes.js:111-128 | enroll changes no document other than the one course and one student, keeps the enrollment invariant and keeps `correo` unique |
| Enrollment.RemovePreservesInvariants | routes.js:130-147 | remove changes no document other than the one course and one student, keeps the enrollment invariant and keeps `correo` unique |
| Enrollment.RemoveIdempotent | routes.js:130-147 | a second identical remove gives the same reply and the same store as the first |
| Enrollment.RemoveUnlinkedIsNoOp | routes.js:137-138 | removing a pair that is not enrolled succeeds and leaves the store unchanged |
| Enrollment.EnrollThenRemoveRestores | routes.js:118-138 | enroll followed by remove, on a pair enrolled on neither side, restores the original store |
| Enrollment.EnrollThenRemoveRestoresLinked | routes.js:118-138 | under the enrollment invariant, the course alone not listing the student is enough for enroll then remove to restore the store |
| Db.PutStudentKeepsUnique | models/estudientes.js:13 | writing a student whose `correo` no other student holds keeps `correo` unique across students |
| Invariants.PostStudentKeepsUniqueCorreo | models/estudientes.js:13 | creating a student never makes two students share a `correo` |
| Invariants.PutStudentKeepsUniqueCorreo | routes.js:46 | updating a student never makes two students share a `correo` |
| Invariants.PostStudentLinked | routes.js:24-25 | a created student keeps the enrollment invariant exactly when no id in its `cursos` is an existing course; a failed create keeps it trivially |
| Invariants.AddStudentLinked | routes.js:24-25 | adding a student under an unreferenced id keeps the invariant exactly when the student names no existing course |
| Invariants.PostStudentWithoutCursosLinked | routes.js:24-25 | creating a student whose payload has no `cursos` keeps the enrollment invariant |
| Invariants.PostCourseLinked | routes.js:70-71 | creating a course under an id no student references keeps the enrollment invariant |
| Invariants.PutCourseLinked | routes.js:92 | updating a course keeps the enrollment invariant |
| Invariants.PutStudentWithoutCursosLinked | routes.js:46 | updating a student without sending `cursos` keeps the enrollment invariant |
| Invariants.DeleteStudentLinked | routes.js:56 | deleting a student keeps the enrollment invariant among the remaining documents |
| Invariants.DeleteCourseLinked | routes.js:102 | deleting a course keeps the enrollment invariant among the remaining documents |
| Invariants.DeleteStudentLeavesDangling | routes.js:56 | deleting a student does not cascade: a course that listed it still holds its now-dangling id |
| Invariants.DeleteCourseLeavesDangling | routes.js:102 | deleting a course does not cascade: a student that listed it still holds its now-dangling id |

## Left out

- app.js is not part of this model. It holds the database connection, the `data.json` bulk import and the server start, all of which are I/O.
- The list endpoints (`GET /estudiantes`, `GET /cursos`, routes.js:32-39 and 78-85) are left out. Their only logic is Mongoose's `populate` join, which happens inside the library. `GET /` is a fixed liveness text.
- Response bodies beyond the returned documents are not modelled. Error message strings are replaced by the `Violation` and `StoreError` values.
- Storage failures other than a schema rejection and a duplicate `correo` are not modelled. The handlers answer those with 500 through the catch blocks (e.g. routes.js:27-28).
- Ids are abstract strings. Casting a path parameter or a `cursos` entry to an ObjectId is not modelled, so a 24-unit string that is not hex, which Mongoose's cast would refuse with a 500, is stored as given.
- Ids are compared as text, while ObjectId equality ignores the case of hex digits. So hex-case variants of one ObjectId are distinct ids in the model: a path id in the other case gets 404, and a `pull` misses an entry stored in the other case.
- A path id that is not an ObjectId gets 500 from Mongoose's cast, but 404 in the model.
- Dafny strings hold Unicode scalar values, so the lone surrogates that `JSON.parse` can produce in a string are not representable.
- Joi's email grammar is the parameter `isEmail` and is not modelled.
- Enroll and remove are each one atomic transition. The two separate `save` calls (routes.js:121-122, 140-141), a failure between them, and concurrent interleavings are not modelled.
- Enrollment.Enroll: assumes both saves succeed. Mongoose re-runs the schema validators when a document is saved. So a student or course that an earlier update left invalid, such as an empty `nombre`, would make the real `save` fail with 500. The model reports 200 in that case.
- Enrollment.Remove: assumes both saves succeed, for the same reason as enroll.
- Payload.ValidateStudent: an undeclared key is reported as `NotAllowed` without its name, because a parsed body is a map without key order.
- Payload.ValidateCourse: an undeclared key is reported as `NotAllowed` without its name, for the same reason.
- Mongoose's `__v` version key is not modelled. Each enroll or remove `save` increments it, so "the same store" in `Enrollment.RemoveIdempotent`, `Enrollment.RemoveUnlinkedIsNoOp` and `Enrollment.EnrollThenRemoveRestores` holds for the modelled fields only.
- The unique index on `correo` is assumed to exist before any write. Mongoose builds it in the background when the model is first used.

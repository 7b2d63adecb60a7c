/** What the create, update and delete handlers do to the enrollment
    invariant. They never touch the other side of a reference: creating a
    course or a reference-free student keeps the invariant, a student
    payload that names existing courses breaks it, and a delete keeps it
    between the documents that remain while leaving dangling ids behind. */
module Invariants {
  import opened Refs
  import opened Records
  import opened Payload
  import opened Db
  import opened Handlers

  /** A created student's `correo` was free, so the unique index still
      holds; a taken `correo` stores nothing. */
  lemma PostStudentKeepsUniqueCorreo(st: Store, body: Body, isEmail: string -> bool, newId: Id)
    requires newId !in st.students && UniqueCorreo(st)
    ensures UniqueCorreo(PostStudent(st, body, isEmail, newId).store)
  {
  }

  /** An update that would give a student another student's `correo` is
      refused, so the unique index still holds. */
  lemma PutStudentKeepsUniqueCorreo(st: Store, id: Id, body: Body, isEmail: string -> bool)
    requires UniqueCorreo(st)
    ensures UniqueCorreo(PutStudent(st, id, body, isEmail).store)
  {
  }

  /** A new student keeps the invariant exactly when none of the ids in
      its `cursos` is an existing course. */
  lemma PostStudentLinked(st: Store, body: Body, isEmail: string -> bool, newId: Id)
    requires newId !in st.students
    requires Linked(st) && StudentUnreferenced(st, newId)
    ensures var r := PostStudent(st, body, isEmail, newId);
            r.reply.Created? ==>
              (Linked(r.store) <==> forall c :: c in r.reply.value.1.cursos ==> c !in st.courses)
    ensures var r := PostStudent(st, body, isEmail, newId);
            !r.reply.Created? ==> Linked(r.store)
  {
    var r := PostStudent(st, body, isEmail, newId);
    if r.reply.Created? {
      AddStudentLinked(st, newId, r.reply.value.1);
    }
  }

  /** Adding a student under an id no course references keeps the
      invariant exactly when the student names no existing course. */
  lemma AddStudentLinked(st: Store, newId: Id, d: Student)
    requires newId !in st.students
    requires Linked(st) && StudentUnreferenced(st, newId)
    ensures Linked(st.(students := st.students[newId := d]))
            <==> forall c :: c in d.cursos ==> c !in st.courses
  {
    var st' := st.(students := st.students[newId := d]);
    forall c | c in d.cursos && c in st.courses
      ensures !Linked(st')
    {
      assert newId in st'.students && st'.students[newId] == d;
      assert newId !in st'.courses[c].estudiantes;
    }
  }

  /** A student payload without `cursos` keeps the invariant. */
  lemma PostStudentWithoutCursosLinked(st: Store, body: Body, isEmail: string -> bool, newId: Id)
    requires newId !in st.students
    requires Linked(st) && StudentUnreferenced(st, newId)
    requires "cursos" !in body
    ensures Linked(PostStudent(st, body, isEmail, newId).store)
  {
  }

  /** A new course has no students, so it keeps the invariant when no
      student already references its id. */
  lemma PostCourseLinked(st: Store, body: Body, newId: Id)
    requires newId !in st.courses
    requires Linked(st) && CourseUnreferenced(st, newId)
    ensures Linked(PostCourse(st, body, newId).store)
  {
  }

  /** Updating a course never touches `estudiantes`, so it keeps the
      invariant. */
  lemma PutCourseLinked(st: Store, id: Id, body: Body)
    requires Linked(st)
    ensures Linked(PutCourse(st, id, body).store)
  {
  }

  /** Updating a student without sending `cursos` keeps the invariant;
      sending `cursos` replaces the list without updating any course. */
  lemma PutStudentWithoutCursosLinked(st: Store, id: Id, body: Body, isEmail: string -> bool)
    requires Linked(st) && "cursos" !in body
    ensures Linked(PutStudent(st, id, body, isEmail).store)
  {
  }

  /** Deleting a student keeps the invariant between the documents that
      remain. */
  lemma DeleteStudentLinked(st: Store, id: Id)
    requires Linked(st)
    ensures Linked(DeleteStudent(st, id).store)
  {
  }

  /** Deleting a course keeps the invariant between the documents that
      remain. */
  lemma DeleteCourseLinked(st: Store, id: Id)
    requires Linked(st)
    ensures Linked(DeleteCourse(st, id).store)
  {
  }

  /** Deletion does not cascade: a course that listed the deleted student
      still lists its id, though no such student exists any more. */
  lemma DeleteStudentLeavesDangling(st: Store, id: Id, cid: Id)
    requires Linked(st)
    requires id in st.students && cid in st.courses && cid in st.students[id].cursos
    ensures var st' := DeleteStudent(st, id).store;
            id !in st'.students && cid in st'.courses && id in st'.courses[cid].estudiantes
  {
  }

  /** Deletion does not cascade: a student that listed the deleted course
      still lists its id, though no such course exists any more. */
  lemma DeleteCourseLeavesDangling(st: Store, id: Id, sid: Id)
    requires Linked(st)
    requires id in st.courses && sid in st.students && sid in st.courses[id].estudiantes
    ensures var st' := DeleteCourse(st, id).store;
            id !in st'.courses && sid in st'.students && id in st'.students[sid].cursos
  {
  }
}

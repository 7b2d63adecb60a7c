/** The relationship manager of routes.js: enrolling a student in a course
    and removing the enrollment. Each is one atomic transition here. */
module Enrollment {
  import opened Refs
  import opened Records
  import opened Db

  /** POST /cursos/:cursoId/inscribir/:estudianteId. With both documents
      present, the student's id is pushed onto the course's `estudiantes`
      and the course's id onto the student's `cursos`, duplicates or not;
      the reply carries both updated documents. */
  function Enroll(st: Store, cid: Id, sid: Id): (r: Step<(Course, Student)>)
    ensures r.reply.Status() in {200, 404}
    ensures r.reply.NotFound? <==> cid !in st.courses || sid !in st.students
    ensures r.reply.NotFound? ==> r.store == st
    ensures r.reply.Ok? ==>
              && r.store.courses == st.courses[cid := r.reply.value.0]
              && r.store.students == st.students[sid := r.reply.value.1]
              && r.reply.value.0 == st.courses[cid].(estudiantes := st.courses[cid].estudiantes + [sid])
              && r.reply.value.1 == st.students[sid].(cursos := st.students[sid].cursos + [cid])
              && multiset(r.reply.value.0.estudiantes)[sid] == multiset(st.courses[cid].estudiantes)[sid] + 1
              && multiset(r.reply.value.1.cursos)[cid] == multiset(st.students[sid].cursos)[cid] + 1
  {
    if cid !in st.courses || sid !in st.students then Step(NotFound, st)
    else
      var c := st.courses[cid];
      var s := st.students[sid];
      var c' := c.(estudiantes := c.estudiantes + [sid]);
      var s' := s.(cursos := s.cursos + [cid]);
      Step(Ok((c', s')), Store(st.students[sid := s'], st.courses[cid := c']))
  }

  /** POST /cursos/:cursoId/remover/:estudianteId. With both documents
      present, every occurrence of each id is pulled from the other's list;
      a pair that was never enrolled is not an error. */
  function Remove(st: Store, cid: Id, sid: Id): (r: Step<(Course, Student)>)
    ensures r.reply.Status() in {200, 404}
    ensures r.reply.NotFound? <==> cid !in st.courses || sid !in st.students
    ensures r.reply.NotFound? ==> r.store == st
    ensures r.reply.Ok? ==>
              && r.store.courses == st.courses[cid := r.reply.value.0]
              && r.store.students == st.students[sid := r.reply.value.1]
              && r.reply.value.0.estudiantes == Pull(st.courses[cid].estudiantes, sid)
              && r.reply.value.1.cursos == Pull(st.students[sid].cursos, cid)
              && sid !in r.reply.value.0.estudiantes
              && cid !in r.reply.value.1.cursos
              && multiset(r.reply.value.0.estudiantes) == multiset(st.courses[cid].estudiantes)[sid := 0]
              && multiset(r.reply.value.1.cursos) == multiset(st.students[sid].cursos)[cid := 0]
              && r.reply.value.0.titulo == st.courses[cid].titulo
              && r.reply.value.0.descripcion == st.courses[cid].descripcion
              && r.reply.value.1.nombre == st.students[sid].nombre
              && r.reply.value.1.correo == st.students[sid].correo
  {
    if cid !in st.courses || sid !in st.students then Step(NotFound, st)
    else
      var c := st.courses[cid];
      var s := st.students[sid];
      var c' := c.(estudiantes := Pull(c.estudiantes, sid));
      var s' := s.(cursos := Pull(s.cursos, cid));
      Step(Ok((c', s')), Store(st.students[sid := s'], st.courses[cid := c']))
  }

  /** Enrolling changes at most the one course and the one student named,
      keeps the enrollment invariant and leaves every `correo` as it was. */
  lemma EnrollPreservesInvariants(st: Store, cid: Id, sid: Id)
    ensures OnlyPairChanged(st, Enroll(st, cid, sid).store, cid, sid)
    ensures Linked(st) ==> Linked(Enroll(st, cid, sid).store)
    ensures UniqueCorreo(st) ==> UniqueCorreo(Enroll(st, cid, sid).store)
  {
  }

  /** Removing changes at most the one course and the one student named,
      keeps the enrollment invariant and leaves every `correo` as it was. */
  lemma RemovePreservesInvariants(st: Store, cid: Id, sid: Id)
    ensures OnlyPairChanged(st, Remove(st, cid, sid).store, cid, sid)
    ensures Linked(st) ==> Linked(Remove(st, cid, sid).store)
    ensures UniqueCorreo(st) ==> UniqueCorreo(Remove(st, cid, sid).store)
  {
  }

  /** Removing twice is removing once: same reply, same store. */
  lemma RemoveIdempotent(st: Store, cid: Id, sid: Id)
    ensures Remove(Remove(st, cid, sid).store, cid, sid) == Remove(st, cid, sid)
  {
    if cid in st.courses && sid in st.students {
      var once := Remove(st, cid, sid);
      var c1, s1 := once.reply.value.0, once.reply.value.1;
      assert once.store == Store(st.students[sid := s1], st.courses[cid := c1]);
      PullIdempotent(st.courses[cid].estudiantes, sid);
      PullIdempotent(st.students[sid].cursos, cid);
      assert c1.(estudiantes := Pull(c1.estudiantes, sid)) == c1;
      assert s1.(cursos := Pull(s1.cursos, cid)) == s1;
      assert once.store.courses[cid := c1] == once.store.courses;
      assert once.store.students[sid := s1] == once.store.students;
    }
  }

  /** Removing a pair that is not enrolled on either side succeeds and
      changes nothing. */
  lemma RemoveUnlinkedIsNoOp(st: Store, cid: Id, sid: Id)
    requires cid in st.courses && sid in st.students
    requires sid !in st.courses[cid].estudiantes && cid !in st.students[sid].cursos
    ensures Remove(st, cid, sid).reply == Ok((st.courses[cid], st.students[sid]))
    ensures Remove(st, cid, sid).store == st
  {
    PullAbsent(st.courses[cid].estudiantes, sid);
    PullAbsent(st.students[sid].cursos, cid);
    assert st.courses[cid := st.courses[cid]] == st.courses;
    assert st.students[sid := st.students[sid]] == st.students;
  }

  /** Enrolling a pair that was not enrolled and then removing it gives
      back the original store. */
  lemma EnrollThenRemoveRestores(st: Store, cid: Id, sid: Id)
    requires cid in st.courses && sid in st.students
    requires sid !in st.courses[cid].estudiantes && cid !in st.students[sid].cursos
    ensures Remove(Enroll(st, cid, sid).store, cid, sid).store == st
  {
    var c, s := st.courses[cid], st.students[sid];
    var c2 := c.(estudiantes := c.estudiantes + [sid]);
    var s2 := s.(cursos := s.cursos + [cid]);
    var mid := Store(st.students[sid := s2], st.courses[cid := c2]);
    assert Enroll(st, cid, sid).store == mid;
    PullAfterPush(c.estudiantes, sid);
    PullAfterPush(s.cursos, cid);
    assert c2.(estudiantes := Pull(c2.estudiantes, sid)) == c;
    assert s2.(cursos := Pull(s2.cursos, cid)) == s;
    assert Remove(mid, cid, sid).store == Store(mid.students[sid := s], mid.courses[cid := c]);
    MapRestore(st.courses, cid, c2);
    MapRestore(st.students, sid, s2);
  }

  /** Under the enrollment invariant, one side's list decides the other's,
      so an enrollment followed by its removal restores the store whenever
      the course did not already list the student. */
  lemma EnrollThenRemoveRestoresLinked(st: Store, cid: Id, sid: Id)
    requires Linked(st)
    requires cid in st.courses && sid in st.students
    requires sid !in st.courses[cid].estudiantes
    ensures Remove(Enroll(st, cid, sid).store, cid, sid).store == st
  {
    EnrollThenRemoveRestores(st, cid, sid);
  }
}

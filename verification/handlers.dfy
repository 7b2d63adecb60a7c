/** The create, update and delete handlers of routes.js as transitions
    (store, request) -> (reply, store'). A payload is validated before the
    store is consulted; the store is changed only by a 200 or 201 reply. */
module Handlers {
  import opened Wrappers
  import opened Text
  import opened CorreoRegex
  import opened Refs
  import opened Records
  import opened Payload
  import opened Db

  /** Helper of `PostStudent` and `PutStudent`: the `cursos` ids of an
      accepted student payload, if it has any. */
  function PayloadCursos(body: Body, isEmail: string -> bool): (ids: Option<seq<Id>>)
    requires StudentBodyOk(body, isEmail)
    ensures ids.None? <==> "cursos" !in body
    ensures ids.Some? ==> |ids.value| == |body["cursos"].items|
                          && forall k :: 0 <= k < |ids.value| ==> ids.value[k] == body["cursos"].items[k].s
  {
    if "cursos" in body then Some(IdTexts(body["cursos"].items)) else None
  }

  /** Helper of `PostCourse` and `PutCourse`: the `descripcion` of an
      accepted course payload, if it has one. */
  function PayloadDescripcion(body: Body): (d: Option<string>)
    requires CourseBodyOk(body)
    ensures d.None? <==> "descripcion" !in body
    ensures d.Some? ==> d.value == body["descripcion"].s && d.value != []
  {
    if "descripcion" in body then Some(body["descripcion"].s) else None
  }

  /** POST /estudiantes. `newId` is the id the store issues. A rejected
      payload is a 400, a document the schema refuses or whose `correo` is
      taken is a 500; only a 201 stores anything, and then only the new
      student. */
  function PostStudent(st: Store, body: Body, isEmail: string -> bool, newId: Id): (r: Step<(Id, Student)>)
    requires newId !in st.students
    ensures r.reply.Status() in {201, 400, 500}
    ensures r.reply.BadRequest? <==> !StudentBodyOk(body, isEmail)
    ensures !r.reply.Created? ==> r.store == st
    ensures StudentBodyOk(body, isEmail) && CorreoTaken(st, body["correo"].s, newId) ==> !r.reply.Created?
    ensures r.reply.Created? <==>
              && StudentBodyOk(body, isEmail)
              && Trim(body["nombre"].s) != []
              && CorreoPattern(body["correo"].s)
              && !CorreoTaken(st, body["correo"].s, newId)
    ensures r.reply.Created? ==>
              && StudentBodyOk(body, isEmail)
              && r.reply.value.0 == newId
              && r.store == st.(students := st.students[newId := r.reply.value.1])
              && r.reply.value.1.nombre == Trim(body["nombre"].s) && r.reply.value.1.nombre != []
              && r.reply.value.1.correo == body["correo"].s && CorreoPattern(r.reply.value.1.correo)
              && !CorreoTaken(st, r.reply.value.1.correo, newId)
              && ("cursos" !in body ==> r.reply.value.1.cursos == [])
              && ("cursos" in body ==> r.reply.value.1.cursos == PayloadCursos(body, isEmail).value)
  {
    match ValidateStudent(body, isEmail)
    case Some(v) => Step(BadRequest(v), st)
    case None =>
      var d := NewStudent(body["nombre"].s, body["correo"].s, PayloadCursos(body, isEmail));
      var bad := StudentViolations(d);
      if bad != [] then Step(ServerError(SchemaRejected(bad)), st)
      else if CorreoTaken(st, d.correo, newId) then Step(ServerError(DuplicateKey), st)
      else Step(Created((newId, d)), st.(students := st.students[newId := d]))
  }

  /** PUT /estudiantes/:id. The payload is checked first, so a bad payload
      is a 400 even for a missing id. The update replaces the fields the
      payload carries; a `correo` another student holds is a 500. */
  function PutStudent(st: Store, id: Id, body: Body, isEmail: string -> bool): (r: Step<(Id, Student)>)
    ensures r.reply.Status() in {200, 400, 404, 500}
    ensures r.reply.BadRequest? <==> !StudentBodyOk(body, isEmail)
    ensures r.reply.NotFound? <==> StudentBodyOk(body, isEmail) && id !in st.students
    ensures r.reply.ServerError? <==>
              StudentBodyOk(body, isEmail) && id in st.students && CorreoTaken(st, body["correo"].s, id)
    ensures !r.reply.Ok? ==> r.store == st
    ensures r.reply.Ok? ==>
              && StudentBodyOk(body, isEmail) && id in st.students
              && r.reply.value.0 == id
              && r.store == st.(students := st.students[id := r.reply.value.1])
              && r.reply.value.1.nombre == Trim(body["nombre"].s)
              && r.reply.value.1.correo == body["correo"].s
              && !CorreoTaken(st, r.reply.value.1.correo, id)
              && ("cursos" !in body ==> r.reply.value.1.cursos == st.students[id].cursos)
              && ("cursos" in body ==> r.reply.value.1.cursos == PayloadCursos(body, isEmail).value)
  {
    match ValidateStudent(body, isEmail)
    case Some(v) => Step(BadRequest(v), st)
    case None =>
      if id !in st.students then Step(NotFound, st)
      else
        var d := SetStudent(st.students[id], body["nombre"].s, body["correo"].s, PayloadCursos(body, isEmail));
        if CorreoTaken(st, d.correo, id) then Step(ServerError(DuplicateKey), st)
        else Step(Ok((id, d)), st.(students := st.students[id := d]))
  }

  /** DELETE /estudiantes/:id: answers the deleted document and removes only
      its key; courses keep whatever references they had. */
  function DeleteStudent(st: Store, id: Id): (r: Step<(Id, Student)>)
    ensures r.reply.Status() in {200, 404}
    ensures r.reply.NotFound? <==> id !in st.students
    ensures r.reply.NotFound? ==> r.store == st
    ensures r.reply.Ok? ==>
              && r.reply.value == (id, st.students[id])
              && r.store.students.Keys == st.students.Keys - {id}
              && (forall k :: k in r.store.students ==> r.store.students[k] == st.students[k])
              && r.store.courses == st.courses
    ensures UniqueCorreo(st) ==> UniqueCorreo(r.store)
  {
    if id !in st.students then Step(NotFound, st)
    else Step(Ok((id, st.students[id])), st.(students := st.students - {id}))
  }

  /** POST /cursos. `newId` is the id the store issues. A new course has no
      students; a `titulo` that trims to nothing is refused by the schema. */
  function PostCourse(st: Store, body: Body, newId: Id): (r: Step<(Id, Course)>)
    requires newId !in st.courses
    ensures r.reply.Status() in {201, 400, 500}
    ensures r.reply.BadRequest? <==> !CourseBodyOk(body)
    ensures !r.reply.Created? ==> r.store == st
    ensures r.reply.ServerError? <==> CourseBodyOk(body) && Trim(body["titulo"].s) == []
    ensures r.reply.Created? ==>
              && CourseBodyOk(body)
              && r.reply.value.0 == newId
              && r.store == st.(courses := st.courses[newId := r.reply.value.1])
              && r.reply.value.1.titulo == Trim(body["titulo"].s) && r.reply.value.1.titulo != []
              && ("descripcion" in body <==> r.reply.value.1.descripcion.Some?)
              && ("descripcion" in body ==> r.reply.value.1.descripcion == Some(Trim(body["descripcion"].s)))
              && r.reply.value.1.estudiantes == []
  {
    match ValidateCourse(body)
    case Some(v) => Step(BadRequest(v), st)
    case None =>
      var d := NewCourse(body["titulo"].s, PayloadDescripcion(body));
      var bad := CourseViolations(d);
      if bad != [] then Step(ServerError(SchemaRejected(bad)), st)
      else Step(Created((newId, d)), st.(courses := st.courses[newId := d]))
  }

  /** PUT /cursos/:id: replaces `titulo`, and `descripcion` when given;
      `estudiantes` cannot be sent and stays as it was. */
  function PutCourse(st: Store, id: Id, body: Body): (r: Step<(Id, Course)>)
    ensures r.reply.Status() in {200, 400, 404}
    ensures r.reply.BadRequest? <==> !CourseBodyOk(body)
    ensures r.reply.NotFound? <==> CourseBodyOk(body) && id !in st.courses
    ensures !r.reply.Ok? ==> r.store == st
    ensures r.reply.Ok? ==>
              && CourseBodyOk(body) && id in st.courses
              && r.reply.value.0 == id
              && r.store == st.(courses := st.courses[id := r.reply.value.1])
              && r.reply.value.1.titulo == Trim(body["titulo"].s)
              && ("descripcion" !in body ==> r.reply.value.1.descripcion == st.courses[id].descripcion)
              && ("descripcion" in body ==> r.reply.value.1.descripcion == Some(Trim(body["descripcion"].s)))
              && r.reply.value.1.estudiantes == st.courses[id].estudiantes
  {
    match ValidateCourse(body)
    case Some(v) => Step(BadRequest(v), st)
    case None =>
      if id !in st.courses then Step(NotFound, st)
      else
        var d := SetCourse(st.courses[id], body["titulo"].s, PayloadDescripcion(body));
        Step(Ok((id, d)), st.(courses := st.courses[id := d]))
  }

  /** DELETE /cursos/:id: answers the deleted document and removes only its
      key; students keep whatever references they had. */
  function DeleteCourse(st: Store, id: Id): (r: Step<(Id, Course)>)
    ensures r.reply.Status() in {200, 404}
    ensures r.reply.NotFound? <==> id !in st.courses
    ensures r.reply.NotFound? ==> r.store == st
    ensures r.reply.Ok? ==>
              && r.reply.value == (id, st.courses[id])
              && r.store.courses.Keys == st.courses.Keys - {id}
              && (forall k :: k in r.store.courses ==> r.store.courses[k] == st.courses[k])
              && r.store.students == st.students
  {
    if id !in st.courses then Step(NotFound, st)
    else Step(Ok((id, st.courses[id])), st.(courses := st.courses - {id}))
  }
}

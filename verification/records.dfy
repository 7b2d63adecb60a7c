/** The two document schemas of models/estudientes.js: the shape of a
    student and a course, what the `trim` setters and array defaults do when
    a document is built or updated, and which paths fail validation when a
    new document is saved. */
module Records {
  import opened Wrappers
  import opened Text
  import opened CorreoRegex
  import opened Refs

  /** `EstudianteSchema`: `cursos` references courses. */
  datatype Student = Student(nombre: string, correo: string, cursos: seq<Id>)

  /** `CursoSchema`: `descripcion` is the one optional field; `estudiantes`
      references students. */
  datatype Course = Course(titulo: string, descripcion: Option<string>, estudiantes: seq<Id>)

  /** A write the store itself refuses: a schema validator failed on save
      (the failing paths, in schema order), or the unique index on
      `correo` already holds the value (MongoDB error 11000). */
  datatype StoreError = SchemaRejected(paths: seq<string>) | DuplicateKey

  /** `new Estudiante(body)`: `nombre` goes through the trim setter,
      `correo` is stored as given, and `cursos` defaults to an empty
      array. */
  function NewStudent(nombre: string, correo: string, cursos: Option<seq<Id>>): (d: Student)
    ensures Trimmed(d.nombre) && d.nombre == Trim(nombre)
    ensures d.correo == correo
    ensures cursos.None? ==> d.cursos == []
    ensures cursos.Some? ==> d.cursos == cursos.value
  {
    Student(Trim(nombre), correo, cursos.GetOr([]))
  }

  /** The schema validators that `save` runs on a student: `required`
      refuses an empty string, and `match` refuses a non-empty `correo`
      outside the pattern. A student is storable exactly when no path is
      listed. */
  function StudentViolations(d: Student): (paths: seq<string>)
    ensures "nombre" in paths <==> d.nombre == []
    ensures "correo" in paths <==> d.correo == [] || !CorreoPattern(d.correo)
    ensures paths == [] <==> d.nombre != [] && d.correo != [] && CorreoPattern(d.correo)
  {
    (if d.nombre == [] then ["nombre"] else [])
    + (if d.correo == [] || !CorreoPattern(d.correo) then ["correo"] else [])
  }

  /** `new Curso(body)`: `titulo` and a present `descripcion` go through
      the trim setter, and `estudiantes` starts empty. */
  function NewCourse(titulo: string, descripcion: Option<string>): (d: Course)
    ensures Trimmed(d.titulo) && d.titulo == Trim(titulo)
    ensures d.descripcion.None? <==> descripcion.None?
    ensures d.descripcion.Some? ==> Trimmed(d.descripcion.value)
                                    && d.descripcion.value == Trim(descripcion.value)
    ensures d.estudiantes == []
  {
    Course(Trim(titulo), if descripcion.Some? then Some(Trim(descripcion.value)) else None, [])
  }

  /** The schema validators that `save` runs on a course: only `titulo` is
      required. */
  function CourseViolations(d: Course): (paths: seq<string>)
    ensures paths == [] <==> d.titulo != []
    ensures paths != [] ==> paths == ["titulo"]
  {
    if d.titulo == [] then ["titulo"] else []
  }

  /** `findByIdAndUpdate(id, body)` on a student: a `$set` of the given
      fields through the setters (so `nombre` is trimmed), with the fields
      the payload omits left as they were. Update validators are off, so
      nothing is checked here. */
  function SetStudent(d: Student, nombre: string, correo: string, cursos: Option<seq<Id>>): (e: Student)
    ensures Trimmed(e.nombre) && e.nombre == Trim(nombre)
    ensures e.correo == correo
    ensures cursos.None? ==> e.cursos == d.cursos
    ensures cursos.Some? ==> e.cursos == cursos.value
  {
    Student(Trim(nombre), correo, cursos.GetOr(d.cursos))
  }

  /** `findByIdAndUpdate(id, body)` on a course: `titulo` is replaced and
      trimmed, `descripcion` only when the payload carries one, and
      `estudiantes` is never touched. */
  function SetCourse(d: Course, titulo: string, descripcion: Option<string>): (e: Course)
    ensures Trimmed(e.titulo) && e.titulo == Trim(titulo)
    ensures descripcion.None? ==> e.descripcion == d.descripcion
    ensures descripcion.Some? ==> e.descripcion == Some(Trim(descripcion.value))
    ensures e.estudiantes == d.estudiantes
  {
    Course(Trim(titulo), if descripcion.Some? then Some(Trim(descripcion.value)) else d.descripcion, d.estudiantes)
  }
}

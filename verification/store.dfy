/** The two collections as one store, the outcome of a request, and the
    store-wide properties the handlers keep or break. */
module Db {
  import opened Refs
  import opened Records
  import opened Payload

  /** The `estudiantes` and `cursos` collections, keyed by document id. */
  datatype Store = Store(students: map<Id, Student>, courses: map<Id, Course>)

  /** What a handler answers: a created or found document, the first
      payload violation, a missing id, or a write the store refused. */
  datatype Reply<T> =
    | Created(value: T)
    | Ok(value: T)
    | BadRequest(violation: Violation)
    | NotFound
    | ServerError(cause: StoreError)
  {
    /** The HTTP status the handler sends. */
    function Status(): int {
      match this
      case Created(_) => 201
      case Ok(_) => 200
      case BadRequest(_) => 400
      case NotFound => 404
      case ServerError(_) => 500
    }
  }

  /** A handler's transition: its reply and the store after it. */
  datatype Step<T> = Step(reply: Reply<T>, store: Store)

  /** Some student other than `self` already holds `correo`, so the unique
      index refuses another copy. */
  predicate CorreoTaken(st: Store, correo: string, self: Id) {
    exists k :: k in st.students && k != self && st.students[k].correo == correo
  }

  /** The unique index on `correo`: no two stored students share one. */
  ghost predicate UniqueCorreo(st: Store) {
    forall a, b :: a in st.students && b in st.students && st.students[a].correo == st.students[b].correo ==> a == b
  }

  /** The intended enrollment invariant between existing documents: a
      course lists a student exactly when the student lists the course. */
  ghost predicate Linked(st: Store) {
    forall c, s :: c in st.courses && s in st.students ==>
      (s in st.courses[c].estudiantes <==> c in st.students[s].cursos)
  }

  /** Between `st` and `st'` only course `cid` and student `sid` may have
      changed; no document appeared or disappeared. */
  ghost predicate OnlyPairChanged(st: Store, st': Store, cid: Id, sid: Id) {
    && st'.courses.Keys == st.courses.Keys
    && st'.students.Keys == st.students.Keys
    && (forall c :: c in st.courses && c != cid ==> st'.courses[c] == st.courses[c])
    && (forall s :: s in st.students && s != sid ==> st'.students[s] == st.students[s])
  }

  /** No stored student references `cid`, as holds for an id the store has
      never issued. */
  ghost predicate CourseUnreferenced(st: Store, cid: Id) {
    forall s :: s in st.students ==> cid !in st.students[s].cursos
  }

  /** No stored course references `sid`. */
  ghost predicate StudentUnreferenced(st: Store, sid: Id) {
    forall c :: c in st.courses ==> sid !in st.courses[c].estudiantes
  }

  /** Overwriting an entry and then writing its old value back restores
      the map. */
  lemma MapRestore<K, V>(m: map<K, V>, k: K, v: V)
    requires k in m
    ensures m[k := v][k := m[k]] == m
  {
  }

  /** Writing a student whose `correo` no other student holds keeps the
      unique index satisfied. */
  lemma PutStudentKeepsUnique(st: Store, id: Id, d: Student)
    requires UniqueCorreo(st) && !CorreoTaken(st, d.correo, id)
    ensures UniqueCorreo(st.(students := st.students[id := d]))
  {
  }
}

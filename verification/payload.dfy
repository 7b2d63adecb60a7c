/** The Joi request schemas of routes.js: `estudianteSchema` and
    `cursoSchema`. Validation stops at the first violation (Joi's
    `abortEarly`), visiting the declared keys in schema order and then
    refusing any key the schema does not declare. */
module Payload {
  import opened Wrappers
  import opened Text
  import opened Refs

  /** A JSON value as far as the schemas distinguish: a string, an array,
      or anything else (number, boolean, null, object). */
  datatype Json = JString(s: string) | JArray(items: seq<Json>) | JOther

  /** A parsed request body. */
  type Body = map<string, Json>

  /** The first rule a body breaks. */
  datatype Violation =
    | Required(key: string)
    | NotAString(key: string)
    | EmptyString(key: string)
    | NotAnEmail(key: string)
    | NotAnArray(key: string)
    | ItemNotAString(key: string, index: nat)
    | ItemEmpty(key: string, index: nat)
    | ItemLength(key: string, index: nat)
    | NotAllowed
  {
    predicate IsItemFault() {
      ItemNotAString? || ItemEmpty? || ItemLength?
    }
  }

  const StudentKeys: set<string> := {"nombre", "correo", "cursos"}
  const CourseKeys: set<string> := {"titulo", "descripcion"}

  /** A present key holds a non-empty string (`Joi.string()` refuses ""). */
  predicate NonEmptyStringAt(body: Body, key: string) {
    key in body && body[key].JString? && body[key].s != []
  }

  /** `Joi.string().length(24)`: a string of 24 UTF-16 code units, the
      length of an ObjectId's text form. */
  predicate IsIdText(j: Json) {
    j.JString? && Utf16Length(j.s) == 24
  }

  /** What `estudianteSchema` accepts: a non-empty `nombre`, a non-empty
      `correo` that `isEmail` (Joi's `email()`) accepts, an optional array
      `cursos` of id texts, and no other key. */
  predicate StudentBodyOk(body: Body, isEmail: string -> bool) {
    && NonEmptyStringAt(body, "nombre")
    && NonEmptyStringAt(body, "correo") && isEmail(body["correo"].s)
    && ("cursos" in body ==> body["cursos"].JArray?
                             && forall k :: 0 <= k < |body["cursos"].items| ==> IsIdText(body["cursos"].items[k]))
    && body.Keys <= StudentKeys
  }

  /** What `cursoSchema` accepts: a non-empty `titulo`, an optional
      non-empty `descripcion`, and no other key. */
  predicate CourseBodyOk(body: Body) {
    && NonEmptyStringAt(body, "titulo")
    && ("descripcion" in body ==> NonEmptyStringAt(body, "descripcion"))
    && body.Keys <= CourseKeys
  }

  /** `Joi.string()`, required or optional, on one key. */
  function CheckString(body: Body, key: string, required: bool): (r: Option<Violation>)
    ensures r.None? <==> (key in body ==> NonEmptyStringAt(body, key)) && (required ==> key in body)
    ensures r.Some? ==> !r.value.NotAllowed? && r.value.key == key
  {
    if key !in body then (if required then Some(Required(key)) else None)
    else match body[key]
      case JString(s) => if s == [] then Some(EmptyString(key)) else None
      case _ => Some(NotAString(key))
  }

  /** `Joi.string().length(24)` on item `index` of array `key`. */
  function CheckItem(key: string, j: Json, index: nat): (r: Option<Violation>)
    ensures r.None? <==> IsIdText(j)
    ensures r.Some? ==> r.value.IsItemFault() && r.value.key == key && r.value.index == index
  {
    match j
    case JString(s) =>
      if s == [] then Some(ItemEmpty(key, index))
      else if Utf16Length(s) != 24 then Some(ItemLength(key, index))
      else None
    case _ => Some(ItemNotAString(key, index))
  }

  /** The first item, from `from` on, that is not an id text. */
  function CheckItems(key: string, items: seq<Json>, from: nat): (r: Option<Violation>)
    requires from <= |items|
    ensures r.None? <==> forall k :: from <= k < |items| ==> IsIdText(items[k])
    ensures r.Some? ==> && r.value.IsItemFault() && r.value.key == key
                        && from <= r.value.index < |items| && !IsIdText(items[r.value.index])
                        && forall k :: from <= k < r.value.index ==> IsIdText(items[k])
    decreases |items| - from
  {
    if from == |items| then None
    else match CheckItem(key, items[from], from)
      case Some(v) => Some(v)
      case None => CheckItems(key, items, from + 1)
  }

  /** `Joi.array().items(Joi.string().length(24)).optional()` on `key`. */
  function CheckIdArray(body: Body, key: string): (r: Option<Violation>)
    ensures r.None? <==> (key in body ==> body[key].JArray?
                                          && forall k :: 0 <= k < |body[key].items| ==> IsIdText(body[key].items[k]))
  {
    if key !in body then None
    else match body[key]
      case JArray(items) => CheckItems(key, items, 0)
      case _ => Some(NotAnArray(key))
  }

  /** `estudianteSchema.validate(body)`: `None` exactly when the body is
      acceptable; otherwise the first violation, and a missing `nombre` is
      always the one reported. */
  function ValidateStudent(body: Body, isEmail: string -> bool): (r: Option<Violation>)
    ensures r.None? <==> StudentBodyOk(body, isEmail)
    ensures "nombre" !in body ==> r == Some(Required("nombre"))
    ensures r == Some(NotAllowed) ==> !(body.Keys <= StudentKeys)
  {
    var nombre := CheckString(body, "nombre", true);
    if nombre.Some? then nombre
    else
      var correo := CheckString(body, "correo", true);
      if correo.Some? then correo
      else if !isEmail(body["correo"].s) then Some(NotAnEmail("correo"))
      else
        var cursos := CheckIdArray(body, "cursos");
        if cursos.Some? then cursos
        else if !(body.Keys <= StudentKeys) then Some(NotAllowed)
        else None
  }

  /** `cursoSchema.validate(body)`: `None` exactly when the body is
      acceptable; a missing `titulo` is always the one reported. */
  function ValidateCourse(body: Body): (r: Option<Violation>)
    ensures r.None? <==> CourseBodyOk(body)
    ensures "titulo" !in body ==> r == Some(Required("titulo"))
    ensures r == Some(NotAllowed) ==> !(body.Keys <= CourseKeys)
  {
    var titulo := CheckString(body, "titulo", true);
    if titulo.Some? then titulo
    else
      var descripcion := CheckString(body, "descripcion", false);
      if descripcion.Some? then descripcion
      else if !(body.Keys <= CourseKeys) then Some(NotAllowed)
      else None
  }

  /** Helper of the student handlers: the ids an accepted `cursos` array
      names, in order. */
  function IdTexts(items: seq<Json>): (ids: seq<Id>)
    requires forall k :: 0 <= k < |items| ==> items[k].JString?
    ensures |ids| == |items|
    ensures forall k :: 0 <= k < |ids| ==> ids[k] == items[k].s
  {
    if items == [] then [] else [items[0].s] + IdTexts(items[1..])
  }
}

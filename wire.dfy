/** Values that cross the HTTP boundary: JSON bodies, validation errors, responses. */
module Wire {

  /** A moment as the database clock reports it (`db.func.now()`); only its identity matters. */
  type Timestamp = int

  /** A nullable column value (SQL NULL, Python None). */
  datatype Option<T> = None | Some(value: T)

  /** The JSON documents the handlers return. */
  datatype Json =
    | JNull
    | JBool(b: bool)
    | JInt(n: int)
    | JStr(s: string)
    | JTime(t: Timestamp)
    | JArr(items: seq<Json>)
    | JObj(fields: map<string, Json>)

  function JNullable(v: Option<string>): Json
  {
    match v
    case None => JNull
    case Some(s) => JStr(s)
  }

  /** What a failed form reports: every offending field with its messages. */
  type Errors = map<string, seq<string>>

  /** A handler's answer: the body Flask-RESTful serialises and the status code. */
  datatype Response = Response(body: Json, status: int)

  function Messages(ms: seq<string>): (r: seq<Json>)
    ensures |r| == |ms|
    ensures forall i :: 0 <= i < |ms| ==> r[i] == JStr(ms[i])
  {
    seq(|ms|, i requires 0 <= i < |ms| => JStr(ms[i]))
  }

  /** `return form.errors, 422`: the error map becomes the body, field by field. */
  function Invalid(errors: Errors): (r: Response)
    ensures r.status == 422
    ensures r.body.JObj? && r.body.fields.Keys == errors.Keys
    ensures forall f :: f in errors ==> r.body.fields[f] == JArr(Messages(errors[f]))
  {
    Response(JObj(map f | f in errors :: JArr(Messages(errors[f]))), 422)
  }

  /** `return '', 401`: an empty body with status 401. */
  const Unauthorized: Response := Response(JStr(""), 401)
}

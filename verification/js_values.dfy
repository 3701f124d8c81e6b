/** The JavaScript values the node reads from responses and writes to its
    output, the errors its code can raise, and the HTTP request and outcome
    shapes that stand in for `helpers.request`. */
module JsValues {
  import opened Wrappers

  /** A JSON-like JavaScript value. Numbers are integers here. */
  datatype Value =
    | Undefined
    | Null
    | Bool(b: bool)
    | Num(n: int)
    | Str(s: string)
    | Arr(items: seq<Value>)
    | Obj(fields: map<string, Value>)

  /** JavaScript truthiness (`if (v)`, `filter(Boolean)`). */
  predicate Truthy(v: Value)
  {
    match v
    case Undefined => false
    case Null => false
    case Bool(b) => b
    case Num(n) => n != 0
    case Str(s) => s != ""
    case Arr(_) => true
    case Obj(_) => true
  }

  /** The errors the modelled code can end in. */
  datatype Error =
    | NodeOperationError(message: string)
    | TypeError(message: string)
    | HttpError(statusCode: Option<int>, message: string)
    | EntityNotFound(entity: string)

  /** `error.message` as the load-options callbacks read it. A missing
      entity block fails by dereferencing the failed match. */
  function Message(e: Error): (m: string)
    ensures !e.EntityNotFound? ==> m == e.message
  {
    match e
    case EntityNotFound(_) => "Cannot read properties of null (reading '0')"
    case _ => e.message
  }

  /** `error.statusCode === 401`: only a failed HTTP call carries a status. */
  predicate IsUnauthorized(e: Error)
  {
    e.HttpError? && e.statusCode == Some(401)
  }

  /** `v[key]`: reading a property of `undefined` or `null` throws; reading
      a missing property, or one of a non-object, gives `undefined`. */
  function Property(v: Value, key: string): (r: Result<Value, Error>)
    ensures r.Failure? <==> v.Undefined? || v.Null?
    ensures r.Failure? ==> r.error.TypeError?
    ensures v.Obj? && key in v.fields ==> r == Success(v.fields[key])
  {
    match v
    case Undefined => Failure(TypeError("Cannot read properties of undefined (reading '" + key + "')"))
    case Null => Failure(TypeError("Cannot read properties of null (reading '" + key + "')"))
    case Obj(fields) => Success(if key in fields then fields[key] else Undefined)
    case _ => Success(Undefined)
  }

  /** The HTTP methods the node uses. */
  datatype Method = Get | Post | Patch | Delete

  /** One HTTP request as handed to `helpers.request`. A header whose value
      is `undefined` in the source is absent from `headers`. */
  datatype Request = Request(verb: Method, url: string, headers: map<string, string>, body: Option<Value>)

  /** What a request came back with: the (parsed) response body, or the
      error it was rejected with. */
  datatype Outcome = Responded(body: Value) | Rejected(statusCode: Option<int>, message: string)
}

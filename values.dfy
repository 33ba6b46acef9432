/** Values that cross the HTTP boundary: JSON request fields with JavaScript
    truthiness, the timestamp type, status codes and the handlers' replies. */
module Values {

  datatype Option<T> = None | Some(value: T)

  /** A field of a JSON request body. `Undefined` is a key that is absent;
      `Composite` stands for any object or array (always truthy). */
  datatype JsVal = Undefined | Null | Bool(b: bool) | Num(n: real) | Str(s: string) | Composite

  /** JavaScript truthiness, as `if (x)` and `x || y` use it. JSON cannot carry
      NaN, so a number is falsy exactly when it is zero. */
  predicate Truthy(v: JsVal)
  {
    match v
    case Undefined => false
    case Null => false
    case Bool(b) => b
    case Num(n) => n != 0.0
    case Str(s) => s != ""
    case Composite => true
  }

  /** The value an INSERT stores for a body field: an absent (undefined) key
      takes the column default, which is NULL for every nullable column. */
  function Stored(v: JsVal): (r: JsVal)
    ensures r != Undefined
    ensures v != Undefined ==> r == v
  {
    if v == Undefined then Null else v
  }

  /** JavaScript's `v || fallback`. */
  function Or(v: JsVal, fallback: JsVal): (r: JsVal)
    ensures Truthy(v) ==> r == v
    ensures !Truthy(v) ==> r == fallback
    ensures Truthy(r) <==> Truthy(v) || Truthy(fallback)
  {
    if Truthy(v) then v else fallback
  }

  /** `v !== undefined ? v : fallback`: any value that is present, null and 0 included, wins. */
  function IfDefined(v: JsVal, fallback: JsVal): (r: JsVal)
    ensures v != Undefined ==> r == v
    ensures v == Undefined ==> r == fallback
  {
    if v != Undefined then v else fallback
  }

  /** The range of a Postgres `integer` (int4) column. */
  const INT4_MIN: int := -0x8000_0000
  const INT4_MAX: int := 0x7fff_ffff

  /** What Postgres makes of a body value bound to an `integer` parameter:
      an integral number within the int4 range is that integer; anything
      else (a fraction, an out-of-range number, a non-number) makes the
      query fail. */
  function SqlInt(v: JsVal): (r: Option<int>)
    ensures r.Some? <==> v.Num? && v.n == v.n.Floor as real && INT4_MIN <= v.n.Floor <= INT4_MAX
    ensures r.Some? ==> v == Num(r.value as real) && INT4_MIN <= r.value <= INT4_MAX
  {
    if v.Num? && v.n == v.n.Floor as real && INT4_MIN <= v.n.Floor <= INT4_MAX then Some(v.n.Floor) else None
  }

  /** A point in time (a JavaScript Date's millisecond value). Parsing with
      `new Date(x)` and reading the clock are supplied by the caller. */
  datatype Instant = Instant(ms: int)

  /** `x ? new Date(x) : new Date()`, as the get-or-create handlers stamp a row. */
  function DateOr(v: JsVal, now: Instant, toDate: JsVal -> Instant): (r: Instant)
    ensures Truthy(v) ==> r == toDate(v)
    ensures !Truthy(v) ==> r == now
  {
    if Truthy(v) then toDate(v) else now
  }

  const OK: int := 200
  const CREATED: int := 201
  const BAD_REQUEST: int := 400
  const UNAUTHORIZED: int := 401
  const FORBIDDEN: int := 403
  const NOT_FOUND: int := 404
  const SERVER_ERROR: int := 500

  /** A handler's response: its status code and, on success, its payload.
      Error bodies only carry a message, so they are `None`. */
  datatype Reply<T> = Reply(status: int, data: Option<T>)

  function Fail<T>(status: int): Reply<T>
  {
    Reply(status, None)
  }
}

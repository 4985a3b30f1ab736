/** Small shared datatypes: the optional value that stands for JavaScript's
    `undefined` / `null`, and the HTTP status codes the handlers answer with. */
module Wrappers {

  /** `None` is a missing (`undefined` or `null`) value. */
  datatype Option<+T> = None | Some(value: T) {

    /** The value, or `default` when it is missing. */
    function GetOr(default: T): T {
      match this
      case Some(v) => v
      case None => default
    }
  }

  /** JavaScript truthiness of an optional string: `undefined`, `null` and `""` are falsy. */
  predicate Truthy(s: Option<string>) {
    s.Some? && s.value != ""
  }

  /** The `s || null` idiom: a falsy string is stored as SQL NULL. */
  function OrNull(s: Option<string>): (r: Option<string>)
    ensures r.Some? <==> Truthy(s)
    ensures r.Some? ==> r == s
  {
    if Truthy(s) then s else None
  }

  /** A request-body field as destructuring with a default sees it: absent
      (`undefined`, so the default applies), `null` (kept as it is), or a value. */
  datatype Field<+T> = Absent | Null | Present(value: T)

  /** `const { f = d } = body`: the default replaces only an absent field. */
  function WithDefault<T>(f: Field<T>, d: T): (r: Option<T>)
    ensures f.Absent? ==> r == Some(d)
    ensures f.Null? <==> r.None?
    ensures f.Present? ==> r == Some(f.value)
  {
    match f
    case Absent => Some(d)
    case Null => None
    case Present(v) => Some(v)
  }
}

/** The HTTP status codes the handlers use. */
module Http {
  const OK := 200
  const Created := 201
  const NoContent := 204
  const BadRequest := 400
  const Unauthorized := 401
  const Forbidden := 403
  const NotFound := 404
  const ServerError := 500
}

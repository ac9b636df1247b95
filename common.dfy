/** Small vocabulary shared by every module: optional values, request fields
    as JavaScript hands them over, and results that carry an error reason. */
module Common {

  datatype Option<+T> = None | Some(value: T)

  datatype Result<+T, +E> = Ok(value: T) | Err(error: E)

  /** A field read from a request's query, headers or body. It may be absent,
      a string, or some other value: an array or an object in a query, and
      in a JSON body also a number, a boolean or null. Only the type checks
      of a body look at such a value; truthiness is asked only of query and
      header fields, where it is always an array or an object. */
  datatype Param = Missing | Text(s: string) | NonText

  /** JavaScript truthiness of a query or header field: absent values and the
      empty string are falsy; arrays and objects are truthy. */
  predicate Truthy(p: Param)
  {
    match p
    case Missing => false
    case Text(s) => s != ""
    case NonText => true
  }

  /** The JavaScript expression `a || b` on two request fields. */
  function Or(a: Param, b: Param): Param
  {
    if Truthy(a) then a else b
  }
}

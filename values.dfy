/** Values exchanged with the catalogue service: loosely typed JSON fields of a
    request body, optional values, validation results and HTTP-style outcomes. */
module Values {

  datatype Option<+T> = None | Some(value: T)

  /** Outcome of a pure validation step: the accepted value or the error text. */
  datatype Result<+T> = Success(value: T) | Failure(error: string)

  /** A JSON value as a JavaScript route handler sees it after body parsing.
      `Undefined` is a field the body does not carry; `Composite` is any
      object or array (always truthy, `typeof` is "object"). Numbers are
      integers here: fractional numbers are not modelled. */
  datatype Json =
    | Undefined
    | Null
    | Bool(b: bool)
    | Num(n: int)
    | Str(s: string)
    | Composite

  /** JavaScript truthiness of a JSON value. */
  predicate Truthy(j: Json)
  {
    match j
    case Undefined => false
    case Null => false
    case Bool(b) => b
    case Num(n) => n != 0
    case Str(s) => s != ""
    case Composite => true
  }

  /** The negation of `!x || typeof x !== "string"`: a non-empty string. */
  predicate NonEmptyString(j: Json)
  {
    Truthy(j) && j.Str?
  }

  /** The negation of `typeof x !== "number" || x < 0`. */
  predicate NonNegativeNumber(j: Json)
  {
    j.Num? && j.n >= 0
  }

  /** A request field that the source passes to the store without a type
      check, taken at the type of the column it is written to. */
  datatype Field<+T> = Omitted | ExplicitNull | Given(value: T)

  /** `x !== undefined` */
  predicate Supplied<T>(f: Field<T>)
  {
    !f.Omitted?
  }

  /** What the route sends back: a status code with its body. */
  datatype Response<+T> =
    | Ok(value: T)            // 200
    | Created(value: T)       // 201
    | BadRequest(error: string)   // 400
    | NotFound(error: string)     // 404
    | Conflict(error: string)     // 409
    | ServerError(error: string)  // 500, raised by a store constraint

  /** Decimal text of a natural number, as JavaScript template strings print it. */
  function NatToString(n: nat): (r: string)
    ensures |r| >= 1
    ensures forall k :: 0 <= k < |r| ==> '0' <= r[k] <= '9'
  {
    if n < 10 then [Digit(n)] else NatToString(n / 10) + [Digit(n % 10)]
  }

  function Digit(d: nat): (c: char)
    requires d < 10
    ensures '0' <= c <= '9'
  {
    "0123456789"[d]
  }
}

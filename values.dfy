/** The values a JSON request body carries, the errors the request handlers
    report, and float() applied to such a value. */
module Values {
  import opened NumberText

  /** A JSON value as the request body decodes it: null, a number, a string,
      true/false, or an array/object (whose contents nothing here inspects). */
  datatype Value = Null | Num(x: real) | Str(s: string) | Flag(b: bool) | Composite

  /** The decoded body of a POST request: a JSON object, or anything else
      (no body, malformed JSON, an array, a scalar). */
  datatype Payload = Object(fields: map<string, Value>) | NotObject

  /** The exceptions the handlers catch and turn into an error response. */
  datatype Error =
    | NotFound                 // the itinerary of a cluster with no places (404)
    | NotAnObject              // no JSON object: get_json() or .get raises (400)
    | NotConvertible(v: Value) // TypeError: float() of null, an array or an object (400)
    | BadNumberText(t: string) // ValueError: float() of text that is not a number (400)
    | WriteFailed              // OSError while rewriting the CSV file (400)

  datatype Result<T> = Success(value: T) | Failure(error: Error)

  /** dict.get(key): the value stored under key, or null when there is none. */
  function Get(fields: map<string, Value>, key: string): Value {
    if key in fields then fields[key] else Null
  }

  /** dict.get(key, default). */
  function GetOr(fields: map<string, Value>, key: string, default: Value): Value {
    if key in fields then fields[key] else default
  }

  /** float(v): numbers as they are, true/false as 1/0, text through the
      decimal parser; null, arrays and objects raise TypeError. */
  function ToFloat(v: Value): (r: Result<real>)
    ensures r.Success? <==> v.Num? || v.Flag? || (v.Str? && ParseNumber(v.s).Some?)
    ensures r.Failure? ==> r.error == (if v.Str? then BadNumberText(v.s) else NotConvertible(v))
    ensures v.Num? ==> r == Success(v.x)
    ensures v.Flag? ==> r == Success(if v.b then 1.0 else 0.0)
    ensures v.Str? && r.Success? ==> ParseNumber(v.s) == Some(r.value)
  {
    match v
    case Num(x) => Success(x)
    case Flag(b) => Success(if b then 1.0 else 0.0)
    case Str(s) =>
      (match ParseNumber(s)
       case Some(x) => Success(x)
       case None => Failure(BadNumberText(s)))
    case _ => Failure(NotConvertible(v))
  }
}

/** What a handler hands back to Express: a response it sends, or control
    passed on with `next()` / `next(err)`. */
module Http {
  import opened Wrappers
  import opened CountryModel

  /** The JSON bodies the handlers send. */
  datatype Body =
    | ErrorOnly(error: string)
    | ErrorWithDetails(error: string, details: string)
    | FieldErrors(error: string, fieldErrors: map<string, string>)
    | Refreshed(message: string, totalCountries: nat)
    | Message(message: string)
    | OneCountry(country: Country)
    | CountryList(countries: seq<Country>)

  datatype Response = Response(status: int, body: Body)

  /** A thrown error, as far as the error handler reads it. A `code` that is
      not a string (MongoDB's numeric codes) is `None`. */
  datatype Error = Error(code: Option<string>, status: Option<int>, message: Option<string>)

  datatype Reply = Send(response: Response) | Next | NextError(error: Error)

  /** A JSON value from a request body. JSON cannot carry NaN. */
  datatype JsValue = Undefined | Null | Bool(b: bool) | Number(n: real) | Str(s: string) | Compound

  /** JavaScript truthiness: false, 0, "" and the nullish values are falsy. */
  predicate Truthy(v: JsValue) {
    match v
    case Undefined => false
    case Null => false
    case Bool(b) => b
    case Number(n) => n != 0.0
    case Str(s) => s != ""
    case Compound => true
  }

  /** The 404 body shared by lookup and delete. */
  const NotFound := Response(404, ErrorOnly("Country not found"))
}

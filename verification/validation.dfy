/** The `validateCountry` request middleware. */
module Validation {
  import opened Http

  /** The request-body fields the validator reads. */
  datatype RequestBody = RequestBody(name: JsValue, population: JsValue, currencyCode: JsValue)

  const Required := "is required"

  /** One "is required" entry per falsy field. */
  function RequiredErrors(b: RequestBody): (errors: map<string, string>)
    ensures errors.Keys <= {"name", "population", "currency_code"}
    ensures "name" in errors <==> !Truthy(b.name)
    ensures "population" in errors <==> !Truthy(b.population)
    ensures "currency_code" in errors <==> !Truthy(b.currencyCode)
    ensures forall f | f in errors :: errors[f] == Required
  {
    var e0: map<string, string> := map[];
    var e1 := if Truthy(b.name) then e0 else e0["name" := Required];
    var e2 := if Truthy(b.population) then e1 else e1["population" := Required];
    if Truthy(b.currencyCode) then e2 else e2["currency_code" := Required]
  }

  function ValidateCountry(b: RequestBody): (r: Reply)
    ensures !r.NextError?
    ensures r.Next? <==> Truthy(b.name) && Truthy(b.population) && Truthy(b.currencyCode)
    ensures r.Send? ==> r.response == Response(400, FieldErrors("Validation failed", RequiredErrors(b)))
  {
    var errors := RequiredErrors(b);
    if |errors| > 0 then Send(Response(400, FieldErrors("Validation failed", errors))) else Next
  }

  /** A population of 0 is rejected like a missing one. */
  lemma ZeroPopulationRejected(b: RequestBody)
    requires b.population == Number(0.0)
    ensures ValidateCountry(b).Send?
    ensures "population" in ValidateCountry(b).response.body.fieldErrors
  {
  }
}

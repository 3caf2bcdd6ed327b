/** `classifyPaymentMethod`: a first-match keyword search
    over the fetched payment methods, falling back to cash. */
module PaymentMethodService {
  import opened Wrappers
  import opened KeywordSearch

  /** `description` is `None` for `null` or `undefined`; `fetched` is the
      outcome of the query for all payment methods and `fallback` the outcome
      of the `maybeSingle` lookup of the payment method named
      "Efectivo", whose error the service ignores. */
  method ClassifyPaymentMethod(description: Option<string>, fetched: Result<seq<Row>, Failure>, fallback: Option<Row>)
    returns (r: Result<Option<Row>, Failure>)
    ensures description.None? ==> r == Err(TypeError)
    ensures description.Some? && fetched.Err? ==> r == Err(fetched.error)
    ensures (description.Some? && fetched.Ok? &&
             exists j :: 0 <= j < |fetched.value| && RowMatches(description.value, fetched.value[j])) ==>
      r.Ok? && r.value.Some? &&
      exists i :: FirstMatchAt(description.value, fetched.value, i) && r.value.value == fetched.value[i]
    ensures (description.Some? && fetched.Ok? &&
             forall j :: 0 <= j < |fetched.value| ==> !RowMatches(description.value, fetched.value[j])) ==>
      r == Ok(fallback)
  {
    if description.None? {
      return Err(TypeError);
    }
    if fetched.Err? {
      return Err(fetched.error);
    }
    var found := FirstMatch(description.value, fetched.value);
    if found.Some? {
      return Ok(found);
    }
    return Ok(fallback);
  }
}

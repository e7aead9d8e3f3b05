/**
 * `order_meal`: the guard that refuses a meal without an order id, the form
 * it posts, and the status it counts as success. The post itself is left to
 * the caller, who supplies the server's response.
 */
module Orders {
  import opened Optional
  import opened Text
  import opened Meals

  /** What came back from an order post: an HTTP status, or a transport error. */
  datatype Response = Status(code: int) | TransportError

  /** The address and form fields (`ORDER`, `JID`, `CANTEEN`) of one order post. */
  datatype Submission = Submission(url: string, order: string, jid: string, canteen: string)

  /**
   * The request `order_meal` sends: none at all when the meal has no order
   * id; otherwise a post of the order id and the canteen number to the
   * Harcov address.
   */
  function OrderRequest(meal: MealRecord, canteenId: int, date: string): (r: Option<Submission>)
    ensures r.Some? <==> Truthy(meal.orderId)
    ensures r.Some? ==> meal.orderId == Some(r.value.jid) && r.value.jid != []
    ensures r.Some? ==> r.value.url == OrderUrl(date) && r.value.order == ""
  {
    if Truthy(meal.orderId) then
      Some(Submission(OrderUrl(date), "", meal.orderId.value, IntToString(canteenId)))
    else None
  }

  /** The canteen number is sent as text that parses back to the number. */
  lemma OrderRequestCanteen(meal: MealRecord, canteenId: int, date: string)
    requires OrderRequest(meal, canteenId, date).Some?
    ensures ParseInt(OrderRequest(meal, canteenId, date).value.canteen) == Some(canteenId)
  {
    ParseIntToString(canteenId);
  }

  /** Only HTTP 200 counts as a placed order; other statuses and transport errors do not. */
  predicate Accepted(response: Response)
  {
    response == Status(200)
  }

  /** For a record built by the extractor, a request is made exactly when the record is available. */
  lemma RequestIffAvailable(meal: MealRecord, canteenId: int, date: string)
    requires WellFormed(meal)
    ensures OrderRequest(meal, canteenId, date).Some? <==> meal.available
  {
  }
}

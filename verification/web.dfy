/** The request/response surface the handlers share: the cookie session as
    an explicit value, the pages a redirect can name, and the responses. */
module Web {

  import opened Wrappers
  import Text
  import OrderStore

  /** The session's three keys. `shopId` is a single slot written both by a
      customer starting an order and by a shopkeeper logging in; there is no
      role tag. */
  datatype Session = Session(shopId: Option<string>, customerName: Option<string>, orderItems: Option<seq<string>>)

  /** A browser's first request: no key is set. */
  const NoSession: Session := Session(None, None, None)

  /** The routes a redirect points to. */
  datatype Page = CustomerShopSelect | CustomerOrder | ShopkeeperLogin | ShopkeeperOrders

  /** What a 200 response renders, without the HTML around it. */
  datatype Body =
    | ThankYou(customerName: string, shopId: string)
    | OrderForm(shopId: string, customerName: string, items: seq<string>)
    | Dashboard(shopId: string, pending: seq<OrderStore.OrderView>, confirmed: seq<OrderStore.OrderView>)

  /** A 302 to a page, a 400, a 403, or a 200 with its body. */
  datatype Response = Redirect(target: Page) | BadRequest | Forbidden | Ok(body: Body)

  /** A handler's outcome: the session and table after the request, and the reply. */
  datatype Step = Step(session: Session, store: OrderStore.Store, response: Response)

  /** Everything a handler writes into a session is stripped, non-empty text. */
  predicate WellFormed(sess: Session) {
    && (sess.shopId.Some? ==> Text.Stripped(sess.shopId.value))
    && (sess.customerName.Some? ==> Text.Stripped(sess.customerName.value))
    && (sess.orderItems.Some? ==>
          forall i :: 0 <= i < |sess.orderItems.value| ==> Text.Stripped(sess.orderItems.value[i]))
  }

  /** Python's `not field` for `request.form.get(...)`: absent or empty text. */
  predicate Missing(field: Option<string>) {
    field.None? || field.value == []
  }
}

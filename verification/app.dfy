/** The whole application as a state machine over (session, table): one
    request at a time, each routed to its handler. */
module App {

  import opened Wrappers
  import Text
  import ItemsCodec
  import Decimal
  import opened OrderStore
  import opened Web
  import Customer
  import Shopkeeper

  /** The state-changing or state-reading routes with their form fields. */
  datatype Request =
    | PostStartOrder(shopField: Option<string>, nameField: Option<string>)
    | GetOrderPage
    | PostAddItem(itemField: Option<string>)
    | PostConfirmOrder
    | PostCancelOrder
    | PostShopkeeperLogin(loginField: Option<string>)
    | GetDashboard
    | PostConfirmRoute(orderField: Option<string>, postedShop: Option<string>)
    | GetLogout

  function Handle(req: Request, sess: Session, st: Store): Step {
    match req
    case PostStartOrder(shop, name) => Customer.StartOrder(sess, st, shop, name)
    case GetOrderPage => Customer.OrderPage(sess, st)
    case PostAddItem(item) => Customer.AddItem(sess, st, item)
    case PostConfirmOrder => Customer.ConfirmOrder(sess, st)
    case PostCancelOrder => Customer.CancelOrder(sess, st)
    case PostShopkeeperLogin(shop) => Shopkeeper.Login(sess, st, shop)
    case GetDashboard => Shopkeeper.ViewOrders(sess, st)
    case PostConfirmRoute(id, shop) => Shopkeeper.ConfirmRoute(sess, st, id, shop)
    case GetLogout => Shopkeeper.Logout(sess, st)
  }

  /** A browser's requests in order, against one table; the session and
      table they leave behind. */
  function Run(sess: Session, st: Store, reqs: seq<Request>): (Session, Store)
    decreases |reqs|
  {
    if reqs == [] then (sess, st)
    else
      var first := Handle(reqs[0], sess, st);
      Run(first.session, first.store, reqs[1..])
  }

  /** What every reachable state satisfies. */
  predicate Invariant(sess: Session, st: Store) {
    WellFormed(sess) && Valid(st) && Populated(st)
  }

  lemma InitialInvariant()
    ensures Invariant(NoSession, Empty)
  {
  }

  lemma EncodeStrippedNonEmpty(items: seq<string>)
    requires items != [] && Text.Stripped(items[0])
    ensures ItemsCodec.Encode(items) != []
  {
    if |items| > 1 {
      assert ItemsCodec.Encode(items) == items[0] + [ItemsCodec.Sep] + ItemsCodec.Encode(items[1..]);
    }
  }

  /** Every request keeps the invariant, and changes the table only as
      `Evolves` allows: rows are appended pending, never removed, never
      edited except for a pending-to-confirmed flip. */
  lemma HandlePreserves(req: Request, sess: Session, st: Store)
    requires Invariant(sess, st)
    ensures Invariant(Handle(req, sess, st).session, Handle(req, sess, st).store)
    ensures Evolves(st, Handle(req, sess, st).store)
    ensures var st' := Handle(req, sess, st).store;
      && |st'.rows| <= |st.rows| + 1
      && forall i :: |st.rows| <= i < |st'.rows| ==> st'.rows[i].status == Pending
  {
    var out := Handle(req, sess, st);
    match req {
      case PostStartOrder(shop, name) =>
        if out.response != BadRequest {
          Text.TrimStripped(shop.value);
          Text.TrimStripped(name.value);
        }
      case PostAddItem(item) =>
        if !Text.Blank(item.GetOr([])) {
          Text.TrimStripped(item.value);
          var items := out.session.orderItems.value;
          assert forall i :: 0 <= i < |items| ==> Text.Stripped(items[i]) by {
            forall i | 0 <= i < |items| ensures Text.Stripped(items[i]) {
              if i < |items| - 1 {
                assert items[i] == sess.orderItems.GetOr([])[i];
              }
            }
          }
        }
      case PostShopkeeperLogin(shop) =>
        if !Text.Blank(shop.GetOr([])) {
          Text.TrimStripped(shop.value);
        }
      case PostConfirmOrder =>
        if Customer.Started(sess) && sess.orderItems.GetOr([]) != [] {
          EncodeStrippedNonEmpty(sess.orderItems.value);
          var n := |st.rows|;
          forall i | 0 <= i < n + 1
            ensures Text.Stripped(out.store.rows[i].shopId)
            ensures Text.Stripped(out.store.rows[i].customerName)
            ensures out.store.rows[i].items != []
          {
            if i < n {
              assert out.store.rows[i] == out.store.rows[..n][i];
            }
          }
        }
      case PostConfirmRoute(id, shop) =>
        match Decimal.Parse(id.GetOr([])) {
          case None =>
          case Some(n) => ConfirmValid(st, n);
        }
      case _ =>
    }
  }

  /** Every state a browser can reach from a fresh session and a fresh table
      satisfies the invariant, and the table only ever evolves. */
  lemma {:induction false} RunPreserves(sess: Session, st: Store, reqs: seq<Request>)
    requires Invariant(sess, st)
    ensures Invariant(Run(sess, st, reqs).0, Run(sess, st, reqs).1)
    ensures Evolves(st, Run(sess, st, reqs).1)
    ensures |Run(sess, st, reqs).1.rows| <= |st.rows| + |reqs|
    decreases |reqs|
  {
    if reqs != [] {
      var first := Handle(reqs[0], sess, st);
      HandlePreserves(reqs[0], sess, st);
      RunPreserves(first.session, first.store, reqs[1..]);
      EvolvesTransitive(st, first.store, Run(first.session, first.store, reqs[1..]).1);
    }
  }

  /** The shared shop slot: a shopkeeper login in the middle of a customer's
      order moves that order to the shopkeeper's shop, since the submission
      reads whatever shop the slot holds by then. */
  lemma SharedShopSlot(sess: Session, st: Store, login: string)
    requires Customer.Started(sess) && sess.orderItems.GetOr([]) != []
    requires !Text.Blank(login)
    ensures var afterLogin := Shopkeeper.Login(sess, st, Some(login));
      var out := Customer.ConfirmOrder(afterLogin.session, afterLogin.store);
      && out.store.rows[|st.rows|].shopId == Text.Trim(login)
      && out.store.rows[|st.rows|].customerName == sess.customerName.value
  {
  }
}

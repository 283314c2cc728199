/** The customer routes: pick a shop and a name, add items to the order held
    in the session, then submit it as one row or cancel it. */
module Customer {

  import opened Wrappers
  import Text
  import ItemsCodec
  import opened OrderStore
  import opened Web

  /** `customer_start_order`. A missing form key aborts the request; with the
      framework's debug mode off that is a 400, as a blank value gives. */
  function StartOrder(sess: Session, st: Store, shopField: Option<string>, nameField: Option<string>): (out: Step)
    ensures out.store == st
    ensures out.response == BadRequest <==>
      shopField.None? || nameField.None? || Text.Blank(shopField.value) || Text.Blank(nameField.value)
    ensures out.response == BadRequest ==> out.session == sess
    ensures out.response != BadRequest ==>
      && out.response == Redirect(CustomerOrder)
      && out.session == Session(Some(Text.Trim(shopField.value)), Some(Text.Trim(nameField.value)), Some([]))
  {
    if shopField.None? || nameField.None? then Step(sess, st, BadRequest)
    else
      var shop := Text.Trim(shopField.value);
      var name := Text.Trim(nameField.value);
      if shop == [] || name == [] then Step(sess, st, BadRequest)
      else Step(sess.(shopId := Some(shop), customerName := Some(name), orderItems := Some([])), st, Redirect(CustomerOrder))
  }

  /** Both keys the order page and the submission need are set. */
  predicate Started(sess: Session) {
    sess.shopId.Some? && sess.customerName.Some?
  }

  /** `customer_order`: without a shop and a name, back to the selection page;
      otherwise the current order is shown (no items when the key is unset). */
  function OrderPage(sess: Session, st: Store): (out: Step)
    ensures out.session == sess && out.store == st
    ensures out.response == Redirect(CustomerShopSelect) <==> !Started(sess)
    ensures Started(sess) ==>
      out.response == Ok(OrderForm(sess.shopId.value, sess.customerName.value, sess.orderItems.GetOr([])))
  {
    if !Started(sess) then Step(sess, st, Redirect(CustomerShopSelect))
    else Step(sess, st, Ok(OrderForm(sess.shopId.value, sess.customerName.value, sess.orderItems.GetOr([]))))
  }

  /** `customer_add_item`: a non-blank item is appended, stripped, to the
      session's list (which starts empty if unset); a blank or absent one
      changes nothing. The shop and name are never consulted or touched. */
  function AddItem(sess: Session, st: Store, itemField: Option<string>): (out: Step)
    ensures out.store == st && out.response == Redirect(CustomerOrder)
    ensures out.session.shopId == sess.shopId && out.session.customerName == sess.customerName
    ensures Text.Blank(itemField.GetOr([])) ==> out.session == sess
    ensures !Text.Blank(itemField.GetOr([])) ==>
      out.session.orderItems == Some(sess.orderItems.GetOr([]) + [Text.Trim(itemField.value)])
  {
    var item := Text.Trim(itemField.GetOr([]));
    if item != [] then
      Step(sess.(orderItems := Some(sess.orderItems.GetOr([]) + [item])), st, Redirect(CustomerOrder))
    else
      Step(sess, st, Redirect(CustomerOrder))
  }

  /** `customer_confirm_order`. Without a shop and name: back to selection;
      with no items: back to the order page; both leave session and table
      alone. Otherwise one pending row carrying the session's shop, name and
      items is appended, and only the item list leaves the session. */
  function ConfirmOrder(sess: Session, st: Store): (out: Step)
    ensures !Started(sess) ==> out == Step(sess, st, Redirect(CustomerShopSelect))
    ensures Started(sess) && sess.orderItems.GetOr([]) == [] ==> out == Step(sess, st, Redirect(CustomerOrder))
    ensures Started(sess) && sess.orderItems.GetOr([]) != [] ==>
      && |out.store.rows| == |st.rows| + 1
      && out.store.rows[..|st.rows|] == st.rows
      && (var o := out.store.rows[|st.rows|];
          && o.shopId == sess.shopId.value && o.customerName == sess.customerName.value
          && o.items == ItemsCodec.Encode(sess.orderItems.value) && o.status == Pending)
      && out.session == sess.(orderItems := None)
      && out.response == Ok(ThankYou(sess.customerName.value, sess.shopId.value))
  {
    if !Started(sess) then Step(sess, st, Redirect(CustomerShopSelect))
    else
      var items := sess.orderItems.GetOr([]);
      if items == [] then Step(sess, st, Redirect(CustomerOrder))
      else
        var st' := Save(st, sess.shopId.value, sess.customerName.value, items);
        Step(sess.(orderItems := None), st', Ok(ThankYou(sess.customerName.value, sess.shopId.value)))
  }

  /** `customer_cancel_order`: drops the item list only. */
  function CancelOrder(sess: Session, st: Store): (out: Step)
    ensures out.store == st && out.response == Redirect(CustomerOrder)
    ensures out.session.orderItems.None?
    ensures out.session.shopId == sess.shopId && out.session.customerName == sess.customerName
  {
    Step(sess.(orderItems := None), st, Redirect(CustomerOrder))
  }

  /** A run of add-item posts, one per input. */
  function AddItems(sess: Session, st: Store, inputs: seq<string>): Session
    decreases |inputs|
  {
    if inputs == [] then sess
    else AddItems(AddItem(sess, st, Some(inputs[0])).session, st, inputs[1..])
  }

  /** The inputs that survive: non-blank ones, stripped, in order. */
  function Kept(inputs: seq<string>): seq<string>
    decreases |inputs|
  {
    if inputs == [] then []
    else (if Text.Blank(inputs[0]) then [] else [Text.Trim(inputs[0])]) + Kept(inputs[1..])
  }

  /** After a run of add-item posts the order holds the items it had (none
      when the list was unset, as after a submission or a cancel) followed by
      exactly the non-blank inputs, stripped and in posting order; blank
      inputs were no-ops, and the list is unset only if it was and nothing
      was kept. */
  lemma {:induction false} AddItemsAccumulate(sess: Session, st: Store, inputs: seq<string>)
    ensures AddItems(sess, st, inputs).orderItems.GetOr([]) == sess.orderItems.GetOr([]) + Kept(inputs)
    ensures AddItems(sess, st, inputs).orderItems.None? <==> sess.orderItems.None? && Kept(inputs) == []
    ensures AddItems(sess, st, inputs).shopId == sess.shopId
    ensures AddItems(sess, st, inputs).customerName == sess.customerName
    decreases |inputs|
  {
    if inputs == [] {
      assert sess.orderItems.GetOr([]) + Kept(inputs) == sess.orderItems.GetOr([]);
    } else {
      var next := AddItem(sess, st, Some(inputs[0])).session;
      AddItemsAccumulate(next, st, inputs[1..]);
      var k := if Text.Blank(inputs[0]) then [] else [Text.Trim(inputs[0])];
      if Text.Blank(inputs[0]) {
        assert next == sess;
        assert sess.orderItems.GetOr([]) + k == sess.orderItems.GetOr([]);
      } else {
        assert next.orderItems == Some(sess.orderItems.GetOr([]) + k);
      }
      assert Kept(inputs) == k + Kept(inputs[1..]);
      assert sess.orderItems.GetOr([]) + k + Kept(inputs[1..]) == sess.orderItems.GetOr([]) + (k + Kept(inputs[1..]));
    }
  }

  /** Cancelling and then adding starts a fresh order: the list holds exactly
      the kept inputs, whatever it held before the cancel. */
  lemma AddAfterCancel(sess: Session, st: Store, inputs: seq<string>)
    ensures AddItems(CancelOrder(sess, st).session, st, inputs).orderItems.GetOr([]) == Kept(inputs)
  {
    AddItemsAccumulate(CancelOrder(sess, st).session, st, inputs);
  }

  /** A submitted order reads back with the items the customer added, as
      long as none of them contains a comma. */
  lemma SubmittedItemsReadBack(sess: Session, st: Store)
    requires WellFormed(sess) && Started(sess)
    requires sess.orderItems.GetOr([]) != []
    requires forall i :: 0 <= i < |sess.orderItems.value| ==> ItemsCodec.Sep !in sess.orderItems.value[i]
    ensures var out := ConfirmOrder(sess, st);
      ItemsCodec.Decode(out.store.rows[|st.rows|].items) == sess.orderItems.value
  {
    ItemsCodec.RoundTripPlainItems(sess.orderItems.value);
  }
}

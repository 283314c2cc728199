/** The shopkeeper routes: log in with a shop id, see that shop's orders
    split into pending and confirmed, confirm one, log out. */
module Shopkeeper {

  import opened Wrappers
  import Text
  import Decimal
  import opened OrderStore
  import opened Web

  /** `shopkeeper_dashboard`, the login post: any non-blank shop id is
      accepted (there is no credential) and written, stripped, into the
      session's shared shop slot. Nothing else in the session changes. */
  function Login(sess: Session, st: Store, shopField: Option<string>): (out: Step)
    ensures out.store == st
    ensures Text.Blank(shopField.GetOr([])) ==> out == Step(sess, st, BadRequest)
    ensures !Text.Blank(shopField.GetOr([])) ==>
      && out.session == sess.(shopId := Some(Text.Trim(shopField.value)))
      && out.response == Redirect(ShopkeeperOrders)
  {
    var shop := Text.Trim(shopField.GetOr([]));
    if shop == [] then Step(sess, st, BadRequest)
    else Step(sess.(shopId := Some(shop)), st, Redirect(ShopkeeperOrders))
  }

  /** Splitting off the first entry: every other entry is in the rest, and
      in a newest-first list the rest is older. */
  lemma TailOf(vs: seq<OrderView>)
    requires vs != []
    ensures forall v :: v in vs <==> v == vs[0] || v in vs[1..]
    ensures NewestFirst(vs) ==> NewestFirst(vs[1..])
    ensures NewestFirst(vs) ==> forall v :: v in vs[1..] ==> v.id < vs[0].id
  {
    assert vs == [vs[0]] + vs[1..];
    if NewestFirst(vs) {
      forall v | v in vs[1..] ensures v.id < vs[0].id {
        var k :| 0 <= k < |vs[1..]| && vs[1..][k] == v;
        assert vs[k + 1] == v;
      }
    }
  }

  /** The list comprehension `[o for o in orders if o['status'] == s]`. */
  function WithStatus(vs: seq<OrderView>, s: Status): (r: seq<OrderView>)
    ensures forall v :: v in r <==> v in vs && v.status == s
    ensures NewestFirst(vs) ==> NewestFirst(r)
    decreases |vs|
  {
    if vs == [] then []
    else
      var rest := WithStatus(vs[1..], s);
      TailOf(vs);
      if vs[0].status == s then
        assert forall j :: 0 <= j < |rest| ==> rest[j] in rest;
        [vs[0]] + rest
      else
        rest
  }

  lemma WithStatusFirst(vs: seq<OrderView>, s: Status)
    requires vs != []
    ensures WithStatus(vs, s) == (if vs[0].status == s then [vs[0]] else []) + WithStatus(vs[1..], s)
  {
    if vs[0].status != s {
      assert [] + WithStatus(vs[1..], s) == WithStatus(vs[1..], s);
    }
  }

  /** The pending and the confirmed list together hold every order exactly
      as often as the full list does. */
  lemma {:induction false} StatusPartition(vs: seq<OrderView>)
    ensures multiset(WithStatus(vs, Pending)) + multiset(WithStatus(vs, Confirmed)) == multiset(vs)
    decreases |vs|
  {
    if vs != [] {
      StatusPartition(vs[1..]);
      WithStatusFirst(vs, Pending);
      WithStatusFirst(vs, Confirmed);
      var head := [vs[0]];
      assert vs == head + vs[1..];
      assert multiset(vs) == multiset(head) + multiset(vs[1..]);
      var p: seq<OrderView> := if vs[0].status == Pending then head else [];
      var c: seq<OrderView> := if vs[0].status == Confirmed then head else [];
      assert multiset(p) + multiset(c) == multiset(head);
    }
  }

  /** `shopkeeper_view_orders`: without a shop in the session, back to the
      login page; otherwise that shop's orders, the pending ones and the
      confirmed ones, each list newest first. */
  function ViewOrders(sess: Session, st: Store): (out: Step)
    ensures out.session == sess && out.store == st
    ensures out.response == Redirect(ShopkeeperLogin) <==> sess.shopId.None?
    ensures sess.shopId.Some? ==>
      && out.response.Ok? && out.response.body.Dashboard?
      && out.response.body.shopId == sess.shopId.value
      && (var d := out.response.body;
          var all := OrdersByShop(st, sess.shopId.value);
          && multiset(d.pending) + multiset(d.confirmed) == multiset(all)
          && (forall v :: v in d.pending <==> v in all && v.status == Pending)
          && (forall v :: v in d.confirmed <==> v in all && v.status == Confirmed)
          && (Valid(st) ==> NewestFirst(d.pending) && NewestFirst(d.confirmed)))
  {
    match sess.shopId
    case None => Step(sess, st, Redirect(ShopkeeperLogin))
    case Some(shop) =>
      var all := OrdersByShop(st, shop);
      StatusPartition(all);
      Step(sess, st, Ok(Dashboard(shop, WithStatus(all, Pending), WithStatus(all, Confirmed))))
  }

  /** `shopkeeper_confirm_order_route`. Missing fields give 400 and a session
      shop other than the posted one gives 403, both leaving the table alone.
      Otherwise the posted id is confirmed: the check compares the posted
      shop with the session's, never with the shop of the row confirmed. */
  function ConfirmRoute(sess: Session, st: Store, orderField: Option<string>, shopField: Option<string>): (out: Step)
    ensures out.session == sess
    ensures out.response == BadRequest <==> Missing(orderField) || Missing(shopField)
    ensures out.response == Forbidden <==>
      !Missing(orderField) && !Missing(shopField) && sess.shopId != Some(shopField.value)
    ensures out.response == BadRequest || out.response == Forbidden ==> out.store == st
    ensures out.response != BadRequest && out.response != Forbidden ==>
      && out.response == Redirect(ShopkeeperOrders)
      && out.store == ConfirmSelected(st, Decimal.Parse(orderField.value))
  {
    if Missing(orderField) || Missing(shopField) then Step(sess, st, BadRequest)
    else if sess.shopId.None? || sess.shopId.value != shopField.value then Step(sess, st, Forbidden)
    else Step(sess, ConfirmSelected(st, Decimal.Parse(orderField.value)), Redirect(ShopkeeperOrders))
  }

  /** `shopkeeper_logout`: clears the shop slot only. */
  function Logout(sess: Session, st: Store): (out: Step)
    ensures out.store == st && out.response == Redirect(ShopkeeperLogin)
    ensures out.session.shopId.None?
    ensures out.session.customerName == sess.customerName && out.session.orderItems == sess.orderItems
  {
    Step(sess.(shopId := None), st, Redirect(ShopkeeperLogin))
  }

  /** Posting the confirm form the dashboard prints for a row (its id, the
      session's shop) confirms that row and changes nothing else. */
  lemma ConfirmButton(sess: Session, st: Store, k: nat)
    requires Valid(st) && k < |st.rows|
    requires sess.shopId.Some? && sess.shopId.value != []
    ensures var out := ConfirmRoute(sess, st, Some(Decimal.Show(st.rows[k].id)), sess.shopId);
      && out.response == Redirect(ShopkeeperOrders)
      && out.store.nextId == st.nextId && |out.store.rows| == |st.rows|
      && out.store.rows[k] == st.rows[k].(status := Confirmed)
      && forall i :: 0 <= i < |st.rows| && i != k ==> out.store.rows[i] == st.rows[i]
  {
    Decimal.ParseShow(st.rows[k].id);
    ConfirmOneRow(st, k);
  }

  /** The authorization gap: a shopkeeper logged in for one shop confirms an
      order that belongs to another shop, by posting its id together with
      their own shop id. */
  lemma CrossShopConfirm(sess: Session, st: Store, k: nat)
    requires Valid(st) && k < |st.rows|
    requires sess.shopId.Some? && sess.shopId.value != []
    requires st.rows[k].shopId != sess.shopId.value
    ensures var out := ConfirmRoute(sess, st, Some(Decimal.Show(st.rows[k].id)), sess.shopId);
      && out.response == Redirect(ShopkeeperOrders)
      && out.store.rows[k].status == Confirmed
      && out.store.rows[k].shopId != sess.shopId.value
  {
    ConfirmButton(sess, st, k);
  }
}

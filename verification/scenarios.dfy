/** Worked examples: one customer order and what each shopkeeper can do
    with it. */
module Scenarios {

  import opened Wrappers
  import Text
  import ItemsCodec
  import Decimal
  import opened OrderStore
  import opened Web
  import opened App
  import Customer
  import Shopkeeper

  const AliceRequests: seq<Request> :=
    [PostStartOrder(Some("S1"), Some("Alice")), PostAddItem(Some("Tea")), PostAddItem(Some("Cake")), PostConfirmOrder]

  /** The row Alice's order becomes in a fresh table. */
  const AliceRow: Order := Order(1, "S1", "Alice", "Tea,Cake", Pending)

  const AliceTable: Store := Store([AliceRow], 2)

  lemma AliceStarts()
    ensures Customer.StartOrder(NoSession, Empty, Some("S1"), Some("Alice")).session
         == Session(Some("S1"), Some("Alice"), Some([]))
  {
    Text.TrimTight("S1");
    Text.TrimTight("Alice");
  }

  lemma AliceAddsTea(st: Store)
    ensures Customer.AddItem(Session(Some("S1"), Some("Alice"), Some([])), st, Some("Tea")).session
         == Session(Some("S1"), Some("Alice"), Some(["Tea"]))
  {
    Text.TrimTight("Tea");
    assert [] + ["Tea"] == ["Tea"];
  }

  lemma AliceAddsCake(st: Store)
    ensures Customer.AddItem(Session(Some("S1"), Some("Alice"), Some(["Tea"])), st, Some("Cake")).session
         == Session(Some("S1"), Some("Alice"), Some(["Tea", "Cake"]))
  {
    Text.TrimTight("Cake");
    assert ["Tea"] + ["Cake"] == ["Tea", "Cake"];
  }

  lemma AliceSubmits()
    ensures var out := Customer.ConfirmOrder(Session(Some("S1"), Some("Alice"), Some(["Tea", "Cake"])), Empty);
      out.store == AliceTable && out.session == Session(Some("S1"), Some("Alice"), None)
  {
    assert ItemsCodec.Encode(["Tea", "Cake"]) == "Tea,Cake";
  }

  /** A customer at shop "S1" named "Alice" orders tea and cake: the table
      then holds exactly one row, pending, and her session keeps the shop
      and name but no items. */
  lemma AliceOrders()
    ensures Run(NoSession, Empty, AliceRequests) == (Session(Some("S1"), Some("Alice"), None), AliceTable)
  {
    AliceStarts();
    AliceAddsTea(Empty);
    AliceAddsCake(Empty);
    AliceSubmits();
    assert AliceRequests[1..][1..][1..][1..] == [];
  }

  lemma TeaCakeDecodes()
    ensures ItemsCodec.Decode("Tea,Cake") == ["Tea", "Cake"]
  {
    ItemsCodec.SplitFirst("Tea", "Cake");
    ItemsCodec.SplitPlain("Cake");
    assert "Tea,Cake" == "Tea" + [ItemsCodec.Sep] + "Cake";
  }

  lemma SingleRowReadBack(o: Order, nextId: nat)
    ensures OrdersByShop(Store([o], nextId), o.shopId) == [View(o)]
  {
    assert Select([o], o.shopId) == [o];
    var vs := OrdersByShop(Store([o], nextId), o.shopId);
    assert |vs| == 1 && vs[0] == View(o);
  }

  /** Alice's row reads back, for shop "S1", with both items in order. */
  lemma AliceReadBack()
    ensures OrdersByShop(AliceTable, "S1") == [AliceView]
  {
    TeaCakeDecodes();
    SingleRowReadBack(AliceRow, 2);
  }

  lemma WithStatusSingle(v: OrderView, s: Status)
    ensures Shopkeeper.WithStatus([v], s) == if v.status == s then [v] else []
  {
    assert [v][1..] == [];
  }

  const AliceView: OrderView := OrderView(1, "Alice", ["Tea", "Cake"], Pending)

  /** The shopkeeper of "S1" sees Alice's order as pending. */
  lemma ShopOneSeesPending()
    ensures var body := Shopkeeper.ViewOrders(Session(Some("S1"), None, None), AliceTable).response.body;
      body.pending == [AliceView] && body.confirmed == []
  {
    AliceReadBack();
    WithStatusSingle(AliceView, Pending);
    WithStatusSingle(AliceView, Confirmed);
  }

  /** Pressing that order's confirm button flips its status. */
  lemma ShopOneConfirms()
    ensures Shopkeeper.ConfirmRoute(Session(Some("S1"), None, None), AliceTable, Some("1"), Some("S1")).store
         == Store([AliceRow.(status := Confirmed)], 2)
  {
    assert Decimal.Parse("1") == Some(1);
    var out := Shopkeeper.ConfirmRoute(Session(Some("S1"), None, None), AliceTable, Some("1"), Some("S1"));
    assert out.store.rows[0] == AliceRow.(status := Confirmed);
  }

  lemma ConfirmedReadBack()
    ensures OrdersByShop(Store([AliceRow.(status := Confirmed)], 2), "S1") == [AliceView.(status := Confirmed)]
  {
    TeaCakeDecodes();
    SingleRowReadBack(AliceRow.(status := Confirmed), 2);
  }

  /** Afterwards the dashboard lists it as confirmed and nothing as pending. */
  lemma ShopOneSeesConfirmed()
    ensures var body := Shopkeeper.ViewOrders(Session(Some("S1"), None, None), Store([AliceRow.(status := Confirmed)], 2)).response.body;
      body.pending == [] && body.confirmed == [AliceView.(status := Confirmed)]
  {
    ConfirmedReadBack();
    WithStatusSingle(AliceView.(status := Confirmed), Pending);
    WithStatusSingle(AliceView.(status := Confirmed), Confirmed);
  }

  /** A shopkeeper logged in as "S2" who posts Alice's order with shop "S1"
      is refused, and the table is unchanged. */
  lemma ShopTwoRefused()
    ensures var out := Shopkeeper.ConfirmRoute(Session(Some("S2"), None, None), AliceTable, Some("1"), Some("S1"));
      out.response == Forbidden && out.store == AliceTable
  {
  }
}

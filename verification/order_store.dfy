/** The orders table: append-only creation, a newest-first read filtered by
    shop, and a status flip from pending to confirmed. */
module OrderStore {

  import opened Wrappers
  import Text
  import ItemsCodec

  /** The `status` column, which the table constrains to two values. */
  datatype Status = Pending | Confirmed

  /** One row. `items` holds the column text, i.e. the encoded item list. */
  datatype Order = Order(id: nat, shopId: string, customerName: string, items: string, status: Status)

  /** The table, rows in insertion order, and the id AUTOINCREMENT hands out next. */
  datatype Store = Store(rows: seq<Order>, nextId: nat)

  /** A newly created table: AUTOINCREMENT starts at 1. */
  const Empty: Store := Store([], 1)

  predicate Increasing(rows: seq<Order>) {
    forall i, j :: 0 <= i < j < |rows| ==> rows[i].id < rows[j].id
  }

  predicate Decreasing(rows: seq<Order>) {
    forall i, j :: 0 <= i < j < |rows| ==> rows[i].id > rows[j].id
  }

  /** What AUTOINCREMENT guarantees: ids are positive, below the counter and
      increase in insertion order (so no two rows share an id). */
  predicate Valid(st: Store) {
    && st.nextId >= 1
    && (forall i :: 0 <= i < |st.rows| ==> 1 <= st.rows[i].id < st.nextId)
    && Increasing(st.rows)
  }

  /** Every row was written by a customer submission: shop and customer are
      stripped non-empty text, and at least one item was stored. */
  predicate Populated(st: Store) {
    forall i :: 0 <= i < |st.rows| ==>
      && Text.Stripped(st.rows[i].shopId)
      && Text.Stripped(st.rows[i].customerName)
      && st.rows[i].items != []
  }

  /** Two rows agree on everything but their status. */
  predicate SameOrder(a: Order, b: Order) {
    a.id == b.id && a.shopId == b.shopId && a.customerName == b.customerName && a.items == b.items
  }

  /** How the table may change: rows are only appended, every existing row
      keeps all fields but its status, and a confirmed row stays confirmed. */
  predicate Evolves(st: Store, st': Store) {
    && |st.rows| <= |st'.rows|
    && st.nextId <= st'.nextId
    && forall i :: 0 <= i < |st.rows| ==>
         && SameOrder(st.rows[i], st'.rows[i])
         && (st.rows[i].status == Confirmed ==> st'.rows[i].status == Confirmed)
  }

  lemma EvolvesTransitive(a: Store, b: Store, c: Store)
    requires Evolves(a, b) && Evolves(b, c)
    ensures Evolves(a, c)
  {
  }

  /** `save_order`: inserts one pending row with a fresh id; every existing
      row is left as it was. */
  function Save(st: Store, shopId: string, customerName: string, items: seq<string>): (st': Store)
    ensures |st'.rows| == |st.rows| + 1
    ensures st'.rows[..|st.rows|] == st.rows
    ensures var o := st'.rows[|st.rows|];
      && o.shopId == shopId && o.customerName == customerName
      && o.items == ItemsCodec.Encode(items) && o.status == Pending
    ensures Valid(st) ==> Valid(st')
    ensures Valid(st) ==> forall i :: 0 <= i < |st.rows| ==> st.rows[i].id < st'.rows[|st.rows|].id
    ensures Evolves(st, st')
  {
    var o := Order(st.nextId, shopId, customerName, ItemsCodec.Encode(items), Pending);
    var st' := Store(st.rows + [o], st.nextId + 1);
    assert forall i :: 0 <= i < |st.rows| ==> st'.rows[i] == st.rows[i];
    st'
  }

  /** Splitting off the newest row: every other row is in the rest, and in
      insertion order the rest is older. */
  lemma InitOf(rows: seq<Order>)
    requires rows != []
    ensures var init := rows[..|rows| - 1];
      && (forall o :: o in rows <==> o in init || o == rows[|rows| - 1])
      && (Increasing(rows) ==> Increasing(init))
      && (Increasing(rows) ==> forall o :: o in init ==> o.id < rows[|rows| - 1].id)
  {
    var init := rows[..|rows| - 1];
    assert rows == init + [rows[|rows| - 1]];
    if Increasing(rows) {
      forall o | o in init ensures o.id < rows[|rows| - 1].id {
        var k :| 0 <= k < |init| && init[k] == o;
        assert rows[k] == o;
      }
    }
  }

  /** The rows of one shop, newest first: `WHERE shop_id=? ORDER BY id DESC`
      over rows held in insertion order. */
  function Select(rows: seq<Order>, shopId: string): (r: seq<Order>)
    ensures forall o :: o in r <==> o in rows && o.shopId == shopId
    ensures Increasing(rows) ==> Decreasing(r)
  {
    if rows == [] then []
    else
      var last := rows[|rows| - 1];
      var rest := Select(rows[..|rows| - 1], shopId);
      InitOf(rows);
      if last.shopId == shopId then
        assert forall j :: 0 <= j < |rest| ==> rest[j] in rest;
        [last] + rest
      else
        rest
  }

  /** A row as `get_orders_by_shop` hands it out: the shop column is not
      selected and the items text is split back into a list. */
  datatype OrderView = OrderView(id: nat, customerName: string, items: seq<string>, status: Status)

  function View(o: Order): (v: OrderView)
    ensures v.id == o.id && v.customerName == o.customerName && v.status == o.status
    ensures v.items == [] <==> o.items == []
    ensures ItemsCodec.Encode(v.items) == o.items
    ensures forall i :: 0 <= i < |v.items| ==> ItemsCodec.Sep !in v.items[i]
  {
    OrderView(o.id, o.customerName, ItemsCodec.Decode(o.items), o.status)
  }

  predicate NewestFirst(vs: seq<OrderView>) {
    forall i, j :: 0 <= i < j < |vs| ==> vs[i].id > vs[j].id
  }

  /** Facts about reading a list of rows entry by entry. */
  lemma ViewsOf(os: seq<Order>, vs: seq<OrderView>)
    requires |vs| == |os| && forall i :: 0 <= i < |os| ==> vs[i] == View(os[i])
    ensures forall o :: o in os ==> View(o) in vs
    ensures forall i :: 0 <= i < |vs| ==> os[i] in os && vs[i] == View(os[i])
    ensures Decreasing(os) ==> NewestFirst(vs)
  {
    forall o | o in os ensures View(o) in vs {
      var k :| 0 <= k < |os| && os[k] == o;
      assert vs[k] == View(o);
    }
  }

  /** `get_orders_by_shop`: one entry per row of the shop and nothing else,
      newest first, each entry's items decoding its row's column text. */
  function OrdersByShop(st: Store, shopId: string): (vs: seq<OrderView>)
    ensures forall o :: o in st.rows && o.shopId == shopId ==> View(o) in vs
    ensures forall i :: 0 <= i < |vs| ==>
      exists o :: o in st.rows && o.shopId == shopId && vs[i] == View(o)
    ensures Valid(st) ==> NewestFirst(vs)
  {
    var sel := Select(st.rows, shopId);
    var vs := seq(|sel|, i requires 0 <= i < |sel| => View(sel[i]));
    ViewsOf(sel, vs);
    vs
  }

  /** In a strictly newest-first list the head is the newest row of all. */
  lemma HeadIsNewest(a: seq<Order>, o: Order)
    requires Decreasing(a) && o in a
    ensures o == a[0] || o.id < a[0].id
  {
    var k :| 0 <= k < |a| && a[k] == o;
  }

  /** Dropping the head of a strictly newest-first list drops exactly it. */
  lemma TailMembers(a: seq<Order>)
    requires Decreasing(a) && a != []
    ensures forall o :: o in a[1..] <==> o in a && o != a[0]
  {
    forall o ensures o in a[1..] <==> o in a && o != a[0] {
      if o in a[1..] {
        var i :| 0 <= i < |a[1..]| && a[1..][i] == o;
        assert a[i + 1] == o;
      }
      if o in a && o != a[0] {
        var j :| 0 <= j < |a| && a[j] == o;
        assert a[1..][j - 1] == o;
      }
    }
  }

  /** A strictly newest-first list is fixed by which rows it holds: so
      `Select` is the only answer `ORDER BY id DESC` can give. */
  lemma {:induction false} DecreasingUnique(a: seq<Order>, b: seq<Order>)
    requires Decreasing(a) && Decreasing(b)
    requires forall o :: o in a <==> o in b
    ensures a == b
    decreases |a|
  {
    assert |b| == 0 || b[0] in a;
    if a != [] {
      assert a[0] in b;
      assert b[0] in a;
      HeadIsNewest(a, b[0]);
      HeadIsNewest(b, a[0]);
      TailMembers(a);
      TailMembers(b);
      DecreasingUnique(a[1..], b[1..]);
      assert a == [a[0]] + a[1..];
      assert b == [b[0]] + b[1..];
    }
  }

  /** `Select` is exactly the ordered query result: any newest-first list of
      precisely that shop's rows is equal to it. */
  lemma SelectIsOrderedQuery(st: Store, shopId: string, r: seq<Order>)
    requires Valid(st)
    requires Decreasing(r)
    requires forall o :: o in r <==> o in st.rows && o.shopId == shopId
    ensures r == Select(st.rows, shopId)
  {
    DecreasingUnique(r, Select(st.rows, shopId));
  }

  /** `confirm_order`: the rows with the given id become confirmed; every
      other row, every other field and the id counter are untouched. */
  function Confirm(st: Store, id: nat): (st': Store)
    ensures st'.nextId == st.nextId && |st'.rows| == |st.rows|
    ensures forall i :: 0 <= i < |st.rows| ==>
      && SameOrder(st.rows[i], st'.rows[i])
      && (st.rows[i].id == id ==> st'.rows[i].status == Confirmed)
      && (st.rows[i].id != id ==> st'.rows[i] == st.rows[i])
    ensures Evolves(st, st')
  {
    Store(seq(|st.rows|, i requires 0 <= i < |st.rows| =>
                var o := st.rows[i];
                if o.id == id then o.(status := Confirmed) else o),
          st.nextId)
  }

  /** The `UPDATE` run with the id the posted text parses to, if any: the rows
      carrying that id become confirmed, and when the text names no id no row
      matches the `WHERE` and nothing changes. */
  function ConfirmSelected(st: Store, id: Option<nat>): (st': Store)
    ensures st'.nextId == st.nextId && |st'.rows| == |st.rows|
    ensures forall i :: 0 <= i < |st.rows| ==>
      && SameOrder(st.rows[i], st'.rows[i])
      && (if id == Some(st.rows[i].id) then st'.rows[i].status == Confirmed
          else st'.rows[i] == st.rows[i])
    ensures Evolves(st, st')
  {
    match id
    case None => st
    case Some(n) => Confirm(st, n)
  }

  /** Confirming preserves the table's invariants. */
  lemma ConfirmValid(st: Store, id: nat)
    requires Valid(st)
    ensures Valid(Confirm(st, id))
  {
  }

  /** In a valid table an id names at most one row: confirming it changes
      that row's status and nothing else at all. */
  lemma ConfirmOneRow(st: Store, k: nat)
    requires Valid(st) && k < |st.rows|
    ensures var st' := Confirm(st, st.rows[k].id);
      && st'.rows[k] == st.rows[k].(status := Confirmed)
      && forall i :: 0 <= i < |st.rows| && i != k ==> st'.rows[i] == st.rows[i]
  {
    var st' := Confirm(st, st.rows[k].id);
    forall i | 0 <= i < |st.rows| && i != k ensures st'.rows[i] == st.rows[i] {
      assert st.rows[i].id != st.rows[k].id;
    }
  }

  /** Confirming the same id twice is confirming it once. */
  lemma ConfirmIdempotent(st: Store, id: nat)
    ensures Confirm(Confirm(st, id), id) == Confirm(st, id)
  {
  }

  /** Confirming an id no row carries leaves the table as it was. */
  lemma ConfirmAbsent(st: Store, id: nat)
    requires forall i :: 0 <= i < |st.rows| ==> st.rows[i].id != id
    ensures Confirm(st, id) == st
  {
  }
}

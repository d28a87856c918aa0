/** `OrderController`: listing orders with their customer, deliveryman and
    items, and the insert, update and delete of an order together with its
    order lines. */
module OrderController {
  import opened Common
  import opened Schema
  import opened Sql
  import opened Store
  import CustomerController
  import DeliverymanController
  import ItemController

  /** An order object: its columns, the customer and deliveryman it was
      resolved to (null when the lookup found nothing), and its items. The
      same shape is read by `getAllOrders` and passed to `addOrder` and
      `updateOrder`. */
  datatype Order = Order(
    id: int,
    totalPrice: Price,
    date: Day,
    customer: Option<Customer>,
    deliveryman: Option<Deliveryman>,
    items: seq<Item>)

  /** What an operation does besides changing the tables: return normally
      (SQL errors are caught and logged), or let a `NullPointerException`
      escape because the order has no customer or no deliveryman. */
  datatype Completion = Normal | NullPointer

  // ---------------------------------------------------------------------------
  // getAllOrders
  // ---------------------------------------------------------------------------

  /** One row of `orders o JOIN order_item oi ON o.id = oi.order_id`:
      the order's columns and the item id of one of its lines. */
  datatype OrderItemRow = OrderItemRow(
    orderId: int, totalPrice: Price, date: Day, customerId: int, deliverymanId: Option<int>, itemId: int)

  function JoinedRow(o: OrderRow, l: OrderItem): OrderItemRow
  {
    OrderItemRow(o.id, o.totalPrice, o.date, o.customerId, o.deliverymanId, l.itemId)
  }

  /** The rows order line `l` contributes to the inner join. */
  function RowsForLink(orders: seq<OrderRow>, l: OrderItem): seq<OrderItemRow>
  {
    if orders == [] then []
    else (if orders[0].id == l.orderId then [JoinedRow(orders[0], l)] else []) + RowsForLink(orders[1..], l)
  }

  /** The inner join: an order without lines yields no row at all. */
  function OrderItemJoin(orders: seq<OrderRow>, links: seq<OrderItem>): seq<OrderItemRow>
  {
    if links == [] then [] else RowsForLink(orders, links[0]) + OrderItemJoin(orders, links[1..])
  }

  /** `ResultSet.getInt` reads a NULL column as 0. */
  function NullAsZero(v: Option<int>): int
  {
    if v.Some? then v.value else 0
  }

  /** The order object built for a row on first sight of its order id, before
      any item is added: the customer and deliveryman are looked up by the ids
      the row carries, a NULL deliveryman id being looked up as 0. */
  function RowHeader(t: Tables, r: OrderItemRow): Order
  {
    Order(r.orderId, r.totalPrice, r.date,
          CustomerController.GetCustomerById(t, r.customerId),
          DeliverymanController.GetDeliverymanById(t, NullAsZero(r.deliverymanId)),
          [])
  }

  /** The same, for an order row of the table. */
  function HeaderOf(t: Tables, o: OrderRow): Order
  {
    Order(o.id, o.totalPrice, o.date,
          CustomerController.GetCustomerById(t, o.customerId),
          DeliverymanController.GetDeliverymanById(t, NullAsZero(o.deliverymanId)),
          [])
  }

  /** The item a lookup found, as a bag: nothing when it found nothing. */
  function ItemBag(x: Option<Item>): multiset<Item>
  {
    if x.Some? then multiset{x.value} else multiset{}
  }

  /** What one joined row adds to the items of order `k`. */
  function RowItemFor(t: Tables, k: int): OrderItemRow -> multiset<Item>
  {
    (r: OrderItemRow) => if r.orderId == k then ItemBag(ItemController.GetItemById(t, r.itemId)) else multiset{}
  }

  /** What one order line adds to the items of order `k`. */
  function LinkItemFor(t: Tables, k: int): OrderItem -> multiset<Item>
  {
    (l: OrderItem) => if l.orderId == k then ItemBag(ItemController.GetItemById(t, l.itemId)) else multiset{}
  }

  /** The items of order `k`: one per order line, each resolved by its item id. */
  function ItemsOfOrder(t: Tables, k: int): multiset<Item>
  {
    Gather(t.orderItem, LinkItemFor(t, k))
  }

  lemma {:induction false} RowsForLinkMembers(orders: seq<OrderRow>, l: OrderItem)
    ensures forall r :: r in RowsForLink(orders, l) <==> exists o :: o in orders && o.id == l.orderId && r == JoinedRow(o, l)
    decreases |orders|
  {
    if orders != [] {
      RowsForLinkMembers(orders[1..], l);
      assert orders == [orders[0]] + orders[1..];
    }
  }

  /** The join holds exactly the pairs of an order and one of its lines. */
  lemma {:induction false} JoinMembers(orders: seq<OrderRow>, links: seq<OrderItem>)
    ensures forall r :: r in OrderItemJoin(orders, links)
              <==> exists o, l :: o in orders && l in links && o.id == l.orderId && r == JoinedRow(o, l)
    decreases |links|
  {
    if links != [] {
      JoinMembers(orders, links[1..]);
      RowsForLinkMembers(orders, links[0]);
      assert links == [links[0]] + links[1..];
    }
  }

  /** Under a primary key an order line joins with exactly one order. */
  lemma {:induction false} RowsForLinkSingle(orders: seq<OrderRow>, l: OrderItem, o: OrderRow)
    requires UniqueBy(orders, OrderKey)
    requires o in orders && o.id == l.orderId
    ensures RowsForLink(orders, l) == [JoinedRow(o, l)]
    decreases |orders|
  {
    var tail := orders[1..];
    UniqueTail(orders, OrderKey);
    if orders[0].id == l.orderId {
      UniqueByMembers(orders, OrderKey, orders[0], o);
      KeyInCons(orders, OrderKey, l.orderId);
      RowsForLinkMembers(tail, l);
      if RowsForLink(tail, l) != [] {
        assert RowsForLink(tail, l)[0] in RowsForLink(tail, l);
        assert false;
      }
    } else {
      assert o in tail by {
        assert orders == [orders[0]] + tail;
      }
      RowsForLinkSingle(tail, l, o);
    }
  }

  /** Under a primary key, with every line naming an existing order, the join
      attaches to order `k` exactly the items of its lines. */
  lemma {:induction false} JoinItems(t: Tables, orders: seq<OrderRow>, links: seq<OrderItem>, k: int)
    requires UniqueBy(orders, OrderKey)
    requires forall l | l in links :: HasKey(orders, OrderKey, l.orderId)
    ensures Gather(OrderItemJoin(orders, links), RowItemFor(t, k)) == Gather(links, LinkItemFor(t, k))
    decreases |links|
  {
    if links != [] {
      var l := links[0];
      assert l in links;
      var o :| o in orders && OrderKey(o) == l.orderId;
      RowsForLinkSingle(orders, l, o);
      assert forall l' | l' in links[1..] :: l' in links;
      JoinItems(t, orders, links[1..], k);
      GatherAppend(RowsForLink(orders, l), OrderItemJoin(orders, links[1..]), RowItemFor(t, k));
      assert [JoinedRow(o, l)][1..] == [];
    }
  }

  /** The items the map holds for order `k`. */
  function ItemsIn(byId: map<int, Order>, k: int): seq<Item>
  {
    if k in byId then byId[k].items else []
  }

  /** One turn of the loop: look up the row's order, creating it on first
      sight, then add the row's item if the item lookup finds it. */
  function AddJoinedRow(t: Tables, byId: map<int, Order>, r: OrderItemRow): map<int, Order>
  {
    var order := if r.orderId in byId then byId[r.orderId] else RowHeader(t, r);
    var item := ItemController.GetItemById(t, r.itemId);
    byId[r.orderId := if item.Some? then order.(items := order.items + [item.value]) else order]
  }

  /** Every order object sits under its id and was built from the first row
      read for that id. */
  ghost predicate HeadersFromRows(t: Tables, byId: map<int, Order>, rows: seq<OrderItemRow>)
  {
    forall k | k in byId ::
      byId[k].id == k && exists j :: FirstRowOf(rows, k, j) && byId[k].(items := []) == RowHeader(t, rows[j])
  }

  /** `rows[j]` is the first row read for order `k`. */
  ghost predicate FirstRowOf(rows: seq<OrderItemRow>, k: int, j: int)
  {
    0 <= j < |rows| && rows[j].orderId == k && forall i | 0 <= i < j :: rows[i].orderId != k
  }

  /** Every row read has an object for its order. */
  ghost predicate JoinRowsCovered(byId: map<int, Order>, rows: seq<OrderItemRow>)
  {
    forall j | 0 <= j < |rows| :: rows[j].orderId in byId
  }

  /** Every order id holds exactly the items the rows read attach to it. */
  ghost predicate ItemsAttached(t: Tables, byId: map<int, Order>, rows: seq<OrderItemRow>)
  {
    forall k :: multiset(ItemsIn(byId, k)) == Gather(rows, RowItemFor(t, k))
  }

  ghost predicate HydratedFrom(t: Tables, byId: map<int, Order>, rows: seq<OrderItemRow>)
  {
    HeadersFromRows(t, byId, rows) && JoinRowsCovered(byId, rows) && ItemsAttached(t, byId, rows)
  }

  lemma HydrateStep(t: Tables, byId: map<int, Order>, rows: seq<OrderItemRow>, r: OrderItemRow)
    requires HydratedFrom(t, byId, rows)
    ensures HydratedFrom(t, AddJoinedRow(t, byId, r), rows + [r])
  {
    HydrateStepHeaders(t, byId, rows, r);
    HydrateStepCovered(t, byId, rows, r);
    forall k ensures multiset(ItemsIn(AddJoinedRow(t, byId, r), k)) == Gather(rows + [r], RowItemFor(t, k)) {
      HydrateStepItemsAt(t, byId, rows, r, k);
    }
  }

  /** A row of an order already seen leaves its header as it was; a row of a
      new order makes the header from that row. */
  lemma HydrateStepHeaders(t: Tables, byId: map<int, Order>, rows: seq<OrderItemRow>, r: OrderItemRow)
    requires HeadersFromRows(t, byId, rows) && JoinRowsCovered(byId, rows)
    ensures HeadersFromRows(t, AddJoinedRow(t, byId, r), rows + [r])
    ensures r.orderId in byId ==> AddJoinedRow(t, byId, r)[r.orderId].(items := []) == byId[r.orderId].(items := [])
    ensures r.orderId !in byId ==> AddJoinedRow(t, byId, r)[r.orderId].(items := []) == RowHeader(t, r)
  {
    var next, rows' := AddJoinedRow(t, byId, r), rows + [r];
    forall k | k in next
      ensures next[k].id == k && exists j :: FirstRowOf(rows', k, j) && next[k].(items := []) == RowHeader(t, rows'[j])
    {
      if k == r.orderId && k !in byId {
        assert rows'[|rows|] == r;
        forall i | 0 <= i < |rows| ensures rows'[i].orderId != k {
          assert rows'[i] == rows[i];
        }
        assert FirstRowOf(rows', k, |rows|);
        assert next[k].(items := []) == RowHeader(t, r);
      } else {
        var j :| FirstRowOf(rows, k, j) && byId[k].(items := []) == RowHeader(t, rows[j]);
        assert forall i | 0 <= i <= j :: rows'[i] == rows[i];
        assert FirstRowOf(rows', k, j);
        assert next[k].(items := []) == byId[k].(items := []);
      }
    }
  }

  lemma HydrateStepCovered(t: Tables, byId: map<int, Order>, rows: seq<OrderItemRow>, r: OrderItemRow)
    requires JoinRowsCovered(byId, rows)
    ensures JoinRowsCovered(AddJoinedRow(t, byId, r), rows + [r])
  {
    var rows' := rows + [r];
    forall j | 0 <= j < |rows'| ensures rows'[j].orderId in AddJoinedRow(t, byId, r) {
      if j < |rows| {
        assert rows'[j] == rows[j];
      }
    }
  }

  lemma HydrateStepItemsAt(t: Tables, byId: map<int, Order>, rows: seq<OrderItemRow>, r: OrderItemRow, k: int)
    requires multiset(ItemsIn(byId, k)) == Gather(rows, RowItemFor(t, k))
    ensures multiset(ItemsIn(AddJoinedRow(t, byId, r), k)) == Gather(rows + [r], RowItemFor(t, k))
  {
    GatherSnoc(rows, r, RowItemFor(t, k));
    var before := ItemsIn(byId, k);
    var after := ItemsIn(AddJoinedRow(t, byId, r), k);
    var item := ItemController.GetItemById(t, r.itemId);
    if k != r.orderId {
      assert after == before;
    } else if item.Some? {
      assert after == before + [item.value];
    } else {
      assert after == before;
    }
  }

  /** The objects held by the map (`map.values()`). */
  function OrdersOf(byId: map<int, Order>): set<Order>
  {
    set k | k in byId :: byId[k]
  }

  /** Reads the joined rows, which the database returns in no particular
      order, into one order object per order id: its columns, its customer and
      deliveryman looked up by id, and the items of its lines, skipping a line
      whose item is not found. Orders without lines are not listed, since the
      join is an inner join. */
  method GetAllOrders(t: Tables, rows: seq<OrderItemRow>) returns (orders: set<Order>)
    requires UniqueBy(t.orders, OrderKey)
    requires forall l | l in t.orderItem :: HasKey(t.orders, OrderKey, l.orderId)
    requires multiset(rows) == multiset(OrderItemJoin(t.orders, t.orderItem))
    ensures forall v | v in orders :: exists o :: o in t.orders && v.(items := []) == HeaderOf(t, o)
    ensures forall o | o in t.orders ::
              (exists v :: v in orders && v.id == o.id) <==> exists l :: l in t.orderItem && l.orderId == o.id
    ensures forall v1, v2 | v1 in orders && v2 in orders && v1.id == v2.id :: v1 == v2
    ensures forall v | v in orders :: multiset(v.items) == ItemsOfOrder(t, v.id)
  {
    var byId := HydrateOrders(t, rows);
    orders := OrdersOf(byId);
    HydratedHeaders(t, rows, byId);
    HydratedCoverage(t, rows, byId);
    HydratedItems(t, rows, byId);
  }

  /** The pass over the joined rows: a map from order id to order object,
      filled row by row. */
  method HydrateOrders(t: Tables, rows: seq<OrderItemRow>) returns (byId: map<int, Order>)
    ensures HydratedFrom(t, byId, rows)
  {
    byId := map[];
    var i := 0;
    while i < |rows|
      invariant 0 <= i <= |rows|
      invariant HydratedFrom(t, byId, rows[..i])
    {
      var r := rows[i];
      var order := if r.orderId in byId then byId[r.orderId] else RowHeader(t, r);
      var item := ItemController.GetItemById(t, r.itemId);
      if item.Some? {
        order := order.(items := order.items + [item.value]);
      }
      HydrateStep(t, byId, rows[..i], r);
      assert rows[..i + 1] == rows[..i] + [r];
      assert byId[r.orderId := order] == AddJoinedRow(t, byId, r);
      byId := byId[r.orderId := order];
      i := i + 1;
    }
    assert rows[..i] == rows;
  }

  /** Every listed object has the columns, customer and deliveryman of a
      stored order. */
  lemma HydratedHeaders(t: Tables, rows: seq<OrderItemRow>, byId: map<int, Order>)
    requires multiset(rows) == multiset(OrderItemJoin(t.orders, t.orderItem))
    requires HeadersFromRows(t, byId, rows)
    ensures forall v | v in OrdersOf(byId) :: exists o :: o in t.orders && v.(items := []) == HeaderOf(t, o)
  {
    JoinMembers(t.orders, t.orderItem);
    forall v | v in OrdersOf(byId) ensures exists o :: o in t.orders && v.(items := []) == HeaderOf(t, o) {
      var k :| k in byId && byId[k] == v;
      var j :| FirstRowOf(rows, k, j) && byId[k].(items := []) == RowHeader(t, rows[j]);
      assert rows[j] in multiset(OrderItemJoin(t.orders, t.orderItem));
      assert rows[j] in OrderItemJoin(t.orders, t.orderItem);
      var o, l :| o in t.orders && l in t.orderItem && o.id == l.orderId && rows[j] == JoinedRow(o, l);
      assert RowHeader(t, rows[j]) == HeaderOf(t, o);
    }
  }

  /** An order is listed iff it has at least one line, and once only. */
  lemma HydratedCoverage(t: Tables, rows: seq<OrderItemRow>, byId: map<int, Order>)
    requires multiset(rows) == multiset(OrderItemJoin(t.orders, t.orderItem))
    requires HydratedFrom(t, byId, rows)
    ensures forall o | o in t.orders ::
              (exists v :: v in OrdersOf(byId) && v.id == o.id) <==> exists l :: l in t.orderItem && l.orderId == o.id
    ensures forall v1, v2 | v1 in OrdersOf(byId) && v2 in OrdersOf(byId) && v1.id == v2.id :: v1 == v2
  {
    JoinMembers(t.orders, t.orderItem);
    forall o | o in t.orders
      ensures (exists v :: v in OrdersOf(byId) && v.id == o.id) <==> exists l :: l in t.orderItem && l.orderId == o.id
    {
      if exists v :: v in OrdersOf(byId) && v.id == o.id {
        ListedHasLine(t, rows, byId, o.id);
      }
      if exists l :: l in t.orderItem && l.orderId == o.id {
        LineIsListed(t, rows, byId, o);
      }
    }
  }

  lemma ListedHasLine(t: Tables, rows: seq<OrderItemRow>, byId: map<int, Order>, id: int)
    requires multiset(rows) == multiset(OrderItemJoin(t.orders, t.orderItem))
    requires HeadersFromRows(t, byId, rows)
    requires forall r :: r in OrderItemJoin(t.orders, t.orderItem)
               <==> exists o, l :: o in t.orders && l in t.orderItem && o.id == l.orderId && r == JoinedRow(o, l)
    requires exists v :: v in OrdersOf(byId) && v.id == id
    ensures exists l :: l in t.orderItem && l.orderId == id
  {
    var v :| v in OrdersOf(byId) && v.id == id;
    var k :| k in byId && byId[k] == v;
    var j :| FirstRowOf(rows, k, j) && byId[k].(items := []) == RowHeader(t, rows[j]);
    assert rows[j] in multiset(OrderItemJoin(t.orders, t.orderItem));
    assert rows[j] in OrderItemJoin(t.orders, t.orderItem);
    var o', l :| o' in t.orders && l in t.orderItem && o'.id == l.orderId && rows[j] == JoinedRow(o', l);
    assert l.orderId == id;
  }

  lemma LineIsListed(t: Tables, rows: seq<OrderItemRow>, byId: map<int, Order>, o: OrderRow)
    requires multiset(rows) == multiset(OrderItemJoin(t.orders, t.orderItem))
    requires HeadersFromRows(t, byId, rows) && JoinRowsCovered(byId, rows)
    requires forall r :: r in OrderItemJoin(t.orders, t.orderItem)
               <==> exists o, l :: o in t.orders && l in t.orderItem && o.id == l.orderId && r == JoinedRow(o, l)
    requires o in t.orders && exists l :: l in t.orderItem && l.orderId == o.id
    ensures exists v :: v in OrdersOf(byId) && v.id == o.id
  {
    var l :| l in t.orderItem && l.orderId == o.id;
    var r := JoinedRow(o, l);
    assert r in OrderItemJoin(t.orders, t.orderItem);
    assert r in multiset(rows);
    var j :| 0 <= j < |rows| && rows[j] == r;
    assert byId[o.id] in OrdersOf(byId);
  }

  /** Each listed object carries the items of all lines of its order; a line
      whose item id is not stored adds nothing. Only the order key and the
      lines' references to orders are needed, not a consistent database. */
  lemma HydratedItems(t: Tables, rows: seq<OrderItemRow>, byId: map<int, Order>)
    requires UniqueBy(t.orders, OrderKey)
    requires forall l | l in t.orderItem :: HasKey(t.orders, OrderKey, l.orderId)
    requires multiset(rows) == multiset(OrderItemJoin(t.orders, t.orderItem))
    requires HydratedFrom(t, byId, rows)
    ensures forall v | v in OrdersOf(byId) :: multiset(v.items) == ItemsOfOrder(t, v.id)
  {
    forall v | v in OrdersOf(byId) ensures multiset(v.items) == ItemsOfOrder(t, v.id) {
      var k :| k in byId && byId[k] == v;
      assert ItemsIn(byId, k) == v.items;
      GatherPermutation(rows, OrderItemJoin(t.orders, t.orderItem), RowItemFor(t, k));
      JoinItems(t, t.orders, t.orderItem, k);
    }
  }

  /** On a consistent database every listed order has its customer, and its
      deliveryman when it has one; an order without a deliveryman is read with
      deliveryman id 0, so it shows no deliveryman unless a deliveryman with
      id 0 exists. Every line's item is found. */
  lemma HydratedReferences(t: Tables, o: OrderRow)
    requires t.Consistent() && o in t.orders
    ensures HeaderOf(t, o).customer.Some? && HeaderOf(t, o).customer.value.id == o.customerId
    ensures o.deliverymanId.Some? ==>
              HeaderOf(t, o).deliveryman.Some? && HeaderOf(t, o).deliveryman.value.id == o.deliverymanId.value
    ensures o.deliverymanId.None? ==> (HeaderOf(t, o).deliveryman.Some? <==> t.HasDeliveryman(0))
    ensures |ItemsOfOrder(t, o.id)| == |Filter(t.orderItem, LinkOf(o.id))|
  {
    LinksResolveToItems(t, t.orderItem, o.id);
  }

  function LinkOf(orderId: int): OrderItem -> bool { (l: OrderItem) => l.orderId == orderId }

  lemma {:induction false} LinksResolveToItems(t: Tables, links: seq<OrderItem>, k: int)
    requires forall l | l in links :: t.HasItem(l.itemId)
    ensures |Gather(links, LinkItemFor(t, k))| == |Filter(links, LinkOf(k))|
    decreases |links|
  {
    if links != [] {
      assert links[0] in links;
      assert forall l | l in links[1..] :: l in links;
      LinksResolveToItems(t, links[1..], k);
    }
  }

  // ---------------------------------------------------------------------------
  // Order lines written by addOrder and updateOrder
  // ---------------------------------------------------------------------------

  /** The order lines for `items`, one per item, in order. */
  function Lines(orderId: int, items: seq<Item>): (r: seq<OrderItem>)
    ensures |r| == |items|
  {
    seq(|items|, i requires 0 <= i < |items| => OrderItem(orderId, items[i].id))
  }

  /** One `INSERT INTO order_item (order_id, item_id) VALUES (?, ?)` per item. */
  function LineInserts(orderId: int, items: seq<Item>): (r: seq<Statement>)
    ensures |r| == |items|
  {
    seq(|items|, i requires 0 <= i < |items| => InsertOrderItem(orderId, items[i].id))
  }

  lemma LinesCons(orderId: int, items: seq<Item>)
    requires items != []
    ensures Lines(orderId, items) == [OrderItem(orderId, items[0].id)] + Lines(orderId, items[1..])
    ensures LineInserts(orderId, items) == [InsertOrderItem(orderId, items[0].id)] + LineInserts(orderId, items[1..])
  {
  }

  lemma LinesPrefix(orderId: int, items: seq<Item>, n: nat)
    requires n < |items|
    ensures Lines(orderId, items[..n + 1]) == [OrderItem(orderId, items[0].id)] + Lines(orderId, items[1..][..n])
  {
  }

  /** How many of the line inserts an auto-commit run gets through, the first
      of them being the operation's statement number `k`: it stops at the
      statement the driver fails or at the first item that is not stored. */
  function StoredPrefix(itemTable: seq<Item>, items: seq<Item>, fault: Fault, k: nat): (n: nat)
    ensures n <= |items|
  {
    if items == [] || fault == FailsAt(k) || !HasKey(itemTable, ItemKey, items[0].id) then 0
    else 1 + StoredPrefix(itemTable, items[1..], fault, k + 1)
  }

  /** With every item stored, the run is cut short only by a fault, and then
      exactly the lines sent before the failing statement stay written. */
  lemma {:induction false} StoredPrefixAllPresent(itemTable: seq<Item>, items: seq<Item>, fault: Fault, k: nat)
    requires forall x | x in items :: HasKey(itemTable, ItemKey, x.id)
    ensures StoredPrefix(itemTable, items, fault, k)
            == if fault.FailsAt? && k <= fault.step < k + |items| then fault.step - k else |items|
    decreases |items|
  {
    if items != [] {
      assert items[0] in items;
      assert forall x | x in items[1..] :: x in items;
      StoredPrefixAllPresent(itemTable, items[1..], fault, k + 1);
    }
  }

  /** Every item of `items` is stored. */
  ghost predicate AllStored(t: Tables, items: seq<Item>)
  {
    forall x | x in items :: t.HasItem(x.id)
  }

  lemma AllStoredCons(t: Tables, items: seq<Item>)
    requires items != []
    ensures AllStored(t, items) <==> t.HasItem(items[0].id) && AllStored(t, items[1..])
  {
    assert items == [items[0]] + items[1..];
  }

  /** One line insert: it goes through iff both the order and the item are
      stored, and then appends that line. */
  lemma LineInsertStep(t: Tables, orderId: int, x: Item)
    requires t.Consistent()
    ensures Exec(t, InsertOrderItem(orderId, x.id)).Some? <==> t.HasOrder(orderId) && t.HasItem(x.id)
    ensures Exec(t, InsertOrderItem(orderId, x.id)).Some? ==>
              var u := Exec(t, InsertOrderItem(orderId, x.id)).value;
              u == t.(orderItem := t.orderItem + [OrderItem(orderId, x.id)]) && u.Consistent()
  {
    var link := OrderItem(orderId, x.id);
    var u := Effect(t, InsertOrderItem(orderId, x.id));
    assert link in u.orderItem;
    if t.HasOrder(orderId) && t.HasItem(x.id) {
      assert u.ReferencesResolve() by {
        forall l | l in u.orderItem ensures u.HasOrder(l.orderId) && u.HasItem(l.itemId) {
          if l != link {
            assert l in t.orderItem;
          }
        }
      }
    }
    ExecKeepsConsistent(t, InsertOrderItem(orderId, x.id));
  }

  /** Inserting the lines of an existing order one statement at a time writes
      the lines of the stored prefix of the items and nothing else. */
  lemma {:induction false} LineInsertsEach(t: Tables, orderId: int, items: seq<Item>, fault: Fault, k: nat)
    requires t.Consistent() && t.HasOrder(orderId)
    ensures ApplyEach(t, LineInserts(orderId, items), fault, k)
            == t.(orderItem := t.orderItem + Lines(orderId, items[..StoredPrefix(t.item, items, fault, k)]))
    decreases |items|
  {
    var n := StoredPrefix(t.item, items, fault, k);
    if items == [] || fault == FailsAt(k) || !t.HasItem(items[0].id) {
      assert t.orderItem + Lines(orderId, items[..n]) == t.orderItem;
      if items != [] {
        LinesCons(orderId, items);
        LineInsertStep(t, orderId, items[0]);
      }
    } else {
      LinesCons(orderId, items);
      LineInsertStep(t, orderId, items[0]);
      var u := Exec(t, InsertOrderItem(orderId, items[0].id)).value;
      LineInsertsEach(u, orderId, items[1..], fault, k + 1);
      LinesPrefix(orderId, items, n - 1);
    }
  }

  /** Inserting the lines of an order inside a transaction: all of them go
      through iff the order exists (or there is no line) and every item is
      stored. */
  lemma {:induction false} LineInsertsAll(t: Tables, orderId: int, items: seq<Item>)
    requires t.Consistent()
    ensures ApplyAll(t, LineInserts(orderId, items)).Some?
            <==> (items == [] || t.HasOrder(orderId)) && AllStored(t, items)
    ensures ApplyAll(t, LineInserts(orderId, items)).Some? ==>
              ApplyAll(t, LineInserts(orderId, items)).value == t.(orderItem := t.orderItem + Lines(orderId, items))
    decreases |items|
  {
    if items == [] {
      assert t.orderItem + Lines(orderId, items) == t.orderItem;
    } else {
      LinesCons(orderId, items);
      AllStoredCons(t, items);
      ApplyAllCons(t, InsertOrderItem(orderId, items[0].id), LineInserts(orderId, items[1..]));
      LineInsertStep(t, orderId, items[0]);
      if t.HasOrder(orderId) && t.HasItem(items[0].id) {
        var u := Exec(t, InsertOrderItem(orderId, items[0].id)).value;
        LineInsertsAll(u, orderId, items[1..]);
        assert u.orderItem + Lines(orderId, items[1..]) == t.orderItem + Lines(orderId, items);
      }
    }
  }

  /** A line that is read back resolves to its item: the lines written for
      stored items give back exactly those items. */
  lemma {:induction false} LinesItems(t: Tables, orderId: int, items: seq<Item>)
    requires UniqueBy(t.item, ItemKey)
    requires forall x | x in items :: x in t.item
    ensures Gather(Lines(orderId, items), LinkItemFor(t, orderId)) == multiset(items)
    decreases |items|
  {
    if items != [] {
      LinesCons(orderId, items);
      assert items[0] in items;
      LineOfStoredItem(t, orderId, items[0]);
      assert forall x | x in items[1..] :: x in items;
      LinesItems(t, orderId, items[1..]);
      assert items == [items[0]] + items[1..];
    }
  }

  /** A line of order `k` for a stored item gives that item. */
  lemma LineOfStoredItem(t: Tables, k: int, x: Item)
    requires UniqueBy(t.item, ItemKey) && x in t.item
    ensures LinkItemFor(t, k)(OrderItem(k, x.id)) == multiset{x}
  {
    assert ItemController.GetItemById(t, x.id) == Some(x);
  }

  /** Lines of other orders give nothing to order `k`. */
  lemma {:induction false} NoLinesOf(t: Tables, links: seq<OrderItem>, k: int)
    requires forall l | l in links :: l.orderId != k
    ensures Gather(links, LinkItemFor(t, k)) == multiset{}
    decreases |links|
  {
    if links != [] {
      assert links[0] in links;
      assert forall l | l in links[1..] :: l in links;
      NoLinesOf(t, links[1..], k);
    }
  }

  // ---------------------------------------------------------------------------
  // addOrder
  // ---------------------------------------------------------------------------

  /** The statements `addOrder` sends, in auto-commit mode: the order row,
      then one line per item under the id the database generated. */
  function AddOrderSteps(t: Tables, order: Order): seq<Statement>
    requires order.customer.Some? && order.deliveryman.Some?
  {
    [InsertOrder(order.totalPrice, order.date, order.customer.value.id, order.deliveryman.value.id)]
    + LineInserts(FreshKey(t.orders, OrderKey), order.items)
  }

  /** The order row `addOrder` writes. */
  function NewOrderRow(t: Tables, order: Order): OrderRow
    requires order.customer.Some? && order.deliveryman.Some?
  {
    OrderRow(FreshKey(t.orders, OrderKey), order.totalPrice, order.date, order.customer.value.id,
             Some(order.deliveryman.value.id))
  }

  /** What `addOrder` leaves behind: nothing if the order row is rejected (the
      driver fails it, or the customer or deliveryman is not stored);
      otherwise the order row and the lines of the items before the first
      line insert that fails, which stay written even though the order is
      then incomplete. */
  lemma AddOrderEffect(t: Tables, order: Order, fault: Fault)
    requires t.Consistent()
    requires order.customer.Some? && order.deliveryman.Some?
    ensures var row := NewOrderRow(t, order);
            ApplyEach(t, AddOrderSteps(t, order), fault, 0)
            == if fault == FailsAt(0) || !t.HasCustomer(row.customerId) || !t.HasDeliveryman(row.deliverymanId.value) then t
               else t.(orders := t.orders + [row],
                       orderItem := t.orderItem + Lines(row.id, order.items[..StoredPrefix(t.item, order.items, fault, 1)]))
  {
    var row := NewOrderRow(t, order);
    var steps := AddOrderSteps(t, order);
    var h := steps[0];
    assert steps[1..] == LineInserts(row.id, order.items);
    var u := Effect(t, h);
    assert u == t.(orders := t.orders + [row]);
    assert row in u.orders;
    if fault != FailsAt(0) && t.HasCustomer(row.customerId) && t.HasDeliveryman(row.deliverymanId.value) {
      assert u.ReferencesResolve() by {
        forall o | o in u.orders
          ensures u.HasCustomer(o.customerId) && (o.deliverymanId.Some? ==> u.HasDeliveryman(o.deliverymanId.value))
        {
          if o != row {
            assert o in t.orders;
          }
        }
        forall l | l in u.orderItem ensures u.HasOrder(l.orderId) && u.HasItem(l.itemId) {
          var o :| o in t.orders && OrderKey(o) == l.orderId;
          assert o in u.orders;
        }
      }
      ExecKeepsConsistent(t, h);
      assert u.HasOrder(row.id);
      LineInsertsEach(u, row.id, order.items, fault, 1);
    }
  }

  /** With nothing failing, an order of stored items, placed by a stored
      customer for a stored deliveryman, reads back as it was given: the
      same columns, customer and deliveryman under the generated id, and the
      same items. */
  lemma AddOrderRoundTrip(t: Tables, order: Order)
    requires t.Consistent()
    requires order.customer.Some? && order.customer.value in t.customer
    requires order.deliveryman.Some? && order.deliveryman.value in t.deliveryman
    requires forall x | x in order.items :: x in t.item
    ensures var u := ApplyEach(t, AddOrderSteps(t, order), NoFault, 0);
            var row := NewOrderRow(t, order);
            && u.Consistent()
            && row in u.orders
            && HeaderOf(u, row) == order.(id := row.id, items := [])
            && ItemsOfOrder(u, row.id) == multiset(order.items)
  {
    var row := NewOrderRow(t, order);
    var c, d := order.customer.value, order.deliveryman.value;
    assert t.HasCustomer(c.id) && t.HasDeliveryman(d.id);
    forall x | x in order.items ensures HasKey(t.item, ItemKey, x.id) { }
    StoredPrefixAllPresent(t.item, order.items, NoFault, 1);
    AddOrderEffect(t, order, NoFault);
    assert order.items[..|order.items|] == order.items;
    var u := ApplyEach(t, AddOrderSteps(t, order), NoFault, 0);
    ApplyEachKeepsConsistent(t, AddOrderSteps(t, order), NoFault, 0);
    assert u.orderItem == t.orderItem + Lines(row.id, order.items);
    assert HeaderOf(u, row) == order.(id := row.id, items := []) by {
      assert c in u.customer && d in u.deliveryman;
    }
    forall l | l in t.orderItem ensures l.orderId != row.id {
      var o :| o in t.orders && OrderKey(o) == l.orderId;
    }
    GatherAppend(t.orderItem, Lines(row.id, order.items), LinkItemFor(u, row.id));
    NoLinesOf(u, t.orderItem, row.id);
    LinesItems(u, row.id, order.items);
  }

  /** `addOrder` is not atomic: when the driver fails the line insert of the
      `j`-th item, the order row and the lines of the items before it stay
      written. */
  lemma AddOrderStopsMidway(t: Tables, order: Order, j: nat)
    requires t.Consistent()
    requires order.customer.Some? && order.customer.value in t.customer
    requires order.deliveryman.Some? && order.deliveryman.value in t.deliveryman
    requires forall x | x in order.items :: x in t.item
    requires 1 <= j <= |order.items|
    ensures var u := ApplyEach(t, AddOrderSteps(t, order), FailsAt(j), 0);
            var row := NewOrderRow(t, order);
            && u.orders == t.orders + [row]
            && u.orderItem == t.orderItem + Lines(row.id, order.items[..j - 1])
            && |u.orderItem| == |t.orderItem| + j - 1
  {
    assert t.HasCustomer(order.customer.value.id) && t.HasDeliveryman(order.deliveryman.value.id);
    forall x | x in order.items ensures HasKey(t.item, ItemKey, x.id) { }
    StoredPrefixAllPresent(t.item, order.items, FailsAt(j), 1);
    AddOrderEffect(t, order, FailsAt(j));
  }

  /** `addOrder`: a missing customer or deliveryman raises before anything
      is sent; otherwise the order row and then each line in its own
      auto-commit statement, stopping at the first that raises. */
  method AddOrder(db: Database, order: Order, fault: Fault) returns (completion: Completion)
    requires db.Valid()
    modifies db
    ensures db.Valid()
    ensures completion == NullPointer <==> order.customer.None? || order.deliveryman.None?
    ensures completion == NullPointer ==> db.State() == old(db.State())
    ensures completion == Normal ==> db.State() == ApplyEach(old(db.State()), AddOrderSteps(old(db.State()), order), fault, 0)
  {
    if order.customer.None? || order.deliveryman.None? {
      return NullPointer;
    }
    completion := Normal;
    ghost var t0 := db.State();
    ghost var steps := AddOrderSteps(t0, order);
    // the key the database generates for the order row
    var orderId := FreshKey(db.orders, OrderKey);
    var ok := db.ExecuteAutoCommit(
      InsertOrder(order.totalPrice, order.date, order.customer.value.id, order.deliveryman.value.id), fault, 0);
    if !ok {
      return;
    }
    assert steps[1..] == steps[0 + 1..];
    var i := 0;
    while i < |order.items|
      invariant 0 <= i <= |order.items|
      invariant db.Valid()
      invariant ApplyEach(t0, steps, fault, 0) == ApplyEach(db.State(), steps[i + 1..], fault, i + 1)
    {
      var s := InsertOrderItem(orderId, order.items[i].id);
      assert steps[i + 1..][0] == s;
      assert steps[i + 1..][1..] == steps[i + 2..];
      ok := db.ExecuteAutoCommit(s, fault, i + 1);
      if !ok {
        return;
      }
      i := i + 1;
    }
  }

  // ---------------------------------------------------------------------------
  // updateOrder
  // ---------------------------------------------------------------------------

  /** The statement that rewrites the order row. */
  function UpdateHeader(order: Order): Statement
    requires order.customer.Some? && order.deliveryman.Some?
  {
    Statement.UpdateOrder(order.id, order.totalPrice, order.date, order.customer.value.id, order.deliveryman.value.id)
  }

  /** The statements of `updateOrder`, in the order it sends them. */
  function UpdateOrderSteps(order: Order): seq<Statement>
    requires order.customer.Some? && order.deliveryman.Some?
  {
    [UpdateHeader(order), DeleteOrderItemsOfOrder(order.id)] + LineInserts(order.id, order.items)
  }

  /** The order row as `updateOrder` rewrites it. */
  function UpdatedRow(order: Order): OrderRow
    requires order.customer.Some? && order.deliveryman.Some?
  {
    OrderRow(order.id, order.totalPrice, order.date, order.customer.value.id, Some(order.deliveryman.value.id))
  }

  /** The tables after the first two steps: the order row rewritten, its
      lines deleted. */
  function Unlinked(t: Tables, order: Order): Tables
    requires order.customer.Some? && order.deliveryman.Some?
  {
    Effect(t, UpdateHeader(order)).(orderItem := Filter(t.orderItem, LinkNotToOrder(order.id)))
  }

  /** The tables after the update commits. */
  function Replaced(t: Tables, order: Order): Tables
    requires order.customer.Some? && order.deliveryman.Some?
  {
    var t2 := Unlinked(t, order);
    t2.(orderItem := t2.orderItem + Lines(order.id, order.items))
  }

  /** Step 1 raises iff the order exists and its new customer or deliveryman
      does not; an update of a missing order changes nothing and succeeds. */
  lemma UpdateHeaderStep(t: Tables, order: Order)
    requires t.Consistent()
    requires order.customer.Some? && order.deliveryman.Some?
    ensures var row := UpdatedRow(order);
            Exec(t, UpdateHeader(order)).Some?
            <==> !t.HasOrder(order.id) || (t.HasCustomer(row.customerId) && t.HasDeliveryman(row.deliverymanId.value))
    ensures Exec(t, UpdateHeader(order)).Some? ==> Exec(t, UpdateHeader(order)).value.Consistent()
    ensures forall o :: o in Effect(t, UpdateHeader(order)).orders
              <==> (o in t.orders && o.id != order.id) || (o == UpdatedRow(order) && t.HasOrder(order.id))
    ensures Effect(t, UpdateHeader(order)).HasOrder(order.id) <==> t.HasOrder(order.id)
  {
    var row := UpdatedRow(order);
    var u := Effect(t, UpdateHeader(order));
    RewriteRows(t.orders, u.orders, OrderKey, order.id, row);
    SameKeysPointwise(t.orders, u.orders, OrderKey);
    ExecKeepsConsistent(t, UpdateHeader(order));
    if !t.HasOrder(order.id) || (t.HasCustomer(row.customerId) && t.HasDeliveryman(row.deliverymanId.value)) {
      assert u.ReferencesResolve() by {
        forall l | l in u.orderItem ensures u.HasOrder(l.orderId) && u.HasItem(l.itemId) {
          assert t.HasOrder(l.orderId);
        }
      }
    }
  }

  /** Once the row is rewritten, deleting the order's lines always goes
      through. */
  lemma UpdateThenUnlink(t: Tables, order: Order)
    requires t.Consistent()
    requires order.customer.Some? && order.deliveryman.Some?
    requires Exec(t, UpdateHeader(order)).Some?
    ensures ApplyAll(t, [UpdateHeader(order), DeleteOrderItemsOfOrder(order.id)]) == Some(Unlinked(t, order))
    ensures Unlinked(t, order).Consistent()
    ensures Unlinked(t, order).HasOrder(order.id) <==> t.HasOrder(order.id)
  {
    UpdateHeaderStep(t, order);
    var t1 := Exec(t, UpdateHeader(order)).value;
    var del := DeleteOrderItemsOfOrder(order.id);
    assert Effect(t1, del) == Unlinked(t, order);
    ExecKeepsConsistent(t1, del);
    ApplyAllTwo(t, UpdateHeader(order), del);
  }

  /** A rejected row rewrite aborts the whole transaction. */
  lemma UpdateHeaderAborts(t: Tables, order: Order)
    requires order.customer.Some? && order.deliveryman.Some?
    requires Exec(t, UpdateHeader(order)).None?
    ensures ApplyAll(t, UpdateOrderSteps(order)).None?
  {
    var rest := [DeleteOrderItemsOfOrder(order.id)] + LineInserts(order.id, order.items);
    assert UpdateOrderSteps(order) == [UpdateHeader(order)] + rest;
    ApplyAllCons(t, UpdateHeader(order), rest);
  }

  /** The update commits iff, when the order exists, its new customer,
      deliveryman and items are all stored, and when it does not, there is no
      item to insert a line for; it then rewrites the order row and replaces
      the order's lines by one per item. */
  lemma UpdateOrderCommits(t: Tables, order: Order)
    requires t.Consistent()
    requires order.customer.Some? && order.deliveryman.Some?
    ensures var row := UpdatedRow(order);
            ApplyAll(t, UpdateOrderSteps(order)).Some?
            <==> if t.HasOrder(order.id)
                 then t.HasCustomer(row.customerId) && t.HasDeliveryman(row.deliverymanId.value)
                      && forall x | x in order.items :: t.HasItem(x.id)
                 else order.items == []
    ensures ApplyAll(t, UpdateOrderSteps(order)).Some? ==> ApplyAll(t, UpdateOrderSteps(order)).value == Replaced(t, order)
  {
    UpdateHeaderStep(t, order);
    if Exec(t, UpdateHeader(order)).Some? {
      UpdateThenUnlink(t, order);
      assert Unlinked(t, order).item == t.item;
      ApplyAllAppend(t, [UpdateHeader(order), DeleteOrderItemsOfOrder(order.id)], LineInserts(order.id, order.items));
      LineInsertsAll(Unlinked(t, order), order.id, order.items);
    } else {
      UpdateHeaderAborts(t, order);
    }
  }

  /** The order's lines after the update give back exactly its new items. */
  lemma ReplacedItems(t: Tables, order: Order)
    requires t.Consistent()
    requires order.customer.Some? && order.deliveryman.Some?
    requires forall x | x in order.items :: x in t.item
    ensures ItemsOfOrder(Replaced(t, order), order.id) == multiset(order.items)
  {
    var id := order.id;
    var u := Replaced(t, order);
    var kept := Filter(t.orderItem, LinkNotToOrder(id));
    assert u.orderItem == kept + Lines(id, order.items);
    GatherAppend(kept, Lines(id, order.items), LinkItemFor(u, id));
    NoLinesOf(u, kept, id);
    LinesItems(u, id, order.items);
  }

  /** The order's lines are now one per new item, duplicates included, and
      every line of another order is kept as often as it was stored. */
  lemma ReplacedLineCounts(t: Tables, order: Order)
    requires order.customer.Some? && order.deliveryman.Some?
    ensures forall l: OrderItem ::
              multiset(Replaced(t, order).orderItem)[l]
              == if l.orderId == order.id then multiset(Lines(order.id, order.items))[l] else multiset(t.orderItem)[l]
  {
    var id := order.id;
    var u := Replaced(t, order);
    FilterCount(t.orderItem, LinkNotToOrder(id));
    assert u.orderItem == Filter(t.orderItem, LinkNotToOrder(id)) + Lines(id, order.items);
    forall l: OrderItem | l.orderId != id ensures l !in Lines(id, order.items) { }
  }

  /** After a committed update the order row is the new one and reads back
      as given, the order's items are exactly the given (stored) items, and
      every other order's lines are untouched. */
  lemma UpdateOrderReplacesLines(t: Tables, order: Order)
    requires t.Consistent()
    requires order.customer.Some? && order.deliveryman.Some?
    requires t.HasOrder(order.id) && order.customer.value in t.customer && order.deliveryman.value in t.deliveryman
    requires forall x | x in order.items :: x in t.item
    ensures ApplyAll(t, UpdateOrderSteps(order)).Some?
    ensures var u := ApplyAll(t, UpdateOrderSteps(order)).value;
            && u.Consistent()
            && (forall o :: o in u.orders <==> (o in t.orders && o.id != order.id) || o == UpdatedRow(order))
            && HeaderOf(u, UpdatedRow(order)) == order.(items := [])
            && ItemsOfOrder(u, order.id) == multiset(order.items)
            && (forall l: OrderItem :: multiset(u.orderItem)[l]
                  == if l.orderId == order.id then multiset(Lines(order.id, order.items))[l] else multiset(t.orderItem)[l])
            && u.customer == t.customer && u.deliveryman == t.deliveryman && u.item == t.item
  {
    var c, d := order.customer.value, order.deliveryman.value;
    assert t.HasCustomer(c.id) && t.HasDeliveryman(d.id);
    UpdateOrderCommits(t, order);
    UpdateHeaderStep(t, order);
    ApplyAllKeepsConsistent(t, UpdateOrderSteps(order));
    var u := Replaced(t, order);
    assert u.customer == t.customer && u.deliveryman == t.deliveryman;
    assert HeaderOf(u, UpdatedRow(order)) == order.(items := []) by {
      assert c in u.customer && d in u.deliveryman;
    }
    ReplacedItems(t, order);
    ReplacedLineCounts(t, order);
  }

  /** `updateOrder`: a missing customer or deliveryman raises before anything
      is sent; otherwise the statements run inside one transaction, rolled
      back as a whole if any of them raises. */
  method UpdateOrder(db: Database, order: Order, fault: Fault) returns (completion: Completion)
    requires db.Valid()
    modifies db
    ensures db.Valid()
    ensures completion == NullPointer <==> order.customer.None? || order.deliveryman.None?
    ensures completion == NullPointer ==> db.State() == old(db.State())
    ensures completion == Normal ==>
              db.State() == if !FailsWithin(fault, |UpdateOrderSteps(order)|) && ApplyAll(old(db.State()), UpdateOrderSteps(order)).Some?
                            then ApplyAll(old(db.State()), UpdateOrderSteps(order)).value
                            else old(db.State())
  {
    if order.customer.None? || order.deliveryman.None? {
      return NullPointer;
    }
    var committed := db.RunTransaction(UpdateOrderSteps(order), fault);
    completion := Normal;
  }

  // ---------------------------------------------------------------------------
  // deleteOrder
  // ---------------------------------------------------------------------------

  /** The two deletes of `deleteOrder`, in the order it sends them. */
  function DeleteOrderSteps(orderId: int): seq<Statement>
  {
    [DeleteOrderItemsOfOrder(orderId), Statement.DeleteOrder(orderId)]
  }

  /** The tables after each step. */
  function WithoutLinesOf(t: Tables, orderId: int): Tables
  {
    t.(orderItem := Filter(t.orderItem, LinkNotToOrder(orderId)))
  }

  function WithoutOrder(t: Tables, orderId: int): Tables
  {
    WithoutLinesOf(t, orderId).(orders := Filter(t.orders, OrderOtherThan(orderId)))
  }

  /** Both deletes go through, and the result in closed form. */
  lemma DeleteOrderCommits(t: Tables, orderId: int)
    requires t.Consistent()
    ensures ApplyAll(t, DeleteOrderSteps(orderId)) == Some(WithoutOrder(t, orderId))
    ensures WithoutOrder(t, orderId).Consistent()
  {
    var t1, t2 := WithoutLinesOf(t, orderId), WithoutOrder(t, orderId);
    assert Exec(t, DeleteOrderItemsOfOrder(orderId)) == Some(t1);
    assert Effect(t1, Statement.DeleteOrder(orderId)) == t2;
    forall l | l in t2.orderItem ensures t2.HasOrder(l.orderId) && t2.HasItem(l.itemId) {
      assert l in t.orderItem && l.orderId != orderId;
      var o :| o in t.orders && OrderKey(o) == l.orderId;
      assert o in t2.orders;
    }
    assert Exec(t1, Statement.DeleteOrder(orderId)) == Some(t2);
    ApplyAllTwo(t, DeleteOrderItemsOfOrder(orderId), Statement.DeleteOrder(orderId));
    ApplyAllKeepsConsistent(t, DeleteOrderSteps(orderId));
  }

  /** On a consistent database the delete always commits: the order and all
      of its lines are gone, so it has no item left, every other line stays as
      often as it was stored, and the other tables are as they were. */
  lemma DeleteOrderCascade(t: Tables, orderId: int)
    requires t.Consistent()
    ensures ApplyAll(t, DeleteOrderSteps(orderId)).Some?
    ensures var u := ApplyAll(t, DeleteOrderSteps(orderId)).value;
            && u.Consistent()
            && !u.HasOrder(orderId)
            && (forall o :: o in u.orders <==> o in t.orders && o.id != orderId)
            && (forall l :: multiset(u.orderItem)[l] == if l.orderId == orderId then 0 else multiset(t.orderItem)[l])
            && ItemsOfOrder(u, orderId) == multiset{}
            && u.customer == t.customer && u.deliveryman == t.deliveryman && u.item == t.item
  {
    DeleteOrderCommits(t, orderId);
    FilterCount(t.orderItem, LinkNotToOrder(orderId));
    var u := WithoutOrder(t, orderId);
    NoLinesOf(u, u.orderItem, orderId);
  }

  /** The order of the steps matters: deleting the order row first raises as
      soon as the order has a line. */
  lemma DeleteOrderRowFirstFails(t: Tables, orderId: int, l: OrderItem)
    requires t.Consistent()
    requires l in t.orderItem && l.orderId == orderId
    ensures Exec(t, Statement.DeleteOrder(orderId)).None?
  {
    var u := Effect(t, Statement.DeleteOrder(orderId));
    assert l in u.orderItem;
    assert !u.HasOrder(orderId);
  }

  /** `deleteOrder`: both deletes inside one transaction, rolled back as a
      whole if either raises. */
  method DeleteOrder(db: Database, orderId: int, fault: Fault) returns (committed: bool)
    requires db.Valid()
    modifies db
    ensures db.Valid()
    ensures committed <==> !FailsWithin(fault, 2)
    ensures ApplyAll(old(db.State()), DeleteOrderSteps(orderId)).Some?
    ensures db.State() == if committed then ApplyAll(old(db.State()), DeleteOrderSteps(orderId)).value
                          else old(db.State())
  {
    DeleteOrderCascade(db.State(), orderId);
    committed := db.RunTransaction(DeleteOrderSteps(orderId), fault);
  }
}

/** The SQL statements the controllers send, what each does to the tables, and
    how a sequence of them runs. A statement is checked against the foreign
    keys when it completes: one that would leave a reference to a missing row
    raises and changes nothing. */
module Sql {
  import opened Common
  import opened Schema

  datatype Statement =
      /** INSERT INTO customer (name, phone_number, address) VALUES (?, ?, ?) */
    | InsertCustomer(name: string, phoneNumber: string, address: string)
      /** UPDATE customer SET name = ?, address = ?, phone_number = ? WHERE id = ? */
    | UpdateCustomer(id: int, name: string, address: string, phoneNumber: string)
      /** DELETE FROM order_item WHERE order_id IN (SELECT id FROM orders WHERE customer_id = ?) */
    | DeleteOrderItemsOfCustomer(customerId: int)
      /** DELETE FROM orders WHERE customer_id = ? */
    | DeleteOrdersOfCustomer(customerId: int)
      /** DELETE FROM customer WHERE id = ? */
    | DeleteCustomer(id: int)
      /** INSERT INTO deliveryman (name, phone_number) VALUES (?, ?) */
    | InsertDeliveryman(name: string, phoneNumber: string)
      /** UPDATE deliveryman SET name = ?, phone_number = ? WHERE id = ? */
    | UpdateDeliveryman(id: int, name: string, phoneNumber: string)
      /** UPDATE orders SET deliveryman_id = NULL WHERE deliveryman_id = ? */
    | UnassignDeliveryman(deliverymanId: int)
      /** DELETE FROM deliveryman WHERE id = ? */
    | DeleteDeliveryman(id: int)
      /** INSERT INTO item (name, price) VALUES (?, ?) */
    | InsertItem(name: string, price: Price)
      /** UPDATE item SET name = ?, price = ? WHERE id = ? */
    | UpdateItem(id: int, name: string, price: Price)
      /** DELETE FROM order_item WHERE item_id = ? */
    | DeleteOrderItemsOfItem(itemId: int)
      /** DELETE FROM item WHERE id = ? */
    | DeleteItem(id: int)
      /** INSERT INTO orders (total_price, date, customer_id, deliveryman_id) VALUES (?, ?, ?, ?) */
    | InsertOrder(totalPrice: Price, date: Day, customerId: int, deliverymanId: int)
      /** UPDATE orders SET total_price = ?, date = ?, customer_id = ?, deliveryman_id = ? WHERE id = ? */
    | UpdateOrder(id: int, totalPrice: Price, date: Day, customerId: int, deliverymanId: int)
      /** DELETE FROM order_item WHERE order_id = ? */
    | DeleteOrderItemsOfOrder(orderId: int)
      /** INSERT INTO order_item (order_id, item_id) VALUES (?, ?) */
    | InsertOrderItem(orderId: int, itemId: int)
      /** DELETE FROM orders WHERE id = ? */
    | DeleteOrder(id: int)

  /** The ids of the orders placed by customer `c` (the sub-select of
      `DeleteOrderItemsOfCustomer`). */
  function OrderIdsOfCustomer(orders: seq<OrderRow>, c: int): set<int>
  {
    set o | o in orders && o.customerId == c :: o.id
  }

  /** The rows each delete keeps: those its `WHERE` clause rejects. */
  function LinkOutside(doomed: set<int>): OrderItem -> bool { (l: OrderItem) => l.orderId !in doomed }
  function NotPlacedBy(c: int): OrderRow -> bool { (o: OrderRow) => o.customerId != c }
  function CustomerOtherThan(id: int): Customer -> bool { (c: Customer) => c.id != id }
  function DeliverymanOtherThan(id: int): Deliveryman -> bool { (d: Deliveryman) => d.id != id }
  function ItemOtherThan(id: int): Item -> bool { (x: Item) => x.id != id }
  function LinkNotToItem(itemId: int): OrderItem -> bool { (l: OrderItem) => l.itemId != itemId }
  function LinkNotToOrder(orderId: int): OrderItem -> bool { (l: OrderItem) => l.orderId != orderId }
  function OrderOtherThan(id: int): OrderRow -> bool { (o: OrderRow) => o.id != id }

  /** The tables after statement `s` ran to completion (before any constraint check). */
  function Effect(t: Tables, s: Statement): Tables
  {
    match s
    case InsertCustomer(name, phoneNumber, address) =>
      t.(customer := t.customer + [Customer(FreshKey(t.customer, CustomerKey), name, address, phoneNumber)])
    case UpdateCustomer(id, name, address, phoneNumber) =>
      t.(customer := seq(|t.customer|, i requires 0 <= i < |t.customer| =>
           if t.customer[i].id == id then Customer(id, name, address, phoneNumber) else t.customer[i]))
    case DeleteOrderItemsOfCustomer(c) =>
      var doomed := OrderIdsOfCustomer(t.orders, c);
      t.(orderItem := Filter(t.orderItem, LinkOutside(doomed)))
    case DeleteOrdersOfCustomer(c) =>
      t.(orders := Filter(t.orders, NotPlacedBy(c)))
    case DeleteCustomer(id) =>
      t.(customer := Filter(t.customer, CustomerOtherThan(id)))
    case InsertDeliveryman(name, phoneNumber) =>
      t.(deliveryman := t.deliveryman + [Deliveryman(FreshKey(t.deliveryman, DeliverymanKey), name, phoneNumber)])
    case UpdateDeliveryman(id, name, phoneNumber) =>
      t.(deliveryman := seq(|t.deliveryman|, i requires 0 <= i < |t.deliveryman| =>
           if t.deliveryman[i].id == id then Deliveryman(id, name, phoneNumber) else t.deliveryman[i]))
    case UnassignDeliveryman(d) =>
      t.(orders := seq(|t.orders|, i requires 0 <= i < |t.orders| =>
           if t.orders[i].deliverymanId == Some(d) then t.orders[i].(deliverymanId := None) else t.orders[i]))
    case DeleteDeliveryman(id) =>
      t.(deliveryman := Filter(t.deliveryman, DeliverymanOtherThan(id)))
    case InsertItem(name, price) =>
      t.(item := t.item + [Item(FreshKey(t.item, ItemKey), name, price)])
    case UpdateItem(id, name, price) =>
      t.(item := seq(|t.item|, i requires 0 <= i < |t.item| =>
           if t.item[i].id == id then Item(id, name, price) else t.item[i]))
    case DeleteOrderItemsOfItem(itemId) =>
      t.(orderItem := Filter(t.orderItem, LinkNotToItem(itemId)))
    case DeleteItem(id) =>
      t.(item := Filter(t.item, ItemOtherThan(id)))
    case InsertOrder(totalPrice, date, customerId, deliverymanId) =>
      t.(orders := t.orders + [OrderRow(FreshKey(t.orders, OrderKey), totalPrice, date, customerId, Some(deliverymanId))])
    case UpdateOrder(id, totalPrice, date, customerId, deliverymanId) =>
      t.(orders := seq(|t.orders|, i requires 0 <= i < |t.orders| =>
           if t.orders[i].id == id then OrderRow(id, totalPrice, date, customerId, Some(deliverymanId)) else t.orders[i]))
    case DeleteOrderItemsOfOrder(orderId) =>
      t.(orderItem := Filter(t.orderItem, LinkNotToOrder(orderId)))
    case InsertOrderItem(orderId, itemId) =>
      t.(orderItem := t.orderItem + [OrderItem(orderId, itemId)])
    case DeleteOrder(id) =>
      t.(orders := Filter(t.orders, OrderOtherThan(id)))
  }

  /** Running one statement: its effect if that leaves every reference
      resolved, otherwise the statement raises (`None`) and nothing changes. */
  function Exec(t: Tables, s: Statement): Option<Tables>
  {
    var next := Effect(t, s);
    if next.ReferencesResolve() then Some(next) else None
  }

  /** Running statements in order, stopping at the first one that raises. */
  function ApplyAll(t: Tables, steps: seq<Statement>): Option<Tables>
  {
    if steps == [] then Some(t)
    else
      match ApplyAll(t, steps[..|steps| - 1])
      case None => None
      case Some(u) => Exec(u, steps[|steps| - 1])
  }

  /** Statements sent one at a time in auto-commit mode, the first of them as
      the operation's statement number `k`: each commits on its own, and the
      first one that raises ends the run, keeping what the earlier ones did. */
  function ApplyEach(t: Tables, steps: seq<Statement>, fault: Fault, k: nat): Tables
    decreases |steps|
  {
    if steps == [] || fault == FailsAt(k) then t
    else
      match Exec(t, steps[0])
      case None => t
      case Some(u) => ApplyEach(u, steps[1..], fault, k + 1)
  }

  /** A failure the driver may raise on any statement besides a constraint
      violation (lost connection, server error): `FailsAt(k)` makes the
      statement at position k of an operation raise. */
  datatype Fault = NoFault | FailsAt(step: nat)

  predicate FailsWithin(fault: Fault, n: nat)
  {
    fault.FailsAt? && fault.step < n
  }

  /** Every statement keeps the primary keys unique, and one that is not
      rejected keeps a consistent database consistent. */
  lemma ExecKeepsConsistent(t: Tables, s: Statement)
    requires t.Consistent()
    ensures Effect(t, s).KeysUnique()
    ensures Exec(t, s).Some? ==> Exec(t, s).value.Consistent()
  {
    var u := Effect(t, s);
    match s
    case InsertCustomer(name, phoneNumber, address) =>
      AppendFreshKeepsUnique(t.customer, u.customer[|t.customer|], CustomerKey);
    case UpdateCustomer(id, name, address, phoneNumber) =>
      SameKeysPointwise(t.customer, u.customer, CustomerKey);
    case DeleteCustomer(id) =>
      FilterKeepsUnique(t.customer, CustomerOtherThan(id), CustomerKey);
    case InsertDeliveryman(name, phoneNumber) =>
      AppendFreshKeepsUnique(t.deliveryman, u.deliveryman[|t.deliveryman|], DeliverymanKey);
    case UpdateDeliveryman(id, name, phoneNumber) =>
      SameKeysPointwise(t.deliveryman, u.deliveryman, DeliverymanKey);
    case DeleteDeliveryman(id) =>
      FilterKeepsUnique(t.deliveryman, DeliverymanOtherThan(id), DeliverymanKey);
    case InsertItem(name, price) =>
      AppendFreshKeepsUnique(t.item, u.item[|t.item|], ItemKey);
    case UpdateItem(id, name, price) =>
      SameKeysPointwise(t.item, u.item, ItemKey);
    case DeleteItem(id) =>
      FilterKeepsUnique(t.item, ItemOtherThan(id), ItemKey);
    case DeleteOrdersOfCustomer(c) =>
      FilterKeepsUnique(t.orders, NotPlacedBy(c), OrderKey);
    case UnassignDeliveryman(d) =>
      SameKeysPointwise(t.orders, u.orders, OrderKey);
    case InsertOrder(totalPrice, date, customerId, deliverymanId) =>
      AppendFreshKeepsUnique(t.orders, u.orders[|t.orders|], OrderKey);
    case UpdateOrder(id, totalPrice, date, customerId, deliverymanId) =>
      SameKeysPointwise(t.orders, u.orders, OrderKey);
    case DeleteOrder(id) =>
      FilterKeepsUnique(t.orders, OrderOtherThan(id), OrderKey);
    case DeleteOrderItemsOfCustomer(_) =>
    case DeleteOrderItemsOfItem(_) =>
    case DeleteOrderItemsOfOrder(_) =>
    case InsertOrderItem(_, _) =>
  }

  lemma {:induction false} ApplyAllKeepsConsistent(t: Tables, steps: seq<Statement>)
    requires t.Consistent()
    ensures ApplyAll(t, steps).Some? ==> ApplyAll(t, steps).value.Consistent()
    decreases |steps|
  {
    if steps != [] {
      var prefix := steps[..|steps| - 1];
      ApplyAllKeepsConsistent(t, prefix);
      if ApplyAll(t, prefix).Some? {
        ExecKeepsConsistent(ApplyAll(t, prefix).value, steps[|steps| - 1]);
      }
    }
  }

  /** Running one statement more: the first `k + 1` statements are the first
      `k` followed by statement `k`. */
  lemma ApplyAllSnoc(t: Tables, steps: seq<Statement>, k: nat)
    requires k < |steps|
    ensures ApplyAll(t, steps[..k + 1]) == match ApplyAll(t, steps[..k]) case None => None case Some(u) => Exec(u, steps[k])
  {
    assert steps[..k + 1][..k] == steps[..k];
  }

  /** Once a statement raises, the run as a whole fails. */
  lemma {:induction false} ApplyAllFailsFrom(t: Tables, steps: seq<Statement>, k: nat)
    requires k <= |steps|
    requires ApplyAll(t, steps[..k]).None?
    ensures ApplyAll(t, steps).None?
    decreases |steps|
  {
    if k < |steps| {
      var prefix := steps[..|steps| - 1];
      assert prefix[..k] == steps[..k];
      ApplyAllFailsFrom(t, prefix, k);
    } else {
      assert steps[..k] == steps;
    }
  }

  /** Running `a + b` is running `a`, then `b` from where `a` left off. */
  lemma {:induction false} ApplyAllAppend(t: Tables, a: seq<Statement>, b: seq<Statement>)
    ensures ApplyAll(t, a + b) == match ApplyAll(t, a) case None => None case Some(u) => ApplyAll(u, b)
    decreases |b|
  {
    if b == [] {
      assert a + b == a;
    } else {
      var b' := b[..|b| - 1];
      assert (a + b)[..|a + b| - 1] == a + b';
      assert (a + b)[|a + b| - 1] == b[|b| - 1];
      ApplyAllAppend(t, a, b');
    }
  }

  /** Running `[s] + rest` is running `s`, then `rest`. */
  lemma ApplyAllCons(t: Tables, s: Statement, rest: seq<Statement>)
    ensures ApplyAll(t, [s] + rest) == match Exec(t, s) case None => None case Some(u) => ApplyAll(u, rest)
  {
    ApplyAllAppend(t, [s], rest);
    assert [s][..0] == [];
  }

  /** Two statements that both succeed, run in sequence. */
  lemma ApplyAllTwo(t: Tables, a: Statement, b: Statement)
    requires Exec(t, a).Some? && Exec(Exec(t, a).value, b).Some?
    ensures ApplyAll(t, [a, b]) == Exec(Exec(t, a).value, b)
  {
    ApplyAllCons(t, a, [b]);
    ApplyAllCons(Exec(t, a).value, b, []);
    assert [b] + [] == [b];
    assert [a] + [b] == [a, b];
  }

  /** Three statements that all succeed, run in sequence. */
  lemma ApplyAllThree(t: Tables, a: Statement, b: Statement, c: Statement)
    requires Exec(t, a).Some? && Exec(Exec(t, a).value, b).Some?
    requires Exec(Exec(Exec(t, a).value, b).value, c).Some?
    ensures ApplyAll(t, [a, b, c]) == Exec(Exec(Exec(t, a).value, b).value, c)
  {
    ApplyAllCons(t, a, [b, c]);
    ApplyAllTwo(Exec(t, a).value, b, c);
    assert [a] + [b, c] == [a, b, c];
  }

  /** Every prefix of an auto-commit run leaves a consistent database. */
  lemma {:induction false} ApplyEachKeepsConsistent(t: Tables, steps: seq<Statement>, fault: Fault, k: nat)
    requires t.Consistent()
    ensures ApplyEach(t, steps, fault, k).Consistent()
    decreases |steps|
  {
    if steps != [] && fault != FailsAt(k) {
      ExecKeepsConsistent(t, steps[0]);
      if Exec(t, steps[0]).Some? {
        ApplyEachKeepsConsistent(Exec(t, steps[0]).value, steps[1..], fault, k + 1);
      }
    }
  }
}

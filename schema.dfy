/** The relational schema the four controllers read and write:
      customer(id, name, phone_number, address)
      deliveryman(id, name, phone_number)
      item(id, name, price)
      orders(id, total_price, date, customer_id -> customer, deliveryman_id -> deliveryman, nullable)
      order_item(order_id -> orders, item_id -> item), no key of its own.
    A table is a sequence of rows; `Tables` is the whole database at one instant. */
module Schema {
  import opened Common

  /** `price` and `total_price` are Java doubles and `date` a `java.sql.Date`;
      the controllers only store and copy them, so they stand here as opaque
      integers. */
  type Price = int
  type Day = int

  datatype Customer = Customer(id: int, name: string, address: string, phoneNumber: string)
  datatype Deliveryman = Deliveryman(id: int, name: string, phoneNumber: string)
  datatype Item = Item(id: int, name: string, price: Price)
  datatype OrderRow = OrderRow(id: int, totalPrice: Price, date: Day, customerId: int, deliverymanId: Option<int>)
  datatype OrderItem = OrderItem(orderId: int, itemId: int)

  function CustomerKey(c: Customer): int { c.id }
  function DeliverymanKey(d: Deliveryman): int { d.id }
  function ItemKey(i: Item): int { i.id }
  function OrderKey(o: OrderRow): int { o.id }

  datatype Tables = Tables(
    customer: seq<Customer>,
    deliveryman: seq<Deliveryman>,
    item: seq<Item>,
    orders: seq<OrderRow>,
    orderItem: seq<OrderItem>)
  {
    predicate HasCustomer(id: int) { HasKey(customer, CustomerKey, id) }
    predicate HasDeliveryman(id: int) { HasKey(deliveryman, DeliverymanKey, id) }
    predicate HasItem(id: int) { HasKey(item, ItemKey, id) }
    predicate HasOrder(id: int) { HasKey(orders, OrderKey, id) }

    /** Primary keys: no two rows of a keyed table share an id. */
    predicate KeysUnique()
    {
      && UniqueBy(customer, CustomerKey)
      && UniqueBy(deliveryman, DeliverymanKey)
      && UniqueBy(item, ItemKey)
      && UniqueBy(orders, OrderKey)
    }

    /** Foreign keys: every reference names an existing row (a NULL
        deliveryman_id names nothing). */
    predicate ReferencesResolve()
    {
      && (forall o | o in orders ::
            HasCustomer(o.customerId) && (o.deliverymanId.Some? ==> HasDeliveryman(o.deliverymanId.value)))
      && (forall l | l in orderItem :: HasOrder(l.orderId) && HasItem(l.itemId))
    }

    predicate Consistent()
    {
      KeysUnique() && ReferencesResolve()
    }
  }
}

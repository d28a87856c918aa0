/** `CustomerController`: listing customers with the ids of their orders,
    keyword search, lookup by id, and the insert, update and cascading delete
    of a customer. */
module CustomerController {
  import opened Common
  import opened Text
  import opened Schema
  import opened Sql
  import opened Store
  import opened Grouping

  // ---------------------------------------------------------------------------
  // getAllCustomers
  // ---------------------------------------------------------------------------

  /** `o.customer_id`, the order column that points at a customer. */
  function PlacedByColumn(o: OrderRow): Option<int>
  {
    Some(o.customerId)
  }

  /** `customer c LEFT JOIN orders o ON c.id = o.customer_id`. */
  function CustomerJoin(customers: seq<Customer>, orders: seq<OrderRow>): seq<JoinRow<Customer>>
  {
    LeftJoin(customers, CustomerKey, orders, PlacedByColumn)
  }

  /** The ids of the orders customer `id` placed, as a bag. */
  function OrdersPlacedBy(orders: seq<OrderRow>, id: int): multiset<int>
  {
    OrdersReferring(orders, PlacedByColumn, id)
  }

  /** The ids listed for a customer are the ids of the orders it placed, the
      same set `deleteCustomer` removes the item links of. */
  lemma {:induction false} OrdersPlacedByIds(orders: seq<OrderRow>, customerId: int)
    ensures forall id :: id in OrdersPlacedBy(orders, customerId) <==> id in OrderIdsOfCustomer(orders, customerId)
    decreases |orders|
  {
    if orders != [] {
      var o0, rest := orders[0], orders[1..];
      OrdersPlacedByIds(rest, customerId);
      assert OrdersPlacedBy(orders, customerId) == RefersTo(PlacedByColumn, customerId)(o0) + OrdersPlacedBy(rest, customerId);
      assert orders == [o0] + rest;
      forall id ensures id in OrderIdsOfCustomer(orders, customerId)
                        <==> (o0.customerId == customerId && id == o0.id) || id in OrderIdsOfCustomer(rest, customerId)
      {
        if id in OrderIdsOfCustomer(orders, customerId) {
          var o :| o in orders && o.customerId == customerId && o.id == id;
          if o != o0 {
            assert o in rest;
          }
        }
      }
    }
  }

  /** Reads the joined rows, which the database returns in no particular order,
      into one customer object per id, each holding the ids of its orders. */
  method GetAllCustomers(t: Tables, rows: seq<JoinRow<Customer>>) returns (customers: set<Entry<Customer>>)
    requires UniqueBy(t.customer, CustomerKey)
    requires multiset(rows) == multiset(CustomerJoin(t.customer, t.orders))
    ensures forall e | e in customers :: e.owner in t.customer
    ensures forall c | c in t.customer :: exists e :: e in customers && e.owner == c
    ensures forall e1, e2 | e1 in customers && e2 in customers && e1.owner.id == e2.owner.id :: e1 == e2
    ensures forall e | e in customers :: multiset(e.orders) == OrdersPlacedBy(t.orders, e.owner.id)
  {
    var byId := GroupByOwner(rows, CustomerKey);
    customers := EntriesOf(byId);
    GroupedEntries(t.customer, CustomerKey, t.orders, PlacedByColumn, rows, byId);
    GroupedOrders(t.customer, CustomerKey, t.orders, PlacedByColumn, rows, byId);
  }

  // ---------------------------------------------------------------------------
  // getCustomerById
  // ---------------------------------------------------------------------------

  /** `SELECT * FROM customer WHERE id = ?`: the row with that id, or null. */
  function GetCustomerById(t: Tables, customerId: int): (r: Option<Customer>)
    ensures r.Some? <==> t.HasCustomer(customerId)
    ensures r.Some? ==> r.value in t.customer && r.value.id == customerId
    ensures UniqueBy(t.customer, CustomerKey) ==>
              forall c | c in t.customer && c.id == customerId :: r == Some(c)
  {
    var found := Find(t.customer, (c: Customer) => c.id == customerId);
    if found.Some? && UniqueBy(t.customer, CustomerKey) then
      assert forall c | c in t.customer && c.id == customerId :: c == found.value by {
        forall c | c in t.customer && c.id == customerId ensures c == found.value {
          UniqueByMembers(t.customer, CustomerKey, c, found.value);
        }
      }
      found
    else
      found
  }

  // ---------------------------------------------------------------------------
  // searchCustomers
  // ---------------------------------------------------------------------------

  /** The `WHERE name LIKE ? OR phone_number LIKE ?` condition of the search. */
  predicate CustomerMatches(c: Customer, keyword: string)
  {
    Like(c.name, SearchPattern(keyword)) || Like(c.phoneNumber, SearchPattern(keyword))
  }

  function MatchesKeyword(keyword: string): Customer -> bool
  {
    (c: Customer) => CustomerMatches(c, keyword)
  }

  /** `a` may come before `b` under `ORDER BY name ASC` or `DESC`. */
  predicate InNameOrder(a: Customer, b: Customer, descending: bool)
  {
    if descending then NameLeq(b.name, a.name) else NameLeq(a.name, b.name)
  }

  predicate SortedByName(s: seq<Customer>, descending: bool)
  {
    forall i, j :: 0 <= i < j < |s| ==> InNameOrder(s[i], s[j], descending)
  }

  lemma InNameOrderTotal(a: Customer, b: Customer, descending: bool)
    ensures InNameOrder(a, b, descending) || InNameOrder(b, a, descending)
  {
    NameLeqTotal(a.name, b.name);
  }

  lemma InNameOrderTransitive(a: Customer, b: Customer, c: Customer, descending: bool)
    requires InNameOrder(a, b, descending) && InNameOrder(b, c, descending)
    ensures InNameOrder(a, c, descending)
  {
    if descending {
      NameLeqTransitive(c.name, b.name, a.name);
    } else {
      NameLeqTransitive(a.name, b.name, c.name);
    }
  }

  function InsertByName(c: Customer, s: seq<Customer>, descending: bool): seq<Customer>
  {
    if s == [] || InNameOrder(c, s[0], descending) then [c] + s
    else [s[0]] + InsertByName(c, s[1..], descending)
  }

  /** The order the database sorts the matching rows into. */
  function SortByName(s: seq<Customer>, descending: bool): seq<Customer>
  {
    if s == [] then [] else InsertByName(s[0], SortByName(s[1..], descending), descending)
  }

  /** A name that may precede every name of a sorted list may head it. */
  lemma SortedCons(h: Customer, rest: seq<Customer>, descending: bool)
    requires SortedByName(rest, descending)
    requires forall x | x in rest :: InNameOrder(h, x, descending)
    ensures SortedByName([h] + rest, descending)
  {
    var r := [h] + rest;
    forall i, j | 0 <= i < j < |r| ensures InNameOrder(r[i], r[j], descending) {
      assert r[j] == rest[j - 1];
      if i > 0 {
        assert r[i] == rest[i - 1];
      }
    }
  }

  lemma {:induction false} InsertByNameCorrect(c: Customer, s: seq<Customer>, descending: bool)
    requires SortedByName(s, descending)
    ensures SortedByName(InsertByName(c, s, descending), descending)
    ensures multiset(InsertByName(c, s, descending)) == multiset(s) + multiset{c}
    decreases |s|
  {
    if s == [] || InNameOrder(c, s[0], descending) {
      forall x | x in s ensures InNameOrder(c, x, descending) {
        var k :| 0 <= k < |s| && s[k] == x;
        if k > 0 {
          InNameOrderTransitive(c, s[0], x, descending);
        }
      }
      SortedCons(c, s, descending);
    } else {
      var tail := s[1..];
      var rest := InsertByName(c, tail, descending);
      assert SortedByName(tail, descending) by {
        forall i, j | 0 <= i < j < |tail| ensures InNameOrder(tail[i], tail[j], descending) {
          assert tail[i] == s[i + 1] && tail[j] == s[j + 1];
        }
      }
      InsertByNameCorrect(c, tail, descending);
      InNameOrderTotal(c, s[0], descending);
      assert s == [s[0]] + tail;
      forall x | x in rest ensures InNameOrder(s[0], x, descending) {
        assert x in multiset(rest);
        if x != c {
          var k :| 0 <= k < |tail| && tail[k] == x;
          assert s[k + 1] == x;
        }
      }
      SortedCons(s[0], rest, descending);
    }
  }

  lemma {:induction false} SortByNameCorrect(s: seq<Customer>, descending: bool)
    ensures SortedByName(SortByName(s, descending), descending)
    ensures multiset(SortByName(s, descending)) == multiset(s)
    decreases |s|
  {
    if s != [] {
      SortByNameCorrect(s[1..], descending);
      InsertByNameCorrect(s[0], SortByName(s[1..], descending), descending);
      assert s == [s[0]] + s[1..];
    }
  }

  /** The rows `SELECT * FROM customer WHERE name LIKE ? OR phone_number LIKE ?
      ORDER BY name` returns: the customers whose name or phone number matches
      `%keyword%`, each as often as it is stored, sorted by name in the
      requested direction. Customers with equal names may come in any order. */
  function MatchingCustomers(t: Tables, keyword: string, orderDescending: bool): (r: seq<Customer>)
    ensures forall c :: multiset(r)[c] == if CustomerMatches(c, keyword) then multiset(t.customer)[c] else 0
    ensures SortedByName(r, orderDescending)
  {
    var found := Filter(t.customer, MatchesKeyword(keyword));
    FilterCount(t.customer, MatchesKeyword(keyword));
    SortByNameCorrect(found, orderDescending);
    SortByName(found, orderDescending)
  }

  /** Copies the rows of the search query, as the database orders them, into
      a list: every matching customer as often as it is stored, and nothing
      else, ordered by name. */
  method SearchCustomers(t: Tables, keyword: string, orderDescending: bool, rows: seq<Customer>)
    returns (customers: seq<Customer>)
    requires multiset(rows) == multiset(MatchingCustomers(t, keyword, orderDescending))
    requires SortedByName(rows, orderDescending)
    ensures forall c :: multiset(customers)[c] == if CustomerMatches(c, keyword) then multiset(t.customer)[c] else 0
    ensures SortedByName(customers, orderDescending)
    ensures |customers| == |rows| && forall i | 0 <= i < |rows| :: customers[i] == rows[i]
  {
    customers := [];
    var k := 0;
    while k < |rows|
      invariant 0 <= k <= |rows|
      invariant customers == rows[..k]
    {
      var row := rows[k];
      customers := customers + [Customer(row.id, row.name, row.address, row.phoneNumber)];
      k := k + 1;
    }
    assert rows[..k] == rows;
  }

  /** For a keyword with no `LIKE` metacharacter the search finds exactly the
      customers whose name or phone number contains the keyword. */
  lemma MatchingCustomersBySubstring(t: Tables, keyword: string, orderDescending: bool, c: Customer)
    requires NoWildcards(keyword)
    ensures c in MatchingCustomers(t, keyword, orderDescending)
            <==> c in t.customer && (Contains(c.name, keyword) || Contains(c.phoneNumber, keyword))
  {
    LikeMatchesSubstring(c.name, keyword);
    LikeMatchesSubstring(c.phoneNumber, keyword);
    var r := MatchingCustomers(t, keyword, orderDescending);
    assert c in r <==> multiset(r)[c] > 0;
    assert c in t.customer <==> multiset(t.customer)[c] > 0;
  }

  // ---------------------------------------------------------------------------
  // addCustomer
  // ---------------------------------------------------------------------------

  /** The insert `addCustomer` sends. Its column list is
      `(name, phone_number, address)` but it binds `address` to the second
      placeholder and `phoneNumber` to the third, so the two values land in
      each other's columns. */
  function AddCustomerStatement(name: string, address: string, phoneNumber: string): Statement
  {
    InsertCustomer(name, address, phoneNumber)
  }

  /** The insert as written always succeeds and stores the address in
      `phone_number` and the phone number in `address`. */
  lemma AddCustomerStoresSwapped(t: Tables, name: string, address: string, phoneNumber: string)
    requires t.Consistent()
    ensures var id := FreshKey(t.customer, CustomerKey);
            var u := Exec(t, AddCustomerStatement(name, address, phoneNumber));
            && u.Some?
            && u.value == t.(customer := t.customer + [Customer(id, name, phoneNumber, address)])
            && GetCustomerById(u.value, id) == Some(Customer(id, name, phoneNumber, address))
  {
    var s := AddCustomerStatement(name, address, phoneNumber);
    var id := FreshKey(t.customer, CustomerKey);
    var row := Customer(id, name, phoneNumber, address);
    var u := Effect(t, s);
    assert u.customer == t.customer + [row];
    assert u.ReferencesResolve() by {
      forall o | o in u.orders ensures u.HasCustomer(o.customerId) {
        var x :| x in t.customer && x.id == o.customerId;
        assert x in u.customer;
      }
    }
    ExecKeepsConsistent(t, s);
    assert row in u.customer;
  }

  /** A concrete run: the customer read back has the two values exchanged. */
  lemma AddCustomerRoundTripFails()
    ensures var t := Tables([], [], [], [], []);
            var u := Exec(t, AddCustomerStatement("Ann", "1 Main St", "555-0100"));
            && u.Some?
            && GetCustomerById(u.value, 1).Some?
            && GetCustomerById(u.value, 1).value.address == "555-0100"
            && GetCustomerById(u.value, 1).value.address != "1 Main St"
  {
    var t := Tables([], [], [], [], []);
    assert t.Consistent();
    AddCustomerStoresSwapped(t, "Ann", "1 Main St", "555-0100");
    assert FreshKey(t.customer, CustomerKey) == 1;
  }

  /** The insert with each value bound to its own column. It differs from the
      insert as written exactly when the address and the phone number differ. */
  function IntendedAddCustomerStatement(name: string, address: string, phoneNumber: string): (r: Statement)
    ensures r.InsertCustomer? && r.address == address && r.phoneNumber == phoneNumber && r.name == name
    ensures r != AddCustomerStatement(name, address, phoneNumber) <==> address != phoneNumber
  {
    InsertCustomer(name, phoneNumber, address)
  }

  /** With the bindings in column order a new customer reads back as entered. */
  lemma IntendedAddCustomerRoundTrip(t: Tables, name: string, address: string, phoneNumber: string)
    requires t.Consistent()
    ensures var id := FreshKey(t.customer, CustomerKey);
            var u := Exec(t, IntendedAddCustomerStatement(name, address, phoneNumber));
            && u.Some?
            && u.value.Consistent()
            && GetCustomerById(u.value, id) == Some(Customer(id, name, address, phoneNumber))
            && (forall c :: c in t.customer ==> GetCustomerById(u.value, c.id) == Some(c))
  {
    var s := IntendedAddCustomerStatement(name, address, phoneNumber);
    var id := FreshKey(t.customer, CustomerKey);
    var row := Customer(id, name, address, phoneNumber);
    var u := Effect(t, s);
    assert u.customer == t.customer + [row];
    assert u.ReferencesResolve() by {
      forall o | o in u.orders ensures u.HasCustomer(o.customerId) {
        var x :| x in t.customer && x.id == o.customerId;
        assert x in u.customer;
      }
    }
    ExecKeepsConsistent(t, s);
    assert row in u.customer;
    forall c | c in t.customer ensures GetCustomerById(u, c.id) == Some(c) {
      assert c in u.customer;
    }
  }

  /** `addCustomer` in auto-commit mode: the new row, with the address and
      phone number exchanged, unless the driver fails the statement. */
  method AddCustomer(db: Database, name: string, address: string, phoneNumber: string, fault: Fault)
    returns (ok: bool)
    requires db.Valid()
    modifies db
    ensures db.Valid()
    ensures ok <==> fault != FailsAt(0)
    ensures ok ==> db.State() == old(db.State()).(customer := old(db.customer)
                    + [Customer(FreshKey(old(db.customer), CustomerKey), name, phoneNumber, address)])
    ensures !ok ==> db.State() == old(db.State())
  {
    AddCustomerStoresSwapped(db.State(), name, address, phoneNumber);
    ok := db.ExecuteAutoCommit(AddCustomerStatement(name, address, phoneNumber), fault, 0);
  }

  // ---------------------------------------------------------------------------
  // updateCustomer
  // ---------------------------------------------------------------------------

  /** The update rewrites the row with that id and nothing else; with no such
      row it changes nothing. */
  lemma UpdateCustomerRewritesRow(t: Tables, customerId: int, name: string, address: string, phoneNumber: string)
    requires t.Consistent()
    ensures var u := Exec(t, Statement.UpdateCustomer(customerId, name, address, phoneNumber));
            && u.Some?
            && u.value.Consistent()
            && (forall c :: c in u.value.customer
                  <==> (c in t.customer && c.id != customerId)
                       || (c == Customer(customerId, name, address, phoneNumber) && t.HasCustomer(customerId)))
            && (!t.HasCustomer(customerId) ==> u.value == t)
            && u.value.(customer := t.customer) == t
  {
    var s := Statement.UpdateCustomer(customerId, name, address, phoneNumber);
    var u := Effect(t, s);
    SameKeysPointwise(t.customer, u.customer, CustomerKey);
    ExecKeepsConsistent(t, s);
    RewriteRows(t.customer, u.customer, CustomerKey, customerId, Customer(customerId, name, address, phoneNumber));
  }

  method UpdateCustomer(db: Database, customerId: int, name: string, address: string, phoneNumber: string, fault: Fault)
    returns (ok: bool)
    requires db.Valid()
    modifies db
    ensures db.Valid()
    ensures ok <==> fault != FailsAt(0)
    ensures Exec(old(db.State()), Statement.UpdateCustomer(customerId, name, address, phoneNumber)).Some?
    ensures db.State() == if ok then Exec(old(db.State()), Statement.UpdateCustomer(customerId, name, address, phoneNumber)).value
                          else old(db.State())
  {
    UpdateCustomerRewritesRow(db.State(), customerId, name, address, phoneNumber);
    ok := db.ExecuteAutoCommit(Statement.UpdateCustomer(customerId, name, address, phoneNumber), fault, 0);
  }

  // ---------------------------------------------------------------------------
  // deleteCustomer
  // ---------------------------------------------------------------------------

  /** The three deletes of `deleteCustomer`, in the order it sends them. */
  function DeleteCustomerSteps(customerId: int): seq<Statement>
  {
    [DeleteOrderItemsOfCustomer(customerId), DeleteOrdersOfCustomer(customerId), Statement.DeleteCustomer(customerId)]
  }

  /** On a consistent database the cascade always commits: it removes the
      customer, every order it placed and every item link of those orders,
      and leaves everything else as it was. */
  lemma DeleteCustomerCascade(t: Tables, customerId: int)
    requires t.Consistent()
    ensures ApplyAll(t, DeleteCustomerSteps(customerId)).Some?
    ensures var u := ApplyAll(t, DeleteCustomerSteps(customerId)).value;
            && u.Consistent()
            && !u.HasCustomer(customerId)
            && (forall c :: c in u.customer <==> c in t.customer && c.id != customerId)
            && (forall o :: multiset(u.orders)[o] == if o.customerId == customerId then 0 else multiset(t.orders)[o])
            && (forall l :: multiset(u.orderItem)[l]
                  == if l.orderId in OrderIdsOfCustomer(t.orders, customerId) then 0 else multiset(t.orderItem)[l])
            && u.deliveryman == t.deliveryman && u.item == t.item
  {
    var c := customerId;
    DeleteCustomerCommits(t, c);
    FilterCount(t.orders, NotPlacedBy(c));
    FilterCount(t.orderItem, LinkOutside(OrderIdsOfCustomer(t.orders, c)));
  }

  /** The tables after each step of the cascade. */
  function WithoutLinksOf(t: Tables, customerId: int): Tables
  {
    t.(orderItem := Filter(t.orderItem, LinkOutside(OrderIdsOfCustomer(t.orders, customerId))))
  }

  function WithoutOrdersOf(t: Tables, customerId: int): Tables
  {
    WithoutLinksOf(t, customerId).(orders := Filter(t.orders, NotPlacedBy(customerId)))
  }

  function WithoutCustomer(t: Tables, customerId: int): Tables
  {
    WithoutOrdersOf(t, customerId).(customer := Filter(t.customer, CustomerOtherThan(customerId)))
  }

  /** The three deletes all go through, and the result in closed form. */
  lemma DeleteCustomerCommits(t: Tables, customerId: int)
    requires t.Consistent()
    ensures ApplyAll(t, DeleteCustomerSteps(customerId)) == Some(WithoutCustomer(t, customerId))
    ensures WithoutCustomer(t, customerId).Consistent()
  {
    var c := customerId;
    var s1, s2, s3 := DeleteOrderItemsOfCustomer(c), DeleteOrdersOfCustomer(c), Statement.DeleteCustomer(c);
    DeleteCustomerLinksStep(t, c);
    DeleteCustomerOrdersStep(t, c);
    DeleteCustomerRowStep(t, c);
    ApplyAllThree(t, s1, s2, s3);
    ApplyAllKeepsConsistent(t, DeleteCustomerSteps(c));
  }

  /** Step 1 never raises: removing links leaves no dangling reference. */
  lemma DeleteCustomerLinksStep(t: Tables, customerId: int)
    requires t.Consistent()
    ensures Exec(t, DeleteOrderItemsOfCustomer(customerId)) == Some(WithoutLinksOf(t, customerId))
  {
  }

  /** Step 2 never raises: the links of the removed orders are already gone. */
  lemma DeleteCustomerOrdersStep(t: Tables, customerId: int)
    requires t.Consistent()
    ensures Exec(WithoutLinksOf(t, customerId), DeleteOrdersOfCustomer(customerId)) == Some(WithoutOrdersOf(t, customerId))
  {
    var c := customerId;
    var t2 := WithoutOrdersOf(t, c);
    var doomed := OrderIdsOfCustomer(t.orders, c);
    assert Effect(WithoutLinksOf(t, c), DeleteOrdersOfCustomer(c)) == t2;
    forall o | o in t2.orders
      ensures t2.HasCustomer(o.customerId) && (o.deliverymanId.Some? ==> t2.HasDeliveryman(o.deliverymanId.value))
    {
      assert o in t.orders;
    }
    forall l | l in t2.orderItem ensures t2.HasOrder(l.orderId) && t2.HasItem(l.itemId) {
      assert l in t.orderItem && l.orderId !in doomed;
      var o :| o in t.orders && OrderKey(o) == l.orderId;
      assert o.customerId != c;
      assert o in t2.orders;
    }
  }

  /** Step 3 never raises: no remaining order references the customer. */
  lemma DeleteCustomerRowStep(t: Tables, customerId: int)
    requires t.Consistent()
    ensures Exec(WithoutOrdersOf(t, customerId), Statement.DeleteCustomer(customerId)) == Some(WithoutCustomer(t, customerId))
  {
    var c := customerId;
    var t3 := WithoutCustomer(t, c);
    assert Effect(WithoutOrdersOf(t, c), Statement.DeleteCustomer(c)) == t3;
    forall o | o in t3.orders ensures t3.HasCustomer(o.customerId) {
      assert o in t.orders && o.customerId != c;
      var x :| x in t.customer && CustomerKey(x) == o.customerId;
      assert x in t3.customer;
    }
    forall l | l in t3.orderItem ensures t3.HasOrder(l.orderId) && t3.HasItem(l.itemId) {
      assert l in WithoutOrdersOf(t, c).orderItem;
    }
  }

  /** The order of the steps matters: deleting the customer row first raises
      as soon as the customer has an order. */
  lemma DeleteCustomerRowFirstFails(t: Tables, customerId: int, o: OrderRow)
    requires t.Consistent()
    requires o in t.orders && o.customerId == customerId
    ensures Exec(t, Statement.DeleteCustomer(customerId)).None?
  {
    var u := Effect(t, Statement.DeleteCustomer(customerId));
    assert o in u.orders;
    assert !u.HasCustomer(customerId);
  }

  /** `deleteCustomer`: the three deletes inside one transaction, rolled back
      as a whole if any of them raises. */
  method DeleteCustomer(db: Database, customerId: int, fault: Fault) returns (committed: bool)
    requires db.Valid()
    modifies db
    ensures db.Valid()
    ensures committed <==> !FailsWithin(fault, 3)
    ensures ApplyAll(old(db.State()), DeleteCustomerSteps(customerId)).Some?
    ensures db.State() == if committed then ApplyAll(old(db.State()), DeleteCustomerSteps(customerId)).value
                          else old(db.State())
  {
    DeleteCustomerCascade(db.State(), customerId);
    committed := db.RunTransaction(DeleteCustomerSteps(customerId), fault);
  }
}

/** `DeliverymanController`: listing deliverymen with the ids of the orders
    assigned to them, keyword search, lookup by id, and the insert, update and
    delete of a deliveryman (which first unassigns the deliveryman's orders). */
module DeliverymanController {
  import opened Common
  import opened Text
  import opened Schema
  import opened Sql
  import opened Store
  import opened Grouping

  // ---------------------------------------------------------------------------
  // getAllDeliverymen
  // ---------------------------------------------------------------------------

  /** `o.deliveryman_id`, the nullable order column that points at a deliveryman. */
  function AssignedColumn(o: OrderRow): Option<int>
  {
    o.deliverymanId
  }

  /** `deliveryman d LEFT JOIN orders o ON d.id = o.deliveryman_id`. */
  function DeliverymanJoin(deliverymen: seq<Deliveryman>, orders: seq<OrderRow>): seq<JoinRow<Deliveryman>>
  {
    LeftJoin(deliverymen, DeliverymanKey, orders, AssignedColumn)
  }

  /** The ids of the orders assigned to deliveryman `id`, as a bag. */
  function OrdersAssignedTo(orders: seq<OrderRow>, id: int): multiset<int>
  {
    OrdersReferring(orders, AssignedColumn, id)
  }

  /** Reads the joined rows, which the database returns in no particular order,
      into one deliveryman object per id, each holding the ids of the orders
      assigned to it. */
  method GetAllDeliverymen(t: Tables, rows: seq<JoinRow<Deliveryman>>) returns (deliverymen: set<Entry<Deliveryman>>)
    requires UniqueBy(t.deliveryman, DeliverymanKey)
    requires multiset(rows) == multiset(DeliverymanJoin(t.deliveryman, t.orders))
    ensures forall e | e in deliverymen :: e.owner in t.deliveryman
    ensures forall d | d in t.deliveryman :: exists e :: e in deliverymen && e.owner == d
    ensures forall e1, e2 | e1 in deliverymen && e2 in deliverymen && e1.owner.id == e2.owner.id :: e1 == e2
    ensures forall e | e in deliverymen :: multiset(e.orders) == OrdersAssignedTo(t.orders, e.owner.id)
  {
    var byId := GroupByOwner(rows, DeliverymanKey);
    deliverymen := EntriesOf(byId);
    GroupedEntries(t.deliveryman, DeliverymanKey, t.orders, AssignedColumn, rows, byId);
    GroupedOrders(t.deliveryman, DeliverymanKey, t.orders, AssignedColumn, rows, byId);
  }

  // ---------------------------------------------------------------------------
  // getDeliverymanById
  // ---------------------------------------------------------------------------

  /** `SELECT * FROM deliveryman WHERE id = ?`: the row with that id, or null. */
  function GetDeliverymanById(t: Tables, deliverymanId: int): (r: Option<Deliveryman>)
    ensures r.Some? <==> t.HasDeliveryman(deliverymanId)
    ensures r.Some? ==> r.value in t.deliveryman && r.value.id == deliverymanId
    ensures UniqueBy(t.deliveryman, DeliverymanKey) ==>
              forall d | d in t.deliveryman && d.id == deliverymanId :: r == Some(d)
  {
    var found := Find(t.deliveryman, (d: Deliveryman) => d.id == deliverymanId);
    if found.Some? && UniqueBy(t.deliveryman, DeliverymanKey) then
      assert forall d | d in t.deliveryman && d.id == deliverymanId :: d == found.value by {
        forall d | d in t.deliveryman && d.id == deliverymanId ensures d == found.value {
          UniqueByMembers(t.deliveryman, DeliverymanKey, d, found.value);
        }
      }
      found
    else
      found
  }

  // ---------------------------------------------------------------------------
  // searchDeliverymen
  // ---------------------------------------------------------------------------

  /** The `WHERE name LIKE ? OR phone_number LIKE ?` condition of the search. */
  predicate DeliverymanMatches(d: Deliveryman, keyword: string)
  {
    Like(d.name, SearchPattern(keyword)) || Like(d.phoneNumber, SearchPattern(keyword))
  }

  function DeliverymanMatchesKeyword(keyword: string): Deliveryman -> bool
  {
    (d: Deliveryman) => DeliverymanMatches(d, keyword)
  }

  /** The rows `SELECT * FROM deliveryman WHERE name LIKE ? OR phone_number
      LIKE ?` returns, in table order: the deliverymen whose name or phone
      number matches `%keyword%`, each as often as it is stored. The query has
      no `ORDER BY`, so the database may return them in any order. */
  function MatchingDeliverymen(t: Tables, keyword: string): (r: seq<Deliveryman>)
    ensures forall d :: multiset(r)[d] == if DeliverymanMatches(d, keyword) then multiset(t.deliveryman)[d] else 0
  {
    FilterCount(t.deliveryman, DeliverymanMatchesKeyword(keyword));
    Filter(t.deliveryman, DeliverymanMatchesKeyword(keyword))
  }

  /** Copies the rows of the search query, in whatever order they arrive, into
      a list: every matching deliveryman as often as it is stored, and nothing
      else. */
  method SearchDeliverymen(t: Tables, keyword: string, rows: seq<Deliveryman>) returns (deliverymen: seq<Deliveryman>)
    requires multiset(rows) == multiset(MatchingDeliverymen(t, keyword))
    ensures forall d :: multiset(deliverymen)[d] == if DeliverymanMatches(d, keyword) then multiset(t.deliveryman)[d] else 0
    ensures |deliverymen| == |rows| && forall i | 0 <= i < |rows| :: deliverymen[i] == rows[i]
  {
    deliverymen := [];
    var k := 0;
    while k < |rows|
      invariant 0 <= k <= |rows|
      invariant deliverymen == rows[..k]
    {
      var row := rows[k];
      deliverymen := deliverymen + [Deliveryman(row.id, row.name, row.phoneNumber)];
      k := k + 1;
    }
    assert rows[..k] == rows;
  }

  /** For a keyword with no `LIKE` metacharacter the search finds exactly the
      deliverymen whose name or phone number contains the keyword. */
  lemma MatchingDeliverymenBySubstring(t: Tables, keyword: string, d: Deliveryman)
    requires NoWildcards(keyword)
    ensures d in MatchingDeliverymen(t, keyword)
            <==> d in t.deliveryman && (Contains(d.name, keyword) || Contains(d.phoneNumber, keyword))
  {
    LikeMatchesSubstring(d.name, keyword);
    LikeMatchesSubstring(d.phoneNumber, keyword);
    var r := MatchingDeliverymen(t, keyword);
    assert d in r <==> multiset(r)[d] > 0;
    assert d in t.deliveryman <==> multiset(t.deliveryman)[d] > 0;
  }

  // ---------------------------------------------------------------------------
  // addDeliveryman
  // ---------------------------------------------------------------------------

  /** The insert always succeeds; the new deliveryman reads back as entered
      under a fresh id, and every existing deliveryman still reads back. */
  lemma AddDeliverymanRoundTrip(t: Tables, name: string, phoneNumber: string)
    requires t.Consistent()
    ensures var id := FreshKey(t.deliveryman, DeliverymanKey);
            var u := Exec(t, InsertDeliveryman(name, phoneNumber));
            && u.Some?
            && u.value.Consistent()
            && u.value == t.(deliveryman := t.deliveryman + [Deliveryman(id, name, phoneNumber)])
            && GetDeliverymanById(u.value, id) == Some(Deliveryman(id, name, phoneNumber))
            && (forall d :: d in t.deliveryman ==> GetDeliverymanById(u.value, d.id) == Some(d))
  {
    var s := InsertDeliveryman(name, phoneNumber);
    var id := FreshKey(t.deliveryman, DeliverymanKey);
    var row := Deliveryman(id, name, phoneNumber);
    var u := Effect(t, s);
    assert u.deliveryman == t.deliveryman + [row];
    assert u.ReferencesResolve() by {
      forall o | o in u.orders && o.deliverymanId.Some? ensures u.HasDeliveryman(o.deliverymanId.value) {
        var x :| x in t.deliveryman && x.id == o.deliverymanId.value;
        assert x in u.deliveryman;
      }
    }
    ExecKeepsConsistent(t, s);
    assert row in u.deliveryman;
    forall d | d in t.deliveryman ensures GetDeliverymanById(u, d.id) == Some(d) {
      assert d in u.deliveryman;
    }
  }

  /** `addDeliveryman` in auto-commit mode. */
  method AddDeliveryman(db: Database, name: string, phoneNumber: string, fault: Fault) returns (ok: bool)
    requires db.Valid()
    modifies db
    ensures db.Valid()
    ensures ok <==> fault != FailsAt(0)
    ensures ok ==> db.State() == old(db.State()).(deliveryman := old(db.deliveryman)
                    + [Deliveryman(FreshKey(old(db.deliveryman), DeliverymanKey), name, phoneNumber)])
    ensures !ok ==> db.State() == old(db.State())
  {
    AddDeliverymanRoundTrip(db.State(), name, phoneNumber);
    ok := db.ExecuteAutoCommit(InsertDeliveryman(name, phoneNumber), fault, 0);
  }

  // ---------------------------------------------------------------------------
  // updateDeliveryman
  // ---------------------------------------------------------------------------

  /** The update rewrites the row with that id and nothing else; with no such
      row it changes nothing. */
  lemma UpdateDeliverymanRewritesRow(t: Tables, deliverymanId: int, name: string, phoneNumber: string)
    requires t.Consistent()
    ensures var u := Exec(t, Statement.UpdateDeliveryman(deliverymanId, name, phoneNumber));
            && u.Some?
            && u.value.Consistent()
            && (forall d :: d in u.value.deliveryman
                  <==> (d in t.deliveryman && d.id != deliverymanId)
                       || (d == Deliveryman(deliverymanId, name, phoneNumber) && t.HasDeliveryman(deliverymanId)))
            && (!t.HasDeliveryman(deliverymanId) ==> u.value == t)
            && u.value.(deliveryman := t.deliveryman) == t
  {
    var s := Statement.UpdateDeliveryman(deliverymanId, name, phoneNumber);
    var u := Effect(t, s);
    SameKeysPointwise(t.deliveryman, u.deliveryman, DeliverymanKey);
    ExecKeepsConsistent(t, s);
    RewriteRows(t.deliveryman, u.deliveryman, DeliverymanKey, deliverymanId, Deliveryman(deliverymanId, name, phoneNumber));
  }

  /** `updateDeliveryman` in auto-commit mode. */
  method UpdateDeliveryman(db: Database, deliverymanId: int, name: string, phoneNumber: string, fault: Fault)
    returns (ok: bool)
    requires db.Valid()
    modifies db
    ensures db.Valid()
    ensures ok <==> fault != FailsAt(0)
    ensures Exec(old(db.State()), Statement.UpdateDeliveryman(deliverymanId, name, phoneNumber)).Some?
    ensures db.State() == if ok then Exec(old(db.State()), Statement.UpdateDeliveryman(deliverymanId, name, phoneNumber)).value
                          else old(db.State())
  {
    UpdateDeliverymanRewritesRow(db.State(), deliverymanId, name, phoneNumber);
    ok := db.ExecuteAutoCommit(Statement.UpdateDeliveryman(deliverymanId, name, phoneNumber), fault, 0);
  }

  // ---------------------------------------------------------------------------
  // deleteDeliveryman
  // ---------------------------------------------------------------------------

  /** The two statements of `deleteDeliveryman`, in the order it sends them. */
  function DeleteDeliverymanSteps(deliverymanId: int): seq<Statement>
  {
    [UnassignDeliveryman(deliverymanId), Statement.DeleteDeliveryman(deliverymanId)]
  }

  /** The tables after each step. */
  function WithoutAssignmentsTo(t: Tables, deliverymanId: int): Tables
  {
    Effect(t, UnassignDeliveryman(deliverymanId))
  }

  function WithoutDeliveryman(t: Tables, deliverymanId: int): Tables
  {
    WithoutAssignmentsTo(t, deliverymanId).(deliveryman := Filter(t.deliveryman, DeliverymanOtherThan(deliverymanId)))
  }

  /** On a consistent database the delete always commits: the deliveryman is
      gone, every order keeps its row except that an assignment to the
      deliveryman becomes NULL, no order lists it any more, and the other
      tables are as they were. */
  lemma DeleteDeliverymanUnassigns(t: Tables, deliverymanId: int)
    requires t.Consistent()
    ensures ApplyAll(t, DeleteDeliverymanSteps(deliverymanId)).Some?
    ensures var u := ApplyAll(t, DeleteDeliverymanSteps(deliverymanId)).value;
            && u.Consistent()
            && !u.HasDeliveryman(deliverymanId)
            && (forall d :: d in u.deliveryman <==> d in t.deliveryman && d.id != deliverymanId)
            && |u.orders| == |t.orders|
            && (forall i | 0 <= i < |t.orders| ::
                  && u.orders[i].(deliverymanId := None) == t.orders[i].(deliverymanId := None)
                  && u.orders[i].deliverymanId != Some(deliverymanId)
                  && (t.orders[i].deliverymanId != Some(deliverymanId) ==> u.orders[i] == t.orders[i])
                  && (t.orders[i].deliverymanId == Some(deliverymanId) ==> u.orders[i].deliverymanId == None))
            && OrdersAssignedTo(u.orders, deliverymanId) == multiset{}
            && u.customer == t.customer && u.item == t.item && u.orderItem == t.orderItem
  {
    var d := deliverymanId;
    DeleteDeliverymanCommits(t, d);
    var u := WithoutDeliveryman(t, d);
    NoneAssigned(u.orders, d);
  }

  /** With no order assigned to `id`, nothing is listed for `id`. */
  lemma {:induction false} NoneAssigned(orders: seq<OrderRow>, id: int)
    requires forall i | 0 <= i < |orders| :: orders[i].deliverymanId != Some(id)
    ensures OrdersAssignedTo(orders, id) == multiset{}
    decreases |orders|
  {
    if orders != [] {
      var rest := orders[1..];
      assert forall i | 0 <= i < |rest| :: rest[i] == orders[i + 1];
      NoneAssigned(rest, id);
      assert OrdersAssignedTo(orders, id) == RefersTo(AssignedColumn, id)(orders[0]) + OrdersAssignedTo(rest, id);
    }
  }

  /** Both statements go through, and the result in closed form. */
  lemma DeleteDeliverymanCommits(t: Tables, deliverymanId: int)
    requires t.Consistent()
    ensures ApplyAll(t, DeleteDeliverymanSteps(deliverymanId)) == Some(WithoutDeliveryman(t, deliverymanId))
    ensures WithoutDeliveryman(t, deliverymanId).Consistent()
  {
    var d := deliverymanId;
    UnassignStep(t, d);
    DeleteDeliverymanRowStep(t, d);
    ApplyAllTwo(t, UnassignDeliveryman(d), Statement.DeleteDeliveryman(d));
    ApplyAllKeepsConsistent(t, DeleteDeliverymanSteps(d));
  }

  /** Step 1 never raises, since clearing a reference cannot leave one
      dangling; it sets every assignment to the deliveryman to NULL and
      changes nothing else. */
  lemma UnassignStep(t: Tables, deliverymanId: int)
    requires t.Consistent()
    ensures Exec(t, UnassignDeliveryman(deliverymanId)) == Some(WithoutAssignmentsTo(t, deliverymanId))
    ensures var u := WithoutAssignmentsTo(t, deliverymanId);
            && |u.orders| == |t.orders|
            && (forall i | 0 <= i < |t.orders| ::
                  u.orders[i] == if t.orders[i].deliverymanId == Some(deliverymanId)
                                 then t.orders[i].(deliverymanId := None)
                                 else t.orders[i])
            && u.customer == t.customer && u.deliveryman == t.deliveryman
            && u.item == t.item && u.orderItem == t.orderItem
  {
    var t1 := WithoutAssignmentsTo(t, deliverymanId);
    SameKeysPointwise(t.orders, t1.orders, OrderKey);
    forall o | o in t1.orders
      ensures t1.HasCustomer(o.customerId) && (o.deliverymanId.Some? ==> t1.HasDeliveryman(o.deliverymanId.value))
    {
      var i :| 0 <= i < |t1.orders| && t1.orders[i] == o;
      assert t.orders[i] in t.orders;
    }
    forall l | l in t1.orderItem ensures t1.HasOrder(l.orderId) && t1.HasItem(l.itemId) {
      assert t.HasOrder(l.orderId);
    }
  }

  /** Step 2 never raises: after step 1 no order references the deliveryman. */
  lemma DeleteDeliverymanRowStep(t: Tables, deliverymanId: int)
    requires t.Consistent()
    ensures Exec(WithoutAssignmentsTo(t, deliverymanId), Statement.DeleteDeliveryman(deliverymanId))
            == Some(WithoutDeliveryman(t, deliverymanId))
  {
    var d := deliverymanId;
    var t1 := WithoutAssignmentsTo(t, d);
    var t2 := WithoutDeliveryman(t, d);
    UnassignStep(t, d);
    assert Effect(t1, Statement.DeleteDeliveryman(d)) == t2;
    forall o | o in t2.orders
      ensures t2.HasCustomer(o.customerId) && (o.deliverymanId.Some? ==> t2.HasDeliveryman(o.deliverymanId.value))
    {
      assert o in t1.orders;
      if o.deliverymanId.Some? {
        var i :| 0 <= i < |t1.orders| && t1.orders[i] == o;
        assert o.deliverymanId != Some(d);
        var x :| x in t.deliveryman && DeliverymanKey(x) == o.deliverymanId.value;
        assert x in t2.deliveryman;
      }
    }
  }

  /** The order of the steps matters: deleting the row first raises as soon as
      an order is assigned to the deliveryman. */
  lemma DeleteDeliverymanRowFirstFails(t: Tables, deliverymanId: int, o: OrderRow)
    requires t.Consistent()
    requires o in t.orders && o.deliverymanId == Some(deliverymanId)
    ensures Exec(t, Statement.DeleteDeliveryman(deliverymanId)).None?
  {
    var u := Effect(t, Statement.DeleteDeliveryman(deliverymanId));
    assert o in u.orders;
    assert !u.HasDeliveryman(deliverymanId);
  }

  /** `deleteDeliveryman`: both statements inside one transaction, rolled
      back as a whole if either raises. */
  method DeleteDeliveryman(db: Database, deliverymanId: int, fault: Fault) returns (committed: bool)
    requires db.Valid()
    modifies db
    ensures db.Valid()
    ensures committed <==> !FailsWithin(fault, 2)
    ensures ApplyAll(old(db.State()), DeleteDeliverymanSteps(deliverymanId)).Some?
    ensures db.State() == if committed then ApplyAll(old(db.State()), DeleteDeliverymanSteps(deliverymanId)).value
                          else old(db.State())
  {
    DeleteDeliverymanUnassigns(db.State(), deliverymanId);
    committed := db.RunTransaction(DeleteDeliverymanSteps(deliverymanId), fault);
  }
}

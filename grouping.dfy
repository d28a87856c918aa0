/** The listing pattern `getAllCustomers` and `getAllDeliverymen` share:
    `SELECT x.*, o.id AS order_id FROM x LEFT JOIN orders o ON x.id = o.<ref>`,
    then one pass over the rows that groups them into one object per `x.id`,
    each holding the ids of the orders that reference it. `T` is the owner's
    row type, `key` its id, and `ref` the order column that points at it. */
module Grouping {
  import opened Common
  import opened Schema

  /** One row of the left join: the owner's columns and `o.id`, NULL when the
      owner has no order. */
  datatype JoinRow<T> = JoinRow(owner: T, orderId: Option<int>)

  /** An owner object as the pass builds it: its columns and the ids of the
      orders attached to it, in the order their rows arrived. */
  datatype Entry<T> = Entry(owner: T, orders: seq<int>)

  /** The joined rows of owner `x`: one per order that references it. */
  function MatchedOrderRows<T>(x: T, key: T -> int, orders: seq<OrderRow>, ref: OrderRow -> Option<int>): seq<JoinRow<T>>
  {
    if orders == [] then []
    else
      (if ref(orders[0]) == Some(key(x)) then [JoinRow(x, Some(orders[0].id))] else [])
      + MatchedOrderRows(x, key, orders[1..], ref)
  }

  /** The left join: an owner no order references still yields one row, whose
      order id is NULL. */
  function LeftJoin<T>(owners: seq<T>, key: T -> int, orders: seq<OrderRow>, ref: OrderRow -> Option<int>): seq<JoinRow<T>>
  {
    if owners == [] then []
    else
      var matched := MatchedOrderRows(owners[0], key, orders, ref);
      (if matched == [] then [JoinRow(owners[0], None)] else matched)
      + LeftJoin(owners[1..], key, orders, ref)
  }

  /** What one joined row contributes to the order list of owner `id`. */
  function OrderIdFor<T>(key: T -> int, id: int): JoinRow<T> -> multiset<int>
  {
    (r: JoinRow<T>) => if key(r.owner) == id && r.orderId.Some? then multiset{r.orderId.value} else multiset{}
  }

  /** The order ids a pass over `rows` attaches to owner `id`. */
  function AttachedOrders<T>(rows: seq<JoinRow<T>>, key: T -> int, id: int): multiset<int>
  {
    Gather(rows, OrderIdFor(key, id))
  }

  function RefersTo(ref: OrderRow -> Option<int>, id: int): OrderRow -> multiset<int>
  {
    (o: OrderRow) => if ref(o) == Some(id) then multiset{o.id} else multiset{}
  }

  /** The ids of the orders whose `ref` column holds `id`, as a bag. */
  function OrdersReferring(orders: seq<OrderRow>, ref: OrderRow -> Option<int>, id: int): multiset<int>
  {
    Gather(orders, RefersTo(ref, id))
  }

  /** The rows matched for one owner carry that owner and, between them,
      exactly the ids of the orders that reference it. */
  lemma {:induction false} MatchedRowsAttach<T>(x: T, key: T -> int, orders: seq<OrderRow>, ref: OrderRow -> Option<int>, id: int)
    ensures forall r :: r in MatchedOrderRows(x, key, orders, ref) ==> r.owner == x
    ensures AttachedOrders(MatchedOrderRows(x, key, orders, ref), key, id)
            == if key(x) == id then OrdersReferring(orders, ref, id) else multiset{}
    ensures MatchedOrderRows(x, key, orders, ref) == [] ==> OrdersReferring(orders, ref, key(x)) == multiset{}
    decreases |orders|
  {
    if orders != [] {
      var head: seq<JoinRow<T>> :=
        if ref(orders[0]) == Some(key(x)) then [JoinRow(x, Some(orders[0].id))] else [];
      var rest := MatchedOrderRows(x, key, orders[1..], ref);
      MatchedRowsAttach(x, key, orders[1..], ref, id);
      MatchedRowsAttach(x, key, orders[1..], ref, key(x));
      GatherAppend(head, rest, OrderIdFor(key, id));
      if head != [] {
        assert head[1..] == [];
      }
    }
  }

  /** Given unique owner ids, the whole join attaches to owner `id` exactly the
      orders that reference it. */
  lemma {:induction false} JoinAttach<T>(owners: seq<T>, key: T -> int, orders: seq<OrderRow>, ref: OrderRow -> Option<int>, id: int)
    requires UniqueBy(owners, key)
    ensures AttachedOrders(LeftJoin(owners, key, orders, ref), key, id)
            == if exists x :: x in owners && key(x) == id then OrdersReferring(orders, ref, id) else multiset{}
    decreases |owners|
  {
    if owners != [] {
      var x, tail := owners[0], owners[1..];
      var matched := MatchedOrderRows(x, key, orders, ref);
      var head := if matched == [] then [JoinRow(x, None)] else matched;
      var rest := LeftJoin(tail, key, orders, ref);
      assert LeftJoin(owners, key, orders, ref) == head + rest;
      GatherAppend(head, rest, OrderIdFor(key, id));
      UniqueTail(owners, key);
      JoinAttach(tail, key, orders, ref, id);
      MatchedRowsAttach(x, key, orders, ref, id);
      MatchedRowsAttach(x, key, orders, ref, key(x));
      var fromHead := if key(x) == id then OrdersReferring(orders, ref, id) else multiset{};
      assert AttachedOrders(head, key, id) == fromHead by {
        if matched == [] {
          assert head[1..] == [];
        }
      }
      KeyInCons(owners, key, id);
    }
  }

  /** The join yields rows only for the owners of the table, and for each of them. */
  lemma {:induction false} JoinCovers<T>(owners: seq<T>, key: T -> int, orders: seq<OrderRow>, ref: OrderRow -> Option<int>)
    ensures forall r :: r in LeftJoin(owners, key, orders, ref) ==> r.owner in owners
    ensures forall x :: x in owners ==> exists r :: r in LeftJoin(owners, key, orders, ref) && r.owner == x
    decreases |owners|
  {
    if owners != [] {
      var x := owners[0];
      var matched := MatchedOrderRows(x, key, orders, ref);
      var head := if matched == [] then [JoinRow(x, None)] else matched;
      var rest := LeftJoin(owners[1..], key, orders, ref);
      JoinCovers(owners[1..], key, orders, ref);
      MatchedRowsAttach(x, key, orders, ref, key(x));
      assert LeftJoin(owners, key, orders, ref) == head + rest;
      assert head[0] in head && head[0].owner == x;
      assert owners == [x] + owners[1..];
    }
  }

  /** The order ids the map holds for owner `id`. */
  function OrdersIn<T>(byId: map<int, Entry<T>>, id: int): seq<int>
  {
    if id in byId then byId[id].orders else []
  }

  /** One turn of the grouping loop on the map: look up the row's owner,
      creating its entry on first sight, and append the row's order id. */
  function AddRow<T>(byId: map<int, Entry<T>>, row: JoinRow<T>, key: T -> int): map<int, Entry<T>>
  {
    var id := key(row.owner);
    var entry := if id in byId then byId[id] else Entry(row.owner, []);
    byId[id := if row.orderId.Some? then entry.(orders := entry.orders + [row.orderId.value]) else entry]
  }

  /** Every entry sits under its owner's id and was built from a row read. */
  ghost predicate EntriesFromRows<T>(byId: map<int, Entry<T>>, rows: seq<JoinRow<T>>, key: T -> int)
  {
    forall id | id in byId ::
      key(byId[id].owner) == id && exists j :: 0 <= j < |rows| && rows[j].owner == byId[id].owner
  }

  /** Every row read has an entry for its owner. */
  ghost predicate RowsCovered<T>(byId: map<int, Entry<T>>, rows: seq<JoinRow<T>>, key: T -> int)
  {
    forall j | 0 <= j < |rows| :: key(rows[j].owner) in byId
  }

  /** Every owner id holds exactly the order ids the rows read attach to it. */
  ghost predicate OrdersAttached<T>(byId: map<int, Entry<T>>, rows: seq<JoinRow<T>>, key: T -> int)
  {
    forall id :: multiset(OrdersIn(byId, id)) == AttachedOrders(rows, key, id)
  }

  /** `byId` is what grouping `rows` produces. */
  ghost predicate GroupedFrom<T>(byId: map<int, Entry<T>>, rows: seq<JoinRow<T>>, key: T -> int)
  {
    EntriesFromRows(byId, rows, key) && RowsCovered(byId, rows, key) && OrdersAttached(byId, rows, key)
  }

  /** One turn of the loop keeps the map in step with the rows read. */
  lemma GroupStep<T>(byId: map<int, Entry<T>>, rows: seq<JoinRow<T>>, row: JoinRow<T>, key: T -> int)
    requires GroupedFrom(byId, rows, key)
    ensures GroupedFrom(AddRow(byId, row, key), rows + [row], key)
  {
    GroupStepEntries(byId, rows, row, key);
    GroupStepCovered(byId, rows, row, key);
    GroupStepOrders(byId, rows, row, key);
  }

  lemma GroupStepEntries<T>(byId: map<int, Entry<T>>, rows: seq<JoinRow<T>>, row: JoinRow<T>, key: T -> int)
    requires EntriesFromRows(byId, rows, key)
    ensures EntriesFromRows(AddRow(byId, row, key), rows + [row], key)
  {
    var next, rows' := AddRow(byId, row, key), rows + [row];
    forall k | k in next
      ensures key(next[k].owner) == k && exists j :: 0 <= j < |rows'| && rows'[j].owner == next[k].owner
    {
      if k == key(row.owner) && k !in byId {
        assert rows'[|rows|] == row;
      } else {
        var j :| 0 <= j < |rows| && rows[j].owner == byId[k].owner;
        assert rows'[j] == rows[j];
      }
    }
  }

  lemma GroupStepCovered<T>(byId: map<int, Entry<T>>, rows: seq<JoinRow<T>>, row: JoinRow<T>, key: T -> int)
    requires RowsCovered(byId, rows, key)
    ensures RowsCovered(AddRow(byId, row, key), rows + [row], key)
  {
    var rows' := rows + [row];
    forall j | 0 <= j < |rows'| ensures key(rows'[j].owner) in AddRow(byId, row, key) {
      if j < |rows| {
        assert rows'[j] == rows[j];
      }
    }
  }

  lemma GroupStepOrders<T>(byId: map<int, Entry<T>>, rows: seq<JoinRow<T>>, row: JoinRow<T>, key: T -> int)
    requires OrdersAttached(byId, rows, key)
    ensures OrdersAttached(AddRow(byId, row, key), rows + [row], key)
  {
    forall x ensures multiset(OrdersIn(AddRow(byId, row, key), x)) == AttachedOrders(rows + [row], key, x) {
      GroupStepOrdersAt(byId, rows, row, key, x);
    }
  }

  lemma GroupStepOrdersAt<T>(byId: map<int, Entry<T>>, rows: seq<JoinRow<T>>, row: JoinRow<T>, key: T -> int, x: int)
    requires multiset(OrdersIn(byId, x)) == AttachedOrders(rows, key, x)
    ensures multiset(OrdersIn(AddRow(byId, row, key), x)) == AttachedOrders(rows + [row], key, x)
  {
    GatherSnoc(rows, row, OrderIdFor(key, x));
    var before := OrdersIn(byId, x);
    var after := OrdersIn(AddRow(byId, row, key), x);
    if x != key(row.owner) {
      assert after == before;
    } else if row.orderId.Some? {
      assert after == before + [row.orderId.value];
    } else {
      assert after == before;
    }
  }

  /** The pass over the joined rows: a map from owner id to owner object,
      filled row by row. */
  method GroupByOwner<T>(rows: seq<JoinRow<T>>, key: T -> int) returns (byId: map<int, Entry<T>>)
    ensures GroupedFrom(byId, rows, key)
  {
    byId := map[];
    var i := 0;
    while i < |rows|
      invariant 0 <= i <= |rows|
      invariant GroupedFrom(byId, rows[..i], key)
    {
      var row := rows[i];
      var id := key(row.owner);
      var entry := if id in byId then byId[id] else Entry(row.owner, []);
      if row.orderId.Some? {
        entry := entry.(orders := entry.orders + [row.orderId.value]);
      }
      GroupStep(byId, rows[..i], row, key);
      assert rows[..i + 1] == rows[..i] + [row];
      assert byId[id := entry] == AddRow(byId, row, key);
      byId := byId[id := entry];
      i := i + 1;
    }
    assert rows[..i] == rows;
  }

  /** The objects held by the map (`map.values()`). */
  function EntriesOf<T(==)>(byId: map<int, Entry<T>>): set<Entry<T>>
  {
    set id | id in byId :: byId[id]
  }

  /** Grouping the join of a table with unique ids gives one entry per owner
      of the table, and none for anything else. */
  lemma GroupedEntries<T>(owners: seq<T>, key: T -> int, orders: seq<OrderRow>, ref: OrderRow -> Option<int>,
                          rows: seq<JoinRow<T>>, byId: map<int, Entry<T>>)
    requires UniqueBy(owners, key)
    requires multiset(rows) == multiset(LeftJoin(owners, key, orders, ref))
    requires GroupedFrom(byId, rows, key)
    ensures forall e | e in EntriesOf(byId) :: e.owner in owners
    ensures forall x | x in owners :: exists e :: e in EntriesOf(byId) && e.owner == x
    ensures forall e1, e2 | e1 in EntriesOf(byId) && e2 in EntriesOf(byId) && key(e1.owner) == key(e2.owner) :: e1 == e2
  {
    JoinCovers(owners, key, orders, ref);
    forall e | e in EntriesOf(byId) ensures e.owner in owners {
      var id :| id in byId && byId[id] == e;
      var j :| 0 <= j < |rows| && rows[j].owner == e.owner;
      assert rows[j] in multiset(LeftJoin(owners, key, orders, ref));
    }
    assert forall x | x in owners :: exists e :: e in EntriesOf(byId) && e.owner == x by {
      forall x | x in owners ensures exists e :: e in EntriesOf(byId) && e.owner == x {
        var r :| r in LeftJoin(owners, key, orders, ref) && r.owner == x;
        assert r in multiset(rows);
        var j :| 0 <= j < |rows| && rows[j] == r;
        var e := byId[key(x)];
        assert e in EntriesOf(byId);
        UniqueByMembers(owners, key, e.owner, x);
      }
    }
  }

  /** Each entry carries the ids of all orders that reference its owner. */
  lemma GroupedOrders<T>(owners: seq<T>, key: T -> int, orders: seq<OrderRow>, ref: OrderRow -> Option<int>,
                         rows: seq<JoinRow<T>>, byId: map<int, Entry<T>>)
    requires UniqueBy(owners, key)
    requires multiset(rows) == multiset(LeftJoin(owners, key, orders, ref))
    requires GroupedFrom(byId, rows, key)
    ensures forall e | e in EntriesOf(byId) :: multiset(e.orders) == OrdersReferring(orders, ref, key(e.owner))
  {
    GroupedEntries(owners, key, orders, ref, rows, byId);
    forall e | e in EntriesOf(byId) ensures multiset(e.orders) == OrdersReferring(orders, ref, key(e.owner)) {
      var id :| id in byId && byId[id] == e;
      assert OrdersIn(byId, id) == e.orders;
      GatherPermutation(rows, LeftJoin(owners, key, orders, ref), OrderIdFor(key, id));
      JoinAttach(owners, key, orders, ref, id);
      assert e.owner in owners;
    }
  }
}

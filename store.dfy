/** The database the controllers talk to: five tables updated in place, one
    statement at a time, either in auto-commit mode or inside a transaction
    that commits all of its statements or rolls all of them back. */
module Store {
  import opened Common
  import opened Schema
  import opened Sql

  class Database {
    var customer: seq<Customer>
    var deliveryman: seq<Deliveryman>
    var item: seq<Item>
    var orders: seq<OrderRow>
    var orderItem: seq<OrderItem>

    function State(): Tables
      reads this
    {
      Tables(customer, deliveryman, item, orders, orderItem)
    }

    /** The constraints the schema declares hold between statements. */
    ghost predicate Valid()
      reads this
    {
      State().Consistent()
    }

    constructor (initial: Tables)
      requires initial.Consistent()
      ensures Valid() && State() == initial
    {
      customer := initial.customer;
      deliveryman := initial.deliveryman;
      item := initial.item;
      orders := initial.orders;
      orderItem := initial.orderItem;
    }

    /** Executes one statement: it writes the one table it names, or raises
        (`ok == false`) on a foreign-key violation and writes nothing. */
    method Execute(s: Statement) returns (ok: bool)
      requires Valid()
      modifies this
      ensures Valid()
      ensures ok <==> Exec(old(State()), s).Some?
      ensures State() == if ok then Exec(old(State()), s).value else old(State())
    {
      var next := Effect(State(), s);
      if !next.ReferencesResolve() {
        return false;
      }
      ExecKeepsConsistent(State(), s);
      match s {
        case InsertCustomer(_, _, _) | UpdateCustomer(_, _, _, _) | DeleteCustomer(_) =>
          customer := next.customer;
        case InsertDeliveryman(_, _) | UpdateDeliveryman(_, _, _) | DeleteDeliveryman(_) =>
          deliveryman := next.deliveryman;
        case InsertItem(_, _) | UpdateItem(_, _, _) | DeleteItem(_) =>
          item := next.item;
        case DeleteOrdersOfCustomer(_) | UnassignDeliveryman(_) | InsertOrder(_, _, _, _)
          | UpdateOrder(_, _, _, _, _) | DeleteOrder(_) =>
          orders := next.orders;
        case DeleteOrderItemsOfCustomer(_) | DeleteOrderItemsOfItem(_) | DeleteOrderItemsOfOrder(_)
          | InsertOrderItem(_, _) =>
          orderItem := next.orderItem;
      }
      ok := true;
    }

    /** Restores every table to a snapshot taken when the transaction began. */
    method Rollback(snapshot: Tables)
      requires snapshot.Consistent()
      modifies this
      ensures Valid() && State() == snapshot
    {
      customer := snapshot.customer;
      deliveryman := snapshot.deliveryman;
      item := snapshot.item;
      orders := snapshot.orders;
      orderItem := snapshot.orderItem;
    }

    /** One statement in auto-commit mode, sent as the operation's statement
        number `k`: it takes effect unless the driver fails it or it raises. */
    method ExecuteAutoCommit(s: Statement, fault: Fault, k: nat) returns (ok: bool)
      requires Valid()
      modifies this
      ensures Valid()
      ensures ok <==> fault != FailsAt(k) && Exec(old(State()), s).Some?
      ensures State() == if ok then Exec(old(State()), s).value else old(State())
    {
      if fault == FailsAt(k) {
        return false;
      }
      ok := Execute(s);
    }

    /** `setAutoCommit(false)`, the statements in order, then `commit()`; the
        first statement that raises triggers `rollback()`. */
    method RunTransaction(steps: seq<Statement>, fault: Fault) returns (committed: bool)
      requires Valid()
      modifies this
      ensures Valid()
      ensures committed <==> !FailsWithin(fault, |steps|) && ApplyAll(old(State()), steps).Some?
      ensures State() == if committed then ApplyAll(old(State()), steps).value else old(State())
    {
      var snapshot := State();
      var k := 0;
      while k < |steps|
        invariant 0 <= k <= |steps|
        invariant Valid()
        invariant !FailsWithin(fault, k)
        invariant ApplyAll(snapshot, steps[..k]) == Some(State())
      {
        ApplyAllSnoc(snapshot, steps, k);
        if fault == FailsAt(k) {
          Rollback(snapshot);
          return false;
        }
        var ok := Execute(steps[k]);
        if !ok {
          ApplyAllFailsFrom(snapshot, steps, k + 1);
          Rollback(snapshot);
          return false;
        }
        k := k + 1;
      }
      assert steps[..k] == steps;
      committed := true;
    }
  }
}

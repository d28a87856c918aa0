/** `ItemController`: listing and searching items, lookup by id and by name,
    and the insert, update and delete of an item (which first removes the
    item from every order that lists it). */
module ItemController {
  import opened Common
  import opened Text
  import opened Schema
  import opened Sql
  import opened Store

  // ---------------------------------------------------------------------------
  // getAllItems
  // ---------------------------------------------------------------------------

  /** Copies the rows of `SELECT * FROM item`, which arrive in no particular
      order, into a list of item objects, one per row and in arrival order. */
  method GetAllItems(t: Tables, rows: seq<Item>) returns (items: seq<Item>)
    requires multiset(rows) == multiset(t.item)
    ensures multiset(items) == multiset(t.item)
    ensures |items| == |rows| && forall i | 0 <= i < |rows| :: items[i] == rows[i]
  {
    items := [];
    var k := 0;
    while k < |rows|
      invariant 0 <= k <= |rows|
      invariant items == rows[..k]
    {
      var row := rows[k];
      items := items + [Item(row.id, row.name, row.price)];
      k := k + 1;
    }
    assert rows[..k] == rows;
  }

  // ---------------------------------------------------------------------------
  // searchItems
  // ---------------------------------------------------------------------------

  /** The `WHERE name LIKE ?` condition of the search. */
  predicate ItemMatches(x: Item, keyword: string)
  {
    Like(x.name, SearchPattern(keyword))
  }

  function ItemMatchesKeyword(keyword: string): Item -> bool
  {
    (x: Item) => ItemMatches(x, keyword)
  }

  /** The rows `SELECT * FROM item WHERE name LIKE '%keyword%'` returns, in
      table order (the query has no `ORDER BY`, so the database may return
      them in any order). */
  function MatchingItems(t: Tables, keyword: string): (r: seq<Item>)
    ensures forall x :: multiset(r)[x] == if ItemMatches(x, keyword) then multiset(t.item)[x] else 0
  {
    FilterCount(t.item, ItemMatchesKeyword(keyword));
    Filter(t.item, ItemMatchesKeyword(keyword))
  }

  /** Copies the rows of the search query, in whatever order they arrive, into
      a list: every matching item as often as it is stored, and nothing else. */
  method SearchItems(t: Tables, keyword: string, rows: seq<Item>) returns (items: seq<Item>)
    requires multiset(rows) == multiset(MatchingItems(t, keyword))
    ensures forall x :: multiset(items)[x] == if ItemMatches(x, keyword) then multiset(t.item)[x] else 0
    ensures |items| == |rows| && forall i | 0 <= i < |rows| :: items[i] == rows[i]
  {
    items := [];
    var k := 0;
    while k < |rows|
      invariant 0 <= k <= |rows|
      invariant items == rows[..k]
    {
      var row := rows[k];
      items := items + [Item(row.id, row.name, row.price)];
      k := k + 1;
    }
    assert rows[..k] == rows;
  }

  /** For a keyword with no `LIKE` metacharacter the search finds exactly the
      items whose name contains the keyword. */
  lemma MatchingItemsBySubstring(t: Tables, keyword: string, x: Item)
    requires NoWildcards(keyword)
    ensures x in MatchingItems(t, keyword) <==> x in t.item && Contains(x.name, keyword)
  {
    LikeMatchesSubstring(x.name, keyword);
    var r := MatchingItems(t, keyword);
    assert x in r <==> multiset(r)[x] > 0;
    assert x in t.item <==> multiset(t.item)[x] > 0;
  }

  // ---------------------------------------------------------------------------
  // getItemById, getItemByName
  // ---------------------------------------------------------------------------

  /** `SELECT * FROM item WHERE id = ?`: the row with that id, or null. */
  function GetItemById(t: Tables, itemId: int): (r: Option<Item>)
    ensures r.Some? <==> t.HasItem(itemId)
    ensures r.Some? ==> r.value in t.item && r.value.id == itemId
    ensures UniqueBy(t.item, ItemKey) ==> forall x | x in t.item && x.id == itemId :: r == Some(x)
  {
    var found := Find(t.item, (x: Item) => x.id == itemId);
    if found.Some? && UniqueBy(t.item, ItemKey) then
      assert forall x | x in t.item && x.id == itemId :: x == found.value by {
        forall x | x in t.item && x.id == itemId ensures x == found.value {
          UniqueByMembers(t.item, ItemKey, x, found.value);
        }
      }
      found
    else
      found
  }

  /** `SELECT * FROM item WHERE name = ?`: the first row with that name, or
      null. Names are not a key, so when several items share the name which
      one comes back is up to the database. */
  function GetItemByName(t: Tables, name: string): (r: Option<Item>)
    ensures r.Some? <==> exists x :: x in t.item && x.name == name
    ensures r.Some? ==> r.value in t.item && r.value.name == name
  {
    Find(t.item, (x: Item) => x.name == name)
  }

  // ---------------------------------------------------------------------------
  // addItem
  // ---------------------------------------------------------------------------

  /** The insert always succeeds; the new item reads back as entered, by id and
      by name when the name was not taken, and every existing item still reads
      back by id. */
  lemma AddItemRoundTrip(t: Tables, name: string, price: Price)
    requires t.Consistent()
    ensures var id := FreshKey(t.item, ItemKey);
            var u := Exec(t, InsertItem(name, price));
            && u.Some?
            && u.value.Consistent()
            && u.value == t.(item := t.item + [Item(id, name, price)])
            && GetItemById(u.value, id) == Some(Item(id, name, price))
            && ((forall x | x in t.item :: x.name != name) ==> GetItemByName(u.value, name) == Some(Item(id, name, price)))
            && (forall x :: x in t.item ==> GetItemById(u.value, x.id) == Some(x))
  {
    var s := InsertItem(name, price);
    var id := FreshKey(t.item, ItemKey);
    var row := Item(id, name, price);
    var u := Effect(t, s);
    assert u.item == t.item + [row];
    assert u.ReferencesResolve() by {
      forall l | l in u.orderItem ensures u.HasItem(l.itemId) {
        var x :| x in t.item && x.id == l.itemId;
        assert x in u.item;
      }
    }
    ExecKeepsConsistent(t, s);
    assert row in u.item;
    forall x | x in t.item ensures GetItemById(u, x.id) == Some(x) {
      assert x in u.item;
    }
    if forall x | x in t.item :: x.name != name {
      NewNameReadsBack(t, row);
    }
  }

  /** An item appended under a name no other item has is the one found by
      that name. */
  lemma NewNameReadsBack(t: Tables, row: Item)
    requires forall x | x in t.item :: x.name != row.name
    ensures GetItemByName(t.(item := t.item + [row]), row.name) == Some(row)
  {
    var r := GetItemByName(t.(item := t.item + [row]), row.name);
    assert row in t.item + [row];
    assert r.value in t.item || r.value == row;
  }

  /** `addItem` in auto-commit mode. */
  method AddItem(db: Database, name: string, price: Price, fault: Fault) returns (ok: bool)
    requires db.Valid()
    modifies db
    ensures db.Valid()
    ensures ok <==> fault != FailsAt(0)
    ensures ok ==> db.State() == old(db.State()).(item := old(db.item) + [Item(FreshKey(old(db.item), ItemKey), name, price)])
    ensures !ok ==> db.State() == old(db.State())
  {
    AddItemRoundTrip(db.State(), name, price);
    ok := db.ExecuteAutoCommit(InsertItem(name, price), fault, 0);
  }

  // ---------------------------------------------------------------------------
  // updateItem
  // ---------------------------------------------------------------------------

  /** The update rewrites the row with that id and nothing else; with no such
      row it changes nothing. */
  lemma UpdateItemRewritesRow(t: Tables, itemId: int, name: string, price: Price)
    requires t.Consistent()
    ensures var u := Exec(t, Statement.UpdateItem(itemId, name, price));
            && u.Some?
            && u.value.Consistent()
            && (forall x :: x in u.value.item
                  <==> (x in t.item && x.id != itemId) || (x == Item(itemId, name, price) && t.HasItem(itemId)))
            && (!t.HasItem(itemId) ==> u.value == t)
            && u.value.(item := t.item) == t
  {
    var s := Statement.UpdateItem(itemId, name, price);
    var u := Effect(t, s);
    SameKeysPointwise(t.item, u.item, ItemKey);
    ExecKeepsConsistent(t, s);
    RewriteRows(t.item, u.item, ItemKey, itemId, Item(itemId, name, price));
  }

  /** `updateItem` in auto-commit mode. */
  method UpdateItem(db: Database, itemId: int, name: string, price: Price, fault: Fault) returns (ok: bool)
    requires db.Valid()
    modifies db
    ensures db.Valid()
    ensures ok <==> fault != FailsAt(0)
    ensures Exec(old(db.State()), Statement.UpdateItem(itemId, name, price)).Some?
    ensures db.State() == if ok then Exec(old(db.State()), Statement.UpdateItem(itemId, name, price)).value
                          else old(db.State())
  {
    UpdateItemRewritesRow(db.State(), itemId, name, price);
    ok := db.ExecuteAutoCommit(Statement.UpdateItem(itemId, name, price), fault, 0);
  }

  // ---------------------------------------------------------------------------
  // deleteItem
  // ---------------------------------------------------------------------------

  /** The two deletes of `deleteItem`, in the order it sends them. */
  function DeleteItemSteps(itemId: int): seq<Statement>
  {
    [DeleteOrderItemsOfItem(itemId), Statement.DeleteItem(itemId)]
  }

  /** The tables after each step. */
  function WithoutLinksTo(t: Tables, itemId: int): Tables
  {
    t.(orderItem := Filter(t.orderItem, LinkNotToItem(itemId)))
  }

  function WithoutItem(t: Tables, itemId: int): Tables
  {
    WithoutLinksTo(t, itemId).(item := Filter(t.item, ItemOtherThan(itemId)))
  }

  /** On a consistent database the delete always commits: the item is gone,
      every order line that listed it is gone, every other order line stays as
      often as it was stored, and the other tables (orders included) are as
      they were. */
  lemma DeleteItemCascade(t: Tables, itemId: int)
    requires t.Consistent()
    ensures ApplyAll(t, DeleteItemSteps(itemId)).Some?
    ensures var u := ApplyAll(t, DeleteItemSteps(itemId)).value;
            && u.Consistent()
            && !u.HasItem(itemId)
            && (forall x :: x in u.item <==> x in t.item && x.id != itemId)
            && (forall l :: multiset(u.orderItem)[l] == if l.itemId == itemId then 0 else multiset(t.orderItem)[l])
            && u.customer == t.customer && u.deliveryman == t.deliveryman && u.orders == t.orders
  {
    DeleteItemCommits(t, itemId);
    FilterCount(t.orderItem, LinkNotToItem(itemId));
  }

  /** Both deletes go through, and the result in closed form. */
  lemma DeleteItemCommits(t: Tables, itemId: int)
    requires t.Consistent()
    ensures ApplyAll(t, DeleteItemSteps(itemId)) == Some(WithoutItem(t, itemId))
    ensures WithoutItem(t, itemId).Consistent()
  {
    DeleteItemLinksStep(t, itemId);
    DeleteItemRowStep(t, itemId);
    ApplyAllTwo(t, DeleteOrderItemsOfItem(itemId), Statement.DeleteItem(itemId));
    ApplyAllKeepsConsistent(t, DeleteItemSteps(itemId));
  }

  /** Step 1 never raises: removing links leaves no dangling reference. */
  lemma DeleteItemLinksStep(t: Tables, itemId: int)
    requires t.Consistent()
    ensures Exec(t, DeleteOrderItemsOfItem(itemId)) == Some(WithoutLinksTo(t, itemId))
  {
  }

  /** Step 2 never raises: after step 1 no order line lists the item. */
  lemma DeleteItemRowStep(t: Tables, itemId: int)
    requires t.Consistent()
    ensures Exec(WithoutLinksTo(t, itemId), Statement.DeleteItem(itemId)) == Some(WithoutItem(t, itemId))
  {
    var t2 := WithoutItem(t, itemId);
    assert Effect(WithoutLinksTo(t, itemId), Statement.DeleteItem(itemId)) == t2;
    forall l | l in t2.orderItem ensures t2.HasOrder(l.orderId) && t2.HasItem(l.itemId) {
      assert l in t.orderItem && l.itemId != itemId;
      var x :| x in t.item && ItemKey(x) == l.itemId;
      assert x in t2.item;
    }
  }

  /** The order of the steps matters: deleting the item row first raises as
      soon as some order lists the item. */
  lemma DeleteItemRowFirstFails(t: Tables, itemId: int, l: OrderItem)
    requires t.Consistent()
    requires l in t.orderItem && l.itemId == itemId
    ensures Exec(t, Statement.DeleteItem(itemId)).None?
  {
    var u := Effect(t, Statement.DeleteItem(itemId));
    assert l in u.orderItem;
    assert !u.HasItem(itemId);
  }

  /** `deleteItem`: both deletes inside one transaction, rolled back as a
      whole if either raises. */
  method DeleteItem(db: Database, itemId: int, fault: Fault) returns (committed: bool)
    requires db.Valid()
    modifies db
    ensures db.Valid()
    ensures committed <==> !FailsWithin(fault, 2)
    ensures ApplyAll(old(db.State()), DeleteItemSteps(itemId)).Some?
    ensures db.State() == if committed then ApplyAll(old(db.State()), DeleteItemSteps(itemId)).value
                          else old(db.State())
  {
    DeleteItemCascade(db.State(), itemId);
    committed := db.RunTransaction(DeleteItemSteps(itemId), fault);
  }
}

# Order-management persistence layer in Dafny

This project models the four JDBC controllers of a small order-management
application: customers place orders for items, and deliverymen fulfil them.
The controllers are `CustomerController`, `DeliverymanController`,
`ItemController` and `OrderController`. They do two things:

- **rebuild aggregates from joined rows.** `getAllCustomers` and
  `getAllDeliverymen` group a `LEFT JOIN` with `orders` by owner id.
  `getAllOrders` groups an inner `JOIN` of `orders` and `order_item` by order
  id, and looks up each order's customer, deliveryman and items.
- **mutate the five tables** (`customer`, `deliveryman`, `item`, `orders`,
  `order_item`) with single auto-commit statements or with ordered
  transactions that roll back on the first failure.

Layout:

| module | file | what it holds |
|---|---|---|
| `Common` | common.dfy | filters, lookups, keys, `Gather` (a fold into a multiset) and their lemmas |
| `Text` | text.dfy | SQL `LIKE` with `%` and `_`, and the name order used by `ORDER BY name` |
| `Schema` | schema.dfy | one datatype per row kind; `Tables`; primary and foreign keys |
| `Sql` | sql.dfy | one constructor per statement the controllers send; its effect; runs of statements |
| `Store` | store.dfy | the database as a class whose five tables are updated in place; auto-commit and transactions |
| `Grouping` | grouping.dfy | the `LEFT JOIN` and the group-by-owner loop shared by customers and deliverymen |
| `CustomerController` … `OrderController` | *_controller.dfy | one member per controller operation, plus the lemmas about it |

### How the database is modelled

- **Statements.** A statement either writes the one table it names, or it
  raises because a foreign key would dangle; a statement that raises changes
  nothing (`Sql.Exec`).
- **Driver failures in writes.** For the write operations, a failure of the
  network or the driver is a parameter, `fault: Fault`, naming the statement
  of the operation that raises. Every write contract holds for every value of
  it. Read operations have no such parameter, and their contracts describe a
  read that does not fail (see "Left out").
- **Reads.** Reads come in two kinds.
  - A read that loops over a result set takes the rows the database returns
    as a parameter. It requires only that they are, as a multiset, the rows of
    the query, so the row order the database chooses is arbitrary. These reads
    are `GetAllCustomers`, `GetAllDeliverymen`, `GetAllItems`,
    `SearchCustomers`, `SearchDeliverymen`, `SearchItems` and `GetAllOrders`.
    `SearchCustomers` also requires the rows to be ordered by name, as its
    `ORDER BY` asks.
  - The query result itself is a function of the tables. These functions are
    `MatchingCustomers`, `MatchingDeliverymen` and `MatchingItems` for the
    searches, and the joins in `Grouping` and `OrderController`. Each takes
    the rows in table order.
  - The lookups by id or name, `GetCustomerById`, `GetDeliverymanById`,
    `GetItemById` and `GetItemByName`, read at most one row. They compute it
    from the tables: the first row in table order that has the id or name.
- **Prices and dates.** `double` prices and `java.sql.Date` values are never
  computed on, so they are opaque integers.
- **Generated ids.** An id the database generates is `FreshKey`: the larger
  of 1 and one more than the largest id in the table, so an empty table hands
  out 1.

### Behaviour worth knowing

- **`addOrder` is not atomic.** It runs in auto-commit mode, one statement
  at a time. A failure in the middle of its item loop leaves the order row and
  the earlier lines written (`OrderController.AddOrderStopsMidway`).
- **Orders without lines are not listed.** `getAllOrders` uses an inner
  `JOIN`, so an order without lines is missing from its result.
- **Errors are swallowed.** The code catches and logs every `SQLException`
  and reports nothing to the caller. The write operations here return whether
  they committed, so that their contracts can say what happened; the Java
  methods return nothing.
- **`addCustomer` swaps two columns.** It binds the address to the
  `phone_number` column and the phone number to the `address` column (see
  Findings).

## Model

| member | source | states |
|---|---|---|
| Store.Database.Execute | src/main/java/components/controllers/CustomerController.java:79 | one statement writes its table, or raises on a dangling foreign key and writes nothing; validity is kept |
| Store.Database.ExecuteAutoCommit | src/main/java/components/controllers/ItemController.java:45-56 | one auto-commit statement takes effect unless the driver fails it or it raises |
| Store.Database.Rollback | src/main/java/components/controllers/CustomerController.java:130-131 | `rollback()` restores every table to the snapshot taken when the transaction began |
| Store.Database.RunTransaction | src/main/java/components/controllers/CustomerController.java:104-133 | a transaction commits exactly when no step fails and every statement goes through; otherwise every table is as before |
| Sql.ExecKeepsConsistent | src/main/java/components/controllers/CustomerController.java:108-125 | a statement that does not raise keeps keys unique and references resolving |
| Sql.ApplyAllKeepsConsistent | src/main/java/components/controllers/CustomerController.java:104-129 | a committed run of statements keeps the database consistent |
| Sql.ApplyEachKeepsConsistent | src/main/java/components/controllers/OrderController.java:93-109 | an auto-commit run, however far it gets, leaves the database consistent |
| Sql.ApplyAllAppend | src/main/java/components/controllers/OrderController.java:131-163 | running `a + b` is running `a` and then, if it went through, `b` |
| Sql.ApplyAllFailsFrom | src/main/java/components/controllers/CustomerController.java:130-131 | once a prefix of a transaction raises, the whole transaction fails |
| Text.LikeMatchesSubstring | src/main/java/components/controllers/CustomerController.java:146-147 | for a keyword without `%`, `_` or `\`, `LIKE '%keyword%'` holds iff the keyword is a substring |
| Text.NameLeqTotal | src/main/java/components/controllers/CustomerController.java:141 | the name order of `ORDER BY name` relates every pair of names |
| Text.NameLeqTransitive | src/main/java/components/controllers/CustomerController.java:141 | the name order is transitive |
| Grouping.JoinCovers | src/main/java/components/controllers/CustomerController.java:20-22 | every joined row comes from an owner, and every owner has at least one row (a left join drops none) |
| Grouping.JoinAttach | src/main/java/components/controllers/CustomerController.java:20-22 | the order ids the join attaches to an id are exactly the orders referring to it; an unknown id gets none |
| Grouping.GroupStep | src/main/java/components/controllers/CustomerController.java:32-54 | one loop iteration keeps the grouping invariant: entries from rows, every row covered, orders attached |
| Grouping.GroupByOwner | src/main/java/components/controllers/CustomerController.java:29-55 | the grouping loop establishes the invariant for all rows |
| Grouping.GroupedEntries | src/main/java/components/controllers/CustomerController.java:38-44 | the map yields stored owners, one entry per owner id, and every owner appears |
| Grouping.GroupedOrders | src/main/java/components/controllers/CustomerController.java:46-54 | each entry's order ids are exactly the orders referring to its owner, NULL ids skipped |
| CustomerController.GetAllCustomers | src/main/java/components/controllers/CustomerController.java:18-65 | every stored customer appears once with exactly the ids of the orders it placed, an empty list when none |
| CustomerController.OrdersPlacedByIds | src/main/java/components/controllers/CustomerController.java:20-22 | the ids the join attaches to a customer are exactly the ids the sub-select of `deleteCustomer` (line 108) picks, those of the orders it placed |
| CustomerController.GetCustomerById | src/main/java/components/controllers/CustomerController.java:163-187 | `Some` iff a row has the id; then it is the stored row with that id |
| CustomerController.MatchingCustomers | src/main/java/components/controllers/CustomerController.java:140-147 | the query yields each customer as often as stored if its name or phone number is `LIKE` the pattern, else never, ordered by name, ascending or descending as asked |
| CustomerController.SearchCustomers | src/main/java/components/controllers/CustomerController.java:139-161 | the row loop returns the rows in the order received; the result holds exactly the matching customers, each as often as stored, ordered by name |
| CustomerController.MatchingCustomersBySubstring | src/main/java/components/controllers/CustomerController.java:141-147 | for a wildcard-free keyword, a customer is found iff it is stored and its name or phone number contains the keyword |
| CustomerController.InsertByNameCorrect | src/main/java/components/controllers/CustomerController.java:141 | inserting into a name-ordered list keeps it ordered and adds exactly that customer |
| CustomerController.SortByNameCorrect | src/main/java/components/controllers/CustomerController.java:141 | the name sort yields an ordered permutation of its input |
| CustomerController.InNameOrderTotal | src/main/java/components/controllers/CustomerController.java:140-141 | either direction of the name order relates every pair of customers |
| CustomerController.InNameOrderTransitive | src/main/java/components/controllers/CustomerController.java:140-141 | either direction of the name order is transitive |
| CustomerController.AddCustomerStoresSwapped | src/main/java/components/controllers/CustomerController.java:66-84 | the insert always goes through and stores the phone number as the address and the address as the phone number |
| CustomerController.AddCustomerRoundTripFails | src/main/java/components/controllers/CustomerController.java:74-76 | a concrete customer whose address does not read back |
| CustomerController.IntendedAddCustomerStatement | src/main/java/components/controllers/CustomerController.java:67 | the corrected insert binds name, address and phone number to their own columns, and differs from the insert as written exactly when the address and phone number differ |
| CustomerController.IntendedAddCustomerRoundTrip | src/main/java/components/controllers/CustomerController.java:67 | with the columns bound in order, the new customer reads back as given and the old ones are unchanged |
| CustomerController.AddCustomer | src/main/java/components/controllers/CustomerController.java:66-84 | unless the driver fails, exactly one row is appended under a fresh id, with the two columns swapped; otherwise nothing changes |
| CustomerController.UpdateCustomerRewritesRow | src/main/java/components/controllers/CustomerController.java:86-99 | only the row with that id gets the new name, address and phone number; an absent id changes nothing; no other table changes |
| CustomerController.UpdateCustomer | src/main/java/components/controllers/CustomerController.java:86-99 | the database ends as the update leaves it, or as before when the driver fails |
| CustomerController.DeleteCustomerCascade | src/main/java/components/controllers/CustomerController.java:101-137 | the three deletes commit; the customer, its orders and their lines are gone; every other row keeps its count |
| CustomerController.DeleteCustomerCommits | src/main/java/components/controllers/CustomerController.java:107-129 | the three steps go through, with the result in closed form |
| CustomerController.DeleteCustomerLinksStep | src/main/java/components/controllers/CustomerController.java:107-112 | step 1 removes the lines of the customer's orders |
| CustomerController.DeleteCustomerOrdersStep | src/main/java/components/controllers/CustomerController.java:114-119 | step 2 then removes the customer's orders |
| CustomerController.DeleteCustomerRowStep | src/main/java/components/controllers/CustomerController.java:121-126 | step 3 then removes the customer |
| CustomerController.DeleteCustomerRowFirstFails | src/main/java/components/controllers/CustomerController.java:107-126 | deleting the customer row first raises when the customer has an order |
| CustomerController.DeleteCustomer | src/main/java/components/controllers/CustomerController.java:101-137 | commits iff no step fails, and then leaves the cascade's result; otherwise all four tables are as before |
| DeliverymanController.GetAllDeliverymen | src/main/java/components/controllers/DeliverymanController.java:24-73 | every stored deliveryman appears once with exactly the ids of the orders assigned to it, an empty list when none |
| DeliverymanController.GetDeliverymanById | src/main/java/components/controllers/DeliverymanController.java:166-189 | `Some` iff a row has the id; then it is the stored row with that id |
| DeliverymanController.MatchingDeliverymen | src/main/java/components/controllers/DeliverymanController.java:145-151 | the query yields each deliveryman as often as stored if its name or phone number is `LIKE` the pattern, else never |
| DeliverymanController.SearchDeliverymen | src/main/java/components/controllers/DeliverymanController.java:144-164 | the row loop returns the rows in the order received; the result holds exactly the matching deliverymen, each as often as stored |
| DeliverymanController.MatchingDeliverymenBySubstring | src/main/java/components/controllers/DeliverymanController.java:145-151 | for a wildcard-free keyword, found iff stored and the name or phone number contains the keyword |
| DeliverymanController.AddDeliverymanRoundTrip | src/main/java/components/controllers/DeliverymanController.java:75-90 | exactly one row with the given name and phone number is added and reads back under the new id; old rows are unchanged |
| DeliverymanController.AddDeliveryman | src/main/java/components/controllers/DeliverymanController.java:75-90 | unless the driver fails, exactly that row is appended; otherwise nothing changes |
| DeliverymanController.UpdateDeliverymanRewritesRow | src/main/java/components/controllers/DeliverymanController.java:92-104 | only the row with that id gets the new name and phone number; an absent id changes nothing |
| DeliverymanController.UpdateDeliveryman | src/main/java/components/controllers/DeliverymanController.java:92-104 | the database ends as the update leaves it, or as before when the driver fails |
| DeliverymanController.DeleteDeliverymanUnassigns | src/main/java/components/controllers/DeliverymanController.java:106-141 | both steps commit; the deliveryman is gone; every order survives in place, an order that referenced it now has a NULL deliveryman and every other order is unchanged; no line is touched |
| DeliverymanController.NoneAssigned | src/main/java/components/controllers/DeliverymanController.java:116 | with no order assigned to the deliveryman, the join attaches nothing to it |
| DeliverymanController.DeleteDeliverymanCommits | src/main/java/components/controllers/DeliverymanController.java:115-127 | both steps go through, with the result in closed form |
| DeliverymanController.UnassignStep | src/main/java/components/controllers/DeliverymanController.java:115-120 | step 1 never raises; each order assigned to the deliveryman gets a NULL deliveryman, every other order and every other table is unchanged |
| DeliverymanController.DeleteDeliverymanRowStep | src/main/java/components/controllers/DeliverymanController.java:122-127 | step 2 then removes the deliveryman |
| DeliverymanController.DeleteDeliverymanRowFirstFails | src/main/java/components/controllers/DeliverymanController.java:115-127 | deleting the row first raises while an order is assigned to it |
| DeliverymanController.DeleteDeliveryman | src/main/java/components/controllers/DeliverymanController.java:106-141 | commits iff neither step fails, and then leaves the unassigned result; otherwise nothing changes |
| ItemController.GetAllItems | src/main/java/components/controllers/ItemController.java:16-40 | one item per stored row, in the order returned, with no filtering |
| ItemController.MatchingItems | src/main/java/components/controllers/ItemController.java:196 | each item occurs as often as stored if its name is `LIKE` the pattern, else never |
| ItemController.SearchItems | src/main/java/components/controllers/ItemController.java:195-214 | the loop returns exactly the matching items, each as often as stored |
| ItemController.MatchingItemsBySubstring | src/main/java/components/controllers/ItemController.java:196-201 | for a wildcard-free keyword, found iff stored and the name contains the keyword |
| ItemController.GetItemById | src/main/java/components/controllers/ItemController.java:216-238 | `Some` iff a row has the id; then it is the stored row with that id |
| ItemController.GetItemByName | src/main/java/components/controllers/ItemController.java:240-259 | `Some` iff some stored item has exactly that name; then it is a stored item with that name |
| ItemController.AddItemRoundTrip | src/main/java/components/controllers/ItemController.java:42-57 | exactly one row with the given name and price is added and reads back by id, and by name when the name is new; old rows are unchanged |
| ItemController.NewNameReadsBack | src/main/java/components/controllers/ItemController.java:241-253 | after appending an item with a new name, the lookup by that name finds it |
| ItemController.AddItem | src/main/java/components/controllers/ItemController.java:42-57 | unless the driver fails, exactly that row is appended; otherwise nothing changes |
| ItemController.UpdateItemRewritesRow | src/main/java/components/controllers/ItemController.java:59-71 | only the row with that id gets the new name and price; an absent id changes nothing |
| ItemController.UpdateItem | src/main/java/components/controllers/ItemController.java:59-71 | the database ends as the update leaves it, or as before when the driver fails |
| ItemController.DeleteItemCascade | src/main/java/components/controllers/ItemController.java:108-140 | both steps commit; the item and exactly the lines naming it are gone; every order survives |
| ItemController.DeleteItemCommits | src/main/java/components/controllers/ItemController.java:114-126 | both steps go through, with the result in closed form |
| ItemController.DeleteItemLinksStep | src/main/java/components/controllers/ItemController.java:114-119 | step 1 removes the item's lines |
| ItemController.DeleteItemRowStep | src/main/java/components/controllers/ItemController.java:121-126 | step 2 then removes the item |
| ItemController.DeleteItemRowFirstFails | src/main/java/components/controllers/ItemController.java:114-126 | deleting the item row first raises while a line names it |
| ItemController.DeleteItem | src/main/java/components/controllers/ItemController.java:108-140 | commits iff neither step fails, and then leaves the cascade's result; otherwise nothing changes |
| OrderController.JoinMembers | src/main/java/components/controllers/OrderController.java:22-24 | a row is in the inner join iff it pairs a stored order with one of its lines |
| OrderController.RowsForLinkSingle | src/main/java/components/controllers/OrderController.java:24 | with unique order ids, each line yields exactly one joined row |
| OrderController.JoinItems | src/main/java/components/controllers/OrderController.java:64-68 | the items the joined rows give an order are the items its lines give it |
| OrderController.HydrateStep | src/main/java/components/controllers/OrderController.java:33-69 | one loop iteration keeps the invariant: each header is made from the first row read for its id, every row's order is listed, items are attached |
| OrderController.HydrateStepHeaders | src/main/java/components/controllers/OrderController.java:42-62 | a row of an order already seen leaves its header as it was; a row of a new order makes the header from that row, with customer and deliveryman looked up; so every header comes from the first row of its id |
| OrderController.HydrateStepItemsAt | src/main/java/components/controllers/OrderController.java:64-68 | a row adds its item to its order only when the item lookup finds it |
| OrderController.HydrateOrders | src/main/java/components/controllers/OrderController.java:31-69 | the hydration loop establishes the invariant for all rows |
| OrderController.GetAllOrders | src/main/java/components/controllers/OrderController.java:20-79 | each order is listed once, iff it has a line; its header is a stored order's with the customer and deliveryman looked up; its items are exactly those its lines resolve to, a line whose item is not stored adding nothing |
| OrderController.HydratedHeaders | src/main/java/components/controllers/OrderController.java:42-62 | every listed order's header is that of a stored order |
| OrderController.HydratedCoverage | src/main/java/components/controllers/OrderController.java:22-24 | a stored order is listed iff it has a line; ids are unique |
| OrderController.HydratedItems | src/main/java/components/controllers/OrderController.java:64-68 | a listed order's items are those its lines resolve to, duplicates kept; a line whose item is not stored adds nothing. Needs only unique order ids and lines that name stored orders |
| OrderController.HydratedReferences | src/main/java/components/controllers/OrderController.java:37-38 | the customer is found; an assigned deliveryman is found; a NULL deliveryman is read as 0; on a consistent database, an order has as many items as lines |
| OrderController.LinksResolveToItems | src/main/java/components/controllers/OrderController.java:65-67 | when every line's item is stored, an order has one item per line |
| OrderController.StoredPrefixAllPresent | src/main/java/components/controllers/OrderController.java:104-108 | with every item stored, the item loop is cut short only at the statement the driver fails |
| OrderController.LineInsertStep | src/main/java/components/controllers/OrderController.java:105-107 | a line insert goes through iff its order and its item exist, and then appends exactly that line |
| OrderController.LineInsertsEach | src/main/java/components/controllers/OrderController.java:104-108 | auto-commit line inserts write the lines of the items before the first failure, in order, and nothing else |
| OrderController.LineInsertsAll | src/main/java/components/controllers/OrderController.java:151-158 | transactional line inserts all go through iff the order exists (or there are none) and every item is stored |
| OrderController.LinesItems | src/main/java/components/controllers/OrderController.java:104-108 | the lines written for stored items resolve back to exactly those items, duplicates included |
| OrderController.NoLinesOf | src/main/java/components/controllers/OrderController.java:24 | lines of other orders give an order no item |
| OrderController.AddOrderEffect | src/main/java/components/controllers/OrderController.java:81-121 | a rejected order row leaves the database unchanged and writes no line; otherwise the row is added with the lines of the items before the first failing insert |
| OrderController.AddOrderRoundTrip | src/main/java/components/controllers/OrderController.java:81-121 | with nothing failing, the new order reads back with the given columns, customer, deliveryman and items |
| OrderController.AddOrderStopsMidway | src/main/java/components/controllers/OrderController.java:104-119 | when the j-th line insert fails, the order row and the j-1 earlier lines stay |
| OrderController.AddOrder | src/main/java/components/controllers/OrderController.java:81-121 | a missing customer or deliveryman raises before anything changes; otherwise the database ends as the auto-commit run leaves it |
| OrderController.UpdateHeaderStep | src/main/java/components/controllers/OrderController.java:134-142 | rewriting the row raises iff the order exists and its new customer or deliveryman does not; only that row changes |
| OrderController.UpdateThenUnlink | src/main/java/components/controllers/OrderController.java:144-148 | after the row rewrite, deleting the order's lines always goes through |
| OrderController.UpdateHeaderAborts | src/main/java/components/controllers/OrderController.java:159-163 | a rejected row rewrite aborts the whole transaction |
| OrderController.UpdateOrderCommits | src/main/java/components/controllers/OrderController.java:123-170 | the update commits iff (for an existing order) the customer, deliveryman and all items exist, or (for a missing one) there is no item; it then rewrites the row and replaces the lines |
| OrderController.ReplacedItems | src/main/java/components/controllers/OrderController.java:144-158 | after the update, the order's items are exactly the new items |
| OrderController.ReplacedLineCounts | src/main/java/components/controllers/OrderController.java:144-158 | the order's lines are one per new item, duplicates included, and every other order's lines are kept |
| OrderController.UpdateOrderReplacesLines | src/main/java/components/controllers/OrderController.java:123-170 | for a stored order, the update commits: the row reads back as given, its items are exactly the new ones, other orders' lines are unchanged, and other tables too |
| OrderController.UpdateOrder | src/main/java/components/controllers/OrderController.java:123-170 | a missing customer or deliveryman raises before anything changes; otherwise the transaction commits as above or leaves the database as before |
| OrderController.DeleteOrderCascade | src/main/java/components/controllers/OrderController.java:172-204 | both deletes commit; the order and all its lines are gone; every other row keeps its count |
| OrderController.DeleteOrderCommits | src/main/java/components/controllers/OrderController.java:177-190 | both steps go through, with the result in closed form |
| OrderController.DeleteOrderRowFirstFails | src/main/java/components/controllers/OrderController.java:177-190 | deleting the order row first raises while the order has a line |
| OrderController.DeleteOrder | src/main/java/components/controllers/OrderController.java:172-204 | commits iff neither step fails, and then leaves the cascade's result; otherwise nothing changes |

## Left out

- `searchOrders` (`OrderController.java` lines 206-228) is not modelled. It
  applies `LIKE` to the numeric `total_price` column, whose text form depends
  on the database's rendering of a `double`. It also reads a `creation_date`
  column that the `orders` table does not have. Its outcome therefore depends
  on how the database and driver handle errors, not on the program's logic.
- The commented-out `deleteItem` and its private helpers `getOrdersByItemId`
  and `getCustomerByOrder` are not modelled, because no live code calls them.
- JDBC plumbing is not modelled: connections, hard-coded URLs and
  credentials, statement preparation, resource closing, `printStackTrace` and
  console output. For write operations a failing connection or driver is the
  `fault` parameter.
- Failed reads are not modelled. `CustomerController.GetAllCustomers`,
  `DeliverymanController.GetAllDeliverymen`, `ItemController.GetAllItems`,
  `CustomerController.SearchCustomers`, `DeliverymanController.SearchDeliverymen`,
  `ItemController.SearchItems`, `CustomerController.MatchingCustomers`,
  `DeliverymanController.MatchingDeliverymen`, `ItemController.MatchingItems`,
  `CustomerController.GetCustomerById`, `DeliverymanController.GetDeliverymanById`,
  `ItemController.GetItemById`, `ItemController.GetItemByName` and
  `OrderController.GetAllOrders` describe a read whose query succeeds. When
  the Java read catches an `SQLException`, it returns something else:
  - `null` for the lookups by id or name;
  - an empty list for `getAllCustomers`, `getAllDeliverymen` and
    `getAllOrders`, which copy their map into the list only after the loop;
  - the rows read so far for `searchCustomers`, `searchDeliverymen`,
    `searchItems` and `getAllItems`, which add each row inside the loop.
- JavaFX lists are plain sequences. A method that fills a `HashMap` returns
  the set of its values, because the map's iteration order is unspecified.
- The reads that loop over a result set take its rows as a parameter, given
  up to order. Their query result is a function of the tables. The lookups
  by id or name compute their row from the tables directly.
- `double` prices and `java.sql.Date` values are opaque integers. No
  floating-point behaviour and no date conversion are modelled. The
  `NullPointerException` that a null date would raise is not modelled either.
- Case-insensitive or locale-dependent collation is not modelled. `LIKE` and
  `ORDER BY name` compare characters exactly.
- Generated ids are the larger of 1 and one more than the largest id present.
  Any other fresh id would serve equally well.
- `OrderController.AddOrder`: the `affectedRows == 0` and missing-generated-key
  branches are not separate outcomes. A successful `INSERT … VALUES` always
  affects one row and returns its key, so in this model a header that is
  not written is always one that raised. Either way no line is inserted.
- `OrderController.AddOrder`, `OrderController.UpdateOrder`: a null item in
  the item list is not modelled, because items are values here.
- `CustomerController.AddCustomer`, `DeliverymanController.AddDeliveryman` and
  `ItemController.AddItem` return whether the insert went through. The Java
  methods return nothing.

## Findings

| source | as written | input that shows it | evidently intended | confidence | as-written member | corrected member |
|---|---|---|---|---|---|---|
| src/main/java/components/controllers/CustomerController.java:67-76 | the query lists `phone_number, address`, but the address is bound to the second placeholder and the phone number to the third, so the two are stored in each other's columns | `addCustomer("Ann", "1 Main St", "555-0100")` stores address `"555-0100"` | bind each value to its own column, so the customer reads back as given | high (not executed) | CustomerController.AddCustomerRoundTripFails | CustomerController.IntendedAddCustomerRoundTrip |

`CustomerController.AddCustomer` keeps the swapped binding, because it models
the code as written. `CustomerController.IntendedAddCustomerStatement` is the
corrected statement, and `CustomerController.IntendedAddCustomerRoundTrip`
proves that a customer added with it reads back unchanged.

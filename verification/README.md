# Shop structures in Dafny

This project models a small product/order web service.

- Products are kept in an unbalanced binary search tree (BST) with two injected comparators:
  - a value comparator that places values on insert;
  - a key comparator that compares a raw key with a stored value on search.
- Orders are kept in a singly linked list that appends at the tail. It finds and deletes by predicate.
- Two counters hand out fresh product and order ids. At startup each counter is seeded from the largest loaded id.

The model is functional:
- The tree is an inductive `Tree` datatype.
- The list is an inductive chain whose contents are read off by `Items`.
- The comparators and predicates are function parameters.
- The module-level singletons of the service become one explicit `Service` value. It holds the tree, the list and both counters.
  - The operations that change state (create, update, delete) take a `Service` and return a new one.
  - The lookups (`ProductInfo`, `OrderInfo`) return a `Reply` and no state.
  - `ProductsInOrder` reads only the product tree.

Modules:

- `Options`: the optional value `Option`. Every "returns `None`" of the source is a `None` here.
- `Comparators`: three-way comparator laws.
  - `TotalPreorder`: sign antisymmetry plus transitivity.
  - `KeyConsistent`: a key comparator that agrees with the value comparator.
  - `Sorted`.
- `Bst`: the tree of `structures/bst.py`.
  - Insert places ties to the right. Search returns the matched node, as an `Option<Tree>`. Inorder lists the values.
  - Reference functions: `InsertSorted` (stable insertion into a sequence) and `SortInto`.
- `LinkedLists`: the list of `app/structures/linked_list.py`.
  - Append at the tail, first-match find, and first-match delete. Delete returns the unlinked node, which still points at its old successor.
  - `FirstIndex` is the reference for first-match semantics.
- `Shop`: the glue of `main.py`.
  - the two comparators;
  - startup loading and counter seeding;
  - id assignment on create;
  - product lookup;
  - order-detail line resolution;
  - order update and order delete.

`main.py` imports its list from `structures.linked_list`. The file modelled is `app/structures/linked_list.py`.

## Model

| member | source | states |
|---|---|---|
| Bst.Insert | structures/bst.py:13-29 | Inserting into an empty tree gives a single root node with no children. Every insert adds exactly one occurrence of the value: equal values are kept as separate nodes. |
| Bst.InsertKeepsBst | structures/bst.py:19-29 | Insert keeps the search-tree invariant: left values compare below the node, right values at or above it. This holds for any comparator. |
| Bst.InsertSortedPosition | structures/bst.py:20-29 | The reference for tie-goes-right. Stable insertion puts x in front of the first element it compares below, and after every element before that one. On a sorted sequence, this means after every element it compares equal to or above. |
| Bst.InsertInorder | structures/bst.py:20-29 | In a search tree under a total preorder, inorder after an insert equals stable insertion into the old inorder. So a value equal to stored ones lands after all of them. |
| Bst.Inorder | structures/bst.py:45-54 | The listing holds exactly the stored values, with their multiplicities. |
| Bst.InorderSorted | structures/bst.py:45-54 | For a total preorder, the inorder listing of a search tree is non-decreasing. |
| Bst.InsertsYieldSorted | structures/bst.py:13-54 | Under a total preorder, any sequence of inserts into an empty tree gives a search tree. Its inorder is sorted and is a permutation of the inserted values. |
| Bst.InsertAll | main.py:85-88 | Inserting a run of values adds exactly those values to the tree. |
| Bst.InsertAllKeepsBst | main.py:85-88 | A run of inserts keeps the search-tree invariant. |
| Bst.InsertAllInorder | structures/bst.py:13-54 | In a search tree under a total preorder, a run of inserts acts on the inorder listing as one stable insertion per value. |
| Bst.SortIntoSorted | main.py:85-88 | Under a total preorder, stable insertion of an already sorted run into nothing reproduces the run. |
| Bst.ReloadKeepsInorder | main.py:106 | Under a total preorder, the tree rebuilt from the saved inorder listing of a search tree has the same inorder listing. |
| Bst.Search | structures/bst.py:31-43 | An empty tree gives no node. A node returned is a subtree of the tree, and its value compares equal to the key. |
| Bst.SearchFindsShallowest | structures/bst.py:34-43 | In a search tree whose key comparator agrees with the value comparator, every stored value matching the key lies in the subtree search returns. So of equal values kept as duplicates, search returns the one nearest the root, which was inserted first. |
| Bst.SearchFindsStored | structures/bst.py:31-43 | In a search tree whose key comparator agrees with the value comparator, search finds a node exactly when some stored value matches the key. |
| LinkedLists.Items | app/structures/linked_list.py:49-55 | The listing of an empty list is empty, and only then. A non-empty listing starts with the head's data. Together with `LinkedLists.Append`, this pins the listing down as head-to-tail order. |
| LinkedLists.Append | app/structures/linked_list.py:13-21 | After an insert, the items are the old items followed by the new data. |
| LinkedLists.AppendAll | main.py:93-96 | A run of inserts gives the old items followed by the run, in order. |
| LinkedLists.FirstIndex | app/structures/linked_list.py:24-29 | The reference for first-match semantics: the first index whose element satisfies the predicate, or the length when none does. |
| LinkedLists.Find | app/structures/linked_list.py:23-29 | `None` exactly when no item satisfies the predicate; this includes the empty list. Otherwise the result is the item at the first matching index. |
| LinkedLists.Delete | app/structures/linked_list.py:31-47 | No match, or an empty list: nothing is removed and the list is unchanged. A match: the node at the first matching index is removed, and its chain is the items from that index on. The rest is the items with exactly that one left out. |
| LinkedLists.DeleteShrinksByOne | app/structures/linked_list.py:35-46 | When some item matches, a node is removed and its data satisfies the predicate. The length drops by one. |
| LinkedLists.DeleteKeepsOrder | app/structures/linked_list.py:40-46 | Putting the removed data back at its old index restores the old items, so the other items keep their relative order. |
| Shop.CompareById | main.py:37-43 | Answers -1, 1 or 0 exactly when the first id is less than, greater than or equal to the second. |
| Shop.CompareBySearchKey | main.py:45-51 | Answers -1, 1 or 0 exactly when the key is less than, greater than or equal to the product's id. |
| Shop.CompareByIdIsTotalPreorder | main.py:37-43 | `compare_by_id` is a total preorder on products. |
| Shop.SearchKeyAgreesWithId | main.py:37-51 | Comparing key k with p equals comparing any product with id k with p. So the pair of comparators meets the agreement condition that search needs. |
| Shop.MaxKey | main.py:84-87 | The running maximum is never below 0, and it is at least the last key seen. |
| Shop.MaxKeyIsMaximum | main.py:84-87 | The startup counter is at least 0 and at least every loaded id. It equals one of them, or 0. |
| Shop.LoadProducts | main.py:83-89 | Loading inserts the products in file order. The counter is the running maximum of their ids, from 0. |
| Shop.LoadOrders | main.py:91-97 | Loading appends the orders in file order: the list is `LinkedLists.AppendAll` of them onto an empty list. The counter is the running maximum of their ids, from 0. |
| Shop.Load | main.py:82-97 | The loaded service is valid. The tree is a search tree by id, and no stored id is above its counter. |
| Shop.LoadedServiceValid | main.py:82-97 | The service built from the loaded records is valid. The tree is a search tree by id, and no stored id is above its counter. |
| Shop.CreateProduct | main.py:102-105 | The counter goes up by one. The new product gets that id and is added to the tree. The orders are untouched. |
| Shop.CreateProductKeepsValid | main.py:103-105 | In a valid service, a create keeps it valid. The new id is at least 1 and above every stored product id. |
| Shop.CreateOrder | main.py:121-124 | The counter goes up by one. The new order gets that id and is appended at the tail; the products are untouched. In a valid service the id is fresh and the service stays valid. |
| Shop.Serve | main.py:100-179 | Serving any create, update or delete request never lowers either counter. |
| Shop.ServeKeepsValid | main.py:100-179 | Serving any create, update or delete request keeps a valid service valid. |
| Shop.ServeAllKeepsCounters | main.py:103-104 | Over any run of requests, neither counter ever goes back. |
| Shop.ServeAllKeepsValid | main.py:100-179 | Over any run of requests, a valid service stays valid. |
| Shop.CreatedIdsIncrease | main.py:103-104 | When requests are served one at a time, ids are never reused. Two creates of the same kind may have any run of creates, updates and deletes between them, and the later create still gets the strictly larger id. This holds for products and for orders. |
| Shop.ProductInfo | main.py:111-117 | A reply carries a stored product with the requested id. |
| Shop.SearchById | main.py:112 | In a search tree by id, searching by id finds a node exactly when some stored product has that id. |
| Shop.ProductInfoFindsStored | main.py:111-117 | In a valid service, a lookup reports not found exactly when no stored product has the id. |
| Shop.ResolveLines | main.py:133-142 | There is at most one detail line per line item. The full correspondence is stated by `Shop.ResolveLinesKeepsStored`. |
| Shop.ResolveLinesKeepsStored | main.py:133-142 | In a search tree by id, there is one detail line per line item whose product is stored, in line-item order. Each line shows that product's name and price, the item's quantity, and price times quantity. Items whose product is missing are skipped. |
| Shop.ProductsInOrder | main.py:128-147 | The loop yields exactly the resolved lines. The order total is the sum of the line totals. |
| Shop.HasId | main.py:153 | The order predicate holds exactly for the orders with the given id. It is the same lambda as at main.py:163 and main.py:174. |
| Shop.OrderInfo | main.py:152-158 | Not found exactly when no order has the id. Otherwise the reply carries the detail of the first order with the id: its resolved lines and, as the total, the sum of their line totals. |
| Shop.SetProducts | main.py:163-165 | Only the first order with the id gets the new product map. The list is otherwise unchanged, and unchanged altogether when no order has the id. |
| Shop.UpdateOrder | main.py:162-169 | Found exactly when some order has the id; a missing id leaves the state as it was. When found, only that first order's product map changes. Validity is kept. |
| Shop.DeleteOrder | main.py:173-179 | Found exactly when some order has the id; a missing id leaves the state as it was. When found, only that first order is removed and the rest keep their order. Validity is kept. |

## Left out

- HTTP routing, `HTTPException` status codes and pydantic validation are transport plumbing. A failed request is the `NotFound` reply or `found == false`.
- JSON persistence (`write_to_json`, `read_from_json`, file paths) is I/O.
  - Startup takes the loaded records as a sequence.
  - The write after each change is not modelled. Its reload round trip is stated by `Bst.ReloadKeepsInorder` and `LinkedLists.AppendAll`.
  - A missing or malformed file reads as an empty sequence.
- Shop.Product: prices are exact integers rather than Python floats. Line totals and the order total are therefore exact sums, not floating-point ones.
- Shop.OrderData: the product map (a dict) is a sequence of line items in the dict's iteration order. The model does not require its product ids to be distinct.
- Shop.ProductsInOrder: the `if order:` branch that returns an empty detail is not modelled. Every caller passes an order it found.
- Loaded records without an id are not modelled. Comparing a missing id with the counter would fail in the source.
- `list_orders` composes a detail per order. It is not part of this model beyond `Shop.ProductsInOrder`, which it calls.
- Non-mutation holds by construction, since values are immutable:
  - the tree after `search` and `inorder`;
  - the list after `find` and `list_items`.
- Concurrency is not modelled: `Shop.Serve` and `Shop.ServeAll` serve requests one at a time.
  - The source's handlers are plain functions that the web framework may run on a thread pool, and they take no lock.
  - Two concurrent creates could hand out the same id between the counter bump and its read (main.py:103-104).
  - They could also both attach a node at the same empty child (structures/bst.py:26-27), losing one product.
  - Shop.CreatedIdsIncrease: its "ids are never reused" holds only under this one-at-a-time assumption.
- The truthiness tests (`if product_node:`, `if order:`, `if order_deleted:`) are read as "is not `None`". Nodes and records are always truthy.

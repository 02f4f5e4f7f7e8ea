/**
 The product/order service of `main.py`, without its HTTP routing and JSON
 files: products live in a search tree ordered by id, orders in a linked list
 in creation order, and two counters hand out fresh ids.

 The module-level singletons of the source become one explicit `Service`
 value. The operations that change state take a `Service` and return a new
 one; the lookups return a `Reply` and no state, and the order detail reads
 only the product tree.
 */
module Shop {
  import opened Options
  import opened Comparators
  import opened Bst
  import opened LinkedLists

  /**
   A product. The source's price is a float; here it is an exact integer
   amount, so totals below are exact sums.
   */
  datatype Product = Product(id: int, name: string, price: int)

  /** One entry of an order's product map: product id and quantity. */
  datatype LineItem = LineItem(productId: int, quantity: int)

  /** An order: its id and its product map, in the map's iteration order. */
  datatype OrderData = OrderData(id: int, products: seq<LineItem>)

  /** The in-memory state: the product tree, the order list and both id counters. */
  datatype Service = Service(
    products: Tree<Product>,
    orders: LinkedList<OrderData>,
    lastProductId: int,
    lastOrderId: int)

  /** `compare_by_id`: orders two products by id, answering -1, 1 or 0. */
  function CompareById(a: Product, b: Product): (r: int)
    ensures r == -1 <==> a.id < b.id
    ensures r == 1 <==> a.id > b.id
    ensures r == 0 <==> a.id == b.id
  {
    if a.id < b.id then -1 else if a.id > b.id then 1 else 0
  }

  /** `compare_by_search_key`: compares a raw id with a stored product's id. */
  function CompareBySearchKey(id: int, p: Product): (r: int)
    ensures r == -1 <==> id < p.id
    ensures r == 1 <==> id > p.id
    ensures r == 0 <==> id == p.id
  {
    if id < p.id then -1 else if id > p.id then 1 else 0
  }

  /** `compare_by_id` is a total order on products by id (ties are equal ids). */
  lemma {:induction false} CompareByIdIsTotalPreorder()
    ensures TotalPreorder(CompareById)
  {
  }

  /**
   The search comparator agrees with the placement comparator: comparing the
   key `k` with `p` answers what comparing any product with id `k` would, so
   a stored product that matches a key stands in for that key.
   */
  lemma {:induction false} SearchKeyAgreesWithId()
    ensures forall k: int, p: Product, q: Product :: q.id == k ==> CompareBySearchKey(k, p) == CompareById(q, p)
    ensures KeyConsistent(CompareBySearchKey, CompareById)
  {
  }

  /**
   What the service relies on between calls: the product tree is a search
   tree by id, the counters are not negative, and no stored id is above its
   counter.
   */
  ghost predicate Valid(s: Service) {
    && IsBst(s.products, CompareById)
    && 0 <= s.lastProductId
    && 0 <= s.lastOrderId
    && (forall p :: p in Elements(s.products) ==> p.id <= s.lastProductId)
    && (forall o :: o in Items(s.orders) ==> o.id <= s.lastOrderId)
  }

  /** The id of a product. */
  function ProductId(p: Product): (r: int) {
    p.id
  }

  /** The id of an order. */
  function OrderId(o: OrderData): (r: int) {
    o.id
  }

  /** The counter value startup computes: the running maximum of the keys, from 0. */
  function MaxKey<T>(xs: seq<T>, key: T -> int): (r: int)
    ensures 0 <= r
    ensures |xs| > 0 ==> key(xs[|xs| - 1]) <= r
    decreases |xs|
  {
    if |xs| == 0 then 0
    else
      var m := MaxKey(xs[..|xs| - 1], key);
      if key(xs[|xs| - 1]) > m then key(xs[|xs| - 1]) else m
  }

  /**
   The running maximum is the largest key among `xs`, or 0 when there is
   none (or every key is below 0).
   */
  lemma {:induction false} MaxKeyIsMaximum<T>(xs: seq<T>, key: T -> int)
    ensures 0 <= MaxKey(xs, key)
    ensures forall j :: 0 <= j < |xs| ==> key(xs[j]) <= MaxKey(xs, key)
    ensures MaxKey(xs, key) == 0 || exists j :: 0 <= j < |xs| && key(xs[j]) == MaxKey(xs, key)
    decreases |xs|
  {
    if |xs| > 0 {
      var front := xs[..|xs| - 1];
      MaxKeyIsMaximum(front, key);
      forall j | 0 <= j < |front|
        ensures key(xs[j]) <= MaxKey(xs, key)
      {
        assert xs[j] == front[j];
      }
      if MaxKey(xs, key) != 0 && MaxKey(xs, key) == MaxKey(front, key) {
        var j :| 0 <= j < |front| && key(front[j]) == MaxKey(front, key);
        assert xs[j] == front[j];
      }
    }
  }

  /** The counter after one more loaded record. */
  lemma {:induction false} MaxKeyStep<T>(xs: seq<T>, i: int, key: T -> int)
    requires 0 <= i < |xs|
    ensures MaxKey(xs[..i + 1], key) == if key(xs[i]) > MaxKey(xs[..i], key) then key(xs[i]) else MaxKey(xs[..i], key)
  {
    assert xs[..i + 1][..i] == xs[..i];
  }

  /**
   Startup, products: insert every loaded product into an empty tree in file
   order, while the counter tracks the largest id seen, from 0.
   */
  method LoadProducts(products: seq<Product>) returns (tree: Tree<Product>, last: int)
    ensures tree == InsertAll(Leaf, products, CompareById)
    ensures last == MaxKey(products, ProductId)
  {
    tree := Leaf;
    last := 0;
    var i := 0;
    while i < |products|
      invariant 0 <= i <= |products|
      invariant tree == InsertAll(Leaf, products[..i], CompareById)
      invariant last == MaxKey(products[..i], ProductId)
    {
      InsertAllStep(Leaf, products, i, CompareById);
      MaxKeyStep(products, i, ProductId);
      tree := Insert(tree, products[i], CompareById);
      if products[i].id > last {
        last := products[i].id;
      }
      i := i + 1;
    }
    assert products[..i] == products;
  }

  /**
   Startup, orders: append every loaded order to an empty list in file order,
   while the counter tracks the largest id seen, from 0.
   */
  method LoadOrders(orders: seq<OrderData>) returns (list: LinkedList<OrderData>, last: int)
    ensures list == AppendAll(Nil, orders) && Items(list) == orders
    ensures last == MaxKey(orders, OrderId)
  {
    list := Nil;
    last := 0;
    var i := 0;
    while i < |orders|
      invariant 0 <= i <= |orders|
      invariant list == AppendAll(Nil, orders[..i])
      invariant last == MaxKey(orders[..i], OrderId)
    {
      MaxKeyStep(orders, i, OrderId);
      assert orders[..i + 1][..i] == orders[..i];
      if orders[i].id > last {
        last := orders[i].id;
      }
      list := Append(list, orders[i]);
      i := i + 1;
    }
    assert orders[..i] == orders;
  }

  /** Startup: load both collections; the resulting service is valid. */
  method Load(products: seq<Product>, orders: seq<OrderData>) returns (s: Service)
    ensures Valid(s)
    ensures s.products == InsertAll(Leaf, products, CompareById)
    ensures Items(s.orders) == orders
    ensures s.lastProductId == MaxKey(products, ProductId)
    ensures s.lastOrderId == MaxKey(orders, OrderId)
  {
    var tree, lastProductId := LoadProducts(products);
    var list, lastOrderId := LoadOrders(orders);
    LoadedServiceValid(products, orders, list);
    s := Service(tree, list, lastProductId, lastOrderId);
  }

  /** The service startup builds from the loaded records is valid. */
  lemma {:induction false} LoadedServiceValid(products: seq<Product>, orders: seq<OrderData>,
                                              list: LinkedList<OrderData>)
    requires Items(list) == orders
    ensures Valid(Service(InsertAll(Leaf, products, CompareById), list,
                          MaxKey(products, ProductId), MaxKey(orders, OrderId)))
  {
    var tree := InsertAll(Leaf, products, CompareById);
    InsertAllKeepsBst(Leaf, products, CompareById);
    MaxKeyIsMaximum(products, ProductId);
    MaxKeyIsMaximum(orders, OrderId);
    forall p | p in Elements(tree)
      ensures p.id <= MaxKey(products, ProductId)
    {
      assert p in multiset(products);
      var j :| 0 <= j < |products| && products[j] == p;
      assert ProductId(products[j]) <= MaxKey(products, ProductId);
    }
    forall o | o in Items(list)
      ensures o.id <= MaxKey(orders, OrderId)
    {
      var j :| 0 <= j < |orders| && orders[j] == o;
      assert OrderId(orders[j]) <= MaxKey(orders, OrderId);
    }
  }

  /** The result of a create call: the new state and the id just assigned. */
  datatype Created = Created(state: Service, id: int)

  /**
   `create_product`: bump the product counter, give the product that id and
   insert it into the tree. The orders are untouched.
   */
  function CreateProduct(s: Service, name: string, price: int): (r: Created)
    ensures r.id == s.lastProductId + 1 && r.state.lastProductId == r.id
    ensures Elements(r.state.products) == Elements(s.products) + multiset{Product(r.id, name, price)}
    ensures r.state.orders == s.orders && r.state.lastOrderId == s.lastOrderId
  {
    var id := s.lastProductId + 1;
    Created(s.(products := Insert(s.products, Product(id, name, price), CompareById), lastProductId := id), id)
  }

  /**
   `create_order`: bump the order counter, give the order that id and append
   it at the tail of the list. The products are untouched.
   */
  function CreateOrder(s: Service, items: seq<LineItem>): (r: Created)
    ensures r.id == s.lastOrderId + 1 && r.state.lastOrderId == r.id
    ensures Items(r.state.orders) == Items(s.orders) + [OrderData(r.id, items)]
    ensures r.state.products == s.products && r.state.lastProductId == s.lastProductId
    ensures Valid(s) ==> Valid(r.state) && r.id >= 1
    ensures Valid(s) ==> forall o :: o in Items(s.orders) ==> o.id < r.id
  {
    var id := s.lastOrderId + 1;
    Created(s.(orders := Append(s.orders, OrderData(id, items)), lastOrderId := id), id)
  }

  /**
   Creating a product keeps the service valid, and the id it assigns is
   above every stored product id, so it is fresh and at least 1.
   */
  lemma {:induction false} CreateProductKeepsValid(s: Service, name: string, price: int)
    requires Valid(s)
    ensures Valid(CreateProduct(s, name, price).state)
    ensures CreateProduct(s, name, price).id >= 1
    ensures forall p :: p in Elements(s.products) ==> p.id < CreateProduct(s, name, price).id
  {
    var r := CreateProduct(s, name, price);
    InsertKeepsBst(s.products, Product(r.id, name, price), CompareById);
    forall p | p in Elements(r.state.products)
      ensures p.id <= r.state.lastProductId
    {
      assert p in Elements(s.products) || p == Product(r.id, name, price);
    }
  }

  /** A state-changing request the service accepts. */
  datatype Request =
    | NewProduct(name: string, price: int)
    | NewOrder(items: seq<LineItem>)
    | ChangeOrder(id: int, items: seq<LineItem>)
    | RemoveOrder(id: int)

  /** The state after serving one request. */
  function Serve(s: Service, q: Request): (r: Service)
    ensures r.lastProductId >= s.lastProductId && r.lastOrderId >= s.lastOrderId
  {
    match q
    case NewProduct(name, price) => CreateProduct(s, name, price).state
    case NewOrder(items) => CreateOrder(s, items).state
    case ChangeOrder(id, items) => UpdateOrder(s, id, items).state
    case RemoveOrder(id) => DeleteOrder(s, id).state
  }

  /** The state after serving a run of requests in order. */
  function ServeAll(s: Service, qs: seq<Request>): (r: Service)
    decreases |qs|
  {
    if |qs| == 0 then s else ServeAll(Serve(s, qs[0]), qs[1..])
  }

  /** Serving one request keeps a valid service valid. */
  lemma {:induction false} ServeKeepsValid(s: Service, q: Request)
    requires Valid(s)
    ensures Valid(Serve(s, q))
  {
    if q.NewProduct? {
      CreateProductKeepsValid(s, q.name, q.price);
    }
  }

  /** Over any run of requests the counters never go back. */
  lemma {:induction false} ServeAllKeepsCounters(s: Service, qs: seq<Request>)
    ensures ServeAll(s, qs).lastProductId >= s.lastProductId
    ensures ServeAll(s, qs).lastOrderId >= s.lastOrderId
    decreases |qs|
  {
    if |qs| > 0 {
      ServeAllKeepsCounters(Serve(s, qs[0]), qs[1..]);
    }
  }

  /** Over any run of requests a valid service stays valid. */
  lemma {:induction false} ServeAllKeepsValid(s: Service, qs: seq<Request>)
    requires Valid(s)
    ensures Valid(ServeAll(s, qs))
    decreases |qs|
  {
    if |qs| > 0 {
      ServeKeepsValid(s, qs[0]);
      ServeAllKeepsValid(Serve(s, qs[0]), qs[1..]);
    }
  }

  /**
   Ids are never handed out twice: whatever requests are served between two
   creates of the same kind, the later create gets the larger id.
   */
  lemma {:induction false} CreatedIdsIncrease(s: Service, qs: seq<Request>, name: string, price: int,
                                              items: seq<LineItem>)
    ensures var first := CreateProduct(s, name, price);
            CreateProduct(ServeAll(first.state, qs), name, price).id > first.id
    ensures var first := CreateOrder(s, items);
            CreateOrder(ServeAll(first.state, qs), items).id > first.id
  {
    ServeAllKeepsCounters(CreateProduct(s, name, price).state, qs);
    ServeAllKeepsCounters(CreateOrder(s, items).state, qs);
  }

  /** A reply that either carries a value or reports a missing id. */
  datatype Reply<T> = Ok(value: T) | NotFound

  /** `product_info`: search the tree by id. */
  function ProductInfo(s: Service, id: int): (r: Reply<Product>)
    ensures r.Ok? ==> r.value.id == id && r.value in Elements(s.products)
  {
    match Search(s.products, id, CompareBySearchKey)
    case None => NotFound
    case Some(node) => Ok(node.value)
  }

  /** Some stored product carries this id. */
  ghost predicate Stored(tree: Tree<Product>, id: int) {
    exists p :: p in Elements(tree) && p.id == id
  }

  /** Searching a search tree by id finds a node exactly when some stored product has that id. */
  lemma {:induction false} SearchById(tree: Tree<Product>, id: int)
    requires IsBst(tree, CompareById)
    ensures Search(tree, id, CompareBySearchKey).Some? <==> Stored(tree, id)
  {
    SearchKeyAgreesWithId();
    SearchFindsStored(tree, id, CompareBySearchKey, CompareById);
    if Stored(tree, id) {
      var p :| p in Elements(tree) && p.id == id;
      assert CompareBySearchKey(id, p) == 0;
    }
  }

  /** In a valid service, a product lookup fails exactly when no stored product has the id. */
  lemma {:induction false} ProductInfoFindsStored(s: Service, id: int)
    requires Valid(s)
    ensures ProductInfo(s, id).NotFound? <==> !Stored(s.products, id)
  {
    SearchById(s.products, id);
  }

  /** One line of an order detail: name, unit price, quantity and line total. */
  datatype Line = Line(name: string, price: int, quantity: int, total: int)

  /** The line an order shows for product `p` bought `quantity` times. */
  function LineFor(p: Product, quantity: int): (r: Line) {
    Line(p.name, p.price, quantity, p.price * quantity)
  }

  /**
   The lines of `products_in_order`: one per line item whose product id the
   tree search finds, in line-item order; the others are skipped.
   */
  function ResolveLines(tree: Tree<Product>, items: seq<LineItem>): (r: seq<Line>)
    ensures |r| <= |items|
    decreases |items|
  {
    if |items| == 0 then []
    else
      var front, last := items[..|items| - 1], items[|items| - 1];
      match Search(tree, last.productId, CompareBySearchKey)
      case None => ResolveLines(tree, front)
      case Some(node) => ResolveLines(tree, front) + [LineFor(node.value, last.quantity)]
  }

  /** The line items whose product is stored, in their original order. */
  ghost function Kept(tree: Tree<Product>, items: seq<LineItem>): seq<LineItem>
    decreases |items|
  {
    if |items| == 0 then []
    else
      var front, last := items[..|items| - 1], items[|items| - 1];
      Kept(tree, front) + (if Stored(tree, last.productId) then [last] else [])
  }

  /** `line` shows a stored product whose id is the item's, bought the item's quantity. */
  ghost predicate ShowsItem(tree: Tree<Product>, item: LineItem, line: Line) {
    exists p :: p in Elements(tree) && p.id == item.productId && line == LineFor(p, item.quantity)
  }

  /**
   In a search tree by id, the detail lines correspond one to one, in order,
   to the line items whose product is stored; each line shows a stored
   product with that id and the item's quantity.
   */
  lemma {:induction false} ResolveLinesKeepsStored(tree: Tree<Product>, items: seq<LineItem>)
    requires IsBst(tree, CompareById)
    ensures |ResolveLines(tree, items)| == |Kept(tree, items)|
    ensures forall i :: 0 <= i < |Kept(tree, items)| ==>
              ShowsItem(tree, Kept(tree, items)[i], ResolveLines(tree, items)[i])
    decreases |items|
  {
    if |items| > 0 {
      var front, last := items[..|items| - 1], items[|items| - 1];
      ResolveLinesKeepsStored(tree, front);
      SearchById(tree, last.productId);
      var lines, kept := ResolveLines(tree, items), Kept(tree, items);
      var frontLines, frontKept := ResolveLines(tree, front), Kept(tree, front);
      var found := Search(tree, last.productId, CompareBySearchKey);
      if found.Some? {
        var p := found.value.value;
        assert kept == frontKept + [last];
        assert lines == frontLines + [LineFor(p, last.quantity)];
        assert ShowsItem(tree, last, LineFor(p, last.quantity));
      } else {
        assert kept == frontKept;
        assert lines == frontLines;
      }
      forall i | 0 <= i < |kept|
        ensures ShowsItem(tree, kept[i], lines[i])
      {
        if i < |frontKept| {
          assert kept[i] == frontKept[i] && lines[i] == frontLines[i];
        }
      }
    }
  }

  /** The sum of the line totals. */
  function LinesTotal(lines: seq<Line>): (r: int)
    decreases |lines|
  {
    if |lines| == 0 then 0 else LinesTotal(lines[..|lines| - 1]) + lines[|lines| - 1].total
  }

  /** Resolving one more line item extends the lines by at most that item's line. */
  lemma {:induction false} ResolveLinesStep(tree: Tree<Product>, items: seq<LineItem>, i: nat)
    requires i < |items|
    ensures var found := Search(tree, items[i].productId, CompareBySearchKey);
            ResolveLines(tree, items[..i + 1])
            == ResolveLines(tree, items[..i])
               + (if found.Some? then [LineFor(found.value.value, items[i].quantity)] else [])
  {
    assert items[..i + 1][..i] == items[..i];
  }

  /** The total of lines extended by one line grows by that line's total. */
  lemma {:induction false} LinesTotalStep(lines: seq<Line>, line: Line)
    ensures LinesTotal(lines + [line]) == LinesTotal(lines) + line.total
  {
    assert (lines + [line])[..|lines|] == lines;
  }

  /** An order detail: the resolved lines and the order total. */
  datatype Detail = Detail(lines: seq<Line>, total: int)

  /**
   `products_in_order`: walk the line items, search each product id, and for
   each one found append its line and add its total to the order total.
   */
  method ProductsInOrder(tree: Tree<Product>, order: OrderData) returns (d: Detail)
    ensures d.lines == ResolveLines(tree, order.products)
    ensures d.total == LinesTotal(d.lines)
  {
    var items := order.products;
    var lines: seq<Line> := [];
    var total := 0;
    var i := 0;
    while i < |items|
      invariant 0 <= i <= |items|
      invariant lines == ResolveLines(tree, items[..i])
      invariant total == LinesTotal(lines)
    {
      var item := items[i];
      var found := Search(tree, item.productId, CompareBySearchKey);
      ResolveLinesStep(tree, items, i);
      if found.Some? {
        var p := found.value.value;
        LinesTotalStep(lines, LineFor(p, item.quantity));
        lines := lines + [LineFor(p, item.quantity)];
        total := total + p.price * item.quantity;
      }
      i := i + 1;
    }
    assert items[..i] == items;
    d := Detail(lines, total);
  }

  /** The predicate `order.id == id` the service hands to the list. */
  function HasId(id: int): (r: OrderData -> bool)
    ensures forall o :: r(o) <==> o.id == id
  {
    (o: OrderData) => o.id == id
  }

  /**
   `order_info`: find the first order with the id and compose its detail;
   report a missing id otherwise.
   */
  method OrderInfo(s: Service, id: int) returns (r: Reply<Detail>)
    ensures r.NotFound? <==> forall o :: o in Items(s.orders) ==> o.id != id
    ensures r.Ok? ==> var xs := Items(s.orders); var i := FirstIndex(xs, HasId(id));
                      && i < |xs| && xs[i].id == id
                      && r.value.lines == ResolveLines(s.products, xs[i].products)
                      && r.value.total == LinesTotal(r.value.lines)
  {
    var found := Find(s.orders, HasId(id));
    match found
    case None =>
      r := NotFound;
    case Some(order) =>
      var d := ProductsInOrder(s.products, order);
      r := Ok(d);
  }

  /** The result of an update or delete: the new state and whether the id was found. */
  datatype Outcome = Outcome(state: Service, found: bool)

  /**
   The in-place write `update_order` performs through the reference `find`
   returned: the first order with the id gets the new product map.
   */
  function SetProducts(l: LinkedList<OrderData>, id: int, items: seq<LineItem>): (r: LinkedList<OrderData>)
    ensures var xs, i := Items(l), FirstIndex(Items(l), HasId(id));
            && (i == |xs| ==> r == l)
            && (i < |xs| ==> Items(r) == xs[i := xs[i].(products := items)])
  {
    match l
    case Nil => Nil
    case ListNode(o, n) =>
      assert Items(l)[0] == o && Items(l)[1..] == Items(n);
      if o.id == id then ListNode(o.(products := items), n)
      else ListNode(o, SetProducts(n, id, items))
  }

  /**
   `update_order`: find the first order with the id and replace its product
   map; report a missing id, leaving the state as it was, otherwise.
   */
  function UpdateOrder(s: Service, id: int, items: seq<LineItem>): (r: Outcome)
    ensures r.found <==> exists o :: o in Items(s.orders) && o.id == id
    ensures !r.found ==> r.state == s
    ensures r.found ==> var xs, i := Items(s.orders), FirstIndex(Items(s.orders), HasId(id));
                        && r.state == s.(orders := r.state.orders)
                        && Items(r.state.orders) == xs[i := OrderData(id, items)]
    ensures Valid(s) ==> Valid(r.state)
  {
    match Find(s.orders, HasId(id))
    case None => Outcome(s, false)
    case Some(_) =>
      var r := Outcome(s.(orders := SetProducts(s.orders, id, items)), true);
      var xs := Items(s.orders);
      var i := FirstIndex(xs, HasId(id));
      assert forall o :: o in Items(r.state.orders) ==> o in xs || o == OrderData(id, items);
      r
  }

  /**
   `delete_order`: unlink the first order with the id; report a missing id,
   leaving the state as it was, otherwise.
   */
  function DeleteOrder(s: Service, id: int): (r: Outcome)
    ensures r.found <==> exists o :: o in Items(s.orders) && o.id == id
    ensures !r.found ==> r.state == s
    ensures r.found ==> var xs, i := Items(s.orders), FirstIndex(Items(s.orders), HasId(id));
                        && r.state == s.(orders := r.state.orders)
                        && Items(r.state.orders) == xs[..i] + xs[i + 1..]
    ensures Valid(s) ==> Valid(r.state)
  {
    var d := Delete(s.orders, HasId(id));
    match d.removed
    case None => Outcome(s, false)
    case Some(_) =>
      var xs := Items(s.orders);
      var i := FirstIndex(xs, HasId(id));
      assert forall o :: o in Items(d.rest) ==> o in xs;
      Outcome(s.(orders := d.rest), true)
  }
}

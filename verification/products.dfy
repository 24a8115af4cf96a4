/** The product routes: the filtered, paged listing, lookup by id, and the
    admin create, update and delete operations, over the `products` table
    held as a sequence of rows in storage order. */
module Products {
  import opened Wrappers
  import opened Json
  import opened Database
  import opened Paging
  import opened Rows
  import Text

  type Store = seq<ProductRow>

  /** The primary key and the UNIQUE `sku` column: no two rows share an id,
      and no two rows share a non-NULL SKU. */
  predicate Wf(store: Store) {
    && (forall i, j :: 0 <= i < j < |store| ==> store[i].id != store[j].id)
    && (forall i, j :: 0 <= i < j < |store| && store[i].sku.Some? ==> store[i].sku != store[j].sku)
  }

  const DefaultPage: int := 1
  const DefaultLimit: int := 20
  const MaxLimit: int := 100

  /** The query string of `GET /products`. */
  datatype ProductQuery = ProductQuery(
    page: int,
    limit: int,
    search: Option<string>,
    collection: Option<string>,
    minPrice: Option<int>,
    maxPrice: Option<int>)

  /** What a listing answers with. */
  datatype Listing = Listing(data: seq<ProductDict>, pagination: Pagination)

  /** When a row passes every filter the query supplies: search and
      collection only when non-empty, price bounds whenever present (even 0). */
  predicate Matches(q: ProductQuery, row: ProductRow) {
    && (Given(q.search) ==> Text.Contains(row.name, q.search.value))
    && (Given(q.collection) ==> row.collection == q.collection.value)
    && (q.minPrice.Some? ==> row.price >= q.minPrice.value)
    && (q.maxPrice.Some? ==> row.price <= q.maxPrice.value)
  }

  /** The query the route builds, one `filter` call per supplied parameter. */
  function Filtered(store: Store, q: ProductQuery): (r: seq<ProductRow>)
    ensures forall row :: row in r <==> row in store && Matches(q, row)
  {
    var a := if Given(q.search) then Where(store, (row: ProductRow) => Text.Contains(row.name, q.search.value)) else store;
    var b := if Given(q.collection) then Where(a, (row: ProductRow) => row.collection == q.collection.value) else a;
    var c := if q.minPrice.Some? then Where(b, (row: ProductRow) => row.price >= q.minPrice.value) else b;
    if q.maxPrice.Some? then Where(c, (row: ProductRow) => row.price <= q.maxPrice.value) else c
  }

  /** The chained filters keep exactly the matching rows, in storage order. */
  lemma FilteredIsWhere(store: Store, q: ProductQuery)
    ensures Filtered(store, q) == Where(store, (row: ProductRow) => Matches(q, row))
  {
    var c1 := (row: ProductRow) => Given(q.search) ==> Text.Contains(row.name, q.search.value);
    var c2 := (row: ProductRow) => c1(row) && (Given(q.collection) ==> row.collection == q.collection.value);
    var c3 := (row: ProductRow) => c2(row) && (q.minPrice.Some? ==> row.price >= q.minPrice.value);
    var c4 := (row: ProductRow) => Matches(q, row);
    var a := if Given(q.search) then Where(store, (row: ProductRow) => Text.Contains(row.name, q.search.value)) else store;
    if Given(q.search) {
      WhereSame(store, (row: ProductRow) => Text.Contains(row.name, q.search.value), c1);
    } else {
      WhereAll(store, c1);
    }
    assert a == Where(store, c1);
    var b := if Given(q.collection) then Where(a, (row: ProductRow) => row.collection == q.collection.value) else a;
    if Given(q.collection) {
      WhereWhere(store, c1, (row: ProductRow) => row.collection == q.collection.value, c2);
    } else {
      WhereSame(store, c1, c2);
    }
    assert b == Where(store, c2);
    var c := if q.minPrice.Some? then Where(b, (row: ProductRow) => row.price >= q.minPrice.value) else b;
    if q.minPrice.Some? {
      WhereWhere(store, c2, (row: ProductRow) => row.price >= q.minPrice.value, c3);
    } else {
      WhereSame(store, c2, c3);
    }
    assert c == Where(store, c3);
    if q.maxPrice.Some? {
      WhereWhere(store, c3, (row: ProductRow) => row.price <= q.maxPrice.value, c4);
    } else {
      WhereSame(store, c3, c4);
    }
  }

  function MapToDict(rows: seq<ProductRow>): (r: seq<ProductDict>)
    ensures |r| == |rows|
    ensures forall i :: 0 <= i < |rows| ==> r[i] == ToDict(rows[i])
  {
    if |rows| == 0 then [] else [ToDict(rows[0])] + MapToDict(rows[1..])
  }

  /** The rows one page of the listing shows. */
  function PageRows(store: Store, q: ProductQuery): (r: seq<ProductRow>)
    requires ValidQuery(q.page, q.limit, MaxLimit)
    ensures |r| <= q.limit
    ensures forall row :: row in r ==> row in store && Matches(q, row)
  {
    Window(Filtered(store, q), Offset(q.page, q.limit), q.limit)
  }

  /** `get_products`. */
  function ListProducts(store: Store, q: ProductQuery): (r: Result<Listing>)
    ensures r.Err? <==> !ValidQuery(q.page, q.limit, MaxLimit)
    ensures r.Err? ==> r.status == Unprocessable
    ensures r.Ok? ==> |r.value.data| <= q.limit
    ensures r.Ok? ==> r.value.pagination.total == Count(store, (row: ProductRow) => Matches(q, row))
    ensures r.Ok? ==> r.value.pagination.totalPages * q.limit >= r.value.pagination.total
    ensures r.Ok? ==> r.value.pagination.totalPages == 0
                      || (r.value.pagination.totalPages - 1) * q.limit < r.value.pagination.total
    ensures r.Ok? ==> r.value.pagination.page == q.page && r.value.pagination.limit == q.limit
  {
    if !ValidQuery(q.page, q.limit, MaxLimit) then Err(Unprocessable)
    else
      var rows := Filtered(store, q);
      FilteredIsWhere(store, q);
      var total := |rows|;
      Ok(Listing(MapToDict(PageRows(store, q)),
                 Pagination(q.page, q.limit, total, TotalPages(total, q.limit))))
  }

  /** Every listed product is a stored row that passes every supplied filter. */
  lemma ListedMatch(store: Store, q: ProductQuery, i: int)
    requires ListProducts(store, q).Ok? && 0 <= i < |ListProducts(store, q).value.data|
    ensures exists row :: row in store && Matches(q, row) && ListProducts(store, q).value.data[i] == ToDict(row)
  {
    var rows := PageRows(store, q);
    assert rows[i] in rows;
  }

  /** An empty search string filters nothing, like an absent one, but a
      price bound of 0 does apply. */
  lemma EmptySearchButZeroBound(store: Store, q: ProductQuery, row: ProductRow)
    ensures Filtered(store, q.(search := Some(""))) == Filtered(store, q.(search := None))
    ensures Filtered(store, q.(collection := Some(""))) == Filtered(store, q.(collection := None))
    ensures row in Filtered(store, q.(maxPrice := Some(0))) ==> row.price <= 0
  {
  }

  /** Every matching row is shown on some page, at the position its rank
      among the matches gives. */
  lemma EveryMatchListed(store: Store, q: ProductQuery, i: int)
    requires 1 <= q.limit <= MaxLimit && 0 <= i < |Filtered(store, q)|
    ensures var q' := q.(page := i / q.limit + 1);
      && ListProducts(store, q').Ok?
      && i % q.limit < |ListProducts(store, q').value.data|
      && ListProducts(store, q').value.data[i % q.limit] == ToDict(Filtered(store, q)[i])
      && q'.page <= ListProducts(store, q').value.pagination.totalPages
  {
    var q' := q.(page := i / q.limit + 1);
    assert Filtered(store, q') == Filtered(store, q);
    RowOnItsPage(Filtered(store, q), q.limit, i);
  }

  /** The position of the row with this id, if any. */
  function Find(store: Store, id: int): (r: Option<nat>)
    ensures r.None? <==> forall i :: 0 <= i < |store| ==> store[i].id != id
    ensures r.Some? ==> r.value < |store| && store[r.value].id == id
    ensures r.Some? ==> forall i :: 0 <= i < r.value ==> store[i].id != id
  {
    IndexOf(store, (x: ProductRow) => x.id, id)
  }

  /** `get_product`. */
  function GetProduct(store: Store, id: int): (r: Result<ProductDict>)
    ensures r.Err? <==> forall row :: row in store ==> row.id != id
    ensures r.Err? ==> r.status == NotFound
    ensures r.Ok? ==> exists row :: row in store && row.id == id && r.value == ToDict(row)
  {
    match Find(store, id)
    case None => Err(NotFound)
    case Some(i) => assert store[i] in store; Ok(ToDict(store[i]))
  }

  /** The body of `POST /admin/products`. */
  datatype ProductCreate = ProductCreate(
    name: string,
    collection: string,
    price: int,
    image: Option<string>,
    images: JsonValue,
    description: Option<string>,
    features: JsonValue,
    specs: JsonValue,
    inStock: bool,
    stockQuantity: int,
    sku: Option<string>)

  predicate SkuTaken(store: Store, sku: string) {
    exists i :: 0 <= i < |store| && store[i].sku == Some(sku)
  }

  /** The id SQLite gives a new row: one more than the largest in use. */
  function NextId(store: Store): (r: nat)
    ensures r >= 1
    ensures forall row :: row in store ==> row.id < r
  {
    NextKey(store, (row: ProductRow) => row.id)
  }

  /** The row `create_product` inserts. */
  function NewRow(store: Store, p: ProductCreate, now: DateTime): (r: ProductRow)
    ensures r.id >= 1 && forall row :: row in store ==> row.id != r.id
    ensures r.name == p.name && r.collection == p.collection && r.price == p.price
    ensures r.image == p.image && r.description == p.description && r.sku == p.sku
    ensures Truthy(r.images) && Loads(r.images) == p.images
    ensures Truthy(r.features) && Loads(r.features) == p.features
    ensures Truthy(r.specs) && Loads(r.specs) == p.specs
    ensures r.inStock == Some(p.inStock) && r.stockQuantity == Some(p.stockQuantity)
    ensures r.createdAt == Some(now) && r.updatedAt == Some(now)
  {
    ProductRow(NextId(store), p.name, p.collection, p.price, p.image, Dumps(p.images),
               p.description, Dumps(p.features), Dumps(p.specs), Some(p.inStock),
               Some(p.stockQuantity), p.sku, Some(now), Some(now))
  }

  /** `create_product`: a non-empty SKU already in use is refused with 409.
      An empty SKU skips that check, and if another row already holds the
      empty SKU the UNIQUE constraint fails the commit (500). */
  function CreateProduct(store: Store, p: ProductCreate, now: DateTime): (r: (Store, Result<ProductDict>))
    requires Wf(store)
    ensures Wf(r.0)
    ensures r.1 == Err(Conflict) <==> Given(p.sku) && SkuTaken(store, p.sku.value)
    ensures r.1 == Err(ServerError) <==> p.sku == Some("") && SkuTaken(store, "")
    ensures r.1.Err? ==> r.0 == store
    ensures r.1.Ok? ==> r.0 == store + [NewRow(store, p, now)] && r.1.value == ToDict(NewRow(store, p, now))
  {
    if Given(p.sku) && SkuTaken(store, p.sku.value) then (store, Err(Conflict))
    else if p.sku.Some? && SkuTaken(store, p.sku.value) then (store, Err(ServerError))
    else
      var row := NewRow(store, p, now);
      var s' := store + [row];
      assert s'[|store|] == row;
      assert forall i :: 0 <= i < |store| ==> store[i] in store;
      (s', Ok(ToDict(row)))
  }

  /** What `create_product` stores comes back unchanged: the rendered row
      carries the posted fields, and the JSON columns decode to exactly the
      posted lists and object. */
  lemma CreateRoundTrip(store: Store, p: ProductCreate, now: DateTime)
    requires Wf(store) && CreateProduct(store, p, now).1.Ok?
    ensures var d := CreateProduct(store, p, now).1.value;
      && d.name == p.name && d.collection == p.collection && d.price == p.price
      && d.image == p.image && d.description == p.description && d.sku == p.sku
      && d.images == p.images && d.features == p.features && d.specs == p.specs
      && d.inStock == Some(p.inStock) && d.stockQuantity == Some(p.stockQuantity)
  {
  }

  /** The created product is then found under the id it was given. */
  lemma CreateThenGet(store: Store, p: ProductCreate, now: DateTime)
    requires Wf(store) && CreateProduct(store, p, now).1.Ok?
    ensures GetProduct(CreateProduct(store, p, now).0, NextId(store)) == CreateProduct(store, p, now).1
  {
    var row := NewRow(store, p, now);
    var s' := store + [row];
    assert CreateProduct(store, p, now) == (s', Ok(ToDict(row)));
    FindAppended(store, row);
    assert s'[|store|] == row;
    assert GetProduct(s', row.id) == Ok(ToDict(row));
  }

  /** A row appended under a fresh id is found at the end. */
  lemma FindAppended(store: Store, row: ProductRow)
    requires forall r :: r in store ==> r.id < row.id
    ensures Find(store + [row], row.id) == Some(|store|)
  {
    var s' := store + [row];
    assert s'[|store|] == row;
    var r := Find(s', row.id);
    assert r.Some?;
    assert forall i :: 0 <= i < |store| ==> s'[i] == store[i] && store[i] in store;
  }

  /** An update of one column: left out of the body, sent as `null`, or
      sent with a value. */
  datatype Patch<T> = Keep | Clear | SetTo(value: T)

  /** The body of `PUT /admin/products/{id}`.  For the JSON columns `None`
      means the key is absent and `Some(JNull)` an explicit `null`. */
  datatype ProductUpdate = ProductUpdate(
    name: Patch<string>,
    collection: Patch<string>,
    price: Patch<int>,
    image: Patch<string>,
    images: Option<JsonValue>,
    description: Patch<string>,
    features: Option<JsonValue>,
    specs: Option<JsonValue>,
    inStock: Patch<bool>,
    stockQuantity: Patch<int>,
    sku: Patch<string>)

  /** `setattr` on a nullable column. */
  function PatchNullable<T>(prev: Option<T>, p: Patch<T>): (r: Option<T>)
    ensures p.Keep? ==> r == prev
    ensures p.Clear? ==> r.None?
    ensures p.SetTo? ==> r == Some(p.value)
  {
    match p
    case Keep => prev
    case Clear => None
    case SetTo(v) => Some(v)
  }

  /** A JSON column: a value is stored through `json.dumps`, an explicit
      `null` is stored as SQL NULL. */
  function PatchJson(prev: TextColumn, p: Option<JsonValue>): (r: TextColumn)
    ensures p.None? ==> r == prev
    ensures p == Some(JNull) ==> r == Null
    ensures p.Some? && p.value != JNull ==> r == Dumps(p.value)
  {
    match p
    case None => prev
    case Some(JNull) => Null
    case Some(v) => Dumps(v)
  }

  /** A NOT NULL column: `null` makes the commit fail. */
  function PatchRequired<T>(prev: T, p: Patch<T>): (r: Option<T>)
    ensures r.None? <==> p.Clear?
    ensures p.Keep? ==> r == Some(prev)
    ensures p.SetTo? ==> r == Some(p.value)
  {
    match p
    case Keep => Some(prev)
    case Clear => None
    case SetTo(v) => Some(v)
  }

  /** The row after the update loop, or `None` when it clears a NOT NULL
      column.  `inStock` and `stockQuantity` land in `in_stock` and
      `stock_quantity`. */
  function UpdateRow(row: ProductRow, u: ProductUpdate): (r: Option<ProductRow>)
    ensures r.None? <==> u.name.Clear? || u.collection.Clear? || u.price.Clear?
    ensures r.Some? ==> r.value.id == row.id && r.value.createdAt == row.createdAt
  {
    match (PatchRequired(row.name, u.name), PatchRequired(row.collection, u.collection), PatchRequired(row.price, u.price))
    case (Some(name), Some(collection), Some(price)) =>
      Some(row.(name := name, collection := collection, price := price,
                image := PatchNullable(row.image, u.image),
                images := PatchJson(row.images, u.images),
                description := PatchNullable(row.description, u.description),
                features := PatchJson(row.features, u.features),
                specs := PatchJson(row.specs, u.specs),
                inStock := PatchNullable(row.inStock, u.inStock),
                stockQuantity := PatchNullable(row.stockQuantity, u.stockQuantity),
                sku := PatchNullable(row.sku, u.sku)))
    case _ => None
  }

  /** Another row than the `i`-th already holds this SKU. */
  predicate SkuHeldElsewhere(store: Store, i: int, sku: Option<string>) {
    sku.Some? && exists j :: 0 <= j < |store| && j != i && store[j].sku == sku
  }

  /** `update_product`: 404 for an unknown id; a failed commit (a NOT NULL
      column cleared, or a SKU another row holds) is 500 and rolls back. */
  function UpdateProduct(store: Store, id: int, u: ProductUpdate): (r: (Store, Result<ProductDict>))
    requires Wf(store)
    ensures Wf(r.0)
    ensures r.1 == Err(NotFound) <==> forall row :: row in store ==> row.id != id
    ensures r.1.Err? ==> r.0 == store
    ensures r.1.Ok? ==> |r.0| == |store| && Find(store, id).Some?
    ensures r.1.Ok? ==> forall i :: 0 <= i < |store| && store[i].id != id ==> r.0[i] == store[i]
    ensures r.1 == Err(ServerError) <==>
      (Find(store, id).Some? &&
       var i := Find(store, id).value;
       UpdateRow(store[i], u).None? || SkuHeldElsewhere(store, i, UpdateRow(store[i], u).value.sku))
    ensures r.1.Ok? ==>
      (Find(store, id).Some? &&
       var i := Find(store, id).value;
       && UpdateRow(store[i], u).Some?
       && r.0[i] == UpdateRow(store[i], u).value
       && r.1.value == ToDict(r.0[i]))
  {
    match Find(store, id)
    case None => (store, Err(NotFound))
    case Some(i) =>
      assert store[i] in store;
      match UpdateRow(store[i], u)
      case None => (store, Err(ServerError))
      case Some(row) =>
        if SkuHeldElsewhere(store, i, row.sku) then (store, Err(ServerError))
        else
          var s' := store[i := row];
          assert Wf(s') by {
            forall a, b | 0 <= a < b < |s'| && s'[a].sku.Some?
              ensures s'[a].sku != s'[b].sku
            {
              if a == i {
                assert !SkuHeldElsewhere(store, i, row.sku);
              } else if b == i {
                assert !SkuHeldElsewhere(store, i, row.sku);
                assert store[a].sku == s'[a].sku;
              }
            }
          }
          (s', Ok(ToDict(row)))
  }

  /** A successful update changes only the columns the body names: absent
      keys keep their value, `inStock` and `stockQuantity` appear as the
      stored `in_stock` and `stock_quantity`, and a JSON column set to a
      value renders that value. */
  lemma UpdateOnlySupplied(store: Store, id: int, u: ProductUpdate)
    requires Wf(store) && UpdateProduct(store, id, u).1.Ok?
    ensures var prev := store[Find(store, id).value];
      var d := UpdateProduct(store, id, u).1.value;
      var row := UpdateProduct(store, id, u).0[Find(store, id).value];
      && d == ToDict(row)
      && row.id == id
      && (u.name.Keep? ==> row.name == prev.name)
      && (u.name.SetTo? ==> d.name == u.name.value)
      && (u.price.Keep? ==> row.price == prev.price)
      && (u.price.SetTo? ==> d.price == u.price.value)
      && (u.collection.Keep? ==> row.collection == prev.collection)
      && (u.image.Keep? ==> row.image == prev.image)
      && (u.description.Keep? ==> row.description == prev.description)
      && (u.sku.Keep? ==> row.sku == prev.sku)
      && (u.images.None? ==> row.images == prev.images)
      && (u.images.Some? && u.images.value != JNull ==> d.images == u.images.value)
      && (u.images == Some(JNull) ==> d.images == EmptyList)
      && (u.features.None? ==> row.features == prev.features)
      && (u.features.Some? && u.features.value != JNull ==> d.features == u.features.value)
      && (u.specs.None? ==> row.specs == prev.specs)
      && (u.specs.Some? && u.specs.value != JNull ==> d.specs == u.specs.value)
      && (u.inStock.Keep? ==> d.inStock == prev.inStock)
      && (u.inStock.SetTo? ==> d.inStock == Some(u.inStock.value))
      && (u.stockQuantity.Keep? ==> d.stockQuantity == prev.stockQuantity)
      && (u.stockQuantity.SetTo? ==> d.stockQuantity == Some(u.stockQuantity.value))
  {
  }

  /** `delete_product`: 404 for an unknown id, otherwise exactly that row
      goes. */
  function DeleteProduct(store: Store, id: int): (r: (Store, Result<int>))
    requires Wf(store)
    ensures Wf(r.0)
    ensures r.1.Err? <==> forall row :: row in store ==> row.id != id
    ensures r.1.Err? ==> r.1.status == NotFound && r.0 == store
    ensures r.1.Ok? ==> r.1.value == id && |r.0| == |store| - 1
    ensures forall row :: row in r.0 <==> row in store && row.id != id
  {
    match Find(store, id)
    case None => (store, Err(NotFound))
    case Some(i) =>
      RemoveAtMembers(store, i);
      RemoveAtWf(store, i);
      (store[..i] + store[i + 1..], Ok(id))
  }

  /** Dropping the `i`-th row of a store with distinct ids keeps every
      other row and only those. */
  lemma RemoveAtMembers(store: Store, i: nat)
    requires Wf(store) && i < |store|
    ensures forall row :: row in store[..i] + store[i + 1..] <==> row in store && row.id != store[i].id
  {
    RemoveAtKeys(store, (row: ProductRow) => row.id, i);
  }

  lemma RemoveAtWf(store: Store, i: nat)
    requires Wf(store) && i < |store|
    ensures Wf(store[..i] + store[i + 1..])
  {
    var s' := store[..i] + store[i + 1..];
    RemoveAtKeys(store, (row: ProductRow) => row.id, i);
    forall a, b | 0 <= a < b < |s'| && s'[a].sku.Some?
      ensures s'[a].sku != s'[b].sku
    {
      RemoveAtIndex(store, i, a);
      RemoveAtIndex(store, i, b);
    }
  }

  /** After a successful delete the product is gone. */
  lemma DeleteThenGet(store: Store, id: int)
    requires Wf(store)
    ensures GetProduct(DeleteProduct(store, id).0, id) == Err(NotFound)
  {
  }
}

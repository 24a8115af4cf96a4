/** The collection routes: the public listing with live product counts,
    one collection, its products page by page, and the admin create, update
    and delete operations. */
module Collections {
  import opened Wrappers
  import opened Database
  import opened Paging
  import opened Rows
  import Products

  /** One row of `collections`. */
  datatype CollectionRow = CollectionRow(
    id: string,
    name: string,
    description: Option<string>,
    image: Option<string>,
    number: Option<string>,
    active: Option<bool>,
    createdAt: Option<DateTime>)

  type Table = seq<CollectionRow>

  /** The primary key: no two rows share an id. */
  predicate Wf(table: Table) {
    forall i, j :: 0 <= i < j < |table| ==> table[i].id != table[j].id
  }

  /** An entry of `GET /collections`. */
  datatype CollectionSummary = CollectionSummary(
    id: string,
    name: string,
    description: Option<string>,
    image: Option<string>,
    watchCount: nat,
    number: Option<string>,
    active: Option<bool>,
    createdAt: Option<string>)

  /** The answer of `GET /collections/{id}` (no creation time). */
  datatype CollectionDetail = CollectionDetail(
    id: string,
    name: string,
    description: Option<string>,
    image: Option<string>,
    watchCount: nat,
    number: Option<string>,
    active: Option<bool>)

  const DefaultLimit: int := 50
  const MaxLimit: int := 100

  /** `active == True` in SQL: NULL is not true. */
  predicate IsActive(c: CollectionRow) {
    c.active == Some(true)
  }

  /** The products whose `collection` column is exactly this name. */
  function InCollection(products: Products.Store, name: string): (r: seq<ProductRow>)
    ensures forall p :: p in r <==> p in products && p.collection == name
  {
    Where(products, (p: ProductRow) => p.collection == name)
  }

  /** The `watchCount` the routes compute for a collection. */
  function WatchCount(products: Products.Store, name: string): (n: nat)
    ensures n <= |products|
    ensures n == 0 <==> forall p :: p in products ==> p.collection != name
  {
    var rows := InCollection(products, name);
    assert |rows| > 0 ==> rows[0] in rows;
    |rows|
  }

  /** The summary `get_collections` returns for one collection row. */
  function Summary(c: CollectionRow, products: Products.Store): CollectionSummary {
    CollectionSummary(c.id, c.name, c.description, c.image, WatchCount(products, c.name),
                      c.number, c.active, IsoOf(c.createdAt))
  }

  function Summarize(cols: seq<CollectionRow>, products: Products.Store): (r: seq<CollectionSummary>)
    ensures |r| == |cols|
    ensures forall i :: 0 <= i < |cols| ==>
      && r[i].id == cols[i].id && r[i].name == cols[i].name
      && r[i].description == cols[i].description && r[i].image == cols[i].image
      && r[i].number == cols[i].number && r[i].active == cols[i].active
      && r[i].watchCount == WatchCount(products, cols[i].name)
      && r[i].createdAt == IsoOf(cols[i].createdAt)
  {
    if |cols| == 0 then []
    else
      [Summary(cols[0], products)] + Summarize(cols[1..], products)
  }

  /** `get_collections`. */
  function GetCollections(table: Table, products: Products.Store): (r: seq<CollectionSummary>)
    ensures |r| == Count(table, IsActive)
    ensures forall s :: s in r ==> s.active == Some(true)
    ensures forall k :: 0 <= k < |r| ==> exists c :: c in table && IsActive(c) && r[k] == Summary(c, products)
  {
    var act := Where(table, IsActive);
    var r := Summarize(act, products);
    assert forall k :: 0 <= k < |act| ==> act[k] in act && r[k] == Summary(act[k], products);
    r
  }

  /** The listing holds exactly the active collections, each with its live
      product count. */
  lemma ActiveListed(table: Table, products: Products.Store, c: CollectionRow)
    requires Wf(table) && c in table
    ensures IsActive(c) <==> exists k :: 0 <= k < |GetCollections(table, products)| && GetCollections(table, products)[k].id == c.id
    ensures forall k :: 0 <= k < |GetCollections(table, products)| && GetCollections(table, products)[k].id == c.id ==>
      GetCollections(table, products)[k] == Summary(c, products)
  {
    var act := Where(table, IsActive);
    var r := GetCollections(table, products);
    assert r == Summarize(act, products);
    if IsActive(c) {
      var k :| 0 <= k < |act| && act[k] == c;
      assert r[k].id == c.id;
    }
    forall k | 0 <= k < |r| && r[k].id == c.id
      ensures act[k] == c && r[k] == Summary(c, products)
    {
      assert act[k] in act;
      SameIdSameRow(table, act[k], c);
    }
  }

  lemma SameIdSameRow(table: Table, a: CollectionRow, b: CollectionRow)
    requires Wf(table) && a in table && b in table && a.id == b.id
    ensures a == b
  {
    var i :| 0 <= i < |table| && table[i] == a;
    var j :| 0 <= j < |table| && table[j] == b;
    assert i == j;
  }

  /** The position of the collection with this id, if any. */
  function Find(table: Table, id: string): (r: Option<nat>)
    ensures r.None? <==> forall i :: 0 <= i < |table| ==> table[i].id != id
    ensures r.Some? ==> r.value < |table| && table[r.value].id == id
  {
    IndexOf(table, (x: CollectionRow) => x.id, id)
  }

  /** `get_collection`. */
  function GetCollection(table: Table, products: Products.Store, id: string): (r: Result<CollectionDetail>)
    ensures r.Err? <==> forall c :: c in table ==> c.id != id
    ensures r.Err? ==> r.status == NotFound
    ensures r.Ok? ==> exists c :: (c in table && c.id == id
      && r.value == CollectionDetail(c.id, c.name, c.description, c.image, WatchCount(products, c.name), c.number, c.active))
  {
    match Find(table, id)
    case None => Err(NotFound)
    case Some(i) =>
      var c := table[i];
      assert c in table;
      Ok(CollectionDetail(c.id, c.name, c.description, c.image, WatchCount(products, c.name), c.number, c.active))
  }

  /** `get_collection_products`: the query parameters are validated (422)
      before the collection is looked up (404). */
  function GetCollectionProducts(table: Table, products: Products.Store, id: string, page: int, limit: int)
    : (r: Result<Products.Listing>)
    ensures !ValidQuery(page, limit, MaxLimit) ==> r == Err(Unprocessable)
    ensures ValidQuery(page, limit, MaxLimit) ==> (r == Err(NotFound) <==> forall c :: c in table ==> c.id != id)
    ensures r.Ok? ==> |r.value.data| <= limit
  {
    if !ValidQuery(page, limit, MaxLimit) then Err(Unprocessable)
    else
      match Find(table, id)
      case None => Err(NotFound)
      case Some(i) =>
        assert table[i] in table;
        var rows := InCollection(products, table[i].name);
        var total := |rows|;
        Ok(Products.Listing(Products.MapToDict(Window(rows, Offset(page, limit), limit)),
                            Pagination(page, limit, total, TotalPages(total, limit))))
  }

  /** The products page of a collection counts what its `watchCount` counts,
      every product on it belongs to the collection, and its page count is
      the least that covers them. */
  lemma CollectionPageConsistent(table: Table, products: Products.Store, id: string, page: int, limit: int)
    requires GetCollectionProducts(table, products, id, page, limit).Ok?
    ensures var l := GetCollectionProducts(table, products, id, page, limit).value;
      && GetCollection(table, products, id).Ok?
      && l.pagination.total == GetCollection(table, products, id).value.watchCount
      && (forall k :: 0 <= k < |l.data| ==> l.data[k].collection == GetCollection(table, products, id).value.name)
      && l.pagination.totalPages * limit >= l.pagination.total
      && (l.pagination.totalPages == 0 || (l.pagination.totalPages - 1) * limit < l.pagination.total)
  {
    var i := Find(table, id).value;
    var rows := InCollection(products, table[i].name);
    var w := Window(rows, Offset(page, limit), limit);
    forall k | 0 <= k < |w|
      ensures w[k].collection == table[i].name
    {
      assert w[k] in rows;
    }
  }

  /** Page `p` of a collection holds its products from rank `(p - 1) * limit`
      on: the product of rank `i` is shown on page `i / limit + 1`, at
      position `i % limit`. */
  lemma CollectionPageRows(table: Table, products: Products.Store, c: CollectionRow, limit: int, i: int)
    requires Wf(table) && c in table
    requires 1 <= limit <= MaxLimit && 0 <= i < |InCollection(products, c.name)|
    ensures var l := GetCollectionProducts(table, products, c.id, i / limit + 1, limit);
      && l.Ok?
      && i % limit < |l.value.data|
      && l.value.data[i % limit] == ToDict(InCollection(products, c.name)[i])
  {
    var k := Find(table, c.id).value;
    assert table[k] in table;
    SameIdSameRow(table, table[k], c);
    var rows := InCollection(products, c.name);
    var page := i / limit + 1;
    RowOnItsPage(rows, limit, i);
    var w := Window(rows, Offset(page, limit), limit);
    assert ValidQuery(page, limit, MaxLimit);
    assert GetCollectionProducts(table, products, c.id, page, limit)
        == Ok(Products.Listing(Products.MapToDict(w), Pagination(page, limit, |rows|, TotalPages(|rows|, limit))));
  }

  /** The body of `POST /admin/collections`. */
  datatype CollectionCreate = CollectionCreate(
    id: string,
    name: string,
    description: Option<string>,
    image: Option<string>,
    number: Option<string>,
    active: bool)

  /** `create_collection`: an id already in use is refused with 409. */
  function CreateCollection(table: Table, c: CollectionCreate, now: DateTime): (r: (Table, Result<string>))
    requires Wf(table)
    ensures Wf(r.0)
    ensures r.1.Err? <==> exists row :: row in table && row.id == c.id
    ensures r.1.Err? ==> r.1.status == Conflict && r.0 == table
    ensures r.1.Ok? ==>
      && r.1.value == c.id
      && r.0 == table + [CollectionRow(c.id, c.name, c.description, c.image, c.number, Some(c.active), Some(now))]
  {
    if Find(table, c.id).Some? then
      assert table[Find(table, c.id).value] in table;
      (table, Err(Conflict))
    else
      var row := CollectionRow(c.id, c.name, c.description, c.image, c.number, Some(c.active), Some(now));
      assert forall k :: 0 <= k < |table| ==> table[k] in table;
      (table + [row], Ok(c.id))
  }

  /** A created collection is then served with the posted fields. */
  lemma CreateThenGet(table: Table, products: Products.Store, c: CollectionCreate, now: DateTime)
    requires Wf(table) && CreateCollection(table, c, now).1.Ok?
    ensures var got := GetCollection(CreateCollection(table, c, now).0, products, c.id);
      && got.Ok? && got.value.name == c.name && got.value.description == c.description
      && got.value.image == c.image && got.value.number == c.number && got.value.active == Some(c.active)
      && got.value.watchCount == WatchCount(products, c.name)
  {
    var t' := CreateCollection(table, c, now).0;
    assert t'[|table|].id == c.id;
    assert forall k :: 0 <= k < |table| ==> t'[k] == table[k] && table[k] in table;
  }

  /** The body of `PUT /admin/collections/{id}`. */
  datatype CollectionUpdate = CollectionUpdate(
    name: Products.Patch<string>,
    description: Products.Patch<string>,
    image: Products.Patch<string>,
    number: Products.Patch<string>,
    active: Products.Patch<bool>)

  /** `update_collection`: 404 for an unknown id; clearing the NOT NULL name
      fails the commit (500); otherwise only the supplied columns change. */
  function UpdateCollection(table: Table, id: string, u: CollectionUpdate): (r: (Table, Result<string>))
    requires Wf(table)
    ensures Wf(r.0)
    ensures r.1 == Err(NotFound) <==> forall c :: c in table ==> c.id != id
    ensures r.1 == Err(ServerError) <==> u.name.Clear? && exists c :: c in table && c.id == id
    ensures r.1.Err? ==> r.0 == table
    ensures r.1.Ok? ==> |r.0| == |table|
    ensures r.1.Ok? ==> forall k :: 0 <= k < |table| ==>
      if table[k].id != id then r.0[k] == table[k]
      else
        && r.0[k].id == id && r.0[k].createdAt == table[k].createdAt
        && (u.name.Keep? ==> r.0[k].name == table[k].name)
        && (u.name.SetTo? ==> r.0[k].name == u.name.value)
        && r.0[k].description == Products.PatchNullable(table[k].description, u.description)
        && r.0[k].image == Products.PatchNullable(table[k].image, u.image)
        && r.0[k].number == Products.PatchNullable(table[k].number, u.number)
        && r.0[k].active == Products.PatchNullable(table[k].active, u.active)
  {
    match Find(table, id)
    case None => (table, Err(NotFound))
    case Some(i) =>
      assert table[i] in table;
      match Products.PatchRequired(table[i].name, u.name)
      case None => (table, Err(ServerError))
      case Some(name) =>
        var c := table[i];
        var row := c.(name := name,
                      description := Products.PatchNullable(c.description, u.description),
                      image := Products.PatchNullable(c.image, u.image),
                      number := Products.PatchNullable(c.number, u.number),
                      active := Products.PatchNullable(c.active, u.active));
        (table[i := row], Ok("Collection updated"))
  }

  /** `delete_collection`: 404 for an unknown id, otherwise exactly that
      collection goes; its products stay. */
  function DeleteCollection(table: Table, id: string): (r: (Table, Result<string>))
    requires Wf(table)
    ensures Wf(r.0)
    ensures r.1.Err? <==> forall c :: c in table ==> c.id != id
    ensures r.1.Err? ==> r.1.status == NotFound && r.0 == table
    ensures r.1.Ok? ==> |r.0| == |table| - 1
    ensures forall c :: c in r.0 <==> c in table && c.id != id
  {
    match Find(table, id)
    case None => (table, Err(NotFound))
    case Some(i) =>
      RemoveAt(table, i);
      (table[..i] + table[i + 1..], Ok("Collection deleted"))
  }

  lemma RemoveAt(table: Table, i: nat)
    requires Wf(table) && i < |table|
    ensures Wf(table[..i] + table[i + 1..])
    ensures forall c :: c in table[..i] + table[i + 1..] <==> c in table && c.id != table[i].id
  {
    RemoveAtKeys(table, (c: CollectionRow) => c.id, i);
  }

  /** Creating a product in a collection raises that collection's
      `watchCount` by one and leaves the other collections' counts alone. */
  lemma CreateProductCounts(products: Products.Store, p: Products.ProductCreate, now: DateTime, name: string)
    requires Products.Wf(products) && Products.CreateProduct(products, p, now).1.Ok?
    ensures WatchCount(Products.CreateProduct(products, p, now).0, name)
      == WatchCount(products, name) + (if p.collection == name then 1 else 0)
  {
    WhereAppend(products, Products.NewRow(products, p, now), (r: ProductRow) => r.collection == name);
  }
}

/** The `products` table row and its JSON rendering (`Product.to_dict`). */
module Database {
  import opened Wrappers
  import opened Json
  import Text

  /** A stored timestamp, kept as the ISO-8601 text `isoformat()` renders. */
  datatype DateTime = DateTime(iso: string)

  /** One row of `products`; nullable columns are `Option`s, JSON columns
      are `TextColumn`s, and the FLOAT price is a whole number. */
  datatype ProductRow = ProductRow(
    id: nat,
    name: string,
    collection: string,
    price: int,
    image: Option<string>,
    images: TextColumn,
    description: Option<string>,
    features: TextColumn,
    specs: TextColumn,
    inStock: Option<bool>,
    stockQuantity: Option<int>,
    sku: Option<string>,
    createdAt: Option<DateTime>,
    updatedAt: Option<DateTime>)

  /** The JSON object the product routes answer with. */
  datatype ProductDict = ProductDict(
    id: string,
    name: string,
    collection: string,
    price: int,
    image: Option<string>,
    images: JsonValue,
    description: Option<string>,
    features: JsonValue,
    specs: JsonValue,
    inStock: Option<bool>,
    stockQuantity: Option<int>,
    sku: Option<string>,
    createdAt: Option<string>,
    updatedAt: Option<string>)

  const EmptyList: JsonValue := JArray([])
  const EmptyObject: JsonValue := JObject(map[])

  function IsoOf(t: Option<DateTime>): (r: Option<string>)
    ensures r.None? <==> t.None?
  {
    match t
    case None => None
    case Some(d) => Some(d.iso)
  }

  /** `Product.to_dict`. */
  function ToDict(row: ProductRow): (d: ProductDict)
    ensures Text.AllDigits(d.id) && Text.ParseDigits(d.id) == row.id
    ensures |d.id| > 1 ==> d.id[0] != '0'
    ensures row.images.Encoded? ==> d.images == row.images.value
    ensures !row.images.Encoded? ==> d.images == EmptyList
    ensures row.features.Encoded? ==> d.features == row.features.value
    ensures !row.features.Encoded? ==> d.features == EmptyList
    ensures row.specs.Encoded? ==> d.specs == row.specs.value
    ensures !row.specs.Encoded? ==> d.specs == EmptyObject
    ensures d.inStock == row.inStock && d.stockQuantity == row.stockQuantity
    ensures d.createdAt.None? <==> row.createdAt.None?
    ensures d.updatedAt.None? <==> row.updatedAt.None?
  {
    Text.NatToStringRoundTrip(row.id);
    ProductDict(
      Text.NatToString(row.id),
      row.name,
      row.collection,
      row.price,
      row.image,
      LoadsOr(row.images, EmptyList),
      row.description,
      LoadsOr(row.features, EmptyList),
      LoadsOr(row.specs, EmptyObject),
      row.inStock,
      row.stockQuantity,
      row.sku,
      IsoOf(row.createdAt),
      IsoOf(row.updatedAt))
  }

  /** Rows with different ids render different `id` strings. */
  lemma ToDictIdsDistinct(a: ProductRow, b: ProductRow)
    requires a.id != b.id
    ensures ToDict(a).id != ToDict(b).id
  {
    if ToDict(a).id == ToDict(b).id {
      Text.NatToStringInjective(a.id, b.id);
    }
  }

  /** A column written with `json.dumps` renders the written value, even an
      explicit `null`; a column cleared to SQL NULL renders as `[]`. */
  lemma ToDictAfterDumps(row: ProductRow, v: JsonValue)
    ensures ToDict(row.(images := Dumps(v))).images == v
    ensures ToDict(row.(images := Null)).images == EmptyList
    ensures ToDict(row.(features := Dumps(v))).features == v
    ensures ToDict(row.(specs := Dumps(v))).specs == v
    ensures ToDict(row.(specs := Null)).specs == EmptyObject
  {
  }
}

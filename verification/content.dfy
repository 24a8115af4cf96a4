/** The editable home-page content: three single-row sections (hero, promo
    banner, heritage), each read with a built-in default until first saved,
    and the ordered list of featured watches. */
module Content {
  import opened Wrappers
  import opened Database
  import opened Sorting
  import opened Rows
  import Products
  import Text

  /** Every single-row section lives under this primary key. */
  const SingletonId: int := 1

  /** A single-row table: rows by primary key. */
  type Singleton<R> = map<int, R>

  /** The GET routes read only the row with id 1. */
  function ReadRow<R>(table: Singleton<R>): (r: Option<R>)
    ensures r.Some? <==> SingletonId in table
    ensures r.Some? ==> r.value == table[SingletonId]
  {
    if SingletonId in table then Some(table[SingletonId]) else None
  }

  /** The PUT routes create the row with id 1 if needed and overwrite every
      column of it. */
  function Upsert<R>(table: Singleton<R>, row: R): (r: Singleton<R>)
    ensures r.Keys == table.Keys + {SingletonId}
    ensures r[SingletonId] == row
    ensures forall k :: k in table && k != SingletonId ==> r[k] == table[k]
  {
    table[SingletonId := row]
  }

  /** At most one row, with id 1, ever exists when only the routes write. */
  predicate AtMostOneRow<R>(table: Singleton<R>) {
    forall k :: k in table ==> k == SingletonId
  }

  lemma UpsertKeepsOneRow<R>(table: Singleton<R>, row: R)
    requires AtMostOneRow(table)
    ensures AtMostOneRow(Upsert(table, row)) && |Upsert(table, row).Keys| == 1
  {
    var r := Upsert(table, row);
    forall k | k in r.Keys
      ensures k == SingletonId
    {
    }
    assert r.Keys == {SingletonId};
  }

  /** The last save wins: saving twice is saving the second value. */
  lemma UpsertLastWins<R>(table: Singleton<R>, a: R, b: R)
    ensures Upsert(Upsert(table, a), b) == Upsert(table, b)
  {
  }

  // ---------------------------------------------------------------- hero

  /** The body and answer of the hero routes. */
  datatype HeroContent = HeroContent(title: string, subtitle: string, image: string, ctaText: string, ctaLink: string)

  /** A `content_hero` row; the call-to-action fields are the `cta_text` and
      `cta_link` columns. */
  datatype HeroRow = HeroRow(title: string, subtitle: string, image: string, ctaTextColumn: string, ctaLinkColumn: string)

  const DefaultHero: HeroContent := HeroContent(
    "НАЙДИТЕ\nИДЕАЛЬНЫЕ\nЧАСЫ.",
    "Японское мастерство и точность в каждой детали",
    "https://images.unsplash.com/photo-1587836374828-4dbafa94cf0e?w=800&q=80",
    "Смотреть коллекцию",
    "/catalog")

  /** `get_hero_content`. */
  function GetHero(table: Singleton<HeroRow>): (r: HeroContent)
    ensures SingletonId !in table ==> r == DefaultHero
    ensures SingletonId in table ==>
      var row := table[SingletonId];
      r == HeroContent(row.title, row.subtitle, row.image, row.ctaTextColumn, row.ctaLinkColumn)
  {
    match ReadRow(table)
    case None => DefaultHero
    case Some(row) => HeroContent(row.title, row.subtitle, row.image, row.ctaTextColumn, row.ctaLinkColumn)
  }

  /** `update_hero_content`. */
  function PutHero(table: Singleton<HeroRow>, c: HeroContent): (r: Singleton<HeroRow>)
    ensures SingletonId in r && r[SingletonId] == HeroRow(c.title, c.subtitle, c.image, c.ctaText, c.ctaLink)
    ensures r.Keys == table.Keys + {SingletonId}
    ensures forall k :: k in table && k != SingletonId ==> r[k] == table[k]
  {
    Upsert(table, HeroRow(c.title, c.subtitle, c.image, c.ctaText, c.ctaLink))
  }

  /** What was saved is what is read back, whatever was there before. */
  lemma HeroRoundTrip(table: Singleton<HeroRow>, c: HeroContent)
    ensures GetHero(PutHero(table, c)) == c
  {
  }

  // --------------------------------------------------------- promo banner

  /** The body and answer of the promo-banner routes. */
  datatype PromoBanner = PromoBanner(
    text: string,
    code: string,
    active: Option<bool>,
    backgroundColor: string,
    textColor: string,
    highlightColor: string)

  /** A `content_promo_banner` row. */
  datatype PromoRow = PromoRow(
    text: string,
    code: string,
    active: Option<bool>,
    backgroundColorColumn: string,
    textColorColumn: string,
    highlightColorColumn: string)

  const DefaultPromo: PromoBanner := PromoBanner(
    "СКИДКА 15% НА ВСЕ ЧАСЫ С КОДОМ", "PRE2025", Some(true), "#000000", "#FFFFFF", "#C8102E")

  /** `get_promo_banner`. */
  function GetPromo(table: Singleton<PromoRow>): (r: PromoBanner)
    ensures SingletonId !in table ==> r == DefaultPromo
    ensures SingletonId in table ==>
      var row := table[SingletonId];
      r == PromoBanner(row.text, row.code, row.active, row.backgroundColorColumn, row.textColorColumn, row.highlightColorColumn)
  {
    match ReadRow(table)
    case None => DefaultPromo
    case Some(row) =>
      PromoBanner(row.text, row.code, row.active, row.backgroundColorColumn, row.textColorColumn, row.highlightColorColumn)
  }

  /** `update_promo_banner`. The first save inserts row 1; an unset
      `active` is then left out of the INSERT, so the column default (true)
      applies. A later save is an UPDATE and writes `active` as given, an
      unset one as null. */
  function PutPromo(table: Singleton<PromoRow>, b: PromoBanner): (r: Singleton<PromoRow>)
    ensures SingletonId in r
    ensures var row := r[SingletonId];
      && row.text == b.text && row.code == b.code
      && row.backgroundColorColumn == b.backgroundColor
      && row.textColorColumn == b.textColor
      && row.highlightColorColumn == b.highlightColor
    ensures SingletonId in table ==> r[SingletonId].active == b.active
    ensures SingletonId !in table ==> r[SingletonId].active == Some(b.active.GetOr(true))
    ensures r.Keys == table.Keys + {SingletonId}
    ensures forall k :: k in table && k != SingletonId ==> r[k] == table[k]
  {
    var active := if SingletonId in table then b.active else Some(b.active.GetOr(true));
    Upsert(table, PromoRow(b.text, b.code, active, b.backgroundColor, b.textColor, b.highlightColor))
  }

  /** A saved banner is read back unchanged, except that an unset `active`
      on the very first save reads back as the column default, true. */
  lemma PromoRoundTrip(table: Singleton<PromoRow>, b: PromoBanner)
    ensures SingletonId in table || b.active.Some? ==> GetPromo(PutPromo(table, b)) == b
    ensures SingletonId !in table && b.active.None? ==> GetPromo(PutPromo(table, b)) == b.(active := Some(true))
  {
  }

  // ------------------------------------------------------------- heritage

  /** The body and answer of the heritage routes. */
  datatype HeritageSection = HeritageSection(
    title: string,
    subtitle: string,
    description: string,
    ctaText: string,
    ctaLink: string,
    yearsText: string)

  /** A `content_heritage` row. */
  datatype HeritageRow = HeritageRow(
    title: string,
    subtitle: string,
    description: string,
    ctaTextColumn: string,
    ctaLinkColumn: string,
    yearsTextColumn: string)

  const DefaultHeritage: HeritageSection := HeritageSection(
    "75 лет\nмастерства",
    "С 1950 года",
    "Orient создает механические часы высочайшего качества, объединяя традиционное японское мастерство с современными технологиями.",
    "Узнать историю",
    "/history",
    "75")

  /** `get_heritage_section`. */
  function GetHeritage(table: Singleton<HeritageRow>): (r: HeritageSection)
    ensures SingletonId !in table ==> r == DefaultHeritage
    ensures SingletonId in table ==>
      var row := table[SingletonId];
      r == HeritageSection(row.title, row.subtitle, row.description, row.ctaTextColumn, row.ctaLinkColumn, row.yearsTextColumn)
  {
    match ReadRow(table)
    case None => DefaultHeritage
    case Some(row) =>
      HeritageSection(row.title, row.subtitle, row.description, row.ctaTextColumn, row.ctaLinkColumn, row.yearsTextColumn)
  }

  /** `update_heritage_section`. */
  function PutHeritage(table: Singleton<HeritageRow>, h: HeritageSection): (r: Singleton<HeritageRow>)
    ensures SingletonId in r
      && r[SingletonId] == HeritageRow(h.title, h.subtitle, h.description, h.ctaText, h.ctaLink, h.yearsText)
    ensures r.Keys == table.Keys + {SingletonId}
    ensures forall k :: k in table && k != SingletonId ==> r[k] == table[k]
  {
    Upsert(table, HeritageRow(h.title, h.subtitle, h.description, h.ctaText, h.ctaLink, h.yearsText))
  }

  lemma HeritageRoundTrip(table: Singleton<HeritageRow>, h: HeritageSection)
    ensures GetHeritage(PutHeritage(table, h)) == h
  {
  }

  // ------------------------------------------------------- featured watches

  /** One entry of the featured-watches PUT body; `productId` is text. */
  datatype FeaturedWatch = FeaturedWatch(productId: string, order: int, isNew: bool)

  /** A `content_featured_watches` row (its own id is never read). */
  datatype FeaturedRow = FeaturedRow(productId: int, orderNum: int, isNew: bool)

  /** One card of the featured-watches answer. */
  datatype FeaturedView = FeaturedView(
    id: string,
    name: string,
    collection: string,
    price: int,
    image: Option<string>,
    isNew: bool)

  /** The rows the PUT inserts, or `None` when some `int(productId)` fails. */
  function ParseEntries(watches: seq<FeaturedWatch>): (r: Option<seq<FeaturedRow>>)
    ensures r.Some? <==> forall i :: 0 <= i < |watches| ==> Text.ParseInt(watches[i].productId).Some?
    ensures r.Some? ==> |r.value| == |watches| && forall i :: 0 <= i < |watches| ==>
      r.value[i] == FeaturedRow(Text.ParseInt(watches[i].productId).value, watches[i].order, watches[i].isNew)
  {
    if |watches| == 0 then Some([])
    else
      match (Text.ParseInt(watches[0].productId), ParseEntries(watches[1..]))
      case (Some(id), Some(rest)) =>
        Some([FeaturedRow(id, watches[0].order, watches[0].isNew)] + rest)
      case (None, _) => None
      case (_, None) =>
        assert forall i :: 1 <= i < |watches| ==> watches[1..][i - 1] == watches[i];
        None
  }

  /** `update_featured_watches`: every existing entry is deleted and the
      supplied ones inserted in order, in one transaction; a product id that
      is not an integer aborts it (500) and nothing changes. */
  function PutFeatured(table: seq<FeaturedRow>, watches: seq<FeaturedWatch>): (r: (seq<FeaturedRow>, Result<string>))
    ensures r.1.Err? <==> exists i :: 0 <= i < |watches| && Text.ParseInt(watches[i].productId).None?
    ensures r.1.Err? ==> r.1.status == ServerError && r.0 == table
    ensures r.1.Ok? ==> |r.0| == |watches| && forall i :: 0 <= i < |watches| ==>
      && r.0[i].orderNum == watches[i].order
      && r.0[i].isNew == watches[i].isNew
      && Text.ParseInt(watches[i].productId) == Some(r.0[i].productId)
  {
    match ParseEntries(watches)
    case None => (table, Err(ServerError))
    case Some(rows) => (rows, Ok("Featured watches updated"))
  }

  /** Replacing is independent of what was featured before. */
  lemma PutFeaturedReplaces(t1: seq<FeaturedRow>, t2: seq<FeaturedRow>, watches: seq<FeaturedWatch>)
    requires PutFeatured(t1, watches).1.Ok?
    ensures PutFeatured(t2, watches) == PutFeatured(t1, watches)
  {
  }

  function OrderKey(e: FeaturedRow): int {
    e.orderNum
  }

  /** Some product carries this id. */
  predicate ProductExists(products: Products.Store, id: int)
    ensures ProductExists(products, id) <==> exists i :: 0 <= i < |products| && products[i].id == id
  {
    Products.Find(products, id).Some?
  }

  /** The entries the GET shows, in the order it shows them. */
  function ShownEntries(table: seq<FeaturedRow>, products: Products.Store): (r: seq<FeaturedRow>)
    ensures forall e :: e in r <==> e in table && ProductExists(products, e.productId)
    ensures forall e :: multiset(r)[e] == if ProductExists(products, e.productId) then multiset(table)[e] else 0
    ensures SortedBy(r, OrderKey)
  {
    var sorted := SortBy(table, OrderKey);
    var r := Where(sorted, (e: FeaturedRow) => ProductExists(products, e.productId));
    forall e
      ensures e in r <==> e in table && ProductExists(products, e.productId)
    {
      SortByMembers(table, OrderKey, e);
    }
    WhereMultiset(sorted, (e: FeaturedRow) => ProductExists(products, e.productId));
    WhereSorted(sorted, (e: FeaturedRow) => ProductExists(products, e.productId));
    r
  }

  /** Selecting from an ordered list keeps it ordered. */
  lemma {:induction false} WhereSorted(s: seq<FeaturedRow>, cond: FeaturedRow -> bool)
    requires SortedBy(s, OrderKey)
    ensures SortedBy(Where(s, cond), OrderKey)
  {
    if |s| > 0 {
      WhereSorted(s[1..], cond);
      var rest := Where(s[1..], cond);
      forall k | 0 <= k < |rest|
        ensures OrderKey(s[0]) <= OrderKey(rest[k])
      {
        assert rest[k] in s[1..];
        var j :| 0 <= j < |s[1..]| && s[1..][j] == rest[k];
        assert s[j + 1] == rest[k];
      }
    }
  }

  /** The card of an entry whose product exists. */
  function View(products: Products.Store, e: FeaturedRow): (v: FeaturedView)
    requires ProductExists(products, e.productId)
    ensures v.isNew == e.isNew
    ensures exists row :: (row in products && row.id == e.productId
      && v.id == ToDict(row).id && v.name == row.name && v.collection == row.collection
      && v.price == row.price && v.image == row.image)
  {
    var row := products[Products.Find(products, e.productId).value];
    assert row in products;
    FeaturedView(ToDict(row).id, row.name, row.collection, row.price, row.image, e.isNew)
  }

  function Views(products: Products.Store, entries: seq<FeaturedRow>): (r: seq<FeaturedView>)
    requires forall e :: e in entries ==> ProductExists(products, e.productId)
    ensures |r| == |entries|
    ensures forall i :: 0 <= i < |entries| ==> r[i] == View(products, entries[i])
  {
    if |entries| == 0 then [] else [View(products, entries[0])] + Views(products, entries[1..])
  }

  /** `get_featured_watches`: by `order_num`, skipping entries whose product
      is gone, with `isNew` taken from the entry. */
  function GetFeatured(table: seq<FeaturedRow>, products: Products.Store): (r: seq<FeaturedView>)
    ensures |r| == Count(SortBy(table, OrderKey), (e: FeaturedRow) => ProductExists(products, e.productId))
    ensures |r| <= |table|
    ensures |r| == |ShownEntries(table, products)|
    ensures forall i :: 0 <= i < |r| ==> r[i] == View(products, ShownEntries(table, products)[i])
  {
    Views(products, ShownEntries(table, products))
  }

  /** After a PUT whose products all exist, the GET shows one card per
      supplied entry, ordered by the supplied `order`, each with the entry's
      `isNew`. */
  lemma FeaturedPutThenGet(table: seq<FeaturedRow>, watches: seq<FeaturedWatch>, products: Products.Store)
    requires PutFeatured(table, watches).1.Ok?
    requires forall e :: e in PutFeatured(table, watches).0 ==> ProductExists(products, e.productId)
    ensures var shown := ShownEntries(PutFeatured(table, watches).0, products);
      && |GetFeatured(PutFeatured(table, watches).0, products)| == |watches|
      && multiset(shown) == multiset(PutFeatured(table, watches).0)
      && SortedBy(shown, OrderKey)
      && forall i :: 0 <= i < |shown| ==> GetFeatured(PutFeatured(table, watches).0, products)[i].isNew == shown[i].isNew
  {
    var rows := PutFeatured(table, watches).0;
    var sorted := SortBy(rows, OrderKey);
    forall e | e in sorted
      ensures ProductExists(products, e.productId)
    {
      SortByMembers(rows, OrderKey, e);
    }
    WhereAll(sorted, (e: FeaturedRow) => ProductExists(products, e.productId));
  }
}

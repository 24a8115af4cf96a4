/** The catalog page's "load more" pager: a prefix of the fixed watch list
    that grows by six entries per click and stops at the end of the list. */
module Catalog {
  import opened Paging

  /** One entry of the catalog list (its image URL is presentation only). */
  datatype Watch = Watch(id: string, name: string, collection: string, price: int)

  /** The twelve watches the catalog page shows, in display order. */
  const CatalogWatches: seq<Watch> := [
    Watch("1", "Kamasu Automatic Diver", "SPORTS", 45900),
    Watch("2", "Bambino Classic", "CLASSIC", 32900),
    Watch("3", "Mako III Automatic", "SPORTS", 41900),
    Watch("4", "Sun & Moon Classic", "CLASSIC", 67900),
    Watch("5", "Ray II Automatic", "SPORTS", 38900),
    Watch("6", "Defender Chronograph", "CONTEMPORARY", 52900),
    Watch("7", "Maestro Moon Phase", "CLASSIC", 89900),
    Watch("8", "Triton Neptune", "SPORTS", 71900),
    Watch("9", "Sentinel Automatic", "CLASSIC", 43900),
    Watch("10", "Aviator Chronograph", "CONTEMPORARY", 58900),
    Watch("11", "Diver King", "SPORTS", 76900),
    Watch("12", "Heritage Dress", "CLASSIC", 54900)
  ]

  const ItemsPerLoad: nat := 6

  /** `itemsToShow` as the page is mounted. */
  const InitialItems: nat := ItemsPerLoad

  /** `currentWatches`: JavaScript's `slice(0, end)` of the catalog, which
      clamps `end` to the list's length. */
  function CurrentWatches(watches: seq<Watch>, itemsToShow: nat): (r: seq<Watch>)
    ensures |r| == Min(itemsToShow, |watches|)
    ensures forall i :: 0 <= i < |r| ==> r[i] == watches[i]
  {
    if itemsToShow <= |watches| then watches[..itemsToShow] else watches
  }

  /** `hasMore`: some catalog entry is not shown yet. */
  predicate HasMore(watches: seq<Watch>, itemsToShow: nat) {
    itemsToShow < |watches|
  }

  /** `loadMore`: six more entries, never past the end of the list. */
  function LoadMore(watches: seq<Watch>, itemsToShow: nat): (r: nat)
    ensures r <= |watches|
    ensures itemsToShow <= |watches| ==> itemsToShow <= r
    ensures r == |watches| || r == itemsToShow + ItemsPerLoad
  {
    Min(itemsToShow + ItemsPerLoad, |watches|)
  }

  /** Every shown watch is a catalog entry, and hidden ones exist exactly
      while `hasMore` holds. */
  lemma ShownIsPrefix(watches: seq<Watch>, itemsToShow: nat)
    ensures CurrentWatches(watches, itemsToShow) <= watches
    ensures HasMore(watches, itemsToShow) <==> |CurrentWatches(watches, itemsToShow)| < |watches|
  {
  }

  /** Once everything is shown, `loadMore` changes nothing. */
  lemma LoadMoreIdempotent(watches: seq<Watch>)
    ensures LoadMore(watches, |watches|) == |watches|
  {
  }

  /** `hasMore` never comes back: once false it stays false under `loadMore`. */
  lemma NoMoreStaysNoMore(watches: seq<Watch>, itemsToShow: nat)
    requires !HasMore(watches, itemsToShow)
    ensures !HasMore(watches, LoadMore(watches, itemsToShow))
    ensures CurrentWatches(watches, LoadMore(watches, itemsToShow)) == watches
  {
  }

  /** `itemsToShow` after `k` clicks of the button. */
  function LoadMoreTimes(watches: seq<Watch>, itemsToShow: nat, k: nat): (r: nat)
    ensures k > 0 ==> r <= |watches|
  {
    if k == 0 then itemsToShow else LoadMore(watches, LoadMoreTimes(watches, itemsToShow, k - 1))
  }

  /** After `k` clicks, `6·k` more entries are shown, up to the list's end. */
  lemma {:induction false} LoadMoreTimesClosedForm(watches: seq<Watch>, itemsToShow: nat, k: nat)
    requires itemsToShow <= |watches|
    ensures LoadMoreTimes(watches, itemsToShow, k) == Min(itemsToShow + ItemsPerLoad * k, |watches|)
  {
    if k > 0 {
      LoadMoreTimesClosedForm(watches, itemsToShow, k - 1);
    }
  }

  /** Enough clicks show the whole catalog. */
  lemma EventuallyAll(watches: seq<Watch>, k: nat)
    requires ItemsPerLoad * (k + 1) >= |watches|
    ensures !HasMore(watches, LoadMoreTimes(watches, Min(InitialItems, |watches|), k))
  {
    LoadMoreTimesClosedForm(watches, Min(InitialItems, |watches|), k);
  }

  /** On the twelve-watch catalog the page opens on the first six with the
      button showing, and a single click shows all twelve and hides it. */
  lemma TwelveWatchCatalog()
    ensures |CatalogWatches| == 12
    ensures CurrentWatches(CatalogWatches, InitialItems) == CatalogWatches[..6]
    ensures HasMore(CatalogWatches, InitialItems)
    ensures LoadMore(CatalogWatches, InitialItems) == 12
    ensures CurrentWatches(CatalogWatches, LoadMore(CatalogWatches, InitialItems)) == CatalogWatches
    ensures !HasMore(CatalogWatches, LoadMore(CatalogWatches, InitialItems))
  {
  }
}

# Orient storefront: a Dafny model of its logic

The Orient watch storefront is a React front end with a FastAPI/SQLAlchemy
back end. This project models its small pieces of stateful and
rule-bearing logic, and proves what each piece promises.

Front-end controllers:

- **Product page** (`ProductDetail`, `Gallery`). Covers the image gallery,
  the magnifier flag and the quantity stepper. Also covers the add-to-cart
  choreography. That choreography is four independent flags driven by four
  timers that are never cancelled: 50, 800, 2500 and 3500 ms after the
  click. It is modelled with a virtual clock and a queue of pending timers
  kept in time order.
- **Catalog** (`Catalog`): the "load more" prefix window.
- **Filter sidebar** (`FilterSidebar`): open and close toggling of sections.
- **Product carousel** (`ProductCarousel`): the arrow flags, the scroll
  targets and the indicator-dot count. The browser's scroll metrics are
  inputs.

Back-end routes are pure functions from a store (a sequence of rows) to a new
store and a `Result`. A `Result` is `Ok(value)` or `Err(httpStatus)`.

- **Products** (`Products`, with `Database.ToDict` and `Json`): listing with
  filters and paging, get, create with the SKU check, partial update, delete.
- **Collections** (`Collections`): the active-only listing with live watch
  counts, the paged product list, and create/update/delete.
- **Site content** (`Content`): the single-row hero, promo banner and
  heritage sections, and the featured-watches list.
- **Bookings** (`Bookings`): the booking-number format, the retry loop that
  makes the number unique, creation defaults, the admin list, status
  change, delete and the status counts.
- **Image upload** (`Upload`): pathlib's `name` and `suffix` rules, the
  extension whitelist, the size cap and the generated name.

Shared pieces are `Wrappers` (`Option`, `Result`, status codes) and `Text`
(decimal rendering and parsing, substring search, ASCII lower-casing).
`Rows` holds the SQL `WHERE` filter and `COUNT`. `Sorting` is a stable sort
by an integer key. `Paging` holds SQLite's OFFSET/LIMIT and the page
arithmetic.

Randomness, the clock, UUIDs and browser measurements are parameters. Some
SQL statements fail at commit: a duplicate value in a UNIQUE column, or
NULL in a NOT NULL column. These are modelled as the 500 answer FastAPI
gives for them, with the store left unchanged (the rollback).

## Model

| member | source | states |
|---|---|---|
| Gallery.NextIndex | src/pages/ProductDetail.tsx:93-95 | the next index stays in [0, n), is i+1 except after the last image, which wraps to 0 |
| Gallery.PrevIndex | src/pages/ProductDetail.tsx:96-98 | the previous index stays in [0, n), is i-1 except at 0, which wraps to n-1 |
| Gallery.PrevUndoesNext | src/pages/ProductDetail.tsx:93-98 | prev after next, and next after prev, return to the starting index |
| Gallery.NextTimes | src/pages/ProductDetail.tsx:93-95 | k successive next steps stay within [0, n) |
| Gallery.NextTimesIsShift | src/pages/ProductDetail.tsx:93-95 | k next steps from i land on (i + k) mod n |
| Gallery.NextCycles | src/pages/ProductDetail.tsx:93-95 | n next steps return to the starting image |
| Gallery.CounterText | src/pages/ProductDetail.tsx:219 | the counter shows the 1-based position, within 1..n, and the image count |
| ProductDetail.InitialWf | src/pages/ProductDetail.tsx:72-90 | the mounted page (image 0, quantity 1, all flags off, no timers) satisfies the page invariant |
| ProductDetail.Schedule | src/pages/ProductDetail.tsx:141-158 | scheduling a timer makes the queue exactly one longer |
| ProductDetail.ScheduleMultiset | src/pages/ProductDetail.tsx:141-158 | scheduling adds exactly the new timer and loses none |
| ProductDetail.ScheduleMember | src/pages/ProductDetail.tsx:141-158 | every queued timer is the new one or one that was already pending |
| ProductDetail.ScheduleSorted | src/pages/ProductDetail.tsx:141-158 | the pending queue stays in time order |
| ProductDetail.ScheduleKeepsEarlier | src/pages/ProductDetail.tsx:141-158 | timers due no later than the new one keep their places, so equal times fire in scheduling order |
| ProductDetail.ScheduleAtBack | src/pages/ProductDetail.tsx:141-158 | a timer due after all pending ones goes last |
| ProductDetail.ScheduleAtFront | src/pages/ProductDetail.tsx:141-158 | a timer due before all pending ones goes first |
| ProductDetail.ScheduleNoneBefore | src/pages/ProductDetail.tsx:141-158 | scheduling at or after the clock never puts a timer in the past |
| ProductDetail.Fire | src/pages/ProductDetail.tsx:141-158 | a callback touches only the add-to-cart flags, and only the 2500 ms callback can change the adding flag, always to false |
| ProductDetail.AdvanceTo | src/pages/ProductDetail.tsx:141-158 | letting time run keeps the page invariant and sets the clock |
| ProductDetail.AdvanceFrame | src/pages/ProductDetail.tsx:141-158 | waiting fires exactly the timers due by then, from the front, and leaves image, quantity and magnifier alone |
| ProductDetail.ScheduleClick | src/pages/ProductDetail.tsx:141-158 | a click adds exactly the four callbacks at +50, +800, +2500 and +3500 ms, keeping the queue ordered |
| ProductDetail.HandleAddToCart | src/pages/ProductDetail.tsx:129-160 | a no-op while adding; otherwise sets adding, and only with both refs attached shows the flying image and schedules the four callbacks |
| ProductDetail.Step | src/pages/ProductDetail.tsx:93-160 | every interaction keeps the page invariant, and only waiting moves the clock |
| ProductDetail.Run | src/pages/ProductDetail.tsx:93-160 | any sequence of interactions keeps the page invariant |
| ProductDetail.RunConcat | src/pages/ProductDetail.tsx:93-160 | running two input sequences in a row is running their concatenation |
| ProductDetail.NextClicksShift | src/pages/ProductDetail.tsx:93-95 | k right-arrow clicks shift the selection by k (mod n) and change nothing else |
| ProductDetail.NextClicksCycle | src/pages/ProductDetail.tsx:93-95 | n right-arrow clicks restore the page |
| ProductDetail.PrevUndoesNext | src/pages/ProductDetail.tsx:93-98 | the left arrow undoes the right arrow and vice versa, on the whole page |
| ProductDetail.Counter | src/pages/ProductDetail.tsx:219 | the counter's position lies in 1..n and its total is n |
| ProductDetail.ThumbnailSelects | src/pages/ProductDetail.tsx:230 | clicking thumbnail i selects exactly i, the counter reads i+1, and nothing else changes |
| ProductDetail.MagnifierGate | src/pages/ProductDetail.tsx:121-128 | mouse-enter turns the magnifier on iff the viewport is at least 1024 wide (else it stays as it was); mouse-leave always turns it off |
| ProductDetail.QuantityAtLeastOne | src/pages/ProductDetail.tsx:301-307 | the quantity starts at 1 and no input sequence takes it below 1 |
| ProductDetail.QuantityStepper | src/pages/ProductDetail.tsx:301-307 | minus gives max(1, q-1), plus gives q+1, minus undoes plus, and both are inert while adding |
| ProductDetail.QuantityButtonsDisabled | src/pages/ProductDetail.tsx:301-307 | both quantity buttons are disabled exactly while adding to cart |
| ProductDetail.CartButtonDisabled | src/pages/ProductDetail.tsx:314 | the add-to-cart button is disabled while adding or while the success state shows |
| ProductDetail.ClickQueueFromEmpty | src/pages/ProductDetail.tsx:141-158 | on an empty queue the four callbacks line up in delay order |
| ProductDetail.QuietClickQueue | src/pages/ProductDetail.tsx:129-158 | a click on a quiet page leaves exactly the four callbacks pending, in order |
| ProductDetail.PendingAfter | src/pages/ProductDetail.tsx:141-158 | after k callbacks, 4-k remain, in order and none in the past |
| ProductDetail.Phase | src/pages/ProductDetail.tsx:141-158 | every phase of the choreography satisfies the page invariant |
| ProductDetail.PhaseZero | src/pages/ProductDetail.tsx:129-146 | the page right after a click is phase 0 |
| ProductDetail.PhaseIndex | src/pages/ProductDetail.tsx:141-158 | the number of callbacks fired at a given delay is at most four |
| ProductDetail.ReachPhase | src/pages/ProductDetail.tsx:141-158 | waiting d ms after the click lands in the phase reached by then |
| ProductDetail.ReachPhase1 | src/pages/ProductDetail.tsx:141-146 | between 50 and 800 ms the page is in phase 1 |
| ProductDetail.ReachPhase2 | src/pages/ProductDetail.tsx:147-151 | between 800 and 2500 ms the page is in phase 2 |
| ProductDetail.ReachPhase3 | src/pages/ProductDetail.tsx:152-155 | between 2500 and 3500 ms the page is in phase 3 |
| ProductDetail.ReachPhase4 | src/pages/ProductDetail.tsx:156-158 | from 3500 ms on the page is in phase 4 |
| ProductDetail.PhaseView | src/pages/ProductDetail.tsx:141-158 | each phase shows the designed flags, and 4-k timers remain pending |
| ProductDetail.PhaseStep | src/pages/ProductDetail.tsx:141-158 | each callback, once due, takes the page to the next phase |
| ProductDetail.PhaseRest | src/pages/ProductDetail.tsx:141-158 | between callbacks, waiting only moves the clock |
| ProductDetail.ClickTimeline | src/pages/ProductDetail.tsx:129-160 | at every instant after a click on a quiet page, the flags are the designed ones: flying from 0 ms, success and toast from 800 ms, adding off at 2500 ms, toast off at 3500 ms; nothing is pending afterwards |
| ProductDetail.ClicksIgnoredWhileBusy | src/pages/ProductDetail.tsx:314 | the button is disabled iff adding or success is showing; a click then changes nothing, and the handler's own guard (line 130) ignores clicks while adding |
| ProductDetail.RepeatClicksWithinCycle | src/pages/ProductDetail.tsx:129-155 | any click in the first 2500 ms after a click does nothing |
| ProductDetail.AdvanceKeepsAdding | src/pages/ProductDetail.tsx:152-155 | time passing cannot clear the adding flag unless a 2500 ms callback fires |
| ProductDetail.WaitKeepsAdding | src/pages/ProductDetail.tsx:152-155 | with no such callback pending, a wait leaves the page adding |
| ProductDetail.OnlySettleClears | src/pages/ProductDetail.tsx:152-155 | a step that clears the adding flag is a wait during which a 2500 ms callback fired |
| ProductDetail.StuckWithoutSettle | src/pages/ProductDetail.tsx:131-134 | while adding with no 2500 ms callback pending, no input sequence ever clears the flag |
| ProductDetail.MissingRefsNeverRecover | src/pages/ProductDetail.tsx:131-134 | a click with a missing ref schedules nothing and leaves the button busy forever |
| ProductDetail.SecondClickQueue | src/pages/ProductDetail.tsx:141-158 | a second click 2600 ms after the first interleaves its timers with the first click's pending 3500 ms callback |
| ProductDetail.SecondToastHiddenEarly | src/pages/ProductDetail.tsx:147-158 | a second click at T+2600 shows its toast at T+3400, and the first click's callback hides it at T+3500 while the second add is still running |
| ProductDetail.FirstClickSettled | src/pages/ProductDetail.tsx:147-158 | 2600 ms after a click the button is enabled again and only the 3500 ms callback is pending |
| ProductDetail.SecondClick | src/pages/ProductDetail.tsx:147-158 | from that state, a second click's toast is hidden early |
| ProductDetail.SecondToastSteps | src/pages/ProductDetail.tsx:147-158 | the interleaved queue shows the toast at T+3400 and hides it at T+3500 with success still showing |
| Catalog.CurrentWatches | src/pages/Catalog.tsx:85 | the shown watches are exactly the first min(itemsToShow, length) entries, in order |
| Catalog.HasMore | src/pages/Catalog.tsx:86 | the load-more button shows while the count shown is below the catalog length (its meaning for the shown list is stated by Catalog.ShownIsPrefix) |
| Catalog.LoadMore | src/pages/Catalog.tsx:87-89 | load-more never exceeds the catalog length, never shrinks the window, and adds 6 or stops at the end |
| Catalog.ShownIsPrefix | src/pages/Catalog.tsx:85-86 | the shown list is a prefix of the catalog, and hasMore holds iff some entry is hidden |
| Catalog.LoadMoreIdempotent | src/pages/Catalog.tsx:88 | once everything is shown, load-more changes nothing |
| Catalog.NoMoreStaysNoMore | src/pages/Catalog.tsx:86-88 | once hasMore is false it stays false, and the whole catalog is shown |
| Catalog.LoadMoreTimes | src/pages/Catalog.tsx:87-89 | after at least one click the window is within the catalog |
| Catalog.LoadMoreTimesClosedForm | src/pages/Catalog.tsx:87-89 | after k clicks the window is min(start + 6k, length) |
| Catalog.EventuallyAll | src/pages/Catalog.tsx:84-89 | enough clicks, counted from the initial 6, show the whole catalog |
| Catalog.TwelveWatchCatalog | src/pages/Catalog.tsx:6-89 | the 12-watch catalog opens on the first 6, and one click shows all 12 with hasMore false |
| FilterSidebar.Titles | src/components/FilterSidebar.tsx:88 | the titles list has one entry per section, in order, and holds exactly the sections' titles |
| FilterSidebar.InitialOpen | src/components/FilterSidebar.tsx:88 | on mount the open list is exactly the sections' titles in order: every section open, nothing else, no duplicates |
| FilterSidebar.Remove | src/components/FilterSidebar.tsx:90 | filtering out a title keeps exactly the other titles and keeps them distinct |
| FilterSidebar.Toggle | src/components/FilterSidebar.tsx:89-91 | toggling flips the title's membership, leaves every other title's membership alone, and never introduces duplicates |
| FilterSidebar.ToggleTwice | src/components/FilterSidebar.tsx:90 | toggling twice restores the set of open titles |
| FilterSidebar.CloseShrinksByOne | src/components/FilterSidebar.tsx:90 | closing an open section removes exactly one title |
| FilterSidebar.RemoveOnce | src/components/FilterSidebar.tsx:90 | filtering out a title that occurs once shortens the list by one |
| FilterSidebar.RemoveAbsent | src/components/FilterSidebar.tsx:90 | filtering out an absent title changes nothing |
| FilterSidebar.RenderedOptions | src/components/FilterSidebar.tsx:106 | a section's options are drawn iff its title is open |
| FilterSidebar.InitiallyAllRendered | src/components/FilterSidebar.tsx:88 | on mount every section shows all its options |
| FilterSidebar.ToggleRenders | src/components/FilterSidebar.tsx:103-106 | a toggle switches one section between showing and hiding its options and leaves every other section alone |
| ProductCarousel.CheckScroll | src/components/ProductCarousel.tsx:21-26 | left is on iff scrollLeft > 10; right is on iff scrollLeft < scrollWidth - clientWidth - 10; without a container the flags stay |
| ProductCarousel.NoOverflowNoRight | src/components/ProductCarousel.tsx:25 | content overflowing by at most 10 never enables the right arrow |
| ProductCarousel.BothOnNeedsOverflow | src/components/ProductCarousel.tsx:24-25 | both arrows are on only when the overflow exceeds 20 |
| ProductCarousel.ScrollTarget | src/components/ProductCarousel.tsx:32-42 | an arrow targets a point before or after the current offset, and nothing without a container |
| ProductCarousel.ScrollSymmetric | src/components/ProductCarousel.tsx:35-36 | the two targets are symmetric about the offset, 0.85 of the width away |
| ProductCarousel.IndicatorCount | src/components/ProductCarousel.tsx:67-68 | the dot count k satisfies 3k >= n and 3(k-1) < n, i.e. ceil(n/3) |
| ProductCarousel.IndicatorCountLeast | src/components/ProductCarousel.tsx:67-68 | the dot count is the least k with 3k >= n |
| ProductCarousel.NavDisabled | src/components/ProductCarousel.tsx:46-49 | each arrow is disabled exactly when its flag is false |
| ProductCarousel.InitialButtons | src/components/ProductCarousel.tsx:19-20 | before the first measurement only the right arrow is usable |
| Json.Dumps | src/backend/routes/products.py:90-93 | every dump, even of null, is non-empty text |
| Json.LoadsOr | src/backend/database.py:72-75 | an empty or NULL column yields the default |
| Json.Loads | src/backend/database.py:72-75 | loading a non-empty column gives the value whose dump is that column |
| Json.LoadsDumps | src/backend/database.py:72-75 | loading a dump gives the value back, whatever the default |
| Json.DumpsInjective | src/backend/routes/products.py:90-93 | distinct values never share a dump |
| Database.IsoOf | src/backend/database.py:79-80 | a timestamp renders as None iff it is NULL |
| Database.ToDict | src/backend/database.py:65-81 | the id is a canonical decimal reading back as the row id; JSON columns render their value, or []/{} when NULL or empty; stock fields pass through; timestamps are None iff NULL |
| Database.ToDictIdsDistinct | src/backend/database.py:67 | rows with different ids render different id strings |
| Database.ToDictAfterDumps | src/backend/database.py:72-75 | a column written with dumps renders the written value; a NULL one renders []/{} |
| Text.NatToString | src/backend/database.py:67 | `str(n)` is a non-empty digit string without a leading zero |
| Text.NatToStringRoundTrip | src/backend/database.py:67 | reading `str(n)` back gives n |
| Text.NatToStringInjective | src/backend/database.py:67 | different numbers render differently |
| Text.PadDigits | src/backend/routes/bookings.py:23 | zero-padding gives exactly `width` digits |
| Text.PadDigitsRoundTrip | src/backend/routes/bookings.py:23 | reading a padded number below 10^width gives it back |
| Text.Contains | src/backend/routes/products.py:30 | substring search holds iff the needle occurs at some position |
| Text.LowerChar | src/backend/routes/upload.py:23 | A-Z map to a-z and every other character is unchanged |
| Text.Lower | src/backend/routes/upload.py:23 | lower-casing keeps the length and lowers each character |
| Text.LowerShape | src/backend/routes/upload.py:23 | a lower-cased string holds no upper-case letter and has its dots exactly where the original has them |
| Text.ParseInt | src/backend/routes/content.py:144 | `int(s)` succeeds iff s is an optional sign followed by at least one digit |
| Text.ParseIntRoundTrip | src/backend/routes/content.py:144 | `int(str(n))` is n, for negative n too |
| Rows.Where | src/backend/routes/products.py:29-39 | a WHERE keeps exactly the rows meeting the condition, and never more rows than there were |
| Rows.WhereMultiset | src/backend/routes/content.py:117-119 | a filter keeps every copy of a matching row and no copy of another |
| Rows.IndexOf | src/backend/routes/products.py:64 | a primary-key lookup finds the first row with that key, or reports that no row has it |
| Rows.NextKey | src/backend/routes/products.py:99-101 | a new INTEGER PRIMARY KEY is positive and above every key in use |
| Rows.RemoveAtKeys | src/backend/routes/products.py:152 | deleting a row removes exactly the rows with its key, and keys stay distinct |
| Rows.Count | src/backend/routes/products.py:42 | a count never exceeds the row count |
| Rows.WhereWhere | src/backend/routes/products.py:29-39 | chained filters equal one filter on the conjunction |
| Rows.WhereSame | src/backend/routes/products.py:29-39 | conditions that agree on the rows select the same rows |
| Rows.WhereAll | src/backend/routes/products.py:29-39 | a condition every row meets keeps them all |
| Rows.CountDisjoint | src/backend/routes/bookings.py:127-131 | counts of two exclusive conditions add up to at most the total |
| Rows.WhereAppend | src/backend/routes/collections.py:22-24 | a new row is counted under a condition iff it meets it |
| Sorting.Insert | src/backend/routes/bookings.py:70 | inserting into a sorted list keeps it sorted and adds exactly the one element |
| Sorting.SortBy | src/backend/routes/bookings.py:70 | ORDER BY yields a sorted permutation of its input |
| Sorting.SortByMembers | src/backend/routes/bookings.py:70 | sorting keeps exactly the same members |
| Paging.Offset | src/backend/routes/products.py:45 | the offset is non-negative and skips at least a full page from page 2 on |
| Paging.ValidQuery | src/backend/routes/products.py:17-18 | a query is accepted when page is at least 1 and limit lies in [1, the route's maximum] |
| Paging.TotalPages | src/backend/routes/products.py:57 | the page count covers the total, and one page fewer would not |
| Paging.TotalPagesLeast | src/backend/routes/products.py:57 | the page count is the least that covers the total |
| Paging.Window | src/backend/routes/products.py:46 | OFFSET/LIMIT takes the rows from the offset on, at most `limit` of them (a negative limit means all, a negative offset 0) |
| Paging.RowOnItsPage | src/backend/routes/products.py:45-46 | the row at position i appears on page i div limit + 1, at index i mod limit |
| Paging.PastLastPageEmpty | src/backend/routes/products.py:45-57 | pages past totalPages are empty |
| Products.Filtered | src/backend/routes/products.py:26-39 | the filtered rows are exactly the stored rows meeting every supplied filter |
| Products.Matches | src/backend/routes/products.py:29-39 | a row passes when its name contains a non-empty search, its collection equals a non-empty collection filter, and its price lies within each given bound |
| Products.FilteredIsWhere | src/backend/routes/products.py:29-39 | the chained filters are one WHERE on the conjunction, in storage order |
| Products.MapToDict | src/backend/routes/products.py:49 | each listed row is rendered by `to_dict`, in order |
| Products.PageRows | src/backend/routes/products.py:44-46 | a page holds at most `limit` stored rows, all matching |
| Products.ListProducts | src/backend/routes/products.py:15-59 | 422 iff page < 1 or limit is outside 1..100; otherwise at most `limit` items, total is the filtered count before paging, totalPages is exactly ceil(total/limit) (covers the total, and one page fewer would not), page and limit echoed back |
| Products.ListedMatch | src/backend/routes/products.py:29-49 | every listed product renders a stored row meeting every supplied filter |
| Products.EmptySearchButZeroBound | src/backend/routes/products.py:29-39 | an empty search or collection filters nothing, but a price bound of 0 still applies |
| Products.EveryMatchListed | src/backend/routes/products.py:42-46 | every matching row appears on its page, and the total counts it |
| Products.Find | src/backend/routes/products.py:64 | finds the first row with this id, or reports that none exists |
| Products.GetProduct | src/backend/routes/products.py:61-69 | 404 iff no row has the id; otherwise that row rendered |
| Products.NextId | src/backend/routes/products.py:99-101 | a new rowid is positive and above every id in use |
| Products.SkuTaken | src/backend/routes/products.py:79-82 | some stored row holds exactly this SKU |
| Products.NewRow | src/backend/routes/products.py:85-97 | the inserted row gets an id no stored row holds, the body's fields, JSON columns that load back to the body's lists and specs, and both timestamps set to now |
| Products.CreateProduct | src/backend/routes/products.py:71-103 | 409 iff a non-empty SKU is taken; 500 iff an empty SKU is taken (UNIQUE at commit); the store is unchanged on error; ids and SKUs stay unique |
| Products.CreateRoundTrip | src/backend/routes/products.py:85-103 | what create stores comes back unchanged in its answer: name, price, images, features, specs, stock, SKU |
| Products.CreateThenGet | src/backend/routes/products.py:99-103 | the created product is then served under its new id |
| Products.PatchNullable | src/backend/routes/products.py:132-133 | an absent field keeps the column, null clears it, a value sets it |
| Products.PatchJson | src/backend/routes/products.py:122-127 | a JSON value is stored dumped, null stores NULL, absence keeps the column |
| Products.PatchRequired | src/backend/routes/products.py:132-135 | clearing a NOT NULL column is the one failure |
| Products.UpdateRow | src/backend/routes/products.py:119-133 | the update fails iff it clears name, collection or price; id and creation time are kept |
| Products.UpdateProduct | src/backend/routes/products.py:105-138 | 404 iff the id is unknown; 500 iff the id is known and the patch clears a NOT NULL column or gives a SKU another row holds; on error the store is unchanged; on success the row becomes the patched row, the answer renders it, other rows never change, and ids and SKUs stay unique |
| Products.UpdateOnlySupplied | src/backend/routes/products.py:119-133 | only supplied fields change, with inStock and stockQuantity landing in in_stock and stock_quantity |
| Products.DeleteProduct | src/backend/routes/products.py:140-155 | 404 iff the id is unknown; otherwise exactly that row goes and the id is echoed |
| Products.RemoveAtMembers | src/backend/routes/products.py:152 | dropping one row keeps every row with another id |
| Products.DeleteThenGet | src/backend/routes/products.py:147-155 | after a delete, getting that id yields 404 |
| Collections.InCollection | src/backend/routes/collections.py:22-24 | the products of a collection are exactly those whose collection is its name |
| Collections.IsActive | src/backend/routes/collections.py:17 | a collection is listed when its active column is true (not false, not null) |
| Collections.WatchCount | src/backend/routes/collections.py:22-24 | the count never exceeds the product table, and is zero exactly when no product names the collection |
| Collections.Summary | src/backend/routes/collections.py:26-35 | the eight fields one collection is listed with |
| Collections.Summarize | src/backend/routes/collections.py:19-35 | each summary carries its row's fields and its live watch count |
| Collections.GetCollections | src/backend/routes/collections.py:14-37 | one entry per active collection; every entry is the full summary (id, name, description, image, live product count, number, active, ISO creation time) of some active stored collection |
| Collections.ActiveListed | src/backend/routes/collections.py:17-35 | a stored collection is listed iff it is active, and the entry carrying its id is exactly its summary |
| Collections.Find | src/backend/routes/collections.py:42 | finds the collection with this id, or reports that none exists |
| Collections.GetCollection | src/backend/routes/collections.py:39-60 | 404 iff the id is unknown; otherwise every column of that collection (id, name, description, image, number, active) with its live watchCount |
| Collections.GetCollectionProducts | src/backend/routes/collections.py:62-92 | 422 for bad paging first, then 404 for an unknown id; at most `limit` products |
| Collections.CollectionPageRows | src/backend/routes/collections.py:76-80 | the collection's product of rank i is on page i / limit + 1 at position i % limit, so page p starts at offset (p - 1) * limit |
| Collections.CollectionPageConsistent | src/backend/routes/collections.py:76-90 | the page total equals the collection's watch count, and every listed product belongs to it |
| Collections.CreateCollection | src/backend/routes/collections.py:94-111 | 409 iff the id exists, with no change; otherwise exactly one row is added and ids stay unique |
| Collections.CreateThenGet | src/backend/routes/collections.py:102-111 | a created collection is then served with the posted fields |
| Collections.UpdateCollection | src/backend/routes/collections.py:113-132 | 404 iff the id is unknown; only supplied fields change; clearing the name fails with 500 |
| Collections.DeleteCollection | src/backend/routes/collections.py:134-149 | 404 iff the id is unknown; otherwise exactly that collection is removed |
| Collections.CreateProductCounts | src/backend/routes/collections.py:22-24 | creating a product raises its collection's watch count by one and leaves the others alone |
| Content.ReadRow | src/backend/routes/content.py:18 | a read finds the row with id 1 iff it exists |
| Content.Upsert | src/backend/routes/content.py:45-55 | a save creates or overwrites the row with id 1 and touches no other row |
| Content.UpsertKeepsOneRow | src/backend/routes/content.py:45-49 | saves keep the table at exactly one row, id 1 |
| Content.UpsertLastWins | src/backend/routes/content.py:45-57 | saving twice equals saving the second value |
| Content.GetHero | src/backend/routes/content.py:15-36 | the fixed default without a row; otherwise all five columns of row 1, with cta_text and cta_link read back as ctaText and ctaLink |
| Content.PutHero | src/backend/routes/content.py:38-59 | row 1 holds title, subtitle, image and the cta fields in cta_text and cta_link; other rows are untouched |
| Content.HeroRoundTrip | src/backend/routes/content.py:30-55 | a saved hero is read back unchanged |
| Content.GetPromo | src/backend/routes/content.py:62-84 | the fixed default without a row; otherwise all six columns of row 1, the colour columns under their camel-case names |
| Content.PutPromo | src/backend/routes/content.py:86-108 | row 1 holds every field of the banner, colours in their snake-case columns; an unset active becomes the column default true on the first save (the INSERT leaves it out) and is written as given on later saves; other rows are untouched |
| Content.PromoRoundTrip | src/backend/routes/content.py:77-104 | a saved banner is read back unchanged, except an unset active on the very first save, which reads back true |
| Content.GetHeritage | src/backend/routes/content.py:155-177 | the fixed default without a row; otherwise all six columns of row 1 |
| Content.PutHeritage | src/backend/routes/content.py:179-201 | row 1 holds every field of the section, the cta and years fields in their snake-case columns; other rows are untouched |
| Content.HeritageRoundTrip | src/backend/routes/content.py:170-197 | a saved section is read back unchanged |
| Content.ParseEntries | src/backend/routes/content.py:142-148 | parsing succeeds iff every productId parses as an int; the rows keep order, order number and isNew |
| Content.PutFeatured | src/backend/routes/content.py:131-152 | an unparsable productId fails with 500 and no change; otherwise the table is exactly the posted list |
| Content.PutFeaturedReplaces | src/backend/routes/content.py:139-148 | the result does not depend on what was featured before |
| Content.OrderKey | src/backend/routes/content.py:114 | featured entries are shown by ascending order number |
| Content.ProductExists | src/backend/routes/content.py:118-119 | an entry is shown exactly when some product carries its product id |
| Content.ShownEntries | src/backend/routes/content.py:114-119 | the shown entries are those whose product exists, each as many times as it is stored, ordered by order_num |
| Content.View | src/backend/routes/content.py:120-127 | a card shows its product's id, name, collection, price and image and the entry's isNew |
| Content.Views | src/backend/routes/content.py:117-127 | one card per shown entry, in order |
| Content.GetFeatured | src/backend/routes/content.py:111-129 | card i is the card of the i-th shown entry; one card per ordered entry whose product exists, never more than there are entries |
| Content.FeaturedPutThenGet | src/backend/routes/content.py:114-148 | after a save whose products all exist, the read shows one card per posted entry |
| Bookings.DrawText | src/backend/routes/bookings.py:24 | four random digits render as four digit characters |
| Bookings.BookingNumber | src/backend/routes/bookings.py:21-25 | a booking number is 14 characters: "BK" followed by digits only |
| Bookings.BookingNumberFields | src/backend/routes/bookings.py:21-25 | the number reads back as year, month, day and the four drawn digits |
| Bookings.DrawTextInjective | src/backend/routes/bookings.py:24 | different draws render differently |
| Bookings.BookingNumberInjective | src/backend/routes/bookings.py:21-25 | equal numbers come from the same day and the same draw |
| Bookings.FirstFreeNumber | src/backend/routes/bookings.py:33-35 | the number the retry loop settles on is held by no booking |
| Bookings.NumberTaken | src/backend/routes/bookings.py:33-35 | a drawn number is redrawn while some stored booking holds it |
| Bookings.NextId | src/backend/routes/bookings.py:49-51 | a new id is positive and above every id in use |
| Bookings.BoutiqueOf | src/backend/routes/bookings.py:45 | a non-empty boutique is kept; an absent or empty one becomes "Orient Ташкент" |
| Bookings.CreateBooking | src/backend/routes/bookings.py:28-53 | the loop fails only if every draw is taken; otherwise it picks the first free draw's number, held by no earlier booking; the booking is appended under a fresh id with status "pending", the default boutique, the posted name, phone, email, date, time and message, and the clock's time, keeping ids and numbers unique |
| Bookings.ListBookings | src/backend/routes/bookings.py:56-71 | at most `limit` stored bookings, all with the given status when one is supplied, newest first |
| Bookings.NewestFirst | src/backend/routes/bookings.py:70 | the sort key that puts later creation times first |
| Bookings.ListAll | src/backend/routes/bookings.py:65-70 | with no filter and no limit, every booking is listed exactly once |
| Bookings.Find | src/backend/routes/bookings.py:80 | finds the booking with this id, or reports that none exists |
| Bookings.GetBooking | src/backend/routes/bookings.py:73-83 | 404 iff the id is unknown; otherwise that booking |
| Bookings.UpdateStatus | src/backend/routes/bookings.py:85-103 | 404 iff the id is unknown; otherwise any status replaces the old one, the update time is set, and other bookings are unchanged |
| Bookings.DeleteBooking | src/backend/routes/bookings.py:105-119 | 404 iff the id is unknown; otherwise exactly that booking is removed |
| Bookings.RemoveAt | src/backend/routes/bookings.py:116 | dropping one booking keeps every other and keeps ids and numbers unique |
| Bookings.GetStats | src/backend/routes/bookings.py:121-139 | total is the booking count; pending, confirmed, completed and cancelled are each the count of bookings with that status; they sum to at most the total |
| Bookings.StatusCount | src/backend/routes/bookings.py:127-131 | a status count never exceeds the bookings stored, and is zero exactly when no booking holds that status |
| Bookings.Statuses | src/backend/routes/bookings.py:127-131 | the status column, booking by booking |
| Bookings.StatusCountIsMultiplicity | src/backend/routes/bookings.py:127-131 | a status count is the number of bookings holding that status (its multiplicity among the stored statuses) |
| Bookings.StatusCountsBounded | src/backend/routes/bookings.py:127-131 | pending + confirmed + completed + cancelled never exceed the total |
| Bookings.StatusCountAfterChange | src/backend/routes/bookings.py:97 | a status change moves one booking from its old count to its new one |
| Bookings.CreateCountsPending | src/backend/routes/bookings.py:46 | a new booking raises the pending count and the total by one |
| Upload.SplitSlash | src/backend/routes/upload.py:23 | a path splits into at least one component, none containing '/' |
| Upload.SplitJoin | src/backend/routes/upload.py:23 | joining the components back with '/' gives the path |
| Upload.JoinExtendLast | src/backend/routes/upload.py:23 | a character added to the last component ends up at the end of the joined path |
| Upload.LastKept | src/backend/routes/upload.py:23 | the name is the last component that is neither empty nor "." (every later component is dropped), or "" when there is none |
| Upload.PathName | src/backend/routes/upload.py:23 | pathlib's name holds no '/' and is never "." |
| Upload.LastDot | src/backend/routes/upload.py:23 | rfind gives the last dot, or -1 iff there is no dot |
| Upload.LastDotBefore | src/backend/routes/upload.py:23 | the last dot among the first n characters, or -1 iff there is none |
| Upload.Suffix | src/backend/routes/upload.py:23 | the suffix is non-empty iff the last dot neither starts nor ends the name; it is then a dot and a dot-free tail ending the name |
| Upload.Extension | src/backend/routes/upload.py:23 | the extension is empty unless the file name has a dot strictly inside it; otherwise it is a dot followed by at least one non-dot character, with no upper-case letter |
| Upload.UploadFile | src/backend/routes/upload.py:16-56 | 400 iff the extension is not allowed; else 413 iff the content exceeds 5 MiB; otherwise the stored name is the id followed by the lower-cased extension, the URL is "/uploads/" + that name, size is the content length, and the MIME type is passed through |
| Upload.BadExtensionAnySize | src/backend/routes/upload.py:23-38 | a bad extension gives 400 whatever the size |
| Upload.SizeBoundary | src/backend/routes/upload.py:34-38 | with an allowed extension, the upload succeeds iff it is at most 5 MiB, so exactly 5 MiB is accepted |
| Upload.NoSuffixRejected | src/backend/routes/upload.py:23-28 | a name without a dot is refused with 400 |
| Upload.AllowedShape | src/backend/routes/upload.py:13 | every allowed extension is a dot followed by lower-case letters |
| Upload.StoredNameKeepsExtension | src/backend/routes/upload.py:41-49 | read back by the same rules, the stored name has the accepted extension, which is on the whitelist |
| Upload.StoredExtension | src/backend/routes/upload.py:41 | id + an allowed extension has exactly that extension |
| Upload.DirectoryIgnored | src/backend/routes/upload.py:23 | only the last path component is looked at |
| Upload.UpperCaseAccepted | src/backend/routes/upload.py:23 | "photo.JPG" has extension ".jpg" |
| Upload.LastSuffixCounts | src/backend/routes/upload.py:23 | "archive.tar.png" has extension ".png" |
| Upload.HiddenFileRejected | src/backend/routes/upload.py:23 | ".png" has no suffix |
| Upload.TrailingDotRejected | src/backend/routes/upload.py:23 | "photo." has no suffix |
| Upload.DirectoryDotIgnored | src/backend/routes/upload.py:23 | "dir.jpg/photo" has no suffix |

## Left out

- Markup and styling, DOM measurement and the pixel maths of the magnifier
  and the flying image are left out. The magnifier's position, the flying
  image's coordinates, and the catalog entries' image URLs are presentation only.
- `setTimeout` is modelled as a virtual clock. The click time is the clock
  at the click. The 400 ms re-check after a carousel scroll, resize
  listeners and smooth scrolling are browser effects: scroll metrics are
  inputs to `CheckScroll`.
- Unmounting the product page is not modelled. The source cancels nothing
  on unmount, so the pending callbacks would simply run against an
  unmounted component.
- The JSON text grammar is abstract: `Json.Dumps` and `Json.Loads` are an
  exact pair. A column that holds text `json.dumps` did not write is outside
  the model.
- Product prices and price bounds are whole numbers; the source uses floats.
- SQLite's `LIKE` case folding and its `%`/`_` wildcards are left out.
  `contains` is plain substring search.
- When several rows tie under `ORDER BY`, SQLite's order is unspecified;
  the model keeps storage order (a stable sort).
- The product listing and a collection's products page (`Products.PageRows`,
  `Collections.GetCollectionProducts`) page a query with no `ORDER BY` at
  all. SQLite promises no order for such a query: an index on
  `products.collection` could change the scan order. The model pages in
  storage order.
- Authentication (`require_admin`, `get_current_admin_user`) is not part of
  this model; every admin route is modelled as called by an admin.
- `updated_at`'s `onupdate` stamp for products and content rows, and
  `isoformat()` rendering, are left out: timestamps are opaque values.
- The request schemas (`schemas.py`) and the `Booking` model are not part
  of this model. Field types are inferred from how the routes use them.
  Pydantic type errors (422) on bodies are left out.
- Bookings.CreateBooking: the source redraws forever until a number is
  free. The model runs over a finite supply of draws and answers `None`
  when all of them are taken. The source also reads `datetime.now()`
  afresh for every draw, so a redraw across midnight would use the next
  day's date. The model uses one `today` for all draws.
- Bookings.BookingNumber: years are zero-padded to four digits, the usual
  rendering of `%Y`. Some C libraries print years below 1000 without
  padding; dates that early are outside the model.
- Bookings.ListBookings: the contract states the bound, the status filter,
  membership and the newest-first order. Which bookings fill the window is
  stated only for the unfiltered, unlimited listing (`Bookings.ListAll`).
  A negative limit means no limit and a negative offset counts as 0, as in
  SQLite.
- Text.LowerChar: only A-Z are folded, where Python's `str.lower` folds
  every cased letter. The only non-ASCII letters Python folds to ASCII are
  the Kelvin sign (to k) and the dotted capital I (to i plus a combining
  dot). Neither can complete one of the four allowed extensions, so the
  accept/reject decision and the stored extension agree with the source.
- Text.ParseInt: Python's `int` also accepts surrounding whitespace,
  underscores between digits, and any Unicode decimal digit (Arabic-Indic
  "١٢" or full-width "１２" both read as 12). The model accepts only ASCII
  digits, so for such a product id `Content.PutFeatured` answers 500
  where the source stores the product.
- Integer columns and integer path parameters are unbounded. SQLite
  stores 64-bit integers, and the driver refuses to bind a Python int
  outside [-2^63, 2^63). The source then answers 500 and rolls back: on a
  featured product id, a stock quantity, or a `product_id`/`booking_id`
  in a lookup (where the model answers 404). None of this is modelled.
- Writing the uploaded file, and generating the UUID, are left to the
  caller: the id is a parameter of `UploadFile`.
- The bookings creation time is taken from the clock parameter, since the
  column's default is not part of this model.

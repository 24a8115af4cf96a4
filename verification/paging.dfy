/** Offset/limit paging shared by the listing routes, and the SQLite rules
    for OFFSET and LIMIT. */
module Paging {
  import opened Wrappers

  /** The `pagination` object of a listing response. */
  datatype Pagination = Pagination(page: int, limit: int, total: nat, totalPages: nat)

  /** FastAPI's `Query(ge=1)` / `Query(ge=1, le=maxLimit)` validation. */
  predicate ValidQuery(page: int, limit: int, maxLimit: int) {
    page >= 1 && 1 <= limit <= maxLimit
  }

  /** `(page - 1) * limit`. */
  function Offset(page: int, limit: int): (r: int)
    requires page >= 1 && limit >= 1
    ensures r >= 0
    ensures page > 1 ==> r >= limit
  {
    (page - 1) * limit
  }

  /** `(total + limit - 1) // limit`: the number of pages of `limit` rows. */
  function TotalPages(total: nat, limit: int): (r: nat)
    requires limit >= 1
    ensures r * limit >= total
    ensures r == 0 || (r - 1) * limit < total
  {
    (total + limit - 1) / limit
  }

  /** `TotalPages` is the least page count that covers every row. */
  lemma TotalPagesLeast(total: nat, limit: int, k: nat)
    requires limit >= 1 && k * limit >= total
    ensures TotalPages(total, limit) <= k
  {
    var r := TotalPages(total, limit);
    if r > k {
      assert (r - 1) * limit >= k * limit by {
        assert r - 1 >= k;
        MulMono(r - 1, k, limit);
      }
    }
  }

  lemma MulMono(a: int, b: int, c: int)
    requires a >= b && c >= 0
    ensures a * c >= b * c
  {
  }

  function Min(a: int, b: int): int {
    if a <= b then a else b
  }

  function Max(a: int, b: int): int {
    if a >= b then a else b
  }

  /** `OFFSET offset LIMIT limit` in SQLite: a negative offset counts as
      zero and a negative limit means no limit. */
  function Window<T>(s: seq<T>, offset: int, limit: int): (r: seq<T>)
    ensures limit >= 0 ==> |r| == Min(limit, Max(0, |s| - Max(offset, 0)))
    ensures limit < 0 ==> |r| == Max(0, |s| - Max(offset, 0))
    ensures forall i :: 0 <= i < |r| ==> r[i] == s[Max(offset, 0) + i]
  {
    var start := Min(Max(offset, 0), |s|);
    var end := if limit < 0 then |s| else Min(start + limit, |s|);
    s[start..end]
  }

  /** Row `i` of a result appears on page `i / limit + 1`, at position
      `i % limit`, and on no page past the last. */
  lemma RowOnItsPage<T>(s: seq<T>, limit: int, i: int)
    requires limit >= 1 && 0 <= i < |s|
    ensures var page := i / limit + 1;
      && page <= TotalPages(|s|, limit)
      && i % limit < |Window(s, Offset(page, limit), limit)|
      && Window(s, Offset(page, limit), limit)[i % limit] == s[i]
  {
    var page := i / limit + 1;
    assert Offset(page, limit) == (i / limit) * limit;
    assert (i / limit) * limit + i % limit == i;
    var r := TotalPages(|s|, limit);
    if page > r {
      assert i / limit >= r;
      MulMono(i / limit, r, limit);
    }
  }

  /** Pages past the last one are empty. */
  lemma PastLastPageEmpty<T>(s: seq<T>, limit: int, page: int)
    requires limit >= 1 && page > TotalPages(|s|, limit)
    ensures Window(s, Offset(page, limit), limit) == []
  {
    MulMono(page - 1, TotalPages(|s|, limit), limit);
  }
}

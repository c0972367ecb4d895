/** The pagination arithmetic shared by the four list pages (activities,
    users, roles, carriers): `TotalPages = Math.Max(1, ceil(Total / 10))`,
    `CurrentPage = Math.Clamp(PageNumber, 1, TotalPages)`, then
    `Skip((CurrentPage - 1) * 10).Take(10)`. The `double` ceiling is
    replaced by integer ceiling division. */
module Paging {

  const PageSize: nat := 10

  /** What a list page exposes: the visible slice and its counters. */
  datatype Paged<T> = Paged(items: seq<T>, total: nat, totalPages: nat, currentPage: nat)

  /** The smallest page count, at least one, whose pages hold every item. */
  function TotalPages(total: nat): (tp: nat)
    ensures tp >= 1
    ensures total <= tp * PageSize
    ensures tp == 1 || (tp - 1) * PageSize < total
  {
    if total == 0 then 1 else (total + PageSize - 1) / PageSize
  }

  /** `Math.Clamp(pageNumber, 1, totalPages)`. */
  function ClampPage(pageNumber: int, totalPages: nat): (cp: nat)
    requires totalPages >= 1
    ensures 1 <= cp <= totalPages
    ensures 1 <= pageNumber <= totalPages ==> cp == pageNumber
    ensures pageNumber < 1 ==> cp == 1
    ensures pageNumber > totalPages ==> cp == totalPages
  {
    if pageNumber < 1 then 1 else if pageNumber > totalPages then totalPages else pageNumber
  }

  function Min(a: int, b: int): int {
    if a <= b then a else b
  }

  /** The first page starts within the list, and so does every later page
      up to the last one. */
  lemma PageStartInRange(total: nat, cp: nat)
    requires 1 <= cp <= TotalPages(total)
    ensures (cp - 1) * PageSize <= total
  {
    var tp := TotalPages(total);
    if tp > 1 {
      assert (cp - 1) * PageSize <= (tp - 1) * PageSize;
    }
  }

  /** Count, clamp and slice a filtered, ordered list. */
  function Paginate<T>(s: seq<T>, pageNumber: int): (p: Paged<T>)
    ensures p.total == |s| && p.totalPages == TotalPages(|s|)
    ensures 1 <= p.currentPage <= p.totalPages
    ensures p.currentPage == ClampPage(pageNumber, p.totalPages)
    ensures |p.items| <= PageSize
    ensures (p.currentPage - 1) * PageSize + |p.items| <= |s|
    ensures |p.items| == Min(PageSize, |s| - (p.currentPage - 1) * PageSize)
    ensures forall k :: 0 <= k < |p.items| ==> p.items[k] == s[(p.currentPage - 1) * PageSize + k]
  {
    var tp := TotalPages(|s|);
    var cp := ClampPage(pageNumber, tp);
    PageStartInRange(|s|, cp);
    var start := (cp - 1) * PageSize;
    Paged(s[start..Min(|s|, start + PageSize)], |s|, tp, cp)
  }

  /** Every shown item is an item of the list. */
  lemma PageItemsFromList<T>(s: seq<T>, pageNumber: int, x: T)
    requires x in Paginate(s, pageNumber).items
    ensures x in s
  {
    var p := Paginate(s, pageNumber);
    var k :| 0 <= k < |p.items| && p.items[k] == x;
    assert s[(p.currentPage - 1) * PageSize + k] == x;
  }

  /** A request for page 0 or below is served page 1, and a request past
      the end is served the last page. */
  lemma ClampedRequestSamePage<T>(s: seq<T>, pageNumber: int)
    ensures Paginate(s, pageNumber) == Paginate(s, ClampPage(pageNumber, TotalPages(|s|)))
  {
  }

  /** The pages cover the list: item i is the (i mod 10)-th item of page
      i / 10 + 1, so no item is skipped or shown on two pages. */
  lemma {:induction false} ItemOnItsPage<T>(s: seq<T>, i: nat)
    requires i < |s|
    ensures var p := Paginate(s, i / PageSize + 1);
      p.currentPage == i / PageSize + 1 && i % PageSize < |p.items| && p.items[i % PageSize] == s[i]
  {
    var q, r := i / PageSize, i % PageSize;
    assert i == q * PageSize + r;
    var tp := TotalPages(|s|);
    assert q * PageSize < |s|;
    assert q + 1 <= tp;
    var p := Paginate(s, q + 1);
    assert p.currentPage == q + 1;
    assert |s| - q * PageSize > r;
  }
}

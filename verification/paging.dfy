/**
 The table shows the filtered view one page of `MAX_DISPLAY` records at a time
 (`refresh_table`, `next_page` and `prev_page`, src/main.py:223-243 and 325-333).
 */
module Paging {

  /** `MAX_DISPLAY`. */
  const PageSize: nat := 3000

  /**
   `max(1, (n - 1) // MAX_DISPLAY + 1)`. Python's `//` floors; for the positive page
   size Dafny's `/` agrees with it, also at `n = 0` where the dividend is -1.
   */
  function TotalPages(n: nat): (t: nat)
    ensures t >= 1
    ensures n == 0 ==> t == 1
    ensures n > 0 ==> (t - 1) * PageSize < n <= t * PageSize
  {
    var t := (n - 1) / PageSize + 1;
    if t > 1 then t else 1
  }

  /** The pages a navigation can reach: the first one, or one that starts inside the view. */
  predicate PageOk(page: nat, n: nat) {
    page == 0 || page * PageSize < n
  }

  /** `next_page`: advance when the next page would start inside the view. */
  function NextPage(page: nat, n: nat): (p: nat)
    ensures p == page || p == page + 1
  {
    if (page + 1) * PageSize < n then page + 1 else page
  }

  /** `prev_page`: step back unless on the first page. */
  function PrevPage(page: nat): (p: nat)
    ensures p == page || p + 1 == page
  {
    if page > 0 then page - 1 else page
  }

  /** `filtered_logs[start:end]`, with Python's clamping of slice bounds. */
  function Window<T>(view: seq<T>, page: nat): (w: seq<T>)
    ensures |w| <= PageSize
    ensures forall k :: 0 <= k < |w| ==> page * PageSize + k < |view| && w[k] == view[page * PageSize + k]
  {
    var start := page * PageSize;
    var end := start + PageSize;
    var lo := if start < |view| then start else |view|;
    var hi := if end < |view| then end else |view|;
    view[lo..hi]
  }

  /** The number in the status line: `min(len(filtered_logs), end) - start`. */
  function ShownCount(n: nat, page: nat): int {
    var start := page * PageSize;
    var end := start + PageSize;
    (if n < end then n else end) - start
  }

  /** `next_page` leaves the page alone exactly when the next page would start past the view. */
  lemma NextPageNoop(page: nat, n: nat)
    ensures NextPage(page, n) == page <==> (page + 1) * PageSize >= n
  {
  }

  /** `prev_page` leaves the page alone exactly on the first page. */
  lemma PrevPageNoop(page: nat)
    ensures PrevPage(page) == page <==> page == 0
  {
  }

  /** Both buttons keep the page on one that starts inside the view. */
  lemma NavigationKeepsPageOk(page: nat, n: nat)
    requires PageOk(page, n)
    ensures PageOk(NextPage(page, n), n)
    ensures PageOk(PrevPage(page), n)
  {
    if page > 0 {
      assert (page - 1) * PageSize <= page * PageSize;
    }
  }

  /**
   On a reachable page the status count is the number of rows shown, at most a page,
   and the page number is within the total.
   */
  lemma ShownCountIsWindow<T>(view: seq<T>, page: nat)
    requires PageOk(page, |view|)
    ensures ShownCount(|view|, page) == |Window(view, page)|
    ensures 0 <= ShownCount(|view|, page) <= PageSize
    ensures page + 1 <= TotalPages(|view|)
  {
    var n := |view|;
    if page > 0 {
      var t := TotalPages(n);
      assert page * PageSize < t * PageSize;
    }
  }

  /** Record `i` of the view is shown on the reachable page `i / 3000`, at row `i % 3000`. */
  lemma PageOfRecord<T>(view: seq<T>, i: nat)
    requires i < |view|
    ensures var page, k := i / PageSize, i % PageSize;
            PageOk(page, |view|) && page < TotalPages(|view|) &&
            k < |Window(view, page)| && Window(view, page)[k] == view[i]
  {
    var page, k := i / PageSize, i % PageSize;
    assert i == page * PageSize + k;
    ShownCountIsWindow(view, page);
  }

  /** A view of 7000 records has three pages, the last one showing 1000 of them. */
  lemma SevenThousand()
    ensures TotalPages(7000) == 3
    ensures NextPage(0, 7000) == 1 && NextPage(1, 7000) == 2 && NextPage(2, 7000) == 2
    ensures ShownCount(7000, 2) == 1000
  {
  }

  /** An empty view still counts one page and shows nothing on it. */
  lemma EmptyView()
    ensures TotalPages(0) == 1 && ShownCount(0, 0) == 0 && NextPage(0, 0) == 0
  {
  }
}

/** The listing walk both crawlers share (`get_all_disease_list`): page
    indices from 1 up to a hard ceiling `max_pages`, a `consecutive_empty`
    counter reset by every page with data, and a stop once three pages in a
    row came back without data. The rendered listing site is an oracle:
    `pages[i - 1]` is what page `i` yields, and every page past the end of
    the oracle yields nothing. */
module Pagination {
  import opened Candidates

  /** Pages without data in a row that end the walk. */
  const EmptyLimit: nat := 3

  /** Default ceiling on page indices. */
  const DefaultMaxPages: nat := 200

  /** What fetching listing page `i` yields. */
  function PageAt(pages: seq<Listing>, i: nat): Listing
  {
    if 1 <= i <= |pages| then pages[i - 1] else Listing([], false)
  }

  /** The page oracle of one site: page `i` of the walk is what `extract`
      makes of the `i`-th rendered listing page. */
  function Oracle<D>(pages: seq<D>, extract: (D, nat) -> Listing): (r: seq<Listing>)
    ensures |r| == |pages|
    ensures forall i :: 1 <= i <= |pages| ==> PageAt(r, i) == extract(pages[i - 1], i)
  {
    seq(|pages|, i requires 0 <= i < |pages| => extract(pages[i], i + 1))
  }

  /** Number of consecutive pages without data ending at page `j`
      (`consecutive_empty` after page `j` has been handled). */
  function Streak(pages: seq<Listing>, j: nat): nat
  {
    if j == 0 || PageAt(pages, j).hasData then 0 else Streak(pages, j - 1) + 1
  }

  /** The records appended while walking pages `i..j`: those of every page
      whose flag says it has data, in page order. */
  function Gathered(pages: seq<Listing>, i: nat, j: nat): seq<Candidate>
    decreases j + 1 - i
  {
    if i > j then []
    else
      var p := PageAt(pages, i);
      (if p.hasData then p.records else []) + Gathered(pages, i + 1, j)
  }

  /** Result of the walk: how many pages were fetched, and the records
      accumulated before deduplication. */
  datatype Crawl = Crawl(fetched: nat, found: seq<Candidate>)

  /** The loop from page `i` on, with `empty` pages without data just seen.
      The walk fetches pages `i..r.fetched`; it stops early only on the third
      empty page in a row, and never before that. */
  function Walk(pages: seq<Listing>, maxPages: nat, i: nat, empty: nat): (r: Crawl)
    requires 1 <= i <= maxPages + 1
    requires empty < EmptyLimit && empty == Streak(pages, i - 1)
    ensures i - 1 <= r.fetched <= maxPages
    ensures r.found == Gathered(pages, i, r.fetched)
    ensures r.fetched < maxPages ==> r.fetched >= i && Streak(pages, r.fetched) == EmptyLimit
    ensures forall j :: i <= j < r.fetched ==> Streak(pages, j) < EmptyLimit
    decreases maxPages + 1 - i
  {
    if i > maxPages then Crawl(i - 1, [])
    else
      var page := PageAt(pages, i);
      if page.hasData then
        var rest := Walk(pages, maxPages, i + 1, 0);
        Crawl(rest.fetched, page.records + rest.found)
      else if empty + 1 >= EmptyLimit then
        Crawl(i, [])
      else
        Walk(pages, maxPages, i + 1, empty + 1)
  }

  /** `get_all_disease_list` before deduplication. `fetched` is the first page
      that ends a run of three empty pages, or `maxPages` when no such page
      comes first; `found` holds the records of the pages with data among
      those fetched, in page order. */
  function Paginate(pages: seq<Listing>, maxPages: nat): (r: Crawl)
    ensures r.fetched <= maxPages
    ensures r.found == Gathered(pages, 1, r.fetched)
    ensures r.fetched < maxPages ==> Streak(pages, r.fetched) == EmptyLimit
    ensures forall j :: 1 <= j < r.fetched ==> Streak(pages, j) < EmptyLimit
  {
    Walk(pages, maxPages, 1, 0)
  }

  /** `get_all_disease_list`: the walk followed by URL deduplication. */
  function CollectAll(pages: seq<Listing>, maxPages: nat): (r: seq<Candidate>)
    ensures DistinctUrls(r)
    ensures IsSubsequence(r, Paginate(pages, maxPages).found)
  {
    Dedup(Paginate(pages, maxPages).found)
  }

  /** Every accumulated record comes from one of the pages walked. */
  lemma {:induction false} GatheredFrom(pages: seq<Listing>, i: nat, j: nat, c: Candidate)
    requires c in Gathered(pages, i, j)
    ensures exists k :: i <= k <= j && c in PageAt(pages, k).records
    decreases j + 1 - i
  {
    var p := PageAt(pages, i);
    if !(p.hasData && c in p.records) {
      GatheredFrom(pages, i + 1, j, c);
    }
  }

  /** On a listing whose pages `1..p-1` have data and whose pages from `p`
      on have none, the streak is 0 before `p` and counts up from `p`. */
  lemma {:induction false} StreakOnTail(pages: seq<Listing>, p: nat, j: nat)
    requires 1 <= p
    requires forall k :: 1 <= k < p ==> PageAt(pages, k).hasData
    requires forall k :: p <= k ==> !PageAt(pages, k).hasData
    ensures Streak(pages, j) == if j < p then 0 else j - p + 1
  {
    if j > 0 && !PageAt(pages, j).hasData {
      StreakOnTail(pages, p, j - 1);
    }
  }

  /** The stop heuristic: when the data ends at page `p - 1`, the walk
      fetches exactly `min(p + 2, maxPages)` pages, the three empty pages
      `p`, `p + 1`, `p + 2` included. */
  lemma StopAfterThreeEmpty(pages: seq<Listing>, maxPages: nat, p: nat)
    requires 1 <= p
    requires forall k :: 1 <= k < p ==> PageAt(pages, k).hasData
    requires forall k :: p <= k ==> !PageAt(pages, k).hasData
    ensures Paginate(pages, maxPages).fetched == if p + 2 < maxPages then p + 2 else maxPages
  {
    var r := Paginate(pages, maxPages);
    StreakOnTail(pages, p, r.fetched);
    StreakOnTail(pages, p, p + 2);
  }
}

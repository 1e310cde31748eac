/** `fetch_all_sub_replies`: the paginated reply set of one top-level comment. */
module Fetch {
  import opened Basics
  import opened Api

  /** A page the loop accepts and moves past: code 0, data present, a non-empty reply list. */
  predicate Continues(p: PageResponse) {
    p.Page? && p.code == 0 && p.data.Some? && p.data.value != []
  }

  /** The replies a page contributes. */
  function PageReplies(p: PageResponse): seq<Reply> {
    if p.Page? && p.data.Some? then p.data.value else []
  }

  /** The replies of the given pages concatenated in page order. */
  function Concat(pages: seq<PageResponse>): seq<Reply> {
    if pages == [] then [] else Concat(pages[..|pages| - 1]) + PageReplies(pages[|pages| - 1])
  }

  /**
   * `pages[k]` answers the request for page number `k + 1`; a request past the
   * end fails. The number of the first page that ends the loop.
   */
  function StopPage(pages: seq<PageResponse>): (k: nat)
    ensures 1 <= k <= |pages| + 1
    ensures forall j | 0 <= j < k - 1 :: Continues(pages[j])
    ensures k <= |pages| ==> !Continues(pages[k - 1])
  {
    if pages == [] || !Continues(pages[0]) then 1 else 1 + StopPage(pages[1..])
  }

  /** What `fetch_all_sub_replies` returns for the given responses. */
  function SubReplies(pages: seq<PageResponse>): seq<Reply> {
    Concat(pages[..StopPage(pages) - 1])
  }

  /** The response to a request for page number `pn`. */
  function Respond(pages: seq<PageResponse>, pn: nat): PageResponse
    requires pn >= 1
  {
    if pn <= |pages| then pages[pn - 1] else RequestFailed
  }

  /**
   * The request loop: page numbers go up by one per accepted page; the first
   * empty, non-zero-coded or failed page stops it. Returns the replies and the
   * number of the page that stopped the loop.
   */
  method FetchAllSubReplies(pages: seq<PageResponse>) returns (allReplies: seq<Reply>, lastPage: nat)
    ensures 1 <= lastPage <= |pages| + 1
    ensures forall j | 0 <= j < lastPage - 1 :: Continues(pages[j])
    ensures lastPage <= |pages| ==> !Continues(pages[lastPage - 1])
    ensures allReplies == Concat(pages[..lastPage - 1])
    ensures lastPage == StopPage(pages) && allReplies == SubReplies(pages)
  {
    allReplies := [];
    var pageNumber := 1;
    while true
      invariant 1 <= pageNumber <= |pages| + 1
      invariant forall j | 0 <= j < pageNumber - 1 :: Continues(pages[j])
      invariant allReplies == Concat(pages[..pageNumber - 1])
      decreases |pages| + 1 - pageNumber
    {
      var response := Respond(pages, pageNumber);
      if response.Page? && response.code == 0 && response.data.Some? {
        var replies := response.data.value;
        if replies == [] {
          break;
        }
        assert pages[..pageNumber][..pageNumber - 1] == pages[..pageNumber - 1];
        allReplies := allReplies + replies;
        pageNumber := pageNumber + 1;
      } else {
        break;
      }
    }
    lastPage := pageNumber;
    StopPageIsFirst(pages, lastPage);
  }

  /** The stop page is the only page number before which every page continues and at which none does. */
  lemma StopPageIsFirst(pages: seq<PageResponse>, k: nat)
    requires 1 <= k <= |pages| + 1
    requires forall j | 0 <= j < k - 1 :: Continues(pages[j])
    requires k <= |pages| ==> !Continues(pages[k - 1])
    ensures k == StopPage(pages)
  {
  }

  /** Concatenating a longer prefix extends the result: the pages before the stop come first, in order. */
  lemma {:induction false} ConcatPrefix(pages: seq<PageResponse>, m: nat, n: nat)
    requires m <= n <= |pages|
    ensures Concat(pages[..n]) == Concat(pages[..m]) + Concat(pages[m..n])
  {
    if n > m {
      ConcatPrefix(pages, m, n - 1);
      assert pages[..n][..n - 1] == pages[..n - 1];
      assert pages[m..n][..n - 1 - m] == pages[m..n - 1];
      assert pages[m..n][n - 1 - m] == pages[n - 1];
    } else {
      assert pages[m..n] == [];
    }
  }

  /**
   * The collected list is the replies of the accepted pages in page order, and
   * it is a prefix of all the pages' replies: the rest comes from the stop page on.
   */
  lemma SubRepliesPrefix(pages: seq<PageResponse>)
    ensures forall j | 0 <= j < StopPage(pages) - 1 :: Continues(pages[j])
    ensures SubReplies(pages) == Concat(pages[..StopPage(pages) - 1])
    ensures Concat(pages) == SubReplies(pages) + Concat(pages[StopPage(pages) - 1..])
  {
    var k := StopPage(pages) - 1;
    ConcatPrefix(pages, k, |pages|);
    assert pages[..|pages|] == pages;
  }

  /** Pages after the stop page never reach the result. */
  lemma SubRepliesIgnoresLaterPages(pages: seq<PageResponse>, more: seq<PageResponse>)
    requires StopPage(pages) <= |pages|
    ensures SubReplies(pages + more) == SubReplies(pages)
  {
    var k := StopPage(pages);
    StopPageIsFirst(pages + more, k);
    assert (pages + more)[..k - 1] == pages[..k - 1];
  }

  /** Every reply collected comes from an accepted page. */
  lemma {:induction false} ConcatMembers(pages: seq<PageResponse>, r: Reply)
    requires r in Concat(pages)
    ensures exists j | 0 <= j < |pages| :: r in PageReplies(pages[j])
  {
    var n := |pages|;
    if r in PageReplies(pages[n - 1]) {
      assert r in PageReplies(pages[n - 1]);
    } else {
      ConcatMembers(pages[..n - 1], r);
      var j :| 0 <= j < n - 1 && r in PageReplies(pages[..n - 1][j]);
      assert pages[..n - 1][j] == pages[j];
    }
  }
}

/** The repository listing loop: request page after page of an organisation's
    repositories until a page comes back empty or short. */
module Pagination {
  import opened Wrappers
  import opened Seqs
  import opened Repos

  /** What the host answers for each page, in request order: `Some(items)`, or
      `None` when the request raised. Past the end of `pages` the host answers
      with an empty page. */
  function PageAt(pages: seq<Option<seq<Repo>>>, i: nat): Option<seq<Repo>>
  {
    if i < |pages| then pages[i] else Some([])
  }

  /** A page after which the loop asks for the next one: it arrived, is
      non-empty, and is not shorter than the page size. */
  predicate Continues(page: Option<seq<Repo>>, perPage: nat)
  {
    page.Some? && |page.value| > 0 && |page.value| >= perPage
  }

  /** The items of the first `n` pages, in order (a failed page adds nothing). */
  function Collected(pages: seq<Option<seq<Repo>>>, n: nat): seq<Repo>
  {
    if n == 0 then [] else Collected(pages, n - 1) + PageAt(pages, n - 1).GetOr([])
  }

  /** `fetch_all_repos`, with the page size as `perPage` (the script asks for
      100 per page). Returns the listing (`None` when a request raised, which
      aborts the run) and how many pages were requested. Every page but the
      last requested one was full; the last one failed, was empty or was short;
      the listing is all requested pages in order. */
  method FetchAllRepos(pages: seq<Option<seq<Repo>>>, perPage: nat)
    returns (repos: Option<seq<Repo>>, requested: nat)
    ensures 1 <= requested <= |pages| + 1
    ensures forall j :: 0 <= j < requested - 1 ==> Continues(PageAt(pages, j), perPage)
    ensures !Continues(PageAt(pages, requested - 1), perPage)
    ensures PageAt(pages, requested - 1).None? <==> repos.None?
    ensures repos.Some? ==> repos.value == Collected(pages, requested)
  {
    var acc: seq<Repo> := [];
    var page: nat := 0;
    while true
      invariant page <= |pages|
      invariant forall j :: 0 <= j < page ==> Continues(PageAt(pages, j), perPage)
      invariant acc == Collected(pages, page)
      decreases |pages| - page
    {
      var data := PageAt(pages, page);
      if data.None? {
        return None, page + 1;
      }
      if |data.value| == 0 {
        return Some(acc), page + 1;
      }
      acc := acc + data.value;
      if |data.value| < perPage {
        return Some(acc), page + 1;
      }
      page := page + 1;
    }
  }

  /** The pages after the first one that stops the loop are never looked at:
      two hosts that agree up to and including that page give the same listing. */
  lemma {:induction false} CollectedIgnoresLaterPages(pages: seq<Option<seq<Repo>>>, other: seq<Option<seq<Repo>>>, n: nat)
    requires forall j :: 0 <= j < n ==> PageAt(pages, j) == PageAt(other, j)
    ensures Collected(pages, n) == Collected(other, n)
    decreases n
  {
    if n > 0 {
      CollectedIgnoresLaterPages(pages, other, n - 1);
    }
  }

  /** When every page arrives, the listing is the plain concatenation of the
      pages requested. */
  lemma {:induction false} CollectedIsFlatten(pages: seq<seq<Repo>>, n: nat)
    requires n <= |pages|
    ensures Collected(seq(|pages|, i requires 0 <= i < |pages| => Some(pages[i])), n) == Flatten(pages[..n])
    decreases n
  {
    if n > 0 {
      CollectedIsFlatten(pages, n - 1);
      assert pages[..n][..n - 1] == pages[..n - 1];
    }
  }
}

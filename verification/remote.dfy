/**
  The remote side of a paginated listing, as a finite chain of pages.  Page
  k is served at its own locator, holds a sequence of raw records (some of
  which may be null) and advertises a "next" link exactly when page k + 1
  exists.  Records become domain objects one by one; null records are
  skipped.
*/
module Remote {
  import opened Wrappers
  import Links

  /**
    The domain object built from one non-null record.  The constructor
    stands for the element factory `content_class(requester, record)`,
    taken to be injective.
  */
  datatype Content<R> = Content(record: R)

  /** One page as the transport returns it: records and its "next" link URL. */
  datatype Page<R> = Page(locator: string, records: seq<Option<R>>, nextLink: Option<string>)

  /** The requester: its base URL and the pages of the listing it serves. */
  datatype Server<R> = Server(baseUrl: string, pages: seq<Page<R>>)

  /** Keeps the non-null records of a page, in order, each built into one element. */
  function PageContent<R>(records: seq<Option<R>>): (r: seq<Content<R>>)
    ensures |r| <= |records|
  {
    if |records| == 0 then []
    else (if records[0].Some? then [Content(records[0].value)] else []) + PageContent(records[1..])
  }

  /** An element comes from a non-null record of the page, and every non-null record gives one. */
  lemma {:induction false} PageContentMembers<R>(records: seq<Option<R>>)
    ensures forall c :: c in PageContent(records) ==> Some(c.record) in records
    ensures forall k :: 0 <= k < |records| && records[k].Some? ==> Content(records[k].value) in PageContent(records)
  {
    if |records| > 0 {
      PageContentMembers(records[1..]);
      assert forall k :: 1 <= k < |records| ==> records[k] == records[1..][k - 1];
      assert records == [records[0]] + records[1..];
    }
  }

  /** Filtering distributes over concatenation of record sequences. */
  lemma {:induction false} PageContentAppend<R>(a: seq<Option<R>>, b: seq<Option<R>>)
    ensures PageContent(a + b) == PageContent(a) + PageContent(b)
  {
    if |a| == 0 {
      assert a + b == b;
    } else {
      assert (a + b)[0] == a[0];
      assert (a + b)[1..] == a[1..] + b;
      PageContentAppend(a[1..], b);
    }
  }

  /** The number of non-null records. */
  function CountPresent<R>(records: seq<Option<R>>): nat {
    if |records| == 0 then 0
    else (if records[0].Some? then 1 else 0) + CountPresent(records[1..])
  }

  /** Every non-null record yields exactly one element. */
  lemma {:induction false} PageContentCount<R>(records: seq<Option<R>>)
    ensures |PageContent(records)| == CountPresent(records)
  {
    if |records| > 0 {
      PageContentCount(records[1..]);
    }
  }

  /** A page without null records yields one element per record, position by position. */
  lemma {:induction false} PageContentNoNulls<R>(records: seq<Option<R>>)
    requires forall k :: 0 <= k < |records| ==> records[k].Some?
    ensures |PageContent(records)| == |records|
    ensures forall k :: 0 <= k < |records| ==> PageContent(records)[k] == Content(records[k].value)
  {
    if |records| > 0 {
      PageContentNoNulls(records[1..]);
    }
  }

  /** The first page (at or after `from`) whose locator is `url`. */
  function IndexFrom<R>(pages: seq<Page<R>>, url: string, from: nat): (r: Option<nat>)
    ensures r.Some? ==> from <= r.value < |pages| && pages[r.value].locator == url
    decreases |pages| - from
  {
    if |pages| <= from then None
    else if pages[from].locator == url then Some(from)
    else IndexFrom(pages, url, from + 1)
  }

  /** The search finds the first page with that locator, and fails only when no page has it. */
  lemma {:induction false} IndexFromLeftmost<R>(pages: seq<Page<R>>, url: string, from: nat)
    ensures var r := IndexFrom(pages, url, from);
            && (r.Some? ==> forall j :: from <= j < r.value ==> pages[j].locator != url)
            && (r.None? ==> forall j :: from <= j < |pages| ==> pages[j].locator != url)
    decreases |pages| - from
  {
    if from < |pages| && pages[from].locator != url {
      IndexFromLeftmost(pages, url, from + 1);
    }
  }

  /** The position of the page served at `url`, if the server has one. */
  function PageIndex<R>(s: Server<R>, url: string): Option<nat> {
    IndexFrom(s.pages, url, 0)
  }

  /** The page the server answers for a GET of `url`; None stands for a missing resource. */
  function Serve<R>(s: Server<R>, url: string): (r: Option<Page<R>>)
    ensures r.Some? ==> r.value.locator == url
  {
    match PageIndex(s, url)
    case None => None
    case Some(k) => Some(s.pages[k])
  }

  /** A GET succeeds exactly for the locator of some page, and answers with a page of the listing. */
  lemma ServeFindsPage<R>(s: Server<R>, url: string)
    ensures Serve(s, url).Some? <==> exists k :: 0 <= k < |s.pages| && s.pages[k].locator == url
    ensures Serve(s, url).Some? ==> Serve(s, url).value in s.pages
  {
    IndexFromLeftmost(s.pages, url, 0);
  }

  /** The locator of page `k`. */
  function LocatorAt<R>(pages: seq<Page<R>>, k: nat): string
    requires k < |pages|
  {
    pages[k].locator
  }

  /** No two pages share a locator. */
  predicate DistinctLocators<R>(pages: seq<Page<R>>) {
    forall i, j :: 0 <= i < j < |pages| ==> LocatorAt(pages, i) != LocatorAt(pages, j)
  }

  /** Page k's "next" link reduces against the base URL to the locator of page k + 1. */
  predicate LinksTo<R>(s: Server<R>, k: nat)
    requires k + 1 < |s.pages|
  {
    Links.ReduceNextLink(s.baseUrl, s.pages[k].nextLink) == Success(Some(s.pages[k + 1].locator))
  }

  /**
    A finite listing: at least one page, distinct locators, every page but
    the last links to its successor, and the last has no "next" link.
  */
  predicate WellFormed<R>(s: Server<R>) {
    && |s.pages| >= 1
    && DistinctLocators(s.pages)
    && (forall k: nat :: k + 1 < |s.pages| ==> LinksTo(s, k))
    && s.pages[|s.pages| - 1].nextLink.None?
  }

  /** With distinct locators, looking up page k's locator finds page k. */
  lemma PageIndexOfLocator<R>(s: Server<R>, k: nat)
    requires DistinctLocators(s.pages)
    requires k < |s.pages|
    ensures PageIndex(s, s.pages[k].locator) == Some(k)
  {
    IndexFromLeftmost(s.pages, s.pages[k].locator, 0);
    var r := PageIndex(s, s.pages[k].locator).value;
    assert LocatorAt(s.pages, r) == LocatorAt(s.pages, k);
  }

  /** The elements of the first `k` pages, in page order. */
  function Buffered<R>(pages: seq<Page<R>>, k: nat): seq<Content<R>>
    requires k <= |pages|
  {
    if k == 0 then [] else Buffered(pages, k - 1) + PageContent(pages[k - 1].records)
  }

  /**
    How many pages are fetched, starting from `k` fetched pages, when pages
    are fetched one by one while position `i` is not covered and a page
    remains.
  */
  function CoverCount<R>(pages: seq<Page<R>>, k: nat, i: nat): (n: nat)
    requires k <= |pages|
    ensures k <= n <= |pages|
    decreases |pages| - k
  {
    if k < |pages| && |Buffered(pages, k)| <= i then CoverCount(pages, k + 1, i) else k
  }

  /** The count covers position `i` unless every page is fetched, and the page before the last one counted does not. */
  lemma {:induction false} CoverCountCovers<R>(pages: seq<Page<R>>, k: nat, i: nat)
    requires k <= |pages|
    ensures var n := CoverCount(pages, k, i);
            && (i < |Buffered(pages, n)| || n == |pages|)
            && (k < n ==> |Buffered(pages, n - 1)| <= i)
    decreases |pages| - k
  {
    if k < |pages| && |Buffered(pages, k)| <= i {
      CoverCountCovers(pages, k + 1, i);
      assert CoverCount(pages, k, i) == CoverCount(pages, k + 1, i);
    } else {
      assert CoverCount(pages, k, i) == k;
    }
  }

  /** Every element the listing holds. */
  function AllContent<R>(s: Server<R>): seq<Content<R>> {
    Buffered(s.pages, |s.pages|)
  }

  /** Fetching more pages only extends the elements of fewer pages. */
  lemma {:induction false} BufferedPrefix<R>(pages: seq<Page<R>>, j: nat, k: nat)
    requires j <= k <= |pages|
    ensures Buffered(pages, j) <= Buffered(pages, k)
    decreases k - j
  {
    if j < k {
      BufferedPrefix(pages, j, k - 1);
    }
  }

  /** The pages of a listing whose "next" links are the base URL followed by the next locator. */
  function Chain<R>(base: string, locators: seq<string>, records: seq<seq<Option<R>>>): (r: seq<Page<R>>)
    requires |locators| == |records|
    ensures |r| == |locators|
    ensures forall k :: 0 <= k < |r| ==> r[k].locator == locators[k] && r[k].records == records[k]
    ensures forall k :: 0 <= k < |r| - 1 ==> r[k].nextLink == Some(base + locators[k + 1])
    ensures |r| > 0 ==> r[|r| - 1].nextLink.None?
  {
    seq(|locators|, k requires 0 <= k < |locators| => ChainPage(base, locators, records, k))
  }

  /** Page k of a chain. */
  function ChainPage<R>(base: string, locators: seq<string>, records: seq<seq<Option<R>>>, k: nat): Page<R>
    requires |locators| == |records| && k < |locators|
  {
    Page(locators[k], records[k], if k + 1 < |locators| then Some(base + locators[k + 1]) else None)
  }

  /** A chain over distinct one-line locators is a well-formed listing. */
  lemma ChainWellFormed<R>(base: string, locators: seq<string>, records: seq<seq<Option<R>>>)
    requires |locators| == |records| >= 1
    requires forall i, j :: 0 <= i < j < |locators| ==> locators[i] != locators[j]
    requires forall k :: 0 <= k < |locators| ==> '\n' !in locators[k]
    ensures WellFormed(Server(base, Chain(base, locators, records)))
  {
    var s := Server(base, Chain(base, locators, records));
    forall k: nat | k + 1 < |s.pages|
      ensures LinksTo(s, k)
    {
      Links.StripPrefixedLocator(base, locators[k + 1]);
    }
  }
}

/**
  The paginated list: an append-only buffer of elements and an optional
  locator of the next page, grown one page at a time only as far as
  indexing or iteration needs.  The list's fixed configuration (requester,
  first URL, first parameters) is kept apart from its evolving cursor, and
  every operation is a pure function from a cursor to the next cursor and
  what the caller observes.
*/
module Paginated {
  import opened Wrappers
  import Links
  import opened Remote

  /** A query parameter value (the source passes keyword arguments through). */
  datatype ParamValue = IntParam(n: int) | TextParam(s: string)

  type Params = map<string, ParamValue>

  /** One call into the requester. */
  datatype Request = Request(verb: string, url: string, params: Params)

  /** The page-size hint used when the caller gives none. */
  const DefaultPerPage: int := 10

  /** What a list fixes at construction. */
  datatype Config<R> = Config(requester: Server<R>, firstUrl: string, firstParams: Params)

  /**
    What a list accumulates.  `nextParams` is written but never read by the
    source; it is kept to show that requests ignore it.
  */
  datatype Cursor<R> = Cursor(nextUrl: Option<string>, nextParams: Option<Params>, elements: seq<Content<R>>)

  /** A constructed list. */
  datatype PaginatedList<R> = PaginatedList(config: Config<R>, cursor: Cursor<R>)

  /** The query parameters of every page request: the keyword arguments plus `per_page`. */
  function FirstParams(kwargs: Params): (p: Params)
    ensures p.Keys == kwargs.Keys + {"per_page"}
    ensures forall k :: k in kwargs && k != "per_page" ==> p[k] == kwargs[k]
    ensures p["per_page"] == if "per_page" in kwargs then kwargs["per_page"] else IntParam(DefaultPerPage)
  {
    if "per_page" in kwargs then kwargs else kwargs["per_page" := IntParam(DefaultPerPage)]
  }

  /** Writing `per_page` into the empty tuple `()` raises TypeError. */
  datatype ConstructError = TupleItemAssignment

  /**
    The constructor as written: `kwargs or ()` stores a tuple when no
    keyword arguments are given, and the following item assignment fails.
    With keyword arguments, first and next parameters are the same mutated
    dictionary.
  */
  function Construct<R>(requester: Server<R>, firstUrl: string, kwargs: Params): (r: Result<PaginatedList<R>, ConstructError>)
    ensures r.Failure? <==> |kwargs| == 0
    ensures r.Success? ==> r.value.cursor.elements == [] && r.value.cursor.nextUrl == Some(firstUrl)
    ensures r.Success? ==> "per_page" in r.value.config.firstParams
    ensures r.Success? ==>
              r.value.config.firstParams["per_page"] == if "per_page" in kwargs then kwargs["per_page"] else IntParam(DefaultPerPage)
  {
    if |kwargs| == 0 then Failure(TupleItemAssignment)
    else
      var params := FirstParams(kwargs);
      Success(PaginatedList(Config(requester, firstUrl, params), Cursor(Some(firstUrl), Some(params), [])))
  }

  /** Construction without keyword arguments fails. */
  lemma EmptyKwargsRejected<R>(requester: Server<R>, firstUrl: string)
    ensures Construct(requester, firstUrl, map[]) == Failure(TupleItemAssignment)
  {
  }

  /**
    The constructor as evidently intended (`kwargs or {}`): the parameters
    always carry `per_page`, defaulting to 10, and nothing is buffered yet.
  */
  function New<R>(requester: Server<R>, firstUrl: string, kwargs: Params): (l: PaginatedList<R>)
    ensures l.config.requester == requester && l.config.firstUrl == firstUrl
    ensures l.cursor.elements == [] && l.cursor.nextUrl == Some(firstUrl)
    ensures l.config.firstParams.Keys == kwargs.Keys + {"per_page"}
    ensures forall k :: k in kwargs && k != "per_page" ==> l.config.firstParams[k] == kwargs[k]
    ensures l.config.firstParams["per_page"] ==
              if "per_page" in kwargs then kwargs["per_page"] else IntParam(DefaultPerPage)
  {
    var params := FirstParams(kwargs);
    var nextParams := if |kwargs| == 0 then map[] else params;
    PaginatedList(Config(requester, firstUrl, params), Cursor(Some(firstUrl), Some(nextParams), []))
  }

  /** Wherever the constructor as written succeeds, it agrees with the intended one. */
  lemma ConstructAgreesWithNew<R>(requester: Server<R>, firstUrl: string, kwargs: Params)
    requires |kwargs| > 0
    ensures Construct(requester, firstUrl, kwargs) == Success(New(requester, firstUrl, kwargs))
  {
  }

  /** The next locator names a page of the listing, or is absent. */
  predicate Locates<R>(cfg: Config<R>, c: Cursor<R>) {
    c.nextUrl.Some? ==> PageIndex(cfg.requester, c.nextUrl.value).Some?
  }

  /** How many pages the cursor has fetched: all of them once the next locator is absent. */
  function Fetched<R>(cfg: Config<R>, c: Cursor<R>): (n: nat)
    requires Locates(cfg, c)
    ensures n <= |cfg.requester.pages|
    ensures c.nextUrl.Some? ==> n < |cfg.requester.pages| && cfg.requester.pages[n].locator == c.nextUrl.value
  {
    match c.nextUrl
    case None => |cfg.requester.pages|
    case Some(url) => PageIndex(cfg.requester, url).value
  }

  /** The listing starts at the first URL. */
  ghost predicate ValidConfig<R>(cfg: Config<R>) {
    WellFormed(cfg.requester) && cfg.firstUrl == cfg.requester.pages[0].locator
  }

  /**
    The list invariant: a well-formed listing starting at the first URL,
    a next locator that names a page (or none), and a buffer holding exactly
    the elements of the pages fetched so far.
  */
  ghost predicate Valid<R>(cfg: Config<R>, c: Cursor<R>) {
    && ValidConfig(cfg)
    && Locates(cfg, c)
    && c.elements == Buffered(cfg.requester.pages, Fetched(cfg, c))
  }

  /** A freshly constructed list over a listing that starts at its first URL is valid and has fetched nothing. */
  lemma NewIsValid<R>(requester: Server<R>, firstUrl: string, kwargs: Params)
    requires WellFormed(requester)
    requires firstUrl == requester.pages[0].locator
    ensures var l := New(requester, firstUrl, kwargs);
            Valid(l.config, l.cursor) && Fetched(l.config, l.cursor) == 0
  {
    PageIndexOfLocator(requester, 0);
  }

  /** Whether another page can be fetched. */
  function HasNext<R>(cfg: Config<R>, c: Cursor<R>): (b: bool)
    requires Valid(cfg, c)
    ensures b <==> Fetched(cfg, c) < |cfg.requester.pages|
  {
    c.nextUrl.Some?
  }

  /** Once exhausted, the buffer holds every element of the listing. */
  lemma ExhaustedHoldsAll<R>(cfg: Config<R>, c: Cursor<R>)
    requires Valid(cfg, c) && !HasNext(cfg, c)
    ensures c.elements == AllContent(cfg.requester)
  {
  }

  /** The buffer is always a prefix of the whole listing. */
  lemma ElementsPrefixOfAll<R>(cfg: Config<R>, c: Cursor<R>)
    requires Valid(cfg, c)
    ensures c.elements <= AllContent(cfg.requester)
  {
    BufferedPrefix(cfg.requester.pages, Fetched(cfg, c), |cfg.requester.pages|);
  }

  /** What one page fetch returns: the new cursor, the page's elements and the request sent. */
  datatype Fetch<R> = Fetch(cursor: Cursor<R>, added: seq<Content<R>>, request: Request)

  /**
    Fetches the page at the next locator, always with the first parameters,
    and sets the next locator from the page's "next" link.  The buffer is
    left to the caller.
  */
  function GetNextPage<R>(cfg: Config<R>, c: Cursor<R>): (r: Fetch<R>)
    requires Valid(cfg, c) && HasNext(cfg, c)
    ensures Locates(cfg, r.cursor) && Valid(cfg, r.cursor.(elements := c.elements + r.added))
    ensures r.request == Request("GET", c.nextUrl.value, cfg.firstParams)
    ensures Fetched(cfg, r.cursor) == Fetched(cfg, c) + 1
    ensures r.added == PageContent(cfg.requester.pages[Fetched(cfg, c)].records)
    ensures r.cursor.nextUrl.Some? <==> Fetched(cfg, c) + 1 < |cfg.requester.pages|
    ensures r.cursor.nextUrl.Some? ==>
              var link := cfg.requester.pages[Fetched(cfg, c)].nextLink;
              link.Some? && Links.AfterBase(cfg.requester.baseUrl, link.value) == r.cursor.nextUrl
    ensures r.cursor.elements == c.elements && r.cursor.nextParams.None?
  {
    var request := Request("GET", c.nextUrl.value, cfg.firstParams);
    var k := Fetched(cfg, c);
    var pages := cfg.requester.pages;
    PageIndexOfLocator(cfg.requester, k);
    var page := Serve(cfg.requester, request.url).value;
    assert page == pages[k];
    assert k + 1 < |pages| ==> LinksTo(cfg.requester, k);
    var next := Links.ReduceNextLink(cfg.requester.baseUrl, page.nextLink).value;
    assert k + 1 < |pages| ==> PageIndex(cfg.requester, pages[k + 1].locator) == Some(k + 1) by {
      if k + 1 < |pages| {
        PageIndexOfLocator(cfg.requester, k + 1);
      }
    }
    Fetch(c.(nextUrl := next, nextParams := None), PageContent(page.records), request)
  }

  /** Fetches one page and appends its elements to the buffer; returns only those elements. */
  function Grow<R>(cfg: Config<R>, c: Cursor<R>): (r: Fetch<R>)
    requires Valid(cfg, c) && HasNext(cfg, c)
    ensures Valid(cfg, r.cursor)
    ensures r.cursor.elements == c.elements + r.added
    ensures r.added == PageContent(cfg.requester.pages[Fetched(cfg, c)].records)
    ensures Fetched(cfg, r.cursor) == Fetched(cfg, c) + 1
    ensures r.request.params == cfg.firstParams
  {
    var f := GetNextPage(cfg, c);
    f.(cursor := f.cursor.(elements := c.elements + f.added))
  }

  /** Whether position `i` is buffered or more pages may still provide it. */
  function IsLargerThan<R>(cfg: Config<R>, c: Cursor<R>, i: nat): (b: bool)
    requires Valid(cfg, c)
    ensures b <==> i < |c.elements| || Fetched(cfg, c) < |cfg.requester.pages|
  {
    |c.elements| > i || HasNext(cfg, c)
  }

  /** A false answer is final: the position lies beyond the whole listing. */
  lemma NotLargerIsBeyondEnd<R>(cfg: Config<R>, c: Cursor<R>, i: nat)
    requires Valid(cfg, c) && !IsLargerThan(cfg, c, i)
    ensures |AllContent(cfg.requester)| <= i
  {
  }

  /** Grows the buffer page by page while it does not reach position `i` and a next page exists. */
  function GetUpToIndex<R>(cfg: Config<R>, c: Cursor<R>, i: nat): (r: Cursor<R>)
    requires Valid(cfg, c)
    ensures Valid(cfg, r)
    ensures c.elements <= r.elements
    ensures Fetched(cfg, c) <= Fetched(cfg, r)
    ensures i < |r.elements| || !HasNext(cfg, r)
    ensures i < |c.elements| ==> r == c
    decreases |cfg.requester.pages| - Fetched(cfg, c)
  {
    if |c.elements| <= i && HasNext(cfg, c) then
      var g := Grow(cfg, c).cursor;
      var r := GetUpToIndex(cfg, g, i);
      PrefixTransitive(c.elements, g.elements, r.elements);
      r
    else
      c
  }

  /**
    What indexing position `i` does to a cursor: it fetches pages until `i`
    is covered or no page remains, and no further; a cursor that fetched
    nothing comes back unchanged, and one that fetched has dropped its
    pending parameters.
  */
  ghost predicate IndexOutcome<R>(cfg: Config<R>, c: Cursor<R>, i: nat)
    requires Valid(cfg, c)
  {
    var r := GetUpToIndex(cfg, c, i);
    && Fetched(cfg, r) == CoverCount(cfg.requester.pages, Fetched(cfg, c), i)
    && (Fetched(cfg, r) == Fetched(cfg, c) ==> r == c)
    && (Fetched(cfg, c) < Fetched(cfg, r) ==> r.nextParams.None?)
  }

  /** Indexing fetches exactly the pages needed to cover the position. */
  lemma {:induction false} GetUpToIndexOutcome<R>(cfg: Config<R>, c: Cursor<R>, i: nat)
    requires Valid(cfg, c)
    ensures IndexOutcome(cfg, c, i)
    decreases |cfg.requester.pages| - Fetched(cfg, c)
  {
    if |c.elements| <= i && HasNext(cfg, c) {
      var g := Grow(cfg, c).cursor;
      GetUpToIndexOutcome(cfg, g, i);
      IndexOutcomeStep(cfg, c, i, g);
    }
  }

  /** One fetched page hands the outcome over to the grown cursor. */
  lemma IndexOutcomeStep<R>(cfg: Config<R>, c: Cursor<R>, i: nat, g: Cursor<R>)
    requires Valid(cfg, c) && |c.elements| <= i && HasNext(cfg, c) && g == Grow(cfg, c).cursor
    requires IndexOutcome(cfg, g, i)
    ensures IndexOutcome(cfg, c, i)
  {
    assert GetUpToIndex(cfg, c, i) == GetUpToIndex(cfg, g, i);
  }

  /**
    Indexing fetches only the pages it needs: every page but the last one
    fetched left position `i` uncovered.
  */
  lemma GetUpToIndexMinimal<R>(cfg: Config<R>, c: Cursor<R>, i: nat)
    requires Valid(cfg, c)
    ensures var r := GetUpToIndex(cfg, c, i);
            Fetched(cfg, c) < Fetched(cfg, r) ==> |Buffered(cfg.requester.pages, Fetched(cfg, r) - 1)| <= i
  {
    var r := GetUpToIndex(cfg, c, i);
    GetUpToIndexOutcome(cfg, c, i);
    assert Fetched(cfg, r) == CoverCount(cfg.requester.pages, Fetched(cfg, c), i);
    CoverCountCovers(cfg.requester.pages, Fetched(cfg, c), i);
  }

  /** Two valid cursors that fetched the same pages and carry the same pending parameters are the same. */
  lemma CursorDetermined<R>(cfg: Config<R>, a: Cursor<R>, b: Cursor<R>)
    requires Valid(cfg, a) && Valid(cfg, b)
    requires Fetched(cfg, a) == Fetched(cfg, b) && a.nextParams == b.nextParams
    ensures a == b
  {
  }

  /** The integer index error of a Python list. */
  datatype IndexError = IndexError(index: nat)

  /** What indexing returns: the new cursor and the element or the error. */
  datatype Lookup<R> = Lookup(cursor: Cursor<R>, value: Result<Content<R>, IndexError>)

  /**
    `list[i]` for an integer `i`: grows as far as needed, then reads the
    buffer.  Succeeds exactly for positions of the listing, with the element
    at that position; a buffered position is read with no fetch.
  */
  function GetItem<R>(cfg: Config<R>, c: Cursor<R>, i: nat): (r: Lookup<R>)
    requires Valid(cfg, c)
    ensures Valid(cfg, r.cursor) && c.elements <= r.cursor.elements
    ensures r.cursor == GetUpToIndex(cfg, c, i)
    ensures r.value.Success? <==> i < |AllContent(cfg.requester)|
    ensures r.value.Success? ==> r.value.value == AllContent(cfg.requester)[i]
    ensures r.value.Failure? ==> r.value.error == IndexError(i) && !HasNext(cfg, r.cursor)
    ensures i < |c.elements| ==> r.cursor == c
  {
    var g := GetUpToIndex(cfg, c, i);
    ElementsPrefixOfAll(cfg, g);
    if i < |g.elements| then Lookup(g, Success(g.elements[i])) else Lookup(g, Failure(IndexError(i)))
  }

  /** Indexing the same position again fetches nothing and gives the same answer. */
  lemma GetItemIdempotent<R>(cfg: Config<R>, c: Cursor<R>, i: nat)
    requires Valid(cfg, c)
    ensures GetItem(cfg, GetItem(cfg, c, i).cursor, i) == GetItem(cfg, c, i)
  {
    var g := GetItem(cfg, c, i).cursor;
    if i >= |g.elements| {
      assert GetUpToIndex(cfg, g, i) == g;
    }
  }

  /** Growing to `i` and then to `j` is growing to the larger of the two. */
  lemma {:induction false} GetUpToIndexCompose<R>(cfg: Config<R>, c: Cursor<R>, i: nat, j: nat)
    requires Valid(cfg, c)
    ensures GetUpToIndex(cfg, GetUpToIndex(cfg, c, i), j) == GetUpToIndex(cfg, c, Max(i, j))
    decreases |cfg.requester.pages| - Fetched(cfg, c)
  {
    if |c.elements| <= i && HasNext(cfg, c) {
      GetUpToIndexCompose(cfg, Grow(cfg, c).cursor, i, j);
    } else {
      assert GetUpToIndex(cfg, c, i) == c;
    }
  }

  /** What a consumed iteration leaves: the cursor and the elements yielded. */
  datatype Run<R> = Run(cursor: Cursor<R>, yielded: seq<Content<R>>)

  /** The second loop of `__iter__`: while a next page exists, grow and yield the new elements. */
  function Drain<R>(cfg: Config<R>, c: Cursor<R>): (r: Run<R>)
    requires Valid(cfg, c)
    ensures Valid(cfg, r.cursor) && !HasNext(cfg, r.cursor)
    ensures r.cursor.elements == c.elements + r.yielded
    decreases |cfg.requester.pages| - Fetched(cfg, c)
  {
    if HasNext(cfg, c) then
      var g := Grow(cfg, c);
      var rest := Drain(cfg, g.cursor);
      ConcatAssociative(c.elements, g.added, rest.yielded);
      Run(rest.cursor, g.added + rest.yielded)
    else
      Run(c, [])
  }

  /**
    Full iteration: the buffered elements first, then every newly grown
    page in order, until no next link remains.  Yields the whole listing,
    fetching each remaining page exactly once.
  */
  function Iterate<R>(cfg: Config<R>, c: Cursor<R>): (r: Run<R>)
    requires Valid(cfg, c)
    ensures Valid(cfg, r.cursor) && !HasNext(cfg, r.cursor)
    ensures r.yielded == AllContent(cfg.requester) == r.cursor.elements
    ensures Fetched(cfg, r.cursor) == |cfg.requester.pages|
  {
    var d := Drain(cfg, c);
    Run(d.cursor, c.elements + d.yielded)
  }

  /** The i-th element of a full iteration is the element indexing returns for i, and only those exist. */
  lemma IterationAgreesWithIndexing<R>(cfg: Config<R>, c: Cursor<R>, i: nat)
    requires Valid(cfg, c)
    ensures i < |Iterate(cfg, c).yielded| ==> GetItem(cfg, c, i).value == Success(Iterate(cfg, c).yielded[i])
    ensures |Iterate(cfg, c).yielded| <= i ==> GetItem(cfg, c, i).value == Failure(IndexError(i))
  {
  }

  /**
    The generator's grow loop when the consumer still wants `owed` elements
    beyond the buffer: each grown page is yielded element by element, and
    the generator stays suspended after the last element pulled.  What it
    yields continues the buffer.
  */
  function PullPages<R>(cfg: Config<R>, c: Cursor<R>, owed: nat): (r: Run<R>)
    requires Valid(cfg, c)
    ensures Valid(cfg, r.cursor)
    ensures |r.yielded| <= owed
    ensures c.elements + r.yielded <= r.cursor.elements
    decreases |cfg.requester.pages| - Fetched(cfg, c)
  {
    if owed == 0 || !HasNext(cfg, c) then Run(c, [])
    else
      var g := Grow(cfg, c);
      if owed <= |g.added| then Run(g.cursor, g.added[..owed])
      else
        var rest := PullPages(cfg, g.cursor, owed - |g.added|);
        ConcatAssociative(c.elements, g.added, rest.yielded);
        Run(rest.cursor, g.added + rest.yielded)
  }

  /** A consumer pulls `n` elements (or all there are) from a fresh iteration of the list. */
  function IterTake<R>(cfg: Config<R>, c: Cursor<R>, n: nat): (r: Run<R>)
    requires Valid(cfg, c)
    ensures Valid(cfg, r.cursor)
    ensures r.yielded <= r.cursor.elements
  {
    if n <= |c.elements| then Run(c, c.elements[..n])
    else
      var p := PullPages(cfg, c, n - |c.elements|);
      Run(p.cursor, c.elements + p.yielded)
  }

  /**
    What pulling `owed` more elements does: it fetches pages until position
    `|elements| + owed - 1` is covered or no page remains, and no further;
    nothing changes when nothing is fetched, a fetch drops the pending
    parameters, and the pulled elements number `owed` unless the buffer
    runs short.
  */
  ghost predicate PullOutcome<R>(cfg: Config<R>, c: Cursor<R>, owed: nat)
    requires Valid(cfg, c) && owed > 0
  {
    var r := PullPages(cfg, c, owed);
    && Fetched(cfg, r.cursor) == CoverCount(cfg.requester.pages, Fetched(cfg, c), |c.elements| + owed - 1)
    && (Fetched(cfg, r.cursor) == Fetched(cfg, c) ==> r.cursor == c)
    && (Fetched(cfg, c) < Fetched(cfg, r.cursor) ==> r.cursor.nextParams.None?)
    && |c.elements| + |r.yielded| == Min(|c.elements| + owed, |r.cursor.elements|)
  }

  /** Pulling fetches exactly the pages needed to cover the elements owed. */
  lemma {:induction false} PullPagesOutcome<R>(cfg: Config<R>, c: Cursor<R>, owed: nat)
    requires Valid(cfg, c) && owed > 0
    ensures PullOutcome(cfg, c, owed)
    decreases |cfg.requester.pages| - Fetched(cfg, c)
  {
    if HasNext(cfg, c) {
      var g := Grow(cfg, c);
      if owed > |g.added| {
        PullPagesOutcome(cfg, g.cursor, owed - |g.added|);
        PullOutcomeStep(cfg, c, owed, g);
      } else {
        PullOutcomeLast(cfg, c, owed);
      }
    } else {
      PullOutcomeDone(cfg, c, owed);
    }
  }

  /** With no page left, pulling yields nothing and changes nothing. */
  lemma PullOutcomeDone<R>(cfg: Config<R>, c: Cursor<R>, owed: nat)
    requires Valid(cfg, c) && owed > 0 && !HasNext(cfg, c)
    ensures PullOutcome(cfg, c, owed)
  {
  }

  /** A page that covers the elements still owed is the last one fetched. */
  lemma PullOutcomeLast<R>(cfg: Config<R>, c: Cursor<R>, owed: nat)
    requires Valid(cfg, c) && owed > 0 && HasNext(cfg, c) && owed <= |Grow(cfg, c).added|
    ensures PullOutcome(cfg, c, owed)
  {
  }

  /** A page that falls short hands the outcome over to the grown cursor. */
  lemma PullOutcomeStep<R>(cfg: Config<R>, c: Cursor<R>, owed: nat, g: Fetch<R>)
    requires Valid(cfg, c) && HasNext(cfg, c) && g == Grow(cfg, c) && owed > |g.added|
    requires PullOutcome(cfg, g.cursor, owed - |g.added|)
    ensures PullOutcome(cfg, c, owed)
  {
    assert |g.cursor.elements| + (owed - |g.added|) - 1 == |c.elements| + owed - 1;
  }

  /** Pulling `owed` more elements leaves the list exactly as indexing position `|elements| + owed - 1` does. */
  lemma PullPagesAsIndexing<R>(cfg: Config<R>, c: Cursor<R>, owed: nat)
    requires Valid(cfg, c) && owed > 0
    ensures PullPages(cfg, c, owed).cursor == GetUpToIndex(cfg, c, |c.elements| + owed - 1)
  {
    PullPagesOutcome(cfg, c, owed);
    GetUpToIndexOutcome(cfg, c, |c.elements| + owed - 1);
    var p := PullPages(cfg, c, owed).cursor;
    var g := GetUpToIndex(cfg, c, |c.elements| + owed - 1);
    if Fetched(cfg, p) != Fetched(cfg, c) {
      CursorDetermined(cfg, p, g);
    }
  }

  /** Pulling `owed` more elements stops short of that only when the listing runs out. */
  lemma PullPagesCount<R>(cfg: Config<R>, c: Cursor<R>, owed: nat)
    requires Valid(cfg, c) && owed > 0
    ensures |c.elements| + |PullPages(cfg, c, owed).yielded| == Min(|c.elements| + owed, |AllContent(cfg.requester)|)
  {
    var r := PullPages(cfg, c, owed).cursor;
    PullPagesOutcome(cfg, c, owed);
    CoverCountCovers(cfg.requester.pages, Fetched(cfg, c), |c.elements| + owed - 1);
    ElementsPrefixOfAll(cfg, r);
  }

  /**
    Lazy iteration never fetches ahead of demand: after `n` pulls the list
    is in the state indexing position `n - 1` leaves.
  */
  lemma IterTakeAsIndexing<R>(cfg: Config<R>, c: Cursor<R>, n: nat)
    requires Valid(cfg, c)
    ensures IterTake(cfg, c, n).cursor == if n == 0 then c else GetUpToIndex(cfg, c, n - 1)
  {
    if n > |c.elements| {
      IterTakePullsAsIndexing(cfg, c, n);
    }
  }

  /** Pulls past the buffer leave the list as indexing the last position pulled does. */
  lemma IterTakePullsAsIndexing<R>(cfg: Config<R>, c: Cursor<R>, n: nat)
    requires Valid(cfg, c) && n > |c.elements|
    ensures IterTake(cfg, c, n).cursor == GetUpToIndex(cfg, c, n - 1)
  {
    var owed := n - |c.elements|;
    assert IterTake(cfg, c, n).cursor == PullPages(cfg, c, owed).cursor;
    PullPagesAsIndexing(cfg, c, owed);
  }

  /** The `n` pulled elements are the first `n` of the listing, or all of it when it is shorter. */
  lemma IterTakeYieldsPrefix<R>(cfg: Config<R>, c: Cursor<R>, n: nat)
    requires Valid(cfg, c)
    ensures IterTake(cfg, c, n).yielded == AllContent(cfg.requester)[..Min(n, |AllContent(cfg.requester)|)]
  {
    if n <= |c.elements| {
      IterTakeFromBuffer(cfg, c, n);
    } else {
      IterTakeWithPull(cfg, c, n);
    }
  }

  /** Pulls within the buffer read it and fetch nothing. */
  lemma IterTakeFromBuffer<R>(cfg: Config<R>, c: Cursor<R>, n: nat)
    requires Valid(cfg, c) && n <= |c.elements|
    ensures IterTake(cfg, c, n).yielded == AllContent(cfg.requester)[..Min(n, |AllContent(cfg.requester)|)]
  {
    ElementsPrefixOfAll(cfg, c);
    PrefixTake(c.elements, AllContent(cfg.requester), n);
  }

  /** Pulls past the buffer continue it with the pulled pages' elements. */
  lemma IterTakeWithPull<R>(cfg: Config<R>, c: Cursor<R>, n: nat)
    requires Valid(cfg, c) && n > |c.elements|
    ensures IterTake(cfg, c, n).yielded == AllContent(cfg.requester)[..Min(n, |AllContent(cfg.requester)|)]
  {
    var all := AllContent(cfg.requester);
    var t := IterTake(cfg, c, n);
    PullPagesCount(cfg, c, n - |c.elements|);
    ElementsPrefixOfAll(cfg, t.cursor);
    PrefixTransitive(t.yielded, t.cursor.elements, all);
    PrefixTake(t.yielded, all, |t.yielded|);
  }

  /** The first `n` elements of a prefix are the first `n` of the whole. */
  lemma PrefixTake<T>(a: seq<T>, b: seq<T>, n: nat)
    requires a <= b && n <= |a|
    ensures a[..n] == b[..n]
  {
  }

  /** What `get_page` returns: the request sent, the parameters computed but not sent, and the elements. */
  datatype PageFetch<R> = PageFetch(request: Request, unsentParams: Params, content: seq<Content<R>>)

  /**
    `get_page(page)` as written: computes parameters with `page + 1` but
    requests the first URL with the first parameters, so it returns the
    first page's elements whatever the page number.  It takes no cursor:
    the buffer and the next locator are untouched.
  */
  function GetPage<R>(cfg: Config<R>, page: nat): (r: PageFetch<R>)
    requires ValidConfig(cfg)
    ensures r.request == Request("GET", cfg.firstUrl, cfg.firstParams)
    ensures r.content == Buffered(cfg.requester.pages, 1)
    ensures page != 0 ==> "page" in r.unsentParams && r.unsentParams["page"] == IntParam(page + 1)
  {
    var params := if page != 0 then cfg.firstParams["page" := IntParam(page + 1)] else cfg.firstParams;
    var request := Request("GET", cfg.firstUrl, cfg.firstParams);
    PageIndexOfLocator(cfg.requester, 0);
    PageFetch(request, params, PageContent(Serve(cfg.requester, request.url).value.records))
  }

  /** The page number has no influence on what `get_page` requests or returns. */
  lemma GetPageIgnoresNumber<R>(cfg: Config<R>, p: nat, q: nat)
    requires ValidConfig(cfg)
    ensures GetPage(cfg, p).request == GetPage(cfg, q).request
    ensures GetPage(cfg, p).content == GetPage(cfg, q).content
  {
  }

  /** Once no next link remains, no public path fetches again. */
  lemma ExhaustedIsFinal<R>(cfg: Config<R>, c: Cursor<R>, i: nat, n: nat)
    requires Valid(cfg, c) && !HasNext(cfg, c)
    ensures GetUpToIndex(cfg, c, i) == c
    ensures GetItem(cfg, c, i).cursor == c
    ensures Iterate(cfg, c).cursor == c
    ensures IterTake(cfg, c, n).cursor == c
  {
  }

  lemma PrefixTransitive<T>(a: seq<T>, b: seq<T>, c: seq<T>)
    requires a <= b && b <= c
    ensures a <= c
  {
  }

  lemma ConcatAssociative<T>(a: seq<T>, b: seq<T>, c: seq<T>)
    ensures (a + b) + c == a + (b + c)
  {
  }

  function Min(a: int, b: int): int {
    if a < b then a else b
  }

  function Max(a: int, b: int): int {
    if a < b then b else a
  }
}

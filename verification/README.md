# Paginated list of canvasapi, modelled in Dafny

canvasapi's `PaginatedList` presents one paginated Canvas listing as a lazy,
indexable and iterable sequence. It keeps three things:

- a buffer of the elements fetched so far;
- the locator of the next page (`next_url`), or none once the last page has been read;
- the query parameters fixed at construction (`first_params`).

The list fetches a page only when integer indexing, iteration or a slice view
needs it. After each page it follows the response's `next` link. The base URL
of the requester is stripped from that link, and null records are dropped.

This project models that core as pure functions over immutable values:

- `Links` (`links.dfy`): how a `next` link is reduced against the base URL.
  The model takes the leftmost occurrence of the base URL, then captures the
  text up to the next newline. A link without the base URL is an explicit
  failure.
- `Remote` (`remote.dfy`): the listing the requester serves. It is a finite
  chain of pages, each with a locator, raw records (some of them null) and an
  optional `next` link. `WellFormed` says that every page but the last links
  to its successor. The module also holds the element filter and the buffer
  of the first `k` pages.
- `Paginated` (`paginated_list.dfy`): the list itself.
  - `Config` holds what construction fixes; `Cursor` holds what the list accumulates.
  - `Valid` is the invariant that ties the buffer to the pages fetched so far.
  - The operations are construction, `_has_next`, `_get_next_page`, `_grow`,
    `_is_larger_than`, `__get_up_to_index`, integer `__getitem__`,
    `__iter__` (run to the end, or pulled `n` elements at a time) and `get_page`.
- `Slices` (`slices.dfy`): slice subscripts and the nested `_Slice` view. It
  covers the view's construction, its end test and its iterator.

`Wrappers` (`wrappers.dfy`) provides `Option` and `Result`.

A generator in the source is modelled by the state it leaves and the values
it has produced:

- `Iterate` is a full iteration.
- `IterTake` stands for a consumer that pulls `n` elements.
- `SliceFrom` is a slice view iterated to its end.

## Model

| member | source | states |
|---|---|---|
| Paginated.FirstParams | paginated_list.py:15-16 | The page request parameters are the keyword arguments plus `per_page`. `per_page` keeps the caller's value, or defaults to 10. No other key is added or changed. |
| Paginated.Construct | paginated_list.py:9-18 | As written: construction fails exactly when no keyword arguments are given. Otherwise the buffer is empty, the next locator is the first URL, and `per_page` is the caller's value or 10. |
| Paginated.EmptyKwargsRejected | paginated_list.py:15-16 | As written: with no keyword arguments, `()` receives an item assignment and construction raises. |
| Paginated.New | paginated_list.py:9-18 | As intended (`kwargs or {}`): construction always succeeds. The buffer is empty, the next locator is the first URL, and the parameters are the keyword arguments plus `per_page` (default 10). |
| Paginated.ConstructAgreesWithNew | paginated_list.py:15-18 | Wherever the written constructor succeeds, it builds the same list as the intended one. |
| Paginated.NewIsValid | paginated_list.py:9-18 | A new list over a listing that starts at its first URL satisfies the list invariant and has fetched no page. |
| Paginated.Fetched | paginated_list.py:17 | The next locator, when present, is the locator of the first page not yet fetched. |
| Paginated.HasNext | paginated_list.py:58-59 | A next page exists exactly when some page of the listing has not been fetched. |
| Paginated.ExhaustedHoldsAll | paginated_list.py:58-59 | Once no next locator remains, the buffer holds every element of the listing. |
| Paginated.ElementsPrefixOfAll | paginated_list.py:53-56 | The buffer is always a prefix of the whole listing. |
| Paginated.GetNextPage | paginated_list.py:61-82 | One fetch requests the next locator with the first parameters, whatever the pending parameters are. It moves the next locator to the reduced `next` link, or to none after the last page. It clears the pending parameters, returns the page's non-null records as elements, and leaves the buffer alone. |
| Paginated.Grow | paginated_list.py:53-56 | Growing fetches exactly one more page. It appends that page's elements to the buffer and returns only those, keeps the invariant, and requests with the first parameters. |
| Paginated.IsLargerThan | paginated_list.py:36-37 | The answer is true exactly when the position is buffered or some page has not been fetched. |
| Paginated.NotLargerIsBeyondEnd | paginated_list.py:36-37 | A false answer is final: the position lies at or past the end of the whole listing. |
| Paginated.GetUpToIndex | paginated_list.py:39-41 | The buffer only grows, by appending. Afterwards the position is covered or no page remains. A position already buffered fetches nothing. |
| Paginated.GetUpToIndexOutcome | paginated_list.py:39-41 | Growing to a position fetches exactly the number of pages the coverage count gives. With no fetch the list is unchanged; after a fetch the pending parameters are gone. |
| Paginated.GetUpToIndexMinimal | paginated_list.py:39-41 | Growing stops as soon as the position is covered: the pages fetched before the last one did not cover it. |
| Paginated.CursorDetermined | paginated_list.py:53-59 | A valid list state is determined by the number of pages fetched and the pending parameters. |
| Paginated.GetItem | paginated_list.py:20-24 | `list[i]` leaves the list exactly as growing to position `i` does, so it fetches only up to the page that covers `i`. It succeeds exactly for positions of the listing, with the listing's element at `i`. Otherwise it raises IndexError, labelled with `i` in the model, and only after every page has been fetched. A buffered position fetches nothing. |
| Paginated.GetItemIdempotent | paginated_list.py:20-24 | Indexing a position again fetches nothing and returns the same answer. |
| Paginated.GetUpToIndexCompose | paginated_list.py:39-41 | Growing to `i` and then to `j` leaves the list as growing to the larger of the two. |
| Paginated.Drain | paginated_list.py:31-34 | The grow loop of `__iter__` ends with no page left. What it yields is exactly what it appended to the buffer. |
| Paginated.Iterate | paginated_list.py:28-34 | A full iteration yields the whole listing in order. That sequence is also the final buffer, and every page has been fetched. |
| Paginated.IterationAgreesWithIndexing | paginated_list.py:20-34 | Element `i` of a full iteration is what `list[i]` returns. Indexing past the iteration's length raises IndexError. |
| Paginated.PullPages | paginated_list.py:31-34 | Pulling up to `owed` more elements yields at most `owed` of them. The yielded elements continue the old buffer inside the new one. |
| Paginated.IterTake | paginated_list.py:28-34 | The elements pulled from an iteration are a prefix of the resulting buffer. |
| Paginated.PullPagesOutcome | paginated_list.py:31-34 | Pulling fetches exactly the pages needed to cover the elements owed, and yields them unless the listing runs out. |
| Paginated.PullPagesAsIndexing | paginated_list.py:31-41 | Pulling `owed` elements past the buffer leaves the same list as indexing the last position pulled. |
| Paginated.PullPagesCount | paginated_list.py:31-34 | Pulling yields `owed` elements, or every remaining element when fewer remain. |
| Paginated.IterTakeAsIndexing | paginated_list.py:28-41 | Lazy iteration never fetches ahead of demand. After `n` pulls the list is exactly as indexing position `n - 1` leaves it. |
| Paginated.IterTakeYieldsPrefix | paginated_list.py:28-34 | `n` pulls yield the first `n` elements of the listing, or all of them if there are fewer. |
| Paginated.GetPage | paginated_list.py:84-99 | As written: the request always goes to the first URL with the first parameters. The elements are the first page's, and `page + 1` is computed but never sent. No cursor is taken, so the list state is untouched. |
| Paginated.GetPageIgnoresNumber | paginated_list.py:84-99 | Two page numbers give the same request and the same elements. |
| Paginated.ExhaustedIsFinal | paginated_list.py:28-41 | Once no next link remains, indexing, growing and both kinds of iteration leave the list unchanged. |
| Remote.PageContent | paginated_list.py:77-80 | Filtering yields at most one element per record. |
| Remote.PageContentMembers | paginated_list.py:77-80 | Every element comes from a non-null record, and every non-null record yields one. |
| Remote.PageContentAppend | paginated_list.py:77-80 | Filtering distributes over concatenation, so the order of records is kept. |
| Remote.PageContentCount | paginated_list.py:77-80 | The number of elements is the number of non-null records. |
| Remote.PageContentNoNulls | paginated_list.py:77-80 | A page without nulls yields one element per record, in the same positions. |
| Remote.ServeFindsPage | paginated_list.py:62-67 | The requester answers exactly the locators of the listing's pages, with one of those pages. |
| Remote.PageIndexOfLocator | paginated_list.py:62-67 | With distinct locators, requesting page `k`'s locator answers page `k`. |
| Remote.CoverCountCovers | paginated_list.py:39-41 | The page count that growing reaches covers the position, unless every page is fetched. The page before the last one counted did not cover it. |
| Remote.BufferedPrefix | paginated_list.py:53-56 | The elements of fewer pages are a prefix of the elements of more pages. |
| Remote.ChainWellFormed | paginated_list.py:70-73 | At least one page with pairwise distinct one-line locators, each page's `next` link being the base URL followed by its successor's locator and the last page having none, forms a well-formed listing. |
| Links.FindFromLeftmost | paginated_list.py:71-73 | The pattern search finds the leftmost occurrence of the base URL, and fails only when there is none. |
| Links.AfterBase | paginated_list.py:71-73 | The group captured after the base URL is at most as long as the link minus the base URL, and it contains no newline. |
| Links.AfterBaseMatches | paginated_list.py:71-73 | The capture is absent exactly when the base URL does not occur in the link. Otherwise it is the rest of the line after the leftmost occurrence. |
| Links.ReduceNextLink | paginated_list.py:70-73 | No `next` link gives no next locator. A link containing the base URL gives the capture. A link without it fails. |
| Links.ReduceNextLinkFails | paginated_list.py:70-73 | Reduction fails exactly for a present link in which the base URL never occurs. |
| Links.StripPrefixedLocator | paginated_list.py:70-73 | A link made of the base URL followed by a one-line locator reduces back to that locator. |
| Links.PrefixReducedLink | paginated_list.py:70-73 | A one-line link that starts with the base URL is the base URL followed by its reduction. |
| Links.LineHeadOfLine | paginated_list.py:71 | `(.*)` captures a string without newlines whole. |
| Slices.MakeView | paginated_list.py:101-106 | A view starts at the slice's start, or at 0 when the start is absent or 0. It keeps the slice's stop. Its stride is the slice's step when that is non-zero, and 1 when the step is absent or 0, so the stride is always positive. |
| Slices.Subscript | paginated_list.py:20-26 | An integer subscript is exactly integer indexing: it grows the list only until the position is covered, and succeeds exactly inside the listing, with that element. A slice subscript builds exactly the view of its slice: it starts at `start or 0`, strides by `step or 1` and keeps the stop. |
| Slices.WalkEnd | paginated_list.py:108-118 | The walk's end lies at or after its start, and the stop finishes it or it lies at or past the listing's end. If the walk moved at all, the end is at least one stride past the start, and the position one stride before the end lies inside the listing and is not finished. That the end is a stride position is stated by Slices.ExpectedClosedForm. |
| Slices.ExpectedClosedForm | paginated_list.py:108-115 | Element `k` of the expected slice is the listing's element at `start + k * step`. The walk's end is `start + length * step`. |
| Slices.SliceIter | paginated_list.py:108-118 | Iterating a view from its start yields the listing's elements at `start, start + step, ...`, up to the stop or the listing's end. On an exhausted list it fetches nothing and does not raise. |
| Slices.SliceFrom | paginated_list.py:108-118 | As written: the iterator keeps the list invariant. |
| Slices.ExpectedBeforeStop | paginated_list.py:108-118 | With a stop, every position the walk reads lies before the stop. |
| Slices.SliceFromSpec | paginated_list.py:108-118 | The written iterator yields the listing's elements at the walk's positions. On an exhausted list, or with a stop inside the buffer, it yields the buffer's elements at those positions, fetches nothing and does not raise. |
| Slices.SliceRaises | paginated_list.py:108-115 | As written: the iteration raises IndexError exactly when the walk ends at a position past the listing that the stop does not finish, while a next page is pending. In the model the error is labelled with that position. |
| Slices.SliceFromPastEndRaises | paginated_list.py:108-115 | As written: a position at or past the end, on a list that still has a next page, raises IndexError instead of ending the slice. |
| Slices.EmptyListingSliceRaises | paginated_list.py:101-115 | As written: `list[:]` over a fresh list of one empty page raises IndexError(0). |
| Slices.SliceIntendedFrom | paginated_list.py:108-115 | As intended: the iterator keeps the list invariant and never raises. |
| Slices.SliceIntendedOutcome | paginated_list.py:108-118 | As intended: the iterator yields exactly the listing's elements at the walk's positions. It reads only as far as the walk needs: up to the last position read when the bound ends the walk, and up to the walk's end otherwise. |
| Slices.SliceAgreesWithIntended | paginated_list.py:108-115 | The written and the intended iterators yield the same elements and leave the list in the same state. They differ only in whether they raise. |

## Left out

- HTTP transport, JSON decoding and response headers are not modelled.
  - The requester is a fixed `Server` that answers a locator with its page.
  - Transport errors and a missing page are left out, because a well-formed listing always answers.
  - The server is assumed to ignore query parameters. Every request of one list carries the same `first_params`, so the parameters cannot change which page comes back.
- `content_class(requester, record)` is replaced by an injective constructor `Content(record)`. The element classes are outside this core.
- `_get_last_page_url` (lines 43-51) is not modelled. Nothing calls it, and it reads an attribute `__url` that the class never sets.
- The `assert isinstance(index, (int, slice))` at line 21 is not modelled for subscripts of other types, such as strings or floats. A `Key` is an integer or a slice. The model assumes the Python 2 interpreter that line 22 requires, since `long` does not exist in Python 3.
- Paginated.GetItem, Slices.Subscript, Slices.SliceFrom: integer width is not modelled, because positions are unbounded `nat`. Under Python 2 on a 64-bit build, a position above `sys.maxint` (2**63 - 1) is a `long`, so the assert at line 21 raises AssertionError before any fetch. Examples are `list[2**63]`, or a slice walk whose `index += step` at line 113 passes `sys.maxint`. The model instead grows to exhaustion and returns the element or IndexError.
- Negative indices, bounds and steps are left out, because positions are `nat`. Python resolves a negative integer index against the current buffer, with no fetch. A negative slice step would make the source's walk run downwards, and a negative start or stop would be compared literally.
- Paginated.Construct, Paginated.New: the `request_method` argument (line 9) is accepted and never used, since every request is a GET (lines 63 and 90). The model does not take it, and every `Request` has the verb "GET".
- Paginated.IterTake, Paginated.PullPages: the interleaving of a suspended generator with other operations on the same list is not modelled. Each pull sequence is taken to run without other calls in between.
- Listing shape: a listing whose `next` link lacks the base URL raises AttributeError at line 73. The list operations assume a well-formed listing, and the failure itself is modelled only by Links.ReduceNextLink and Links.ReduceNextLinkFails. In the source, line 68 has already set `next_url` to None when line 73 raises. The list is then silently exhausted, and the records of the page just fetched are never added to the buffer. This state is not modelled. The model also requires distinct locators and a chain that ends. If a `next` link led back to an earlier page, the source would loop forever in `__iter__` (lines 31-34) and in `__get_up_to_index` (lines 40-41). The model's termination arguments rely on excluding that case.
- Error payloads: in the model, `IndexError(i)` and `NoBaseInLink(url)` carry the position or the link only as a label. The source's IndexError at line 24 is Python's `list index out of range` with no index. Its AttributeError at line 73 comes from calling `group` on `None`, and does not carry the link.
- Paginated.GetPage: The name `get_page` and the computed `page + 1` suggest random access to page N, but the code always requests the first URL with the first parameters, whatever the page number. The model follows the code, so it does not fetch page N.

## Findings

| source | as written | input that shows it | evidently intended | confidence | as-written member | corrected member |
|---|---|---|---|---|---|---|
| paginated_list.py:15-16 | `self.__first_params = kwargs or ()`, followed by an item assignment to `per_page` | a list built with no keyword arguments: `()` does not support item assignment, so the constructor raises TypeError | `kwargs or {}`: the parameters become `{'per_page': 10}` | high (not executed) | Paginated.Construct, Paginated.EmptyKwargsRejected | Paginated.New, Paginated.NewIsValid, Paginated.ConstructAgreesWithNew |
| paginated_list.py:108-115 | the slice iterator yields `self.__list[index]` whenever `_is_larger_than(index)` is true, and that holds as long as any next page is pending | a fresh list over a listing of one empty page, iterated as `list[:]`: `_is_larger_than(0)` is true, the fetch reveals no elements, and `list[0]` raises IndexError(0) | the slice ends silently once indexing shows the position to lie past the end, as it does when `_is_larger_than` is false | medium (not executed) | Slices.SliceFrom, Slices.SliceRaises, Slices.EmptyListingSliceRaises | Slices.SliceIntendedFrom, Slices.SliceIntendedOutcome |

/**
  Slice views over a paginated list.  `list[a:b:s]` builds a view without
  fetching anything; iterating the view walks the positions `start,
  start + step, ...`, reading each through integer indexing, and stops at
  `stop` or when the list reports nothing at or past the position.
  Indices, bounds and steps are non-negative.
*/
module Slices {
  import opened Wrappers
  import opened Remote
  import opened Paginated

  /** A slice object: each bound may be absent. */
  datatype SliceKey = SliceKey(start: Option<nat>, stop: Option<nat>, step: Option<nat>)

  /** A subscript: an integer position or a slice. */
  datatype Key = Point(index: nat) | Range(slice: SliceKey)

  /** A slice view: first position, optional end, and stride. */
  datatype View = View(start: nat, stop: Option<nat>, step: nat)

  /** Python's `x or d` on an optional count: absent and zero are both falsy. */
  function OrDefault(x: Option<nat>, d: nat): (r: nat)
    ensures x.Some? && x.value != 0 ==> r == x.value
    ensures x.None? || x.value == 0 ==> r == d
  {
    if x.Some? && x.value != 0 then x.value else d
  }

  /** The view of a slice: starts at `start or 0` and strides by `step or 1`, so the stride is positive. */
  function MakeView(k: SliceKey): (v: View)
    ensures v.step > 0 && v.stop == k.stop
    ensures v.start == if k.start.Some? then k.start.value else 0
    ensures k.step.Some? && k.step.value != 0 ==> v.step == k.step.value
    ensures v.step == 1 <==> k.step.None? || k.step.value <= 1
  {
    View(OrDefault(k.start, 0), k.stop, OrDefault(k.step, 1))
  }

  /** What a subscript returns: an element lookup, or a view that has fetched nothing. */
  datatype Subscripted<R> = Item(lookup: Lookup<R>) | Sliced(view: View)

  /**
    `list[key]`: an integer reads through indexing; a slice only builds its
    view and leaves the list untouched.
  */
  function Subscript<R>(cfg: Config<R>, c: Cursor<R>, key: Key): (r: Subscripted<R>)
    requires Valid(cfg, c)
    ensures key.Range? <==> r.Sliced?
    ensures r.Sliced? ==> r.view == MakeView(key.slice)
    ensures r.Sliced? ==> r.view.step > 0 && r.view.stop == key.slice.stop
    ensures r.Item? ==> r.lookup == GetItem(cfg, c, key.index)
    ensures r.Item? ==> Valid(cfg, r.lookup.cursor)
    ensures r.Item? ==> (r.lookup.value.Success? <==> key.index < |AllContent(cfg.requester)|)
    ensures r.Item? && r.lookup.value.Success? ==> r.lookup.value.value == AllContent(cfg.requester)[key.index]
  {
    match key
    case Point(i) => Item(GetItem(cfg, c, i))
    case Range(s) => Sliced(MakeView(s))
  }

  /** Whether the walk has reached the end of the view. */
  predicate Finished(v: View, index: nat) {
    v.stop.Some? && index >= v.stop.value
  }

  /**
    Where the walk from `index` ends over a listing of `n` elements: the
    first position the bound finishes or that lies at or past the end.
  */
  function WalkEnd(n: nat, v: View, index: nat): (e: nat)
    requires v.step > 0
    ensures index <= e && (Finished(v, e) || n <= e)
    ensures index < e ==> index + v.step <= e && e - v.step < n && !Finished(v, e - v.step)
    decreases n - index
  {
    if Finished(v, index) || n <= index then index else WalkEnd(n, v, index + v.step)
  }

  /** The elements the view should produce from `index`: the listing's elements at the walk's positions. */
  function Expected<T>(all: seq<T>, v: View, index: nat): seq<T>
    requires v.step > 0
    decreases |all| - index
  {
    if Finished(v, index) || |all| <= index then [] else [all[index]] + Expected(all, v, index + v.step)
  }

  /** Element k of the expected slice is the listing's element at `index + k * step`, up to the walk's end. */
  lemma {:induction false} ExpectedClosedForm<T>(all: seq<T>, v: View, index: nat)
    requires v.step > 0
    ensures index + |Expected(all, v, index)| * v.step == WalkEnd(|all|, v, index)
    ensures forall k :: 0 <= k < |Expected(all, v, index)| ==>
              index + k * v.step < |all| && Expected(all, v, index)[k] == all[index + k * v.step]
    decreases |all| - index
  {
    if !Finished(v, index) && index < |all| {
      var rest := Expected(all, v, index + v.step);
      ExpectedClosedForm(all, v, index + v.step);
      forall k | 1 <= k < |rest| + 1
        ensures index + k * v.step == (index + v.step) + (k - 1) * v.step
      {
        assert k * v.step == v.step + (k - 1) * v.step;
      }
      assert index + (|rest| + 1) * v.step == (index + v.step) + |rest| * v.step;
    }
  }

  /** With a stop, every position the walk reads lies before it. */
  lemma {:induction false} ExpectedBeforeStop<T>(all: seq<T>, v: View, index: nat)
    requires v.step > 0 && v.stop.Some?
    ensures forall k :: 0 <= k < |Expected(all, v, index)| ==> index + k * v.step < v.stop.value
    decreases |all| - index
  {
    if !Finished(v, index) && index < |all| {
      var rest := Expected(all, v, index + v.step);
      ExpectedBeforeStop(all, v, index + v.step);
      assert |Expected(all, v, index)| == |rest| + 1;
      forall k | 1 <= k < |rest| + 1
        ensures index + k * v.step < v.stop.value
      {
        assert k * v.step == v.step + (k - 1) * v.step;
      }
    }
  }

  /** The list as left after reading position `last` (or untouched when nothing was read). */
  function ReadTo<R>(cfg: Config<R>, c: Cursor<R>, last: Option<nat>): Cursor<R>
    requires Valid(cfg, c)
  {
    match last
    case None => c
    case Some(i) => GetUpToIndex(cfg, c, i)
  }

  /** The last position a walk from `index` to `e` reads, if any. */
  function LastRead(v: View, index: nat, e: nat): Option<nat>
    requires v.step > 0
  {
    if e <= index || e < v.step then None else Some(e - v.step)
  }

  /** How a slice iteration ends: normally, or with the IndexError of integer indexing. */
  datatype Outcome = Completed | Raised(error: IndexError)

  /** What iterating a view leaves: the list's cursor, the elements produced, and how it ended. */
  datatype SliceRun<R> = SliceRun(cursor: Cursor<R>, yielded: seq<Content<R>>, outcome: Outcome)

  /**
    The view's iterator as written, from position `index`: stop when
    finished, stop silently when the list is not larger than the position,
    and otherwise read the position through indexing, which raises when
    growing reveals the position to lie past the end.
  */
  function SliceFrom<R>(cfg: Config<R>, c: Cursor<R>, v: View, index: nat): (r: SliceRun<R>)
    requires Valid(cfg, c) && v.step > 0
    ensures Valid(cfg, r.cursor)
    decreases |AllContent(cfg.requester)| - index
  {
    if Finished(v, index) || !IsLargerThan(cfg, c, index) then SliceRun(c, [], Completed)
    else
      var l := GetItem(cfg, c, index);
      match l.value
      case Failure(err) => SliceRun(l.cursor, [], Raised(err))
      case Success(x) =>
        var rest := SliceFrom(cfg, l.cursor, v, index + v.step);
        SliceRun(rest.cursor, [x] + rest.yielded, rest.outcome)
  }

  /**
    Iterating a slice view from its start: the listing's elements at
    `start, start + step, ...` before the stop, and on an exhausted list no
    fetch and no raise.
  */
  function SliceIter<R>(cfg: Config<R>, c: Cursor<R>, v: View): (r: SliceRun<R>)
    requires Valid(cfg, c) && v.step > 0
    ensures Valid(cfg, r.cursor)
    ensures r.yielded == Expected(AllContent(cfg.requester), v, v.start)
    ensures !HasNext(cfg, c) ==> r.cursor == c && r.outcome == Completed
  {
    SliceFromSpec(cfg, c, v, v.start);
    SliceFrom(cfg, c, v, v.start)
  }

  /**
    The iterator as evidently intended: a position found past the end
    after growing ends the iteration silently, as the list's own "not
    larger" check does.
  */
  function SliceIntendedFrom<R>(cfg: Config<R>, c: Cursor<R>, v: View, index: nat): (r: Run<R>)
    requires Valid(cfg, c) && v.step > 0
    ensures Valid(cfg, r.cursor)
    decreases |AllContent(cfg.requester)| - index
  {
    if Finished(v, index) then Run(c, [])
    else
      var l := GetItem(cfg, c, index);
      match l.value
      case Failure(_) => Run(l.cursor, [])
      case Success(x) =>
        var rest := SliceIntendedFrom(cfg, l.cursor, v, index + v.step);
        Run(rest.cursor, [x] + rest.yielded)
  }

  /**
    What the intended iterator does: it produces exactly the expected
    elements and reads only as far as the walk needs; the position that
    ends the walk is read too unless the bound ended it.
  */
  ghost predicate IntendedOutcome<R>(cfg: Config<R>, c: Cursor<R>, v: View, index: nat)
    requires Valid(cfg, c) && v.step > 0
  {
    var r := SliceIntendedFrom(cfg, c, v, index);
    var e := WalkEnd(|AllContent(cfg.requester)|, v, index);
    && r.yielded == Expected(AllContent(cfg.requester), v, index)
    && r.cursor == if Finished(v, e) then ReadTo(cfg, c, LastRead(v, index, e)) else GetUpToIndex(cfg, c, e)
  }

  /** The intended iterator yields the listing's elements at the walk's positions and fetches no further. */
  lemma {:induction false} SliceIntendedOutcome<R>(cfg: Config<R>, c: Cursor<R>, v: View, index: nat)
    requires Valid(cfg, c) && v.step > 0
    ensures IntendedOutcome(cfg, c, v, index)
    decreases |AllContent(cfg.requester)| - index, 1
  {
    if Finished(v, index) {
      IntendedOutcomeStop(cfg, c, v, index);
    } else {
      IntendedOutcomeOnRead(cfg, c, v, index);
    }
  }

  /** The intended outcome at a position the walk reads. */
  lemma {:induction false} IntendedOutcomeOnRead<R>(cfg: Config<R>, c: Cursor<R>, v: View, index: nat)
    requires Valid(cfg, c) && v.step > 0 && !Finished(v, index)
    ensures IntendedOutcome(cfg, c, v, index)
    decreases |AllContent(cfg.requester)| - index, 0
  {
    var g := GetUpToIndex(cfg, c, index);
    if index < |AllContent(cfg.requester)| {
      SliceIntendedOutcome(cfg, g, v, index + v.step);
      IntendedOutcomeStep(cfg, c, v, index, g);
    } else {
      IntendedOutcomeLast(cfg, c, v, index);
    }
  }

  /** A finished walk produces nothing and reads nothing. */
  lemma IntendedOutcomeStop<R>(cfg: Config<R>, c: Cursor<R>, v: View, index: nat)
    requires Valid(cfg, c) && v.step > 0 && Finished(v, index)
    ensures IntendedOutcome(cfg, c, v, index)
  {
    assert WalkEnd(|AllContent(cfg.requester)|, v, index) == index;
  }

  /** A position past the end ends the intended walk after reading it. */
  lemma IntendedOutcomeLast<R>(cfg: Config<R>, c: Cursor<R>, v: View, index: nat)
    requires Valid(cfg, c) && v.step > 0 && !Finished(v, index) && |AllContent(cfg.requester)| <= index
    ensures IntendedOutcome(cfg, c, v, index)
  {
    assert WalkEnd(|AllContent(cfg.requester)|, v, index) == index;
  }

  /** A position inside the listing hands the outcome over to the rest of the walk. */
  lemma IntendedOutcomeStep<R>(cfg: Config<R>, c: Cursor<R>, v: View, index: nat, g: Cursor<R>)
    requires Valid(cfg, c) && v.step > 0 && !Finished(v, index) && index < |AllContent(cfg.requester)|
    requires g == GetUpToIndex(cfg, c, index)
    ensures IntendedOutcome(cfg, g, v, index + v.step) ==> IntendedOutcome(cfg, c, v, index)
  {
    var n := |AllContent(cfg.requester)|;
    var e := WalkEnd(n, v, index + v.step);
    assert WalkEnd(n, v, index) == e;
    SliceIntendedUnfold(cfg, c, v, index, g);
    ReadToShift(cfg, c, v, index, e, g);
    GetUpToIndexCompose(cfg, c, index, e);
  }

  /** Reading a position inside the listing passes the intended walk on to the next position. */
  lemma SliceIntendedUnfold<R>(cfg: Config<R>, c: Cursor<R>, v: View, index: nat, g: Cursor<R>)
    requires Valid(cfg, c) && v.step > 0 && !Finished(v, index) && index < |AllContent(cfg.requester)|
    requires g == GetUpToIndex(cfg, c, index)
    ensures var rest := SliceIntendedFrom(cfg, g, v, index + v.step);
            SliceIntendedFrom(cfg, c, v, index) == Run(rest.cursor, [AllContent(cfg.requester)[index]] + rest.yielded)
  {
    assert GetItem(cfg, c, index).cursor == g;
  }

  /** Reading up to `index` first does not change where the rest of the walk leaves the list. */
  lemma ReadToShift<R>(cfg: Config<R>, c: Cursor<R>, v: View, index: nat, e: nat, g: Cursor<R>)
    requires Valid(cfg, c) && v.step > 0 && index + v.step <= e
    requires g == GetUpToIndex(cfg, c, index)
    ensures ReadTo(cfg, c, LastRead(v, index, e)) == ReadTo(cfg, g, LastRead(v, index + v.step, e))
  {
    if index + v.step < e {
      assert LastRead(v, index, e) == LastRead(v, index + v.step, e) == Some(e - v.step);
      GetUpToIndexCompose(cfg, c, index, e - v.step);
    } else {
      assert LastRead(v, index, e) == Some(index) && LastRead(v, index + v.step, e) == None;
    }
  }

  /** The written and the intended iterators produce the same elements and leave the list alike. */
  ghost predicate Agreement<R>(cfg: Config<R>, c: Cursor<R>, v: View, index: nat)
    requires Valid(cfg, c) && v.step > 0
  {
    && SliceFrom(cfg, c, v, index).yielded == SliceIntendedFrom(cfg, c, v, index).yielded
    && SliceFrom(cfg, c, v, index).cursor == SliceIntendedFrom(cfg, c, v, index).cursor
  }

  /** The written and the intended iterators produce the same elements and leave the list alike. */
  lemma {:induction false} SliceAgreesWithIntended<R>(cfg: Config<R>, c: Cursor<R>, v: View, index: nat)
    requires Valid(cfg, c) && v.step > 0
    ensures Agreement(cfg, c, v, index)
    decreases |AllContent(cfg.requester)| - index
  {
    if !Finished(v, index) && index < |AllContent(cfg.requester)| {
      var g := GetUpToIndex(cfg, c, index);
      SliceAgreesWithIntended(cfg, g, v, index + v.step);
      AgreementStep(cfg, c, v, index, g);
    } else {
      AgreementStop(cfg, c, v, index);
    }
  }

  /** At a finished position, or one past the listing, both iterators stop with the same list. */
  lemma AgreementStop<R>(cfg: Config<R>, c: Cursor<R>, v: View, index: nat)
    requires Valid(cfg, c) && v.step > 0
    requires Finished(v, index) || |AllContent(cfg.requester)| <= index
    ensures SliceFrom(cfg, c, v, index).yielded == SliceIntendedFrom(cfg, c, v, index).yielded == []
    ensures Agreement(cfg, c, v, index)
  {
    if !Finished(v, index) && !IsLargerThan(cfg, c, index) {
      assert GetUpToIndex(cfg, c, index) == c;
    }
  }

  /** A position inside the listing hands the agreement over to the rest of the walk. */
  lemma AgreementStep<R>(cfg: Config<R>, c: Cursor<R>, v: View, index: nat, g: Cursor<R>)
    requires Valid(cfg, c) && v.step > 0 && !Finished(v, index) && index < |AllContent(cfg.requester)|
    requires g == GetUpToIndex(cfg, c, index)
    ensures Agreement(cfg, g, v, index + v.step) ==> Agreement(cfg, c, v, index)
  {
    SliceFromUnfold(cfg, c, v, index, g);
    SliceIntendedUnfold(cfg, c, v, index, g);
  }

  /**
    When the written iterator raises: exactly when the walk ends at a
    position the bound does not finish while the list read so far still
    has a next page; the error is labelled with that position.
  */
  ghost predicate RaiseOutcome<R>(cfg: Config<R>, c: Cursor<R>, v: View, index: nat)
    requires Valid(cfg, c) && v.step > 0
  {
    var r := SliceFrom(cfg, c, v, index);
    var e := WalkEnd(|AllContent(cfg.requester)|, v, index);
    && (r.outcome.Raised? <==> !Finished(v, e) && HasNext(cfg, ReadTo(cfg, c, LastRead(v, index, e))))
    && (r.outcome.Raised? ==> r.outcome.error == IndexError(e))
  }

  /** The written iterator raises exactly at a walk end past the listing that a pending page hides. */
  lemma {:induction false} SliceRaises<R>(cfg: Config<R>, c: Cursor<R>, v: View, index: nat)
    requires Valid(cfg, c) && v.step > 0
    ensures RaiseOutcome(cfg, c, v, index)
    decreases |AllContent(cfg.requester)| - index, 1
  {
    if !Finished(v, index) && IsLargerThan(cfg, c, index) {
      SliceRaisesOnRead(cfg, c, v, index);
    } else {
      RaiseOutcomeStop(cfg, c, v, index);
    }
  }

  /** The raise condition at a position the written walk reads. */
  lemma {:induction false} SliceRaisesOnRead<R>(cfg: Config<R>, c: Cursor<R>, v: View, index: nat)
    requires Valid(cfg, c) && v.step > 0 && !Finished(v, index) && IsLargerThan(cfg, c, index)
    ensures RaiseOutcome(cfg, c, v, index)
    decreases |AllContent(cfg.requester)| - index, 0
  {
    var g := GetUpToIndex(cfg, c, index);
    if index < |AllContent(cfg.requester)| {
      SliceRaises(cfg, g, v, index + v.step);
      RaiseOutcomeStep(cfg, c, v, index, g);
    } else {
      RaiseOutcomeLast(cfg, c, v, index);
    }
  }

  /** A finished or uncovered position ends the written walk without raising. */
  lemma RaiseOutcomeStop<R>(cfg: Config<R>, c: Cursor<R>, v: View, index: nat)
    requires Valid(cfg, c) && v.step > 0
    requires Finished(v, index) || !IsLargerThan(cfg, c, index)
    ensures RaiseOutcome(cfg, c, v, index)
  {
    ElementsPrefixOfAll(cfg, c);
    assert WalkEnd(|AllContent(cfg.requester)|, v, index) == index;
  }

  /** Reading a position past the end raises, because the list still had a next page. */
  lemma RaiseOutcomeLast<R>(cfg: Config<R>, c: Cursor<R>, v: View, index: nat)
    requires Valid(cfg, c) && v.step > 0 && !Finished(v, index) && IsLargerThan(cfg, c, index)
    requires |AllContent(cfg.requester)| <= index
    ensures RaiseOutcome(cfg, c, v, index)
  {
    ElementsPrefixOfAll(cfg, c);
    assert WalkEnd(|AllContent(cfg.requester)|, v, index) == index;
  }

  /** A position inside the listing hands the raise condition over to the rest of the walk. */
  lemma RaiseOutcomeStep<R>(cfg: Config<R>, c: Cursor<R>, v: View, index: nat, g: Cursor<R>)
    requires Valid(cfg, c) && v.step > 0 && !Finished(v, index) && index < |AllContent(cfg.requester)|
    requires g == GetUpToIndex(cfg, c, index)
    ensures RaiseOutcome(cfg, g, v, index + v.step) ==> RaiseOutcome(cfg, c, v, index)
  {
    var n := |AllContent(cfg.requester)|;
    var e := WalkEnd(n, v, index + v.step);
    assert WalkEnd(n, v, index) == e;
    SliceFromUnfold(cfg, c, v, index, g);
    ReadToShift(cfg, c, v, index, e, g);
  }

  /** Reading a position inside the listing passes the written walk on to the next position. */
  lemma SliceFromUnfold<R>(cfg: Config<R>, c: Cursor<R>, v: View, index: nat, g: Cursor<R>)
    requires Valid(cfg, c) && v.step > 0 && !Finished(v, index) && index < |AllContent(cfg.requester)|
    requires g == GetUpToIndex(cfg, c, index)
    ensures var rest := SliceFrom(cfg, g, v, index + v.step);
            SliceFrom(cfg, c, v, index) == SliceRun(rest.cursor, [AllContent(cfg.requester)[index]] + rest.yielded, rest.outcome)
  {
    if !HasNext(cfg, c) {
      ExhaustedHoldsAll(cfg, c);
    }
    assert IsLargerThan(cfg, c, index);
    var l := GetItem(cfg, c, index);
    assert l.cursor == g && l.value.Success?;
  }

  /**
    The written iterator, on a list that still has a next page, raises
    IndexError for a first position at or past the end instead of
    producing nothing.
  */
  lemma SliceFromPastEndRaises<R>(cfg: Config<R>, c: Cursor<R>, v: View, index: nat)
    requires Valid(cfg, c) && v.step > 0 && HasNext(cfg, c)
    requires |AllContent(cfg.requester)| <= index && !Finished(v, index)
    ensures SliceFrom(cfg, c, v, index).outcome == Raised(IndexError(index))
    ensures SliceFrom(cfg, c, v, index).yielded == []
  {
  }

  /** A one-page listing whose only page is empty. */
  function EmptyListing(): Config<int> {
    Config(Server("https://h/", [Page("p", [], None)]), "p", map["per_page" := IntParam(DefaultPerPage)])
  }

  /** `list[:]` over a fresh list of an empty listing raises IndexError(0) instead of producing nothing. */
  lemma EmptyListingSliceRaises()
    ensures var cfg := EmptyListing();
            var c := Cursor(Some("p"), Some(cfg.firstParams), []);
            Valid(cfg, c) && SliceIter(cfg, c, MakeView(SliceKey(None, None, None))).outcome == Raised(IndexError(0))
  {
    var cfg := EmptyListing();
    var c := Cursor(Some("p"), Some(cfg.firstParams), []);
    PageIndexOfLocator(cfg.requester, 0);
    assert Valid(cfg, c);
    SliceFromPastEndRaises(cfg, c, MakeView(SliceKey(None, None, None)), 0);
  }

  /**
    The written iterator: the elements at the walk's positions, in order;
    no fetch at all on an exhausted list or for a bound within the buffer,
    and no raise in either case.
  */
  lemma SliceFromSpec<R>(cfg: Config<R>, c: Cursor<R>, v: View, index: nat)
    requires Valid(cfg, c) && v.step > 0
    ensures SliceFrom(cfg, c, v, index).yielded == Expected(AllContent(cfg.requester), v, index)
    ensures !HasNext(cfg, c) ==> SliceFrom(cfg, c, v, index) == SliceRun(c, Expected(c.elements, v, index), Completed)
    ensures v.stop.Some? && v.stop.value <= |c.elements| ==>
              SliceFrom(cfg, c, v, index) == SliceRun(c, Expected(c.elements, v, index), Completed)
  {
    SliceAgreesWithIntended(cfg, c, v, index);
    SliceIntendedOutcome(cfg, c, v, index);
    SliceRaises(cfg, c, v, index);
    ElementsPrefixOfAll(cfg, c);
    var all := AllContent(cfg.requester);
    var e := WalkEnd(|all|, v, index);
    if !HasNext(cfg, c) {
      ExhaustedHoldsAll(cfg, c);
      ExhaustedIsFinal(cfg, c, e, 0);
      if index < e {
        ExhaustedIsFinal(cfg, c, e - v.step, 0);
      }
    } else if v.stop.Some? && v.stop.value <= |c.elements| {
      ExpectedWithinBuffer(c.elements, all, v, index);
      assert Finished(v, e);
    }
  }

  /** A bound within a prefix of the listing makes the prefix's expected elements the listing's. */
  lemma {:induction false} ExpectedWithinBuffer<T>(a: seq<T>, all: seq<T>, v: View, index: nat)
    requires v.step > 0 && a <= all && v.stop.Some? && v.stop.value <= |a|
    ensures Expected(a, v, index) == Expected(all, v, index)
    decreases |a| - index
  {
    if !Finished(v, index) && index < |a| {
      ExpectedWithinBuffer(a, all, v, index + v.step);
    }
  }
}

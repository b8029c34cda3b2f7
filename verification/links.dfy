/**
  Reduction of a "next" navigation link to a locator relative to the
  requester's base URL.  The source matches the pattern `escape(base)(.*)`
  with a leftmost search: the match starts at the first occurrence of the
  base URL, and the group `(.*)` takes the rest of the line, since `.` does
  not match a newline.
*/
module Links {
  import opened Wrappers

  /** `pat` occurs in `s` starting at position `i`. */
  predicate OccursAt(s: string, pat: string, i: nat) {
    i + |pat| <= |s| && s[i..i + |pat|] == pat
  }

  /** The first position at or after `from` where `pat` occurs in `s`. */
  function FindFrom(s: string, pat: string, from: nat): (r: Option<nat>)
    ensures r.Some? ==> from <= r.value <= |s| - |pat|
    decreases |s| - from
  {
    if |s| < from + |pat| then None
    else if OccursAt(s, pat, from) then Some(from)
    else FindFrom(s, pat, from + 1)
  }

  /** The search finds the leftmost occurrence at or after `from`, and fails only when there is none. */
  lemma {:induction false} FindFromLeftmost(s: string, pat: string, from: nat)
    ensures var r := FindFrom(s, pat, from);
            && (r.Some? ==> OccursAt(s, pat, r.value))
            && (r.Some? ==> forall j :: from <= j < r.value ==> !OccursAt(s, pat, j))
            && (r.None? ==> forall j :: from <= j ==> !OccursAt(s, pat, j))
    decreases |s| - from
  {
    if |s| >= from + |pat| && !OccursAt(s, pat, from) {
      FindFromLeftmost(s, pat, from + 1);
    }
  }

  /** The longest prefix of `s` without a newline: what `(.*)` captures. */
  function LineHead(s: string): (r: string)
    ensures r <= s
    ensures '\n' !in r
    ensures |r| < |s| ==> s[|r|] == '\n'
  {
    if |s| == 0 || s[0] == '\n' then [] else [s[0]] + LineHead(s[1..])
  }

  /** The text captured after the leftmost occurrence of `base` in `url`, if any. */
  function AfterBase(base: string, url: string): (r: Option<string>)
    ensures r.Some? ==> |r.value| <= |url| - |base| && '\n' !in r.value
  {
    match FindFrom(url, base, 0)
    case None => None
    case Some(i) => Some(LineHead(url[i + |base|..]))
  }

  /**
    The capture is absent exactly when `base` does not occur in `url`;
    otherwise it is the line that follows the leftmost occurrence.
  */
  lemma AfterBaseMatches(base: string, url: string)
    ensures AfterBase(base, url).None? <==> forall i: nat :: !OccursAt(url, base, i)
    ensures AfterBase(base, url).Some? ==> exists i: nat ::
              && OccursAt(url, base, i)
              && (forall j: nat :: j < i ==> !OccursAt(url, base, j))
              && AfterBase(base, url).value == LineHead(url[i + |base|..])
  {
    FindFromLeftmost(url, base, 0);
  }

  /** The source dereferences a failed match, raising AttributeError. */
  datatype LinkError = NoBaseInLink(url: string)

  /**
    The next locator after a page fetch: absent when the response has no
    "next" link, otherwise the link reduced against the base URL.
  */
  function ReduceNextLink(base: string, next: Option<string>): (r: Result<Option<string>, LinkError>)
    ensures next.None? ==> r == Success(None)
    ensures r.Success? && r.value.Some? ==> next.Some? && AfterBase(base, next.value) == r.value
    ensures next.Some? && AfterBase(base, next.value).Some? ==> r == Success(AfterBase(base, next.value))
    ensures r.Failure? ==> next.Some? && r.error == NoBaseInLink(next.value)
  {
    match next
    case None => Success(None)
    case Some(url) =>
      match AfterBase(base, url)
      case None => Failure(NoBaseInLink(url))
      case Some(loc) => Success(Some(loc))
  }

  /** Reduction fails exactly for a link in which the base URL does not occur. */
  lemma ReduceNextLinkFails(base: string, next: Option<string>)
    ensures ReduceNextLink(base, next).Failure? <==> next.Some? && forall i: nat :: !OccursAt(next.value, base, i)
  {
    if next.Some? {
      AfterBaseMatches(base, next.value);
    }
  }

  /** Prefixing a one-line locator with the base URL and reducing it gives the locator back. */
  lemma StripPrefixedLocator(base: string, loc: string)
    requires '\n' !in loc
    ensures AfterBase(base, base + loc) == Some(loc)
    ensures ReduceNextLink(base, Some(base + loc)) == Success(Some(loc))
  {
    var url := base + loc;
    assert url[0..|base|] == base;
    assert OccursAt(url, base, 0);
    assert url[|base|..] == loc;
    LineHeadOfLine(loc);
  }

  /** A URL that starts with the base URL and has no newline is the base followed by its reduction. */
  lemma PrefixReducedLink(base: string, url: string)
    requires OccursAt(url, base, 0)
    requires '\n' !in url
    ensures AfterBase(base, url).Some?
    ensures base + AfterBase(base, url).value == url
  {
    LineHeadOfLine(url[|base|..]);
    assert base + url[|base|..] == url;
  }

  /** A string without a newline is captured whole. */
  lemma {:induction false} LineHeadOfLine(s: string)
    requires '\n' !in s
    ensures LineHead(s) == s
  {
    if |s| > 0 {
      assert s[0] in s;
      assert forall c :: c in s[1..] ==> c in s;
      LineHeadOfLine(s[1..]);
      assert [s[0]] + s[1..] == s;
    }
  }
}

/**
 * The body-start locator, `FindStartOfText`: the first page on which the
 * judge's-voice marker `J[A-Z]*( .*)?: ` occurs, and the offset just after it.
 * The regular expression is modelled by an explicit matcher that follows
 * Python's leftmost search and greedy backtracking.
 */
module BodyStart {
  import opened Strings
  import opened Wrappers

  /** Where the body text begins: a page index and an offset into that page. */
  datatype CutPoint = CutPoint(page: nat, offset: nat)

  /** "Could not find start of judgment": keep all the text. */
  const Sentinel := CutPoint(0, 0)

  /** End of the maximal run of upper-case letters starting at `i` (`[A-Z]*`). */
  function UpperRunEnd(s: string, i: nat): (u: nat)
    requires i <= |s|
    ensures i <= u <= |s|
    ensures forall k :: i <= k < u ==> IsUpper(s[k])
    ensures u < |s| ==> !IsUpper(s[u])
    decreases |s| - i
  {
    if i < |s| && IsUpper(s[i]) then UpperRunEnd(s, i + 1) else i
  }

  predicate ColonSpaceAt(s: string, b: int)
  {
    0 <= b && b + 2 <= |s| && s[b] == ':' && s[b + 1] == ' '
  }

  /** `.*: ` matches `s[lo..b + 2]`: newline-free text `s[lo..b]`, then ": ". */
  predicate FreeTextThenColon(s: string, lo: nat, b: int)
  {
    lo <= b && ColonSpaceAt(s, b) && NoNewline(s[lo..b])
  }

  /** Greedy `.*` before ": ": the largest `b` in `[lo, hi]` that works. */
  function LastColonSpace(s: string, lo: nat, hi: nat): (r: Option<nat>)
    requires lo <= hi
    ensures r.Some? ==> lo <= r.value <= hi && FreeTextThenColon(s, lo, r.value)
    ensures forall b :: lo <= b <= hi && FreeTextThenColon(s, lo, b) ==> r.Some? && b <= r.value
    decreases hi - lo
  {
    if FreeTextThenColon(s, lo, hi) then Some(hi)
    else if hi == lo then None
    else LastColonSpace(s, lo, hi - 1)
  }

  /** `s[i..e]` matches `J[A-Z]*( .*)?: `, with the upper-case run ending at `u`. */
  predicate JusticeForm(s: string, i: nat, u: nat, e: nat)
  {
    && i < u <= |s| && s[i] == 'J'
    && (forall k :: i < k < u ==> IsUpper(s[k]))
    && ((e == u + 2 && ColonSpaceAt(s, u))
        || (u < |s| && s[u] == ' ' && e >= 2 && FreeTextThenColon(s, u + 1, e - 2)))
  }

  /**
   * The end of the match of the pattern anchored at `i`, as Python's engine
   * finds it: `[A-Z]*` and `.*` are greedy and the optional group is tried
   * first. A match ends inside the page, at least three characters after `i`,
   * just after a ": ".
   */
  function JusticeMatchAt(s: string, i: nat): (r: Option<nat>)
    ensures r.Some? ==> i + 3 <= r.value <= |s| && ColonSpaceAt(s, r.value - 2)
  {
    if i < |s| && s[i] == 'J' then
      var u := UpperRunEnd(s, i + 1);
      var group := if u < |s| && s[u] == ' ' then LastColonSpace(s, u + 1, |s|) else None;
      if group.Some? then Some(group.value + 2)
      else if ColonSpaceAt(s, u) then Some(u + 2)
      else None
    else None
  }

  /**
   * The match found at `i` is a match of the pattern, and it is the longest
   * one starting at `i`: every way of matching there ends no later.
   */
  lemma JusticeMatchAtLongest(s: string, i: nat)
    ensures JusticeMatchAt(s, i).Some? ==> exists u: nat :: JusticeForm(s, i, u, JusticeMatchAt(s, i).value)
    ensures forall u: nat, e: nat :: JusticeForm(s, i, u, e) ==>
              JusticeMatchAt(s, i).Some? && e <= JusticeMatchAt(s, i).value
  {
    if i < |s| && s[i] == 'J' {
      var u := UpperRunEnd(s, i + 1);
      var group := if u < |s| && s[u] == ' ' then LastColonSpace(s, u + 1, |s|) else None;
      if group.Some? {
        assert JusticeForm(s, i, u, group.value + 2);
      } else if ColonSpaceAt(s, u) {
        assert JusticeForm(s, i, u, u + 2);
      }
      forall u': nat, e: nat | JusticeForm(s, i, u', e)
        ensures JusticeMatchAt(s, i).Some? && e <= JusticeMatchAt(s, i).value
      {
        UpperRunIsMaximal(s, i, u', e);
      }
    }
  }

  /** In any match at `i` the upper-case run is the maximal one. */
  lemma UpperRunIsMaximal(s: string, i: nat, u: nat, e: nat)
    requires JusticeForm(s, i, u, e)
    ensures u == UpperRunEnd(s, i + 1)
  {
    var m := UpperRunEnd(s, i + 1);
    if u < |s| {
      assert !IsUpper(s[u]) by { assert s[u] == ' ' || s[u] == ':'; }
    }
    assert u <= m;
  }

  /** The leftmost start at or after `i` where the pattern matches, or `|s| + 1`. */
  function LeftmostMatch(s: string, i: nat): (k: nat)
    requires i <= |s|
    ensures i <= k <= |s| + 1
    decreases |s| - i
  {
    if JusticeMatchAt(s, i).Some? then i
    else if i == |s| then |s| + 1
    else LeftmostMatch(s, i + 1)
  }

  /** `LeftmostMatch` is a match start, and no start before it matches. */
  lemma {:induction false} LeftmostMatchIsLeftmost(s: string, i: nat)
    requires i <= |s|
    ensures LeftmostMatch(s, i) <= |s| ==> JusticeMatchAt(s, LeftmostMatch(s, i)).Some?
    ensures forall k :: i <= k < LeftmostMatch(s, i) && k <= |s| ==> JusticeMatchAt(s, k).None?
    decreases |s| - i
  {
    if JusticeMatchAt(s, i).None? && i < |s| {
      LeftmostMatchIsLeftmost(s, i + 1);
    }
  }

  /**
   * `justice_intro.search(page_text).end()`, or None when the marker does not
   * occur: the end of the match at the leftmost start that matches.
   */
  function JusticeSearch(s: string): (r: Option<nat>)
    ensures r.Some? ==> 3 <= r.value <= |s| && ColonSpaceAt(s, r.value - 2)
  {
    var k := LeftmostMatch(s, 0);
    if k <= |s| then JusticeMatchAt(s, k) else None
  }

  /**
   * The search fails exactly when the pattern matches nowhere; when it
   * succeeds it reports the match at a start before which nothing matches.
   */
  lemma JusticeSearchLeftmost(s: string)
    ensures JusticeSearch(s).None? <==> forall k :: 0 <= k <= |s| ==> JusticeMatchAt(s, k).None?
    ensures JusticeSearch(s).Some? ==>
              var k := LeftmostMatch(s, 0);
              k <= |s| && JusticeSearch(s) == JusticeMatchAt(s, k)
              && forall k' :: 0 <= k' < k ==> JusticeMatchAt(s, k').None?
  {
    LeftmostMatchIsLeftmost(s, 0);
  }

  /** The cut point found scanning pages `lo`, `lo + 1`, ... in order. */
  function StartFrom(pages: seq<string>, lo: nat): (c: CutPoint)
    requires lo <= |pages|
    ensures c == Sentinel || (lo <= c.page < |pages| && JusticeSearch(pages[c.page]) == Some(c.offset))
    ensures c != Sentinel ==> forall q :: lo <= q < c.page ==> JusticeSearch(pages[q]).None?
    ensures c == Sentinel <==> forall q :: lo <= q < |pages| ==> JusticeSearch(pages[q]).None?
    decreases |pages| - lo
  {
    if lo == |pages| then Sentinel
    else
      var hit := JusticeSearch(pages[lo]);
      if hit.Some? then
        assert hit.value >= 3;
        CutPoint(lo, hit.value)
      else
        StartFrom(pages, lo + 1)
  }

  /** Where the judgment begins: the cut point found scanning from the first page. */
  function StartOfText(pages: seq<string>): CutPoint
  {
    StartFrom(pages, 0)
  }

  /**
   * The body starts on the lowest-indexed page on which the marker occurs,
   * just after the marker, which ends at least three characters into the page
   * with ": "; the cut point is the sentinel (0, 0) exactly when no page has
   * the marker.
   */
  lemma StartOfTextFirstHit(pages: seq<string>)
    ensures StartOfText(pages) == Sentinel <==> forall p :: 0 <= p < |pages| ==> JusticeSearch(pages[p]).None?
    ensures var c := StartOfText(pages);
            c != Sentinel ==>
              && c.page < |pages| && JusticeSearch(pages[c.page]) == Some(c.offset)
              && (forall q :: 0 <= q < c.page ==> JusticeSearch(pages[q]).None?)
              && 3 <= c.offset <= |pages[c.page]| && ColonSpaceAt(pages[c.page], c.offset - 2)
  {
  }

  /** `FindStartOfText`: scan the store in page order; return at the first hit. */
  method FindStartOfText(text: array<string>) returns (c: CutPoint)
    ensures c == StartOfText(text[..])
  {
    for pageNum := 0 to text.Length
      invariant StartFrom(text[..], pageNum) == StartOfText(text[..])
    {
      var pageText := text[pageNum];
      var searchHit := JusticeSearch(pageText);
      if searchHit.Some? {
        return CutPoint(pageNum, searchHit.value);
      }
    }
    return Sentinel;
  }
}

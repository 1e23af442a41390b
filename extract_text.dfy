/**
 * The common-prefix variant of the pipeline (extract_text.py): the header is
 * the common prefix of the first pair of adjacent pages that share more than
 * 11 leading characters; it is deleted from every page but the last, and a
 * leading page number is then stripped from each of those pages.
 *
 * The source raises in two places; both are modelled as error outcomes.
 */
module ExtractText {
  import opened Strings
  import opened Wrappers
  import opened Normalise
  import opened BodyStart
  import opened Assembler
  import opened Sentences

  /** A common prefix must be longer than this to count as a header. */
  const HeaderThreshold: nat := 11

  /** What the source raises. */
  datatype ScanError =
    | PrefixIndexError(pair: nat)   // `IndexError` comparing pages `pair` and `pair + 1`
    | HeaderUnbound                 // `UnboundLocalError`: `header` used but never assigned

  /** Length of the longest common prefix of two pages. */
  function CommonPrefixLen(a: string, b: string): (n: nat)
    ensures n <= |a| && n <= |b|
    ensures a[..n] == b[..n]
    ensures n < |a| && n < |b| ==> a[n] != b[n]
    decreases |a|
  {
    if |a| == 0 || |b| == 0 || a[0] != b[0] then 0
    else
      var n := 1 + CommonPrefixLen(a[1..], b[1..]);
      assert a[..n] == [a[0]] + a[1..][..n - 1];
      assert b[..n] == [b[0]] + b[1..][..n - 1];
      n
  }

  /** Any length with the three properties above is the common prefix length. */
  lemma {:induction false} CommonPrefixLenUnique(a: string, b: string, n: nat)
    requires n <= |a| && n <= |b| && a[..n] == b[..n]
    requires n < |a| && n < |b| ==> a[n] != b[n]
    ensures n == CommonPrefixLen(a, b)
    decreases n
  {
    if n > 0 {
      assert a[0] == a[..n][0] == b[..n][0] == b[0];
      assert a[1..][..n - 1] == a[1..n] == b[1..n] == b[1..][..n - 1];
      CommonPrefixLenUnique(a[1..], b[1..], n - 1);
    }
  }

  /** The scan runs off the end of a page exactly when one page is a prefix of the other. */
  lemma CommonPrefixOverrun(a: string, b: string)
    ensures (CommonPrefixLen(a, b) == |a| || CommonPrefixLen(a, b) == |b|) <==> (a <= b || b <= a)
  {
    var n := CommonPrefixLen(a, b);
    if a <= b { assert a[..|a|] == b[..|a|]; CommonPrefixLenUnique(a, b, |a|); }
    if b <= a { assert a[..|b|] == b[..|b|]; CommonPrefixLenUnique(a, b, |b|); }
    if n == |a| { assert a == a[..n]; }
    if n == |b| { assert b == b[..n]; }
  }

  /** One page is a prefix of the other: comparing them raises `IndexError`. */
  predicate Overruns(a: string, b: string)
  {
    a <= b || b <= a
  }

  /** A pair that is compared safely and gives no header. */
  predicate Ordinary(a: string, b: string)
  {
    !Overruns(a, b) && CommonPrefixLen(a, b) <= HeaderThreshold
  }

  /** Every adjacent pair `(i, i + 1)` with `lo <= i < hi` is ordinary. */
  predicate OrdinaryBetween(pages: seq<string>, lo: nat, hi: nat)
    requires hi < |pages|
  {
    forall i :: lo <= i < hi ==> Ordinary(pages[i], pages[i + 1])
  }

  /** Prepending an ordinary pair to a run of ordinary pairs. */
  lemma OrdinaryBetweenCons(pages: seq<string>, k: nat, j: nat)
    requires k < j < |pages| && Ordinary(pages[k], pages[k + 1]) && OrdinaryBetween(pages, k + 1, j)
    ensures OrdinaryBetween(pages, k, j)
  {
  }

  /** What the header scan comes to. */
  datatype HeaderScan =
    | Header(pair: nat, header: string)   // pages `pair` and `pair + 1` give a header
    | NoHeader                 // no adjacent pair qualified
    | Overrun(pair: nat)       // comparing pages `pair` and `pair + 1` raised

  /** The header scan over the adjacent pairs `(k, k + 1)`, `(k + 1, k + 2)`, ... */
  function ScanFrom(pages: seq<string>, k: nat): HeaderScan
    decreases |pages| - k
  {
    if k + 1 >= |pages| then NoHeader
    else
      var slicePoint := CommonPrefixLen(pages[k], pages[k + 1]);
      if slicePoint == |pages[k]| || slicePoint == |pages[k + 1]| then Overrun(k)
      else if slicePoint > HeaderThreshold then Header(k, pages[k][..slicePoint])
      else ScanFrom(pages, k + 1)
  }

  /** The scan finds no header exactly when every pair from `k` on is ordinary. */
  lemma {:induction false} ScanFromNoHeader(pages: seq<string>, k: nat)
    ensures ScanFrom(pages, k).NoHeader? <==> forall i :: k <= i && i + 1 < |pages| ==> Ordinary(pages[i], pages[i + 1])
    decreases |pages| - k
  {
    if k + 1 < |pages| {
      CommonPrefixOverrun(pages[k], pages[k + 1]);
      ScanFromNoHeader(pages, k + 1);
    }
  }

  /**
   * The scan overruns at a pair where one page is a prefix of the other, all
   * earlier pairs being ordinary.
   */
  lemma {:induction false} ScanFromOverrun(pages: seq<string>, k: nat)
    requires ScanFrom(pages, k).Overrun?
    ensures var p := ScanFrom(pages, k).pair;
            k <= p && p + 1 < |pages| && Overruns(pages[p], pages[p + 1]) && OrdinaryBetween(pages, k, p)
    decreases |pages| - k
  {
    var a, b := pages[k], pages[k + 1];
    var slicePoint := CommonPrefixLen(a, b);
    CommonPrefixOverrun(a, b);
    if slicePoint == |a| || slicePoint == |b| {
      assert Overruns(a, b);
    } else {
      assert Ordinary(a, b);
      ScanFromOverrun(pages, k + 1);
      OrdinaryBetweenCons(pages, k, ScanFrom(pages, k + 1).pair);
    }
  }

  /**
   * The scan yields the header of the pair it names, which qualifies, all
   * earlier pairs being ordinary.
   */
  lemma {:induction false} ScanFromHeader(pages: seq<string>, k: nat)
    requires ScanFrom(pages, k).Header?
    ensures var p := ScanFrom(pages, k).pair;
            k <= p && p + 1 < |pages| && HeaderOfPair(pages[p], pages[p + 1], ScanFrom(pages, k).header)
            && OrdinaryBetween(pages, k, p)
    decreases |pages| - k
  {
    var a, b := pages[k], pages[k + 1];
    var slicePoint := CommonPrefixLen(a, b);
    CommonPrefixOverrun(a, b);
    if slicePoint > HeaderThreshold && slicePoint != |a| && slicePoint != |b| {
      HeaderOfCommonPrefix(a, b);
    } else {
      assert Ordinary(a, b);
      ScanFromHeader(pages, k + 1);
      OrdinaryBetweenCons(pages, k, ScanFrom(pages, k + 1).pair);
    }
  }

  /**
   * `h` is the header two adjacent pages give: a prefix of both, at least 12
   * characters long, and the pages differ right after it.
   */
  predicate HeaderOfPair(a: string, b: string, h: string)
  {
    && h <= a && h <= b && |h| > HeaderThreshold
    && |h| < |a| && |h| < |b| && a[|h|] != b[|h|]
  }

  /** A long common prefix that neither page ends in is a header of the pair. */
  lemma HeaderOfCommonPrefix(a: string, b: string)
    requires HeaderThreshold < CommonPrefixLen(a, b) < |a| && CommonPrefixLen(a, b) < |b|
    ensures HeaderOfPair(a, b, a[..CommonPrefixLen(a, b)])
  {
    var n := CommonPrefixLen(a, b);
    assert a[..n] <= b by { assert b[..n] == a[..n]; }
  }

  /** A header of a pair is exactly their longest common prefix. */
  lemma HeaderOfPairIsCommonPrefix(a: string, b: string, h: string)
    requires HeaderOfPair(a, b, h)
    ensures h == a[..CommonPrefixLen(a, b)]
  {
    assert a[..|h|] == h == b[..|h|];
    CommonPrefixLenUnique(a, b, |h|);
  }

  /** The header scan of `RemoveHeadersFromText` over the whole store. */
  function HeaderScanOf(pages: seq<string>): HeaderScan
  {
    ScanFrom(pages, 0)
  }

  /** The outer `while` of `RemoveHeadersFromText`, with its inner prefix loop. */
  method FindCommonHeader(text: array<string>) returns (scan: HeaderScan)
    ensures scan == HeaderScanOf(text[..])
  {
    var nPages := text.Length;
    var pgPtr := 0;
    while pgPtr < nPages - 1
      invariant 0 <= pgPtr <= nPages
      invariant ScanFrom(text[..], pgPtr) == HeaderScanOf(text[..])
    {
      var page1 := text[pgPtr];
      var page2 := text[pgPtr + 1];
      var slicePoint := 0;
      while slicePoint < |page1| && slicePoint < |page2| && page1[slicePoint] == page2[slicePoint]
        invariant slicePoint <= |page1| && slicePoint <= |page2|
        invariant page1[..slicePoint] == page2[..slicePoint]
      {
        slicePoint := slicePoint + 1;
      }
      CommonPrefixLenUnique(page1, page2, slicePoint);
      if slicePoint == |page1| || slicePoint == |page2| {
        return Overrun(pgPtr);
      }
      if slicePoint > HeaderThreshold {
        return Header(pgPtr, page1[..slicePoint]);
      }
      pgPtr := pgPtr + 1;
    }
    return NoHeader;
  }

  /** The text up to the first newline: what `(.*)` captures. */
  function UpToNewline(s: string): (r: string)
    ensures r <= s && NoNewline(r)
    ensures |r| < |s| ==> s[|r|] == '\n'
    decreases |s|
  {
    if |s| == 0 || s[0] == '\n' then [] else [s[0]] + UpToNewline(s[1..])
  }

  /** On a string without newlines `(.*)` captures all of it. */
  lemma {:induction false} UpToNewlineWhole(s: string)
    requires NoNewline(s)
    ensures UpToNewline(s) == s
    decreases |s|
  {
    if |s| > 0 {
      UpToNewlineWhole(s[1..]);
    }
  }

  /** `re.match("\d+ (.*)", t)`: the captured group, or None. */
  function PageNumberMatch(t: string): Option<string>
  {
    var j := DigitRunEnd(t, 0);
    if 0 < j < |t| && t[j] == ' ' then Some(UpToNewline(t[j + 1..])) else None
  }

  /** The page begins with a page number: digits, then a space. */
  predicate HasPageNumber(t: string)
  {
    exists j :: 0 < j < |t| && AllDigits(t[..j]) && t[j] == ' '
  }

  /** The page with a leading page number dropped, or as it was. */
  function StripPageNumber(t: string): string
  {
    var m := PageNumberMatch(t);
    if m.Some? then m.value else t
  }

  /** The page-number pattern matches exactly when the page begins with a page number. */
  lemma PageNumberMatchIff(t: string)
    ensures PageNumberMatch(t).Some? <==> HasPageNumber(t)
  {
    var j := DigitRunEnd(t, 0);
    if 0 < j < |t| && t[j] == ' ' {
      assert AllDigits(t[..j]);
    } else {
      forall i | 0 < i < |t| && AllDigits(t[..i]) ensures t[i] != ' ' {
        assert forall k :: 0 <= k < i ==> t[..i][k] == t[k];
        DigitPrefixWithinRun(t, 0, i);
      }
    }
  }

  /** A run of digits from `m` to `i` ends no later than the maximal one from `m`. */
  lemma {:induction false} DigitPrefixWithinRun(t: string, m: nat, i: nat)
    requires m <= i <= |t| && forall k :: m <= k < i ==> IsDigit(t[k])
    ensures i <= DigitRunEnd(t, m)
    decreases i - m
  {
    if m < i {
      assert IsDigit(t[m]);
      DigitPrefixWithinRun(t, m + 1, i);
    }
  }

  /**
   * A page changes exactly when it begins with a page number; on a page without
   * newlines the page number and its one space are all that is dropped.
   */
  lemma StripPageNumberSpec(t: string)
    ensures StripPageNumber(t) == t <==> !HasPageNumber(t)
    ensures HasPageNumber(t) && NoNewline(t) ==>
              exists d :: |d| > 0 && AllDigits(d) && t == d + " " + StripPageNumber(t)
  {
    PageNumberMatchIff(t);
    var j := DigitRunEnd(t, 0);
    if 0 < j < |t| && t[j] == ' ' {
      var rest := UpToNewline(t[j + 1..]);
      assert StripPageNumber(t) == rest;
      assert |rest| < |t|;
      if NoNewline(t) {
        assert NoNewline(t[j + 1..]);
        UpToNewlineWhole(t[j + 1..]);
        assert t == t[..j] + " " + rest;
        assert AllDigits(t[..j]);
      }
    }
  }

  /** One rewritten page: the header deleted, then a leading page number dropped. */
  function StripPage(t: string, header: string): string
  {
    StripPageNumber(ReplaceAll(t, header, ""))
  }

  /** Every page but the last rewritten with `StripPage`; the last kept as it is. */
  function StripAllButLast(pages: seq<string>, header: string): (r: seq<string>)
    ensures |r| == |pages|
    ensures forall i :: 0 <= i < |pages| - 1 ==> r[i] == StripPage(pages[i], header)
    ensures |pages| > 0 ==> r[|pages| - 1] == pages[|pages| - 1]
  {
    seq(|pages|, i requires 0 <= i < |pages| =>
      if i < |pages| - 1 then StripPage(pages[i], header) else pages[i])
  }

  /** The store after `RemoveHeadersFromText`, or the error it raises. */
  function HeadersRemoved(pages: seq<string>): Result<seq<string>, ScanError>
  {
    var scan := HeaderScanOf(pages);
    if scan.Overrun? then Failure(PrefixIndexError(scan.pair))
    else if scan.NoHeader? then (if |pages| >= 2 then Failure(HeaderUnbound) else Success(pages))
    else Success(StripAllButLast(pages, scan.header))
  }

  /**
   * On normalised pages (no newlines) the page-number strip after the header
   * deletion drops exactly the leading digits and one space, or nothing.
   */
  lemma NormalisedPageLosesOnlyPageNumber(raw: seq<string>, i: nat)
    requires HeadersRemoved(NormalisePages(raw)).Success? && i + 1 < |raw|
    ensures var pages := NormalisePages(raw);
            var t := ReplaceAll(pages[i], HeaderScanOf(pages).header, "");
            var r := HeadersRemoved(pages).value[i];
            && NoNewline(t)
            && (r == t <==> !HasPageNumber(t))
            && (r != t ==> exists d :: |d| > 0 && AllDigits(d) && t == d + " " + r)
  {
    var pages := NormalisePages(raw);
    var header := HeaderScanOf(pages).header;
    assert NoNewline(pages[i]);
    ReplaceKeepsNoNewline(pages[i], header, "");
    StripPageNumberSpec(ReplaceAll(pages[i], header, ""));
  }

  /**
   * When `RemoveHeadersFromText` fails and when it succeeds: `header` is unbound
   * exactly when there are two pages or more and no pair qualifies or overruns;
   * the scan raises `IndexError` at the first pair where one page is a prefix of
   * the other, if no earlier pair qualified; a success keeps the page count and
   * leaves the last page as it was.
   */
  lemma HeadersRemovedOutcomes(pages: seq<string>)
    ensures HeadersRemoved(pages) == Failure(HeaderUnbound) <==>
              |pages| >= 2 && forall i :: 0 <= i && i + 1 < |pages| ==> Ordinary(pages[i], pages[i + 1])
    ensures HeadersRemoved(pages).Failure? && HeadersRemoved(pages).error.PrefixIndexError? ==>
              var k := HeadersRemoved(pages).error.pair;
              k + 1 < |pages| && Overruns(pages[k], pages[k + 1]) && OrdinaryBetween(pages, 0, k)
    ensures |pages| <= 1 ==> HeadersRemoved(pages) == Success(pages)
    ensures HeadersRemoved(pages).Success? ==>
              |HeadersRemoved(pages).value| == |pages|
              && (|pages| > 0 ==> HeadersRemoved(pages).value[|pages| - 1] == pages[|pages| - 1])
  {
    ScanFromNoHeader(pages, 0);
    if HeaderScanOf(pages).Overrun? {
      ScanFromOverrun(pages, 0);
    }
  }

  /** The rewrite loop of `RemoveHeadersFromText`: pages `0..n - 2` through `StripPage`, in place. */
  method StripPages(text: array<string>, header: string)
    modifies text
    ensures text[..] == StripAllButLast(old(text[..]), header)
  {
    ghost var pages := text[..];
    var nPages := text.Length;
    var eachPage := 0;
    while eachPage < nPages - 1
      invariant 0 <= eachPage <= if nPages > 0 then nPages - 1 else 0
      invariant forall i :: 0 <= i < eachPage ==> text[i] == StripPage(pages[i], header)
      invariant forall i :: eachPage <= i < nPages ==> text[i] == pages[i]
    {
      var textCopy := text[eachPage];
      textCopy := ReplaceAll(textCopy, header, "");
      var pagenumRm := PageNumberMatch(textCopy);
      if pagenumRm.Some? {
        text[eachPage] := pagenumRm.value;
      } else {
        text[eachPage] := textCopy;
      }
      eachPage := eachPage + 1;
    }
    assert text[..] == StripAllButLast(pages, header);
  }

  /**
   * `RemoveHeadersFromText`: the header scan, then the rewrite of pages
   * `0..n - 2` in place. When the source raises, the store is unchanged and
   * the error is returned instead of the store.
   */
  method RemoveHeadersFromText(text: array<string>) returns (result: Result<array<string>, ScanError>)
    modifies text
    ensures HeadersRemoved(old(text[..])).Success? ==>
              result == Success(text) && text[..] == HeadersRemoved(old(text[..])).value
    ensures HeadersRemoved(old(text[..])).Failure? ==>
              result == Failure(HeadersRemoved(old(text[..])).error) && text[..] == old(text[..])
  {
    var nPages := text.Length;
    var scan := FindCommonHeader(text);
    if scan.Overrun? {
      return Failure(PrefixIndexError(scan.pair));
    }
    if scan.NoHeader? {
      if nPages - 1 > 0 {
        return Failure(HeaderUnbound);
      }
      return Success(text);
    }
    StripPages(text, scan.header);
    return Success(text);
  }

  /** The body text `PreprocessTextToString` returns for a normalised store, or the error raised. */
  function PreprocessedText(pages: seq<string>): Result<string, ScanError>
  {
    var cleaned := HeadersRemoved(pages);
    if cleaned.Failure? then Failure(cleaned.error)
    else Success(Assemble(cleaned.value, StartOfText(cleaned.value)))
  }

  /** A body text is always a suffix of the rewritten pages joined together. */
  lemma PreprocessedTextIsSuffix(pages: seq<string>)
    ensures PreprocessedText(pages).Success? ==>
              HeadersRemoved(pages).Success?
              && IsSuffixOf(PreprocessedText(pages).value, Concat(HeadersRemoved(pages).value))
  {
    var cleaned := HeadersRemoved(pages);
    if cleaned.Success? {
      AssembleIsSuffix(cleaned.value, StartOfText(cleaned.value));
    }
  }

  /**
   * `PreprocessTextToString`: remove headers and page numbers in place, locate
   * the body start on the result and join the text from there on.
   */
  method PreprocessTextToString(text: array<string>) returns (r: Result<string, ScanError>)
    modifies text
    ensures r == PreprocessedText(old(text[..]))
    ensures HeadersRemoved(old(text[..])).Success? ==> text[..] == HeadersRemoved(old(text[..])).value
    ensures HeadersRemoved(old(text[..])).Failure? ==> text[..] == old(text[..])
  {
    var textNoHeaders := RemoveHeadersFromText(text);
    if textNoHeaders.Failure? {
      return Failure(textNoHeaders.error);
    }
    var startPoint := FindStartOfText(textNoHeaders.value);
    var joined := CutAndJoin(text, startPoint);
    return Success(joined);
  }

  /**
   * `SentenceTokenizeText` after the PDF decoder produced `raw` (one string per
   * page), with `sent_tokenize` given as `sentTokenize`: the error raised, or
   * one cleaned sentence per tokenizer sentence, in order.
   */
  method SentenceTokenizeText(raw: seq<string>, sentTokenize: string -> seq<string>)
    returns (r: Result<seq<string>, ScanError>)
    ensures PreprocessedText(NormalisePages(raw)).Failure? ==>
              r == Failure(PreprocessedText(NormalisePages(raw)).error)
    ensures PreprocessedText(NormalisePages(raw)).Success? ==>
              var sentences := sentTokenize(PreprocessedText(NormalisePages(raw)).value);
              && r.Success? && |r.value| == |sentences|
              && forall i :: 0 <= i < |sentences| ==> r.value[i] == StripNonAlphaPrefix(sentences[i])
  {
    var text := ExtractTextIntoDict(raw);
    var textString := PreprocessTextToString(text);
    if textString.Failure? {
      return Failure(textString.error);
    }
    var sentences := sentTokenize(textString.value);
    var sentencesCleaned := CleanSentences(sentences);
    return Success(sentencesCleaned);
  }
}

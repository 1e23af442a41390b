/**
 * The pattern-based variant of the pipeline (extract.py): the running header
 * `{Party1} v {[yyyy] SGxx n} {Party2} {page no}` is looked for from the last
 * page backwards, and `Party1 v citation Party2` is then deleted from every page.
 */
module Extract {
  import opened Strings
  import opened Wrappers
  import opened Normalise
  import opened BodyStart
  import opened Assembler
  import opened Sentences

  /** `\[\d\d\d\d] SG\w\w \d+`: a neutral citation such as "[2016] SGCA 1". */
  predicate IsNeutralCitation(c: string)
  {
    && |c| >= 13 && c[0] == '[' && AllDigits(c[1..5]) && c[5] == ']' && c[6] == ' '
    && c[7] == 'S' && c[8] == 'G' && IsWordChar(c[9]) && IsWordChar(c[10]) && c[11] == ' '
    && AllDigits(c[12..])
  }

  /**
   * `(.+) v (\[\d\d\d\d] SG\w\w \d+) (.+) \d+` matches at the start of `s` with
   * the three groups `s[..m]`, `s[m + 3..j]` and `s[j + 1..k]`.
   */
  predicate HeaderForm(s: string, m: nat, j: nat, k: nat)
  {
    && 0 < m && m + 3 <= j && j + 1 < k && k + 1 < |s|
    && NoNewline(s[..m]) && s[m..m + 3] == " v "
    && IsNeutralCitation(s[m + 3..j]) && s[j] == ' '
    && NoNewline(s[j + 1..k]) && s[k] == ' ' && IsDigit(s[k + 1])
  }

  /** The fixed part of a citation starting at `i`, up to its first number digit. */
  predicate CitationStartsAt(s: string, i: nat)
  {
    && i + 13 <= |s| && s[i] == '[' && AllDigits(s[i + 1..i + 5]) && s[i + 5] == ']'
    && s[i + 6] == ' ' && s[i + 7] == 'S' && s[i + 8] == 'G' && IsWordChar(s[i + 9])
    && IsWordChar(s[i + 10]) && s[i + 11] == ' ' && IsDigit(s[i + 12])
  }

  /** Where the citation group starting at `i` ends: its `\d+` takes every digit there is. */
  function CitationEnd(s: string, i: nat): (r: Option<nat>)
    ensures r.Some? ==> i + 13 <= r.value <= |s| && IsNeutralCitation(s[i..r.value])
    ensures r.Some? && r.value < |s| ==> !IsDigit(s[r.value])
  {
    if CitationStartsAt(s, i) then
      var j := DigitRunEnd(s, i + 12);
      assert s[i..j][1..5] == s[i + 1..i + 5];
      Some(j)
    else
      None
  }

  /** A citation followed by a space is the one `CitationEnd` finds. */
  lemma CitationEndComplete(s: string, i: nat, j: nat)
    requires i <= j < |s| && IsNeutralCitation(s[i..j]) && s[j] == ' '
    ensures CitationEnd(s, i) == Some(j)
  {
    var c := s[i..j];
    var year := s[i + 1..i + 5];
    forall k | 0 <= k < 4 ensures IsDigit(year[k]) {
      assert year[k] == c[1..5][k];
    }
    assert c[12] == s[i + 12];
    assert CitationStartsAt(s, i);
    assert forall k :: 12 <= k < |c| ==> IsDigit(c[k]) && c[k] == s[i + k];
  }

  /** `(.+) \d+` after the citation: the group ends at `k`, before " " and a digit. */
  predicate PartyTwoEndsAt(s: string, lo: nat, k: nat)
  {
    lo < k && k + 1 < |s| && NoNewline(s[lo..k]) && s[k] == ' ' && IsDigit(s[k + 1])
  }

  /** Greedy `.+`: the largest `k` in `[lo, hi]` that ends the second party. */
  function LastPartyTwoEnd(s: string, lo: nat, hi: nat): (r: Option<nat>)
    requires lo <= hi
    ensures r.Some? ==> r.value <= hi && PartyTwoEndsAt(s, lo, r.value)
    decreases hi - lo
  {
    if PartyTwoEndsAt(s, lo, hi) then Some(hi)
    else if hi == lo then None
    else LastPartyTwoEnd(s, lo, hi - 1)
  }

  /** No second party that fits ends later than the greedy one. */
  lemma {:induction false} LastPartyTwoEndIsLast(s: string, lo: nat, hi: nat, k: nat)
    requires lo <= hi && k <= hi && PartyTwoEndsAt(s, lo, k)
    ensures LastPartyTwoEnd(s, lo, hi).Some? && k <= LastPartyTwoEnd(s, lo, hi).value
    decreases hi - lo
  {
    if !PartyTwoEndsAt(s, lo, hi) {
      LastPartyTwoEndIsLast(s, lo, hi - 1, k);
    }
  }

  /** The first party may end at `m`: the rest of the pattern matches after it. */
  predicate PartyOneEndsAt(s: string, m: nat)
  {
    && 0 < m && m + 3 <= |s| && NoNewline(s[..m]) && s[m..m + 3] == " v "
    && CitationEnd(s, m + 3).Some?
    && var j := CitationEnd(s, m + 3).value;
       j < |s| && s[j] == ' ' && LastPartyTwoEnd(s, j + 1, |s|).Some?
  }

  /** Greedy `.+` at the start: the largest `m` up to `hi` that ends the first party. */
  function LastPartyOneEnd(s: string, hi: nat): (r: Option<nat>)
    ensures r.Some? ==> r.value <= hi && PartyOneEndsAt(s, r.value)
  {
    if PartyOneEndsAt(s, hi) then Some(hi)
    else if hi == 0 then None
    else LastPartyOneEnd(s, hi - 1)
  }

  /** No first party that fits ends later than the greedy one. */
  lemma {:induction false} LastPartyOneEndIsLast(s: string, hi: nat, m: nat)
    requires m <= hi && PartyOneEndsAt(s, m)
    ensures LastPartyOneEnd(s, hi).Some? && m <= LastPartyOneEnd(s, hi).value
    decreases hi
  {
    if !PartyOneEndsAt(s, hi) {
      LastPartyOneEndIsLast(s, hi - 1, m);
    }
  }

  /** Every way the pattern can match goes through the greedy choices. */
  lemma HeaderFormSteps(s: string, m: nat, j: nat, k: nat)
    requires HeaderForm(s, m, j, k)
    ensures PartyOneEndsAt(s, m) && CitationEnd(s, m + 3) == Some(j) && PartyTwoEndsAt(s, j + 1, k)
  {
    CitationEndComplete(s, m + 3, j);
    assert PartyTwoEndsAt(s, j + 1, k);
    LastPartyTwoEndIsLast(s, j + 1, |s|, k);
  }

  /**
   * `scrambled_regex.match(page).groups()`, or None when the header pattern
   * does not match at the start of the page (the `AttributeError` case).
   */
  function MatchScrambled(s: string): Option<seq<string>>
  {
    var head := LastPartyOneEnd(s, |s|);
    if head.Some? then
      var m := head.value;
      var j := CitationEnd(s, m + 3).value;
      var k := LastPartyTwoEnd(s, j + 1, |s|).value;
      Some([s[..m], s[m + 3..j], s[j + 1..k]])
    else
      None
  }

  /** The pattern fails to match exactly when no split of the page fits it. */
  lemma MatchScrambledNone(s: string)
    ensures MatchScrambled(s).None? <==> forall m: nat, j: nat, k: nat :: !HeaderForm(s, m, j, k)
  {
    var head := LastPartyOneEnd(s, |s|);
    forall m: nat, j: nat, k: nat | HeaderForm(s, m, j, k) ensures head.Some? {
      HeaderFormSteps(s, m, j, k);
      LastPartyOneEndIsLast(s, |s|, m);
    }
    if head.Some? {
      var m := head.value;
      var j := CitationEnd(s, m + 3).value;
      var k := LastPartyTwoEnd(s, j + 1, |s|).value;
      assert HeaderForm(s, m, j, k);
    }
  }

  /** A way the pattern matches that no other way beats under greedy backtracking. */
  ghost predicate GreedyHeaderForm(s: string, m: nat, j: nat, k: nat)
  {
    && HeaderForm(s, m, j, k)
    && forall m': nat, j': nat, k': nat :: HeaderForm(s, m', j', k') ==> m' < m || (m' == m && k' <= k)
  }

  /**
   * A match has the groups of Python's backtracking search: the page splits
   * as the pattern says, the first party is as long as it can be and, for
   * that first party, so is the second.
   */
  lemma MatchScrambledGreedy(s: string)
    requires MatchScrambled(s).Some?
    ensures exists m: nat, j: nat, k: nat ::
              GreedyHeaderForm(s, m, j, k) && MatchScrambled(s).value == [s[..m], s[m + 3..j], s[j + 1..k]]
  {
    var m := LastPartyOneEnd(s, |s|).value;
    var j := CitationEnd(s, m + 3).value;
    var k := LastPartyTwoEnd(s, j + 1, |s|).value;
    assert HeaderForm(s, m, j, k);
    forall m': nat, j': nat, k': nat | HeaderForm(s, m', j', k')
      ensures m' < m || (m' == m && k' <= k)
    {
      HeaderFormSteps(s, m', j', k');
      LastPartyOneEndIsLast(s, |s|, m');
      if m' == m {
        LastPartyTwoEndIsLast(s, j + 1, |s|, k');
      }
    }
    assert GreedyHeaderForm(s, m, j, k);
  }

  /** `" ".join(cite)` once `cite.insert(1, "v")` has run: the header text to delete. */
  function HeaderText(groups: seq<string>): string
  {
    Join(" ", ListInsert(groups, 1, "v"))
  }

  lemma HeaderTextOfParts(party1: string, citation: string, party2: string)
    ensures HeaderText([party1, citation, party2]) == party1 + " v " + citation + " " + party2
  {
    var parts := [party1, "v", citation, party2];
    assert ListInsert([party1, citation, party2], 1, "v") == parts;
    assert parts[1..][1..][1..] == [party2];
    assert Join(" ", parts[1..][1..]) == citation + " " + party2;
    assert Join(" ", parts[1..]) == "v" + " " + (citation + " " + party2);
    assert Join(" ", parts) == party1 + " " + ("v" + " " + (citation + " " + party2));
  }

  /**
   * A page the pattern matches begins with `Party1 v citation Party2`, a space
   * and a digit; the parties are non-empty and the citation has the shape
   * `[yyyy] SGxx n`.
   */
  lemma MatchScrambledShape(s: string)
    requires MatchScrambled(s).Some?
    ensures var g := MatchScrambled(s).value;
            && |g| == 3 && |g[0]| > 0 && |g[2]| > 0 && IsNeutralCitation(g[1])
            && exists d :: IsDigit(d) && g[0] + " v " + g[1] + " " + g[2] + [' ', d] <= s
  {
    MatchScrambledGreedy(s);
    var g := MatchScrambled(s).value;
    var m: nat, j: nat, k: nat :| GreedyHeaderForm(s, m, j, k) && g == [s[..m], s[m + 3..j], s[j + 1..k]];
    HeaderFormPrefix(s, m, j, k);
  }

  lemma HeaderFormPrefix(s: string, m: nat, j: nat, k: nat)
    requires HeaderForm(s, m, j, k)
    ensures s[..m] + " v " + s[m + 3..j] + " " + s[j + 1..k] + [' ', s[k + 1]] <= s
  {
    assert s[..k + 2] == s[..m] + s[m..m + 3] + s[m + 3..j] + [s[j]] + s[j + 1..k] + [s[k], s[k + 1]];
  }

  /** The highest-indexed of pages `0..hi - 1` that the header pattern matches, or -1. */
  function LastHeaderPage(pages: seq<string>, hi: nat): (p: int)
    requires hi <= |pages|
    ensures -1 <= p < hi
    ensures p >= 0 ==> MatchScrambled(pages[p]).Some?
    ensures forall q :: p < q < hi ==> MatchScrambled(pages[q]).None?
    decreases hi
  {
    if hi == 0 then -1
    else if MatchScrambled(pages[hi - 1]).Some? then hi - 1
    else LastHeaderPage(pages, hi - 1)
  }

  /**
   * What `FindCitationFromHeader` finds: the groups of the highest-indexed page
   * that the header pattern matches; every page above it fails to match, and the
   * result is None (Python's `False`) exactly when no page matches.
   */
  function CitationFromHeader(pages: seq<string>): (r: Option<seq<string>>)
    ensures r.None? <==> forall p :: 0 <= p < |pages| ==> MatchScrambled(pages[p]).None?
    ensures r.Some? ==> exists p :: 0 <= p < |pages| && MatchScrambled(pages[p]) == r
                                    && forall q :: p < q < |pages| ==> MatchScrambled(pages[q]).None?
  {
    var p := LastHeaderPage(pages, |pages|);
    if p >= 0 then MatchScrambled(pages[p]) else None
  }

  /** The citation list `FindCitationFromHeader` returns, which `RemoveHeadersFromText` changes in place. */
  class CiteList {
    var items: seq<string>

    constructor (items: seq<string>)
      ensures this.items == items
    {
      this.items := items;
    }

    /** `list.insert(i, x)`. */
    method Insert(i: nat, x: string)
      modifies this
      ensures items == ListInsert(old(items), i, x)
    {
      items := ListInsert(items, i, x);
    }
  }

  /**
   * `FindCitationFromHeader`: pages are tried from the last one down to the
   * first; the first one the pattern matches gives a new three-element list,
   * and `null` stands for the `False` returned when none matches.
   */
  method FindCitationFromHeader(text: array<string>) returns (cite: CiteList?)
    ensures cite == null <==> CitationFromHeader(text[..]).None?
    ensures cite != null ==> fresh(cite) && CitationFromHeader(text[..]) == Some(cite.items)
  {
    var pgPtr: int := text.Length - 1;
    while pgPtr != -1
      invariant -1 <= pgPtr < text.Length
      invariant LastHeaderPage(text[..], pgPtr + 1) == LastHeaderPage(text[..], text.Length)
      decreases pgPtr
    {
      var lastPgText := text[pgPtr];
      var hits := MatchScrambled(lastPgText);
      if hits.Some? {
        var searchHits := hits.value;
        if |searchHits| == 3 {
          cite := new CiteList(searchHits);
          return;
        }
      }
      pgPtr := pgPtr - 1;
    }
    cite := null;
  }

  /** Every page with each occurrence of `header` deleted (`page.replace(header, "")`). */
  function DeleteFromPages(pages: seq<string>, header: string): (r: seq<string>)
    ensures |r| == |pages|
    ensures forall i :: 0 <= i < |pages| ==> r[i] == ReplaceAll(pages[i], header, "")
  {
    seq(|pages|, i requires 0 <= i < |pages| => ReplaceAll(pages[i], header, ""))
  }

  /** The store after `RemoveHeadersFromText`: unchanged when no citation was found. */
  function HeadersRemoved(pages: seq<string>, cite: Option<seq<string>>): seq<string>
  {
    if cite.None? then pages else DeleteFromPages(pages, HeaderText(cite.value))
  }

  /** Header removal keeps every page and makes none longer. */
  lemma HeadersRemovedShrinks(pages: seq<string>, cite: Option<seq<string>>)
    ensures |HeadersRemoved(pages, cite)| == |pages|
    ensures forall i :: 0 <= i < |pages| ==> |HeadersRemoved(pages, cite)[i]| <= |pages[i]|
  {
    if cite.Some? {
      forall i | 0 <= i < |pages| ensures |HeadersRemoved(pages, cite)[i]| <= |pages[i]| {
        DeleteShrinks(pages[i], HeaderText(cite.value));
      }
    }
  }

  /**
   * The header found is deleted from the page it was found on: that page starts
   * with the header text, and the leading occurrence is the first one removed.
   */
  lemma FoundHeaderRemoved(s: string)
    requires MatchScrambled(s).Some?
    ensures var h := HeaderText(MatchScrambled(s).value);
            |h| > 0 && h <= s && ReplaceAll(s, h, "") == ReplaceAll(s[|h|..], h, "")
  {
    MatchScrambledShape(s);
    var g := MatchScrambled(s).value;
    HeaderTextOfParts(g[0], g[1], g[2]);
    var h := HeaderText(g);
    assert [g[0], g[1], g[2]] == g;
    var d :| IsDigit(d) && g[0] + " v " + g[1] + " " + g[2] + [' ', d] <= s;
    assert h <= s;
    assert s == h + s[|h|..];
    LeadingOccurrenceReplaced(s, h, s[|h|..], "");
  }

  /**
   * `RemoveHeadersFromText`: with no citation (`null`, Python's `False`) the
   * store is returned untouched; otherwise "v" is inserted at index 1 of the
   * caller's list and `" ".join` of it is deleted from every page, in place.
   * The store returned is the one passed in.
   */
  method RemoveHeadersFromText(text: array<string>, cite: CiteList?) returns (result: array<string>)
    modifies text, cite
    ensures result == text
    ensures cite == null ==> text[..] == old(text[..])
    ensures cite != null ==> cite.items == ListInsert(old(cite.items), 1, "v")
    ensures cite != null ==> text[..] == DeleteFromPages(old(text[..]), Join(" ", cite.items))
  {
    if cite != null {
      cite.Insert(1, "v");
      var headerStdText := Join(" ", cite.items);
      for page := 0 to text.Length
        modifies text
        invariant forall i :: 0 <= i < page ==> text[i] == ReplaceAll(old(text[i]), headerStdText, "")
        invariant forall i :: page <= i < text.Length ==> text[i] == old(text[i])
      {
        var pageText := text[page];
        text[page] := ReplaceAll(pageText, headerStdText, "");
      }
      return text;
    } else {
      return text;
    }
  }

  /** The body text `PreprocessTextToString` returns for a normalised store. */
  function PreprocessedText(pages: seq<string>): string
  {
    var cleaned := HeadersRemoved(pages, CitationFromHeader(pages));
    Assemble(cleaned, StartOfText(cleaned))
  }

  /** The body text is always a suffix of the store's pages, headers removed, joined. */
  lemma PreprocessedTextIsSuffix(pages: seq<string>)
    ensures IsSuffixOf(PreprocessedText(pages), Concat(HeadersRemoved(pages, CitationFromHeader(pages))))
  {
    var cleaned := HeadersRemoved(pages, CitationFromHeader(pages));
    AssembleIsSuffix(cleaned, StartOfText(cleaned));
  }

  /**
   * `PreprocessTextToString`: find the citation, delete the header from the
   * store in place, locate the body start on the result and join the text
   * from there on.
   */
  method PreprocessTextToString(text: array<string>) returns (r: string)
    modifies text
    ensures text[..] == HeadersRemoved(old(text[..]), CitationFromHeader(old(text[..])))
    ensures r == PreprocessedText(old(text[..]))
  {
    var cite := FindCitationFromHeader(text);
    var textNoHeaders := RemoveHeadersFromText(text, cite);
    var startPoint := FindStartOfText(textNoHeaders);
    r := CutAndJoin(text, startPoint);
  }

  /**
   * `SentenceTokenizeText` after the PDF decoder produced `raw` (one string per
   * page), with `sent_tokenize` given as `sentTokenize`: one cleaned sentence
   * per tokenizer sentence, in order.
   */
  method SentenceTokenizeText(raw: seq<string>, sentTokenize: string -> seq<string>)
    returns (sentencesCleaned: seq<string>)
    ensures var sentences := sentTokenize(PreprocessedText(NormalisePages(raw)));
            && |sentencesCleaned| == |sentences|
            && forall i :: 0 <= i < |sentences| ==> sentencesCleaned[i] == StripNonAlphaPrefix(sentences[i])
  {
    var text := ExtractTextIntoDict(raw);
    var textString := PreprocessTextToString(text);
    var sentences := sentTokenize(textString);
    sentencesCleaned := CleanSentences(sentences);
  }
}

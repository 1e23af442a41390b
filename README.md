# Judgment text pipeline: a Dafny model

This project models the text-reconstruction pipeline for OCR'd Singapore Supreme
Court judgments. The pipeline turns the pages a PDF decoder produced into the
body text of the judgment, then into cleaned sentences. It comes in two
variants:

- `extract.py` finds the running header
  `{Party1} v {[yyyy] SGxx n} {Party2} {page no}` with a regular expression,
  trying pages from the last one down. It then deletes
  `Party1 v citation Party2` from every page.
- `extract_text.py` takes as header the longest common prefix of the first
  pair of adjacent pages that share more than 11 leading characters. It
  deletes that prefix from every page but the last, then drops a leading page
  number from each of those pages.

Both variants share the later stages, and the model shares them too:

- page normalisation: newlines become spaces and whitespace runs collapse to
  one space;
- the body-start locator, which finds the first page matching
  `J[A-Z]*( .*)?: ` and the offset just after the match;
- the cut-and-join step, which keeps the text from that point on;
- the sentence cleaner, which drops the characters before the first letter of
  each tokenizer sentence.

Modules:

- `Strings`: character classes, `str.replace`, `"".join`, `sep.join`,
  `list.insert` and slicing.
- `Normalise`: lines 28-29 of `extract.py` (the same code as lines 29-30 of
  `extract_text.py`), plus `ExtractTextIntoDict` after decoding.
- `BodyStart`: `FindStartOfText`.
- `Assembler`: the page loop of `PreprocessTextToString`.
- `Sentences`: the cleaning loop of `SentenceTokenizeText`.
- `Extract`: the rest of `extract.py`.
- `ExtractText`: the rest of `extract_text.py`.

How the source's state is modelled:

- The page dictionary `{page no: text}` is an `array<string>` indexed by page
  number. It is updated in place, as the source updates the dictionary.
- `RemoveHeadersFromText` returns the same array it was given, as the source
  returns the same dictionary.
- In `extract.py` the citation list is a `CiteList` object, because
  `RemoveHeadersFromText` inserts `"v"` into the caller's list. The `False`
  that `FindCitationFromHeader` returns when nothing matches is `null`.
- The header and body-start patterns of `extract.py` and `re.match("\d+ (.*)")` of
  `extract_text.py` are explicit matchers. They follow Python's semantics:
  anchored `match` or leftmost `search`, greedy `.+`/`.*`/`[A-Z]*`/`\d+`, and
  the optional group tried first.
- In `extract_text.py` the two places where the code raises are error
  outcomes (`ScanError`) rather than preconditions:
  - `IndexError`: the prefix loop at line 53 has no bounds check, so it runs
    off a page whenever one page of a compared pair is a prefix of the other,
    for example two equal pages or an empty page.
  - `UnboundLocalError`: when no adjacent pair qualifies and there are at
    least two pages, `header` is used unbound at line 64.

  Both errors happen before any page is rewritten, so the store is unchanged
  when either is returned.

Some behaviours are reproduced as written rather than corrected:

- In `extract_text.py` the last page is never rewritten (line 62).
- `extract.py` mutates the caller's list (line 77).
- Deleting a header with `str.replace` is not idempotent: removing `"ab"` from
  `"aabb"` leaves `"ab"` (`Strings.DeleteNotIdempotent`), so the model claims no
  idempotence for either stripper.

## Model

| member | source | states |
|---|---|---|
| Strings.DigitRunEnd | extract_text.py:67 | a greedy `\d+` (also the `\d+` of the citation at extract.py:48): every character from `i` up to the end found is a digit, and the character there, if any, is not |
| Strings.ReplaceAll | extract.py:28 | reference definition, no contract of its own; Python's `str.replace`, characterised by `Strings.DeleteShrinks`, `Strings.ReplaceAbsent`, `Strings.LeadingOccurrenceReplaced`, `Strings.ReplaceKeepsNoNewline` and `Strings.DeleteNotIdempotent` |
| Strings.Join | extract.py:78 | reference definition, no contract of its own; `" ".join`: the items with one separator between neighbours; characterised through `Extract.HeaderTextOfParts` |
| Strings.Concat | extract.py:127 | reference definition, no contract of its own; `"".join`, characterised by `Assembler.AssembleSplitsDocument` and `Assembler.AssembleIsSuffix` |
| Strings.Tail | extract.py:123 | reference definition, no contract of its own; Python's `s[k:]`, empty when `k` is past the end; characterised through `Assembler.AssembleSplitsDocument` |
| Strings.ListInsert | extract.py:77 | `list.insert(i, x)`: `x` lands at index `i` with the elements before and after it kept in order, or is appended when `i` is past the end |
| Strings.DeleteShrinks | extract.py:81 | deleting every occurrence of a pattern never makes a page longer |
| Strings.ReplaceAbsent | extract.py:28 | replacing a non-empty pattern that does not occur leaves the string as it is |
| Strings.LeadingOccurrenceReplaced | extract.py:81 | when a string starts with the pattern, that leading occurrence is the first replaced and the scan resumes after it |
| Strings.DeleteNotIdempotent | extract.py:81 | deleting "ab" from "aabb" gives "ab", and a second pass gives "": header deletion is not idempotent |
| Strings.ReplaceKeepsNoNewline | extract_text.py:64 | replacing with newline-free text keeps a newline-free page newline-free |
| Normalise.SpaceRunLen | extract.py:29 | the maximal `\s+` run at the start: every character before the length found is whitespace, and the next one, if any, is not |
| Normalise.CollapseSpaces | extract.py:29 | `re.sub("\s+", " ", s)` leaves no whitespace other than single spaces, none adjacent; output empty only for empty input; starts with whitespace exactly when the input does |
| Normalise.NormalisePage | extract.py:28-29 | a normalised page has no newline, only single spaces as whitespace with no two adjacent, the same non-whitespace characters in the same order as the raw page, and is no longer |
| Normalise.NormalisePages | extract.py:21-30 | one normalised entry per decoded page, in page order |
| Normalise.CollapseKeepsContent | extract.py:29 | collapsing whitespace keeps every non-whitespace character, in order |
| Normalise.CollapseFixes | extract.py:29 | collapsing text that is already collapsed changes nothing |
| Normalise.NormaliseIdempotent | extract.py:28-29 | normalising a normalised page changes nothing |
| Normalise.CollapseLastChar | extract.py:29 | collapsed text ends with a space exactly when the input ends with whitespace |
| Normalise.WordsConsExtend | extract.py:28-29 | proof helper about `Words`, the reference definition of `str.split()` used by `NormaliseKeepsWords`: a non-whitespace character before a word becomes part of that word (`str.split()` semantics) |
| Normalise.WordsConsNew | extract.py:28-29 | proof helper about `Words`, the reference definition of `str.split()` used by `NormaliseKeepsWords`: a non-whitespace character before whitespace, or at the end, is a word of its own |
| Normalise.WordsDropSpaces | extract.py:29 | proof helper about `Words`, the reference definition of `str.split()` used by `NormaliseKeepsWords`: leading whitespace does not change the words |
| Normalise.WordsSameShape | extract.py:28-29 | proof helper about `Words`, the reference definition of `str.split()` used by `NormaliseKeepsWords`: two texts with whitespace in the same places and the same other characters split into the same words |
| Normalise.NewlinesShape | extract.py:28 | turning newlines into spaces keeps every position's whitespace status and every non-whitespace character |
| Normalise.CollapseKeepsWords | extract.py:29 | collapsing whitespace runs keeps the words |
| Normalise.NormaliseKeepsWords | extract.py:28-29 | normalising keeps the words of the page, and whether it starts and ends with whitespace |
| Normalise.ExtractTextIntoDict | extract.py:21-33 | a new store holding, at each page number, the normalised text of that decoded page |
| BodyStart.UpperRunEnd | extract.py:96 | the greedy `[A-Z]*` after the `J`: all upper-case up to the end found, and the next character, if any, is not |
| BodyStart.LastColonSpace | extract.py:96 | the greedy `.*` of the optional group: the end found is followed by `": "`, the text in between has no newline, and no later end in range fits |
| BodyStart.JusticeMatchAt | extract.py:96 | a match of `J[A-Z]*( .*)?: ` anchored at `i` ends inside the page, at least three characters after `i`, just after ": " |
| BodyStart.JusticeMatchAtLongest | extract.py:96 | the end found at `i` is the end of a real match of the pattern, and no way of matching at `i` ends later (Python's greedy choice) |
| BodyStart.LeftmostMatch | extract.py:99 | the start scan of `search`: the start found lies between `i` and one past the end (meaning no start matches); its leftmost property is `BodyStart.LeftmostMatchIsLeftmost` |
| BodyStart.LeftmostMatchIsLeftmost | extract.py:99 | the start the search settles on is a match start and no earlier start matches |
| BodyStart.JusticeSearch | extract.py:99-101 | `search(...).end()` lies inside the page, at least 3 characters in, just after ": " |
| BodyStart.JusticeSearchLeftmost | extract.py:99-100 | the search fails exactly when the pattern matches at no start; otherwise it reports the match at the leftmost start that matches |
| BodyStart.StartFrom | extract.py:97-104 | scanning from page `lo`: the sentinel exactly when no page from `lo` on matches; otherwise the first matching page from `lo` on, with its match end |
| BodyStart.StartOfText | extract.py:97-104 | reference definition, no contract of its own; the cut point `FindStartOfText` returns, characterised by `BodyStart.StartOfTextFirstHit` and computed by `BodyStart.FindStartOfText` |
| BodyStart.StartOfTextFirstHit | extract.py:96-104 | the result is (0, 0) exactly when no page matches; otherwise it is the lowest-indexed matching page with its match end, no earlier page matches, and the offset is within the page, at least 3, and just after ": ", so it never equals the sentinel |
| BodyStart.FindStartOfText | extract.py:96-104 | the loop with its early return computes the first-hit cut point over the store |
| Assembler.Assemble | extract.py:121-127 | reference definition, no contract of its own; the rest of the cut page from the offset on, then every later page, joined; characterised by `Assembler.AssembleSentinel`, `Assembler.AssembleSplitsDocument`, `Assembler.AssembleIsSuffix` and computed by `Assembler.CutAndJoin` |
| Assembler.AssembleSentinel | extract.py:121-127 | with the (0, 0) cut point the result is every page joined together |
| Assembler.AssembleSplitsDocument | extract.py:121-127 | the joined pages are exactly the pages before the cut, the cut page up to the offset, and the assembled text: nothing is lost or repeated |
| Assembler.AssembleIsSuffix | extract.py:121-127 | whatever the cut point, the assembled text is a suffix of all pages joined |
| Assembler.CutAndJoin | extract.py:114-127 | the chunk list built in page order and joined with no separator is the cut page from the offset on followed by every later page |
| Sentences.StripNonAlphaPrefix | extract.py:144-153 | a cleaned sentence is a suffix of the sentence, the dropped prefix has no letter, and what is left is empty or starts with a letter |
| Sentences.StripNonAlphaPrefixUnique | extract.py:144-153 | any suffix with those three properties is the cleaned sentence |
| Sentences.StripNonAlphaPrefixIdempotent | extract.py:144-153 | cleaning a cleaned sentence changes nothing |
| Sentences.CleanSentences | extract.py:143-153 | exactly one output per tokenizer sentence, in order, each the sentence cleaned; empty results are kept |
| Extract.CitationEnd | extract.py:48 | a citation group found at `i` has the shape `[dddd] SGww n` and its digit run is maximal |
| Extract.CitationEndComplete | extract.py:48 | any citation-shaped text at `i` followed by a space is the one found |
| Extract.LastPartyTwoEnd | extract.py:48 | the greedy `(.+)` of the second party: the end found is a fitting second-party end; its maximality is `Extract.LastPartyTwoEndIsLast` |
| Extract.LastPartyOneEnd | extract.py:48 | the greedy `(.+)` of the first party: the end found is a fitting first-party end; its maximality is `Extract.LastPartyOneEndIsLast` |
| Extract.LastPartyTwoEndIsLast | extract.py:48 | no end of the second party that fits lies after the greedy choice |
| Extract.LastPartyOneEndIsLast | extract.py:48 | no end of the first party that fits lies after the greedy choice |
| Extract.HeaderFormSteps | extract.py:48 | every split of a page that fits the header pattern goes through the matcher's own steps |
| Extract.MatchScrambled | extract.py:48-56 | reference definition, no contract of its own; `scrambled_regex.match(page).groups()` with Python's backtracking order, or None for the `AttributeError`; characterised against the independent `HeaderForm` by `Extract.MatchScrambledNone`, `Extract.MatchScrambledGreedy` and `Extract.MatchScrambledShape` |
| Extract.MatchScrambledNone | extract.py:56-61 | the pattern fails (the `AttributeError` case) exactly when no split of the page fits it |
| Extract.MatchScrambledGreedy | extract.py:48-56 | a match returns the groups of a split that fits, with the first party as long as possible and, for it, the second party as long as possible |
| Extract.MatchScrambledShape | extract.py:48-58 | the three groups are two non-empty parties around a citation of the right shape, and the page begins with `P1 v C P2`, a space and a digit |
| Extract.HeaderFormPrefix | extract.py:48 | a fitting split gives a page that begins with `P1 v C P2 d` |
| Extract.HeaderText | extract.py:77-78 | reference definition, no contract of its own; `" ".join` of the groups after `insert(1, "v")`, characterised by `Extract.HeaderTextOfParts` |
| Extract.HeaderTextOfParts | extract.py:77-78 | inserting "v" at index 1 and joining with spaces gives `P1 + " v " + C + " " + P2` |
| Extract.LastHeaderPage | extract.py:47-63 | the page the backward scan stops on matches the pattern and every page above it fails, or -1 when none matches |
| Extract.CitationFromHeader | extract.py:47-66 | `False` exactly when no page matches; otherwise the groups of a matching page above which no page matches |
| Extract.FindCitationFromHeader | extract.py:47-66 | the backward `while` loop returns null (`False`) exactly when no page matches, and otherwise a new list holding the highest matching page's groups |
| Extract.CiteList.constructor | extract.py:58 | `list(search_hits)`: a new list with the given items |
| Extract.CiteList.Insert | extract.py:77 | the list after `insert(i, x)`, changed in place |
| Extract.DeleteFromPages | extract.py:79-81 | one entry per page, each the page with every occurrence of the header deleted |
| Extract.HeadersRemoved | extract.py:76-85 | reference definition, no contract of its own; the store after header removal, characterised by `Extract.HeadersRemovedShrinks` and `Extract.FoundHeaderRemoved` and computed by `Extract.RemoveHeadersFromText` |
| Extract.HeadersRemovedShrinks | extract.py:76-85 | header removal keeps the page count and makes no page longer |
| Extract.FoundHeaderRemoved | extract.py:77-81 | the page the citation came from begins with the header text to delete, and its leading occurrence is the first one removed |
| Extract.RemoveHeadersFromText | extract.py:69-85 | with null (`False`) the store is unchanged; otherwise the caller's list gets "v" at index 1 and every page has the joined header deleted in place; the same store is returned |
| Extract.PreprocessedText | extract.py:116-127 | reference definition, no contract of its own; the body text of the pipeline, characterised by `Extract.PreprocessedTextIsSuffix` and computed by `Extract.PreprocessTextToString` |
| Extract.PreprocessedTextIsSuffix | extract.py:116-127 | the body text is a suffix of the header-stripped pages joined |
| Extract.PreprocessTextToString | extract.py:107-127 | the store ends up header-stripped and the result is the text from the first body-start marker on |
| Extract.SentenceTokenizeText | extract.py:130-155 | one cleaned sentence per tokenizer sentence of the body text of the normalised pages |
| ExtractText.CommonPrefixLen | extract_text.py:52-54 | the common prefix length is within both pages, the pages agree up to it, and they differ right after it when neither has ended |
| ExtractText.CommonPrefixLenUnique | extract_text.py:52-54 | any length with those properties is the common prefix length |
| ExtractText.CommonPrefixOverrun | extract_text.py:53 | the prefix scan reaches the end of a page exactly when one page is a prefix of the other |
| ExtractText.ScanFrom | extract_text.py:48-60 | reference definition, no contract of its own; the header scan from pair `k` on, characterised by `ExtractText.ScanFromNoHeader`, `ExtractText.ScanFromOverrun` and `ExtractText.ScanFromHeader` |
| ExtractText.HeaderScanOf | extract_text.py:45-60 | reference definition, no contract of its own; the scan from the first pair, computed by `ExtractText.FindCommonHeader` |
| ExtractText.ScanFromNoHeader | extract_text.py:48-60 | the scan finds nothing exactly when every pair from `k` on is safe to compare and shares at most 11 characters |
| ExtractText.ScanFromOverrun | extract_text.py:53 | the scan raises at a pair where one page is a prefix of the other, and every earlier pair is ordinary |
| ExtractText.ScanFromHeader | extract_text.py:48-58 | a header comes from the pair it names: a prefix of both pages, longer than 11, with the pages differing right after it; every earlier pair is ordinary |
| ExtractText.HeaderOfCommonPrefix | extract_text.py:56-57 | a common prefix longer than 11 that neither page ends in is a header of the pair |
| ExtractText.HeaderOfPairIsCommonPrefix | extract_text.py:56-57 | the header of a pair is exactly `page1[:slice_point]` |
| ExtractText.FindCommonHeader | extract_text.py:44-60 | the nested `while` loops compute the header scan over the store |
| ExtractText.UpToNewline | extract_text.py:67 | `(.*)` captures a newline-free prefix that stops only at a newline or the end |
| ExtractText.UpToNewlineWhole | extract_text.py:67 | on text without newlines `(.*)` captures all of it |
| ExtractText.PageNumberMatch | extract_text.py:67 | reference definition, no contract of its own; `re.match("\d+ (.*)", t)` and its group, characterised by `ExtractText.PageNumberMatchIff` |
| ExtractText.PageNumberMatchIff | extract_text.py:67-68 | `\d+ (.*)` matches exactly when the page begins with digits and a space |
| ExtractText.DigitPrefixWithinRun | extract_text.py:67 | a run of digits ends no later than the greedy `\d+` |
| ExtractText.StripPageNumber | extract_text.py:67-71 | reference definition, no contract of its own; the group when the match succeeds, the page otherwise; characterised by `ExtractText.StripPageNumberSpec` |
| ExtractText.StripPage | extract_text.py:63-71 | reference definition, no contract of its own; the header deleted and then the page number stripped; characterised by `ExtractText.StripPageNumberSpec` and `ExtractText.NormalisedPageLosesOnlyPageNumber` |
| ExtractText.StripPageNumberSpec | extract_text.py:67-71 | a page changes exactly when it begins with a page number; on a newline-free page only the leading digits and one space are dropped and the rest is kept |
| ExtractText.StripAllButLast | extract_text.py:62-71 | pages `0..n-2` are each stripped of the header and then of a page number, and the last page is kept as it is |
| ExtractText.StripPages | extract_text.py:62-71 | the loop leaves the store equal to every page but the last rewritten by the header and page-number strip, the last as it was |
| ExtractText.HeadersRemoved | extract_text.py:44-73 | reference definition, no contract of its own; the store after header removal or the error raised, characterised by `ExtractText.HeadersRemovedOutcomes` and computed by `ExtractText.RemoveHeadersFromText` |
| ExtractText.HeadersRemovedOutcomes | extract_text.py:44-73 | `header` is unbound exactly when there are two or more pages and every pair is ordinary; `IndexError` names a pair where one page is a prefix of the other, with all earlier pairs ordinary; one page or none is returned unchanged; success keeps the page count and the last page |
| ExtractText.NormalisedPageLosesOnlyPageNumber | extract_text.py:62-71 | on normalised pages, each rewritten page but the last is the header-deleted page, newline-free, either unchanged when it has no leading page number or with only its leading digits and one space dropped |
| ExtractText.RemoveHeadersFromText | extract_text.py:37-73 | on success the same store is returned, rewritten in place as the header removal says; on an error the error is returned and the store is unchanged |
| ExtractText.PreprocessedText | extract_text.py:104-114 | reference definition, no contract of its own; the body text or the error raised, characterised by `ExtractText.PreprocessedTextIsSuffix` and computed by `ExtractText.PreprocessTextToString` |
| ExtractText.PreprocessedTextIsSuffix | extract_text.py:104-114 | a body text is a suffix of the rewritten pages joined |
| ExtractText.PreprocessTextToString | extract_text.py:95-114 | either the error raised, with the store unchanged, or the text from the first body-start marker on, with the store rewritten |
| ExtractText.SentenceTokenizeText | extract_text.py:117-142 | the error raised, or one cleaned sentence per tokenizer sentence of the body text |

## Left out

- PDF opening and decoding with PyPDF2 (extract.py:16-25, 32; extract_text.py:16-26, 33) is a foreign library doing file I/O. The decoded pages are the parameter `raw`.
- `nltk.sent_tokenize` (extract.py:139; extract_text.py:126) is a foreign statistical tokenizer. It is the function parameter `sentTokenize`.
- `WriteSentencesToTxtFile` and the `__main__` prompt loops are file writes and interactive input.
- The `print` warnings (extract.py:65, 103; extract_text.py:19, 91) are logging only.
- `supct_scraper.py`, `supct_trawler.py` and `section_searcher.py` are not part of this model. They do HTTP scraping, file and CSV I/O, and one `re.search` per sentence.
- Character classes are ASCII. `\d` is `0-9`, `\w` is letters, digits and `_`, and `isalpha` is `A-Z`/`a-z`. Python applies the Unicode definitions. `\s` is modelled as the full set of characters Python's `str.isspace` accepts.
- `len(search_hits) == 3` (extract.py:57) is always true for a pattern with three groups. The model keeps the test, but no contract depends on it.
- Python's dictionary is modelled as an array indexed by page number. Its keys are exactly `0..n-1` in insertion order, which is how `ExtractTextIntoDict` builds it.

/**
 * The text assembler of `PreprocessTextToString`: the text before the cut
 * point is dropped and the rest of the pages are joined with no separator.
 */
module Assembler {
  import opened Strings
  import opened BodyStart

  /** The body text: the cut page from its offset on, then each later page in full. */
  function Assemble(pages: seq<string>, c: CutPoint): string
  {
    if c.page < |pages| then Tail(pages[c.page], c.offset) + Concat(pages[c.page + 1..]) else []
  }

  /** With the sentinel cut point nothing is trimmed: the whole document comes out. */
  lemma AssembleSentinel(pages: seq<string>)
    ensures Assemble(pages, Sentinel) == Concat(pages)
  {
    if |pages| > 0 {
      ConcatCons(pages);
    }
  }

  /**
   * Nothing is lost or repeated: the document is the pages before the cut,
   * the part of the cut page before the offset, and the assembled text.
   */
  lemma AssembleSplitsDocument(pages: seq<string>, c: CutPoint)
    requires c.page < |pages| && c.offset <= |pages[c.page]|
    ensures Concat(pages) == Concat(pages[..c.page]) + pages[c.page][..c.offset] + Assemble(pages, c)
  {
    var p := c.page;
    assert pages == pages[..p] + pages[p..];
    ConcatAppend(pages[..p], pages[p..]);
    ConcatCons(pages[p..]);
    assert pages[p..][1..] == pages[p + 1..];
    assert pages[p] == pages[p][..c.offset] + pages[p][c.offset..];
  }

  /** Whatever the cut point, the assembled text is a suffix of the whole document. */
  lemma AssembleIsSuffix(pages: seq<string>, c: CutPoint)
    ensures IsSuffixOf(Assemble(pages, c), Concat(pages))
  {
    if c.page < |pages| {
      var p := c.page;
      var o := if c.offset <= |pages[p]| then c.offset else |pages[p]|;
      var c' := CutPoint(p, o);
      AssembleSplitsDocument(pages, c');
      assert Assemble(pages, c') == Assemble(pages, c);
    }
  }

  /**
   * The loop of `PreprocessTextToString`: the cut page from the offset on and
   * every page with a larger index are collected in page order and joined.
   */
  method CutAndJoin(text: array<string>, c: CutPoint) returns (r: string)
    ensures r == Assemble(text[..], c)
  {
    var textChunks: seq<string> := [];
    for pageNum := 0 to text.Length
      invariant textChunks == if pageNum <= c.page then []
                              else [Tail(text[c.page], c.offset)] + text[c.page + 1..pageNum]
    {
      if pageNum == c.page {
        textChunks := textChunks + [Tail(text[pageNum], c.offset)];
      } else if pageNum > c.page {
        textChunks := textChunks + [text[pageNum]];
      }
    }
    r := Concat(textChunks);
    if c.page < text.Length {
      ConcatCons(textChunks);
      assert textChunks[1..] == text[..][c.page + 1..];
    }
  }
}

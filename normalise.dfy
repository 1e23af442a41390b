/**
 * The page text store: each decoded page has its line breaks replaced by
 * spaces and every run of whitespace collapsed to one space.
 */
module Normalise {
  import opened Strings

  /** Length of the leading run of whitespace of `s`. */
  function SpaceRunLen(s: string): (n: nat)
    ensures n <= |s|
    ensures forall i :: 0 <= i < n ==> IsSpace(s[i])
    ensures n < |s| ==> !IsSpace(s[n])
    decreases |s|
  {
    if |s| > 0 && IsSpace(s[0]) then 1 + SpaceRunLen(s[1..]) else 0
  }

  /** The non-whitespace characters of `s`, in order: what normalisation must keep. */
  function NonSpace(s: string): string
    decreases |s|
  {
    if |s| == 0 then [] else (if IsSpace(s[0]) then [] else [s[0]]) + NonSpace(s[1..])
  }

  /** Every whitespace character is a plain space and no two are adjacent. */
  predicate Collapsed(s: string)
  {
    && (forall i :: 0 <= i < |s| && IsSpace(s[i]) ==> s[i] == ' ')
    && (forall i :: 0 <= i < |s| - 1 ==> !(IsSpace(s[i]) && IsSpace(s[i + 1])))
  }

  /** `re.sub("\s+", " ", s)`: each maximal whitespace run becomes one space. */
  function CollapseSpaces(s: string): (r: string)
    ensures Collapsed(r)
    ensures |s| > 0 ==> |r| > 0 && (IsSpace(r[0]) <==> IsSpace(s[0]))
    ensures |r| <= |s|
    decreases |s|
  {
    if |s| == 0 then []
    else if IsSpace(s[0]) then " " + CollapseSpaces(s[SpaceRunLen(s)..])
    else [s[0]] + CollapseSpaces(s[1..])
  }

  /** The collapsed text ends with a space exactly when the text ends with whitespace. */
  lemma {:induction false} CollapseLastChar(s: string)
    requires |s| > 0
    ensures var r := CollapseSpaces(s);
            IsSpace(r[|r| - 1]) <==> IsSpace(s[|s| - 1])
    decreases |s|
  {
    var r := CollapseSpaces(s);
    if IsSpace(s[0]) {
      var n := SpaceRunLen(s);
      var tail := CollapseSpaces(s[n..]);
      assert r == " " + tail;
      if n < |s| {
        CollapseLastChar(s[n..]);
        assert r[|r| - 1] == tail[|tail| - 1] && s[|s| - 1] == s[n..][|s| - n - 1];
      } else {
        assert IsSpace(s[|s| - 1]) && tail == [];
      }
    } else if |s| > 1 {
      var tail := CollapseSpaces(s[1..]);
      assert r == [s[0]] + tail;
      CollapseLastChar(s[1..]);
      assert r[|r| - 1] == tail[|tail| - 1] && s[|s| - 1] == s[1..][|s| - 2];
    }
  }

  /** Length of the leading run of non-whitespace of `s`. */
  function WordLen(s: string): (n: nat)
    ensures n <= |s|
    decreases |s|
  {
    if |s| > 0 && !IsSpace(s[0]) then 1 + WordLen(s[1..]) else 0
  }

  /** `s.split()`: the maximal runs of non-whitespace characters, in order. */
  function Words(s: string): seq<string>
    decreases |s|
  {
    if |s| == 0 then []
    else if IsSpace(s[0]) then Words(s[1..])
    else
      var n := WordLen(s);
      [s[..n]] + Words(s[n..])
  }

  /** A non-whitespace character in front of a word extends that word. */
  lemma WordsConsExtend(c: char, t: string)
    requires !IsSpace(c) && |t| > 0 && !IsSpace(t[0])
    ensures Words([c] + t) == [[c] + Words(t)[0]] + Words(t)[1..]
  {
    WordLenCons(c, t);
    var m := WordLen(t);
    assert Words(t) == [t[..m]] + Words(t[m..]);
  }

  /** A non-whitespace character in front of whitespace, or alone, is a word of its own. */
  lemma WordsConsNew(c: char, t: string)
    requires !IsSpace(c) && (|t| == 0 || IsSpace(t[0]))
    ensures Words([c] + t) == [[c]] + Words(t)
  {
    WordLenCons(c, t);
    assert t[..0] == [] && t[0..] == t;
  }

  lemma WordLenCons(c: char, t: string)
    requires !IsSpace(c)
    ensures var s, m := [c] + t, WordLen(t);
            WordLen(s) == 1 + m && s[..m + 1] == [c] + t[..m] && s[m + 1..] == t[m..]
  {
    assert ([c] + t)[1..] == t;
  }

  /** A space in front does not change the words. */
  lemma WordsSpaceCons(t: string)
    ensures Words(" " + t) == Words(t)
  {
    assert (" " + t)[1..] == t;
  }

  /** Whitespace in front does not change the words. */
  lemma {:induction false} WordsDropSpaces(s: string, k: nat)
    requires k <= |s| && forall i :: 0 <= i < k ==> IsSpace(s[i])
    ensures Words(s[k..]) == Words(s)
    decreases k
  {
    if k > 0 {
      WordsDropSpaces(s[1..], k - 1);
      assert s[1..][k - 1..] == s[k..];
    }
  }

  /** Two strings with whitespace in the same places and the same other characters. */
  predicate SameShape(a: string, b: string)
  {
    && |a| == |b|
    && forall i :: 0 <= i < |a| ==> (IsSpace(a[i]) <==> IsSpace(b[i])) && (!IsSpace(a[i]) ==> a[i] == b[i])
  }

  /** Which whitespace characters stand between the words does not matter. */
  lemma {:induction false} WordsSameShape(a: string, b: string)
    requires SameShape(a, b)
    ensures Words(a) == Words(b)
    decreases |a|
  {
    if |a| > 0 {
      assert SameShape(a[1..], b[1..]);
      WordsSameShape(a[1..], b[1..]);
      if !IsSpace(a[0]) {
        assert a == [a[0]] + a[1..] && b == [b[0]] + b[1..];
        if |a| > 1 && !IsSpace(a[1]) {
          WordsConsExtend(a[0], a[1..]);
          WordsConsExtend(b[0], b[1..]);
        } else {
          WordsConsNew(a[0], a[1..]);
          WordsConsNew(b[0], b[1..]);
        }
      }
    }
  }

  /** Turning newlines into spaces changes only which whitespace character stands where. */
  lemma {:induction false} NewlinesShape(s: string)
    ensures SameShape(ReplaceAll(s, "\n", " "), s)
    decreases |s|
  {
    if |s| > 0 {
      NewlinesShape(s[1..]);
      var t := ReplaceAll(s[1..], "\n", " ");
      if "\n" <= s {
        assert s[|"\n"|..] == s[1..];
        assert ReplaceAll(s, "\n", " ") == [' '] + t;
      } else {
        assert ReplaceAll(s, "\n", " ") == [s[0]] + t;
      }
    }
  }

  /** Collapsing whitespace keeps the words. */
  lemma {:induction false} CollapseKeepsWords(s: string)
    ensures Words(CollapseSpaces(s)) == Words(s)
    decreases |s|
  {
    if |s| > 0 {
      if IsSpace(s[0]) {
        var n := SpaceRunLen(s);
        CollapseKeepsWords(s[n..]);
        WordsDropSpaces(s, n);
        WordsSpaceCons(CollapseSpaces(s[n..]));
      } else {
        var t := s[1..];
        var r := CollapseSpaces(t);
        CollapseKeepsWords(t);
        assert s == [s[0]] + t;
        assert CollapseSpaces(s) == [s[0]] + r;
        if |t| > 0 && !IsSpace(t[0]) {
          WordsConsExtend(s[0], t);
          WordsConsExtend(s[0], r);
        } else {
          WordsConsNew(s[0], t);
          WordsConsNew(s[0], r);
        }
      }
    }
  }

  /** Lines 28-29 of `ExtractTextIntoDict`: newlines to spaces, then whitespace runs collapsed. */
  function NormalisePage(s: string): (r: string)
    ensures '\n' !in r
    ensures Collapsed(r)
    ensures NonSpace(r) == NonSpace(s)
    ensures |r| <= |s|
  {
    var t := ReplaceAll(s, "\n", " ");
    NewlinesToSpaces(s);
    CollapseKeepsContent(t);
    CollapseSpaces(t)
  }

  /**
   * Normalisation keeps the words of the page (`str.split()`), and the page
   * begins (ends) with a space exactly when the raw page begins (ends) with
   * whitespace.
   */
  lemma NormaliseKeepsWords(s: string)
    ensures Words(NormalisePage(s)) == Words(s)
    ensures |s| > 0 ==>
              var r := NormalisePage(s);
              && |r| > 0 && (IsSpace(r[0]) <==> IsSpace(s[0]))
              && (IsSpace(r[|r| - 1]) <==> IsSpace(s[|s| - 1]))
  {
    var t := ReplaceAll(s, "\n", " ");
    NewlinesShape(s);
    WordsSameShape(t, s);
    CollapseKeepsWords(t);
    if |s| > 0 {
      CollapseLastChar(t);
      assert IsSpace(t[0]) <==> IsSpace(s[0]);
      assert IsSpace(t[|t| - 1]) <==> IsSpace(s[|s| - 1]);
    }
  }

  function NormalisePages(raw: seq<string>): (pages: seq<string>)
    ensures |pages| == |raw|
    ensures forall i :: 0 <= i < |raw| ==> pages[i] == NormalisePage(raw[i])
  {
    seq(|raw|, i requires 0 <= i < |raw| => NormalisePage(raw[i]))
  }

  lemma {:induction false} NewlinesToSpaces(s: string)
    ensures |ReplaceAll(s, "\n", " ")| == |s|
    ensures NonSpace(ReplaceAll(s, "\n", " ")) == NonSpace(s)
    decreases |s|
  {
    if |s| > 0 {
      NewlinesToSpaces(s[1..]);
      if "\n" <= s {
        assert s[|"\n"|..] == s[1..];
      }
    }
  }

  /** Dropping a prefix made only of whitespace keeps the content. */
  lemma {:induction false} NonSpaceDropSpaces(s: string, k: nat)
    requires k <= |s|
    requires forall i :: 0 <= i < k ==> IsSpace(s[i])
    ensures NonSpace(s[k..]) == NonSpace(s)
    decreases k
  {
    if k > 0 {
      NonSpaceDropSpaces(s[1..], k - 1);
      assert s[1..][k - 1..] == s[k..];
    }
  }

  lemma {:induction false} CollapseKeepsContent(s: string)
    ensures NonSpace(CollapseSpaces(s)) == NonSpace(s)
    decreases |s|
  {
    if |s| > 0 {
      if IsSpace(s[0]) {
        var n := SpaceRunLen(s);
        CollapseKeepsContent(s[n..]);
        NonSpaceDropSpaces(s, n);
        var r := " " + CollapseSpaces(s[n..]);
        assert r[1..] == CollapseSpaces(s[n..]);
      } else {
        CollapseKeepsContent(s[1..]);
        var r := [s[0]] + CollapseSpaces(s[1..]);
        assert r[1..] == CollapseSpaces(s[1..]);
      }
    }
  }

  /** Collapsing text that is already collapsed changes nothing. */
  lemma {:induction false} CollapseFixes(s: string)
    requires Collapsed(s)
    ensures CollapseSpaces(s) == s
    decreases |s|
  {
    if |s| > 0 {
      assert Collapsed(s[1..]);
      CollapseFixes(s[1..]);
      if IsSpace(s[0]) {
        assert SpaceRunLen(s) == 1 by {
          if |s| > 1 { assert !IsSpace(s[1]); }
        }
      }
    }
  }

  /** Normalising a normalised page changes nothing. */
  lemma NormaliseIdempotent(s: string)
    ensures NormalisePage(NormalisePage(s)) == NormalisePage(s)
  {
    var r := NormalisePage(s);
    forall i: nat | i <= |r| ensures !OccursAt(r, "\n", i) {
      if i + 1 <= |r| { assert r[i..i + 1][0] == r[i]; }
    }
    ReplaceAbsent(r, "\n", " ");
    CollapseFixes(r);
  }

  /**
   * `ExtractTextIntoDict` after the PDF decoder has produced `raw`, one string
   * per page: the store holds one normalised entry per page, in page order.
   */
  method ExtractTextIntoDict(raw: seq<string>) returns (text: array<string>)
    ensures fresh(text)
    ensures text[..] == NormalisePages(raw)
  {
    text := new string[|raw|](_ => "");
    for pageNum := 0 to |raw|
      invariant forall i :: 0 <= i < pageNum ==> text[i] == NormalisePage(raw[i])
    {
      var pageText := ReplaceAll(raw[pageNum], "\n", " ");
      pageText := CollapseSpaces(pageText);
      text[pageNum] := pageText;
    }
  }
}

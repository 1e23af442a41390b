/**
 * The sentence cleaner of `SentenceTokenizeText`: from each sentence the
 * tokenizer produced, the characters before the first letter are dropped.
 * A sentence without letters becomes empty and is kept, so the output has
 * one entry per tokenizer sentence.
 */
module Sentences {
  import opened Strings

  /**
   * A sentence with its leading non-letters removed: a suffix of the sentence,
   * the dropped prefix holds no letter, and what is left is empty or starts
   * with a letter.
   */
  function StripNonAlphaPrefix(s: string): (r: string)
    ensures IsSuffixOf(r, s)
    ensures NoAlpha(s[..|s| - |r|])
    ensures r == [] || IsAlpha(r[0])
    decreases |s|
  {
    if |s| == 0 || IsAlpha(s[0]) then s else StripNonAlphaPrefix(s[1..])
  }

  /** The three properties above determine the result: no other suffix has them. */
  lemma {:induction false} StripNonAlphaPrefixUnique(s: string, t: string)
    requires IsSuffixOf(t, s)
    requires NoAlpha(s[..|s| - |t|])
    requires t == [] || IsAlpha(t[0])
    ensures t == StripNonAlphaPrefix(s)
    decreases |s|
  {
    if |s| > 0 && |s| > |t| {
      assert !IsAlpha(s[0]) by { assert s[..|s| - |t|][0] == s[0]; }
      assert s[1..][..|s[1..]| - |t|] == s[..|s| - |t|][1..];
      StripNonAlphaPrefixUnique(s[1..], t);
    }
  }

  /** Cleaning a cleaned sentence changes nothing. */
  lemma StripNonAlphaPrefixIdempotent(s: string)
    ensures StripNonAlphaPrefix(StripNonAlphaPrefix(s)) == StripNonAlphaPrefix(s)
  {
  }

  /** The loop over the tokenizer's sentences, with its inner `rm_counter` scan. */
  method CleanSentences(sentences: seq<string>) returns (sentencesCleaned: seq<string>)
    ensures |sentencesCleaned| == |sentences|
    ensures forall i :: 0 <= i < |sentences| ==> sentencesCleaned[i] == StripNonAlphaPrefix(sentences[i])
  {
    sentencesCleaned := [];
    for n := 0 to |sentences|
      invariant |sentencesCleaned| == n
      invariant forall i :: 0 <= i < n ==> sentencesCleaned[i] == StripNonAlphaPrefix(sentences[i])
    {
      var sentence := sentences[n];
      var rmCounter := 0;
      while rmCounter < |sentence| && !IsAlpha(sentence[rmCounter])
        invariant rmCounter <= |sentence|
        invariant StripNonAlphaPrefix(sentence[rmCounter..]) == StripNonAlphaPrefix(sentence)
      {
        assert sentence[rmCounter..][1..] == sentence[rmCounter + 1..];
        rmCounter := rmCounter + 1;
      }
      sentencesCleaned := sentencesCleaned + [sentence[rmCounter..]];
    }
  }
}

/**
 * Character classes and the Python string operations the pipeline relies on:
 * `str.replace`, `" ".join`, `"".join` and `list.insert`.
 *
 * Character classes are ASCII (`\d`, `\w`, `str.isalpha`), except whitespace,
 * which is the set of characters Python's `\s` matches in a `str` pattern.
 */
module Strings {

  predicate IsDigit(c: char) { '0' <= c <= '9' }

  predicate IsUpper(c: char) { 'A' <= c <= 'Z' }

  predicate IsAlpha(c: char) { 'A' <= c <= 'Z' || 'a' <= c <= 'z' }

  /** `\w`: letters, digits and the underscore. */
  predicate IsWordChar(c: char) { IsAlpha(c) || IsDigit(c) || c == '_' }

  /** `\s`: the characters for which Python's `str.isspace` holds. */
  predicate IsSpace(c: char)
  {
    c == ' ' || '\t' <= c <= '\r' || '\U{1C}' <= c <= '\U{1F}'
    || c == '\U{85}' || c == '\U{A0}' || c == '\U{1680}'
    || '\U{2000}' <= c <= '\U{200A}' || c == '\U{2028}' || c == '\U{2029}'
    || c == '\U{202F}' || c == '\U{205F}' || c == '\U{3000}'
  }

  predicate NoNewline(s: string) { forall i :: 0 <= i < |s| ==> s[i] != '\n' }

  predicate AllDigits(s: string) { forall i :: 0 <= i < |s| ==> IsDigit(s[i]) }

  predicate NoAlpha(s: string) { forall i :: 0 <= i < |s| ==> !IsAlpha(s[i]) }

  /** End of the maximal run of digits starting at `i` (a greedy `\d+` or `\d*`). */
  function DigitRunEnd(s: string, i: nat): (j: nat)
    requires i <= |s|
    ensures i <= j <= |s|
    ensures forall k :: i <= k < j ==> IsDigit(s[k])
    ensures j < |s| ==> !IsDigit(s[j])
    decreases |s| - i
  {
    if i < |s| && IsDigit(s[i]) then DigitRunEnd(s, i + 1) else i
  }

  /** `pat` occurs in `s` starting at index `i`. */
  predicate OccursAt(s: string, pat: string, i: nat)
  {
    i + |pat| <= |s| && s[i..i + |pat|] == pat
  }

  /** `pat` occurs somewhere in `s`. */
  predicate Contains(s: string, pat: string)
  {
    exists i: nat :: i <= |s| && OccursAt(s, pat, i)
  }

  /** Python's `s.replace(pat, rep)`: every non-overlapping occurrence of `pat`,
      found left to right, is replaced by `rep`; an empty `pat` inserts `rep`
      before every character and at the end. */
  function ReplaceAll(s: string, pat: string, rep: string): string
    decreases |s|
  {
    if |pat| == 0 then
      if |s| == 0 then rep else rep + [s[0]] + ReplaceAll(s[1..], pat, rep)
    else if |s| == 0 then []
    else if pat <= s then rep + ReplaceAll(s[|pat|..], pat, rep)
    else [s[0]] + ReplaceAll(s[1..], pat, rep)
  }

  /** Replacing with newline-free text never brings a newline into newline-free text. */
  lemma {:induction false} ReplaceKeepsNoNewline(s: string, pat: string, rep: string)
    requires NoNewline(s) && NoNewline(rep)
    ensures NoNewline(ReplaceAll(s, pat, rep))
    decreases |s|
  {
    if |s| > 0 {
      if |pat| == 0 || !(pat <= s) {
        ReplaceKeepsNoNewline(s[1..], pat, rep);
      } else {
        ReplaceKeepsNoNewline(s[|pat|..], pat, rep);
      }
    }
  }

  /** Deleting a pattern never makes a string longer. */
  lemma {:induction false} DeleteShrinks(s: string, pat: string)
    ensures |ReplaceAll(s, pat, [])| <= |s|
    decreases |s|
  {
    if |s| == 0 {
    } else if |pat| == 0 {
      DeleteShrinks(s[1..], pat);
    } else if pat <= s {
      DeleteShrinks(s[|pat|..], pat);
    } else {
      DeleteShrinks(s[1..], pat);
    }
  }

  /** An occurrence in the tail of a string is an occurrence in the string. */
  lemma ContainsTail(s: string, pat: string)
    requires |s| > 0 && Contains(s[1..], pat)
    ensures Contains(s, pat)
  {
    var i: nat :| i <= |s[1..]| && OccursAt(s[1..], pat, i);
    assert s[i + 1..i + 1 + |pat|] == s[1..][i..i + |pat|];
    assert OccursAt(s, pat, i + 1);
  }

  /** A string in which the (non-empty) pattern does not occur is left as it is. */
  lemma {:induction false} ReplaceAbsent(s: string, pat: string, rep: string)
    requires |pat| > 0 && !Contains(s, pat)
    ensures ReplaceAll(s, pat, rep) == s
    decreases |s|
  {
    if |s| > 0 {
      assert !(pat <= s) by {
        if pat <= s { assert OccursAt(s, pat, 0); }
      }
      if Contains(s[1..], pat) {
        ContainsTail(s, pat);
      }
      ReplaceAbsent(s[1..], pat, rep);
      assert ReplaceAll(s, pat, rep) == [s[0]] + s[1..];
    }
  }

  /** A leading occurrence of the pattern is the first one replaced. */
  lemma LeadingOccurrenceReplaced(s: string, pat: string, rest: string, rep: string)
    requires |pat| > 0 && s == pat + rest
    ensures ReplaceAll(s, pat, rep) == rep + ReplaceAll(rest, pat, rep)
  {
    assert pat <= s;
    assert s[|pat|..] == rest;
  }

  /** Deleting all occurrences is not idempotent: removing "ab" from "aabb"
      leaves "ab", which a second pass removes. */
  lemma DeleteNotIdempotent()
    ensures ReplaceAll("aabb", "ab", "") == "ab"
    ensures ReplaceAll(ReplaceAll("aabb", "ab", ""), "ab", "") == ""
  {
    var s := "aabb";
    assert s[1] == 'a' && "ab"[1] == 'b';
    assert !("ab" <= s);
    assert s[1..] == "abb" && "abb"[..2] == "ab" && "abb"[2..] == "b";
    assert ReplaceAll("b", "ab", "") == "b" by { assert "b"[1..] == ""; }
    assert ReplaceAll("abb", "ab", "") == "b";
    assert ReplaceAll("ab", "ab", "") == "" by { assert "ab"[2..] == ""; }
  }

  /** `"".join(xs)`. */
  function Concat(xs: seq<string>): string
  {
    if |xs| == 0 then [] else Concat(xs[..|xs| - 1]) + xs[|xs| - 1]
  }

  lemma {:induction false} ConcatAppend(xs: seq<string>, ys: seq<string>)
    ensures Concat(xs + ys) == Concat(xs) + Concat(ys)
    decreases |ys|
  {
    if |ys| == 0 {
      assert xs + ys == xs;
    } else {
      var zs, init, last := xs + ys, ys[..|ys| - 1], ys[|ys| - 1];
      assert zs[..|zs| - 1] == xs + init && zs[|zs| - 1] == last;
      ConcatAppend(xs, init);
      calc {
        Concat(zs);
        Concat(xs + init) + last;
        (Concat(xs) + Concat(init)) + last;
        Concat(xs) + (Concat(init) + last);
      }
    }
  }

  lemma {:induction false} ConcatCons(xs: seq<string>)
    requires |xs| > 0
    ensures Concat(xs) == xs[0] + Concat(xs[1..])
    decreases |xs|
  {
    if |xs| > 1 {
      var init := xs[..|xs| - 1];
      ConcatCons(init);
      assert init[1..] == xs[1..][..|xs[1..]| - 1];
    } else {
      assert xs[..0] == [];
    }
  }

  /** `sep.join(xs)`. */
  function Join(sep: string, xs: seq<string>): string
  {
    if |xs| == 0 then []
    else if |xs| == 1 then xs[0]
    else xs[0] + sep + Join(sep, xs[1..])
  }

  /** `xs.insert(i, x)` for a non-negative index: past the end it appends. */
  function ListInsert<T>(xs: seq<T>, i: nat, x: T): (r: seq<T>)
    ensures |r| == |xs| + 1
    ensures i <= |xs| ==> r[..i] == xs[..i] && r[i] == x && r[i + 1..] == xs[i..]
    ensures i > |xs| ==> r == xs + [x]
  {
    if i <= |xs| then xs[..i] + [x] + xs[i..] else xs + [x]
  }

  /** `r` is a suffix of `t`. */
  predicate IsSuffixOf(r: string, t: string)
  {
    |r| <= |t| && t[|t| - |r|..] == r
  }

  /** Python's `s[k:]` for a non-negative `k`: empty once `k` passes the end. */
  function Tail(s: string, k: nat): (r: string)
  {
    if k <= |s| then s[k..] else []
  }
}

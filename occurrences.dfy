/** `count_word_occurrences`: the number of matches `re.findall` reports for
    the pattern `\b` + escaped lower-cased word + `\b` in the lower-cased text. */
module Occurrences {
  import opened Chars
  import opened Tokenizer
  import Frequencies

  /** `\b` at position `p` of `s`: exactly one of the characters on either side
      of `p` is a word character (outside the string counts as non-word). */
  predicate IsBoundary(s: string, p: int)
    requires 0 <= p <= |s|
  {
    (p > 0 && IsWordChar(s[p - 1])) != (p < |s| && IsWordChar(s[p]))
  }

  /** The pattern `\bw\b`, with `w` taken literally, matches `s` at position `p`. */
  predicate MatchesAt(s: string, w: string, p: nat) {
    p + |w| <= |s| && s[p..p + |w|] == w && IsBoundary(s, p) && IsBoundary(s, p + |w|)
  }

  /** Number of matches the left-to-right scan finds from position `p` on:
      after a match the scan resumes at its end (one further for an empty
      match), otherwise at the next position. */
  function CountFrom(s: string, w: string, p: nat): nat
    decreases |s| + 1 - p
  {
    if p > |s| then 0
    else if MatchesAt(s, w, p) then 1 + CountFrom(s, w, p + (if |w| == 0 then 1 else |w|))
    else CountFrom(s, w, p + 1)
  }

  /** `count_word_occurrences(text, word)`. */
  function CountWordOccurrences(text: string, word: string): nat {
    CountFrom(LowerStr(text), LowerStr(word), 0)
  }

  /** A position that is not strictly inside a run of word characters. */
  predicate Aligned(s: string, p: nat)
    requires p <= |s|
  {
    p == 0 || p == |s| || !IsWordChar(s[p - 1]) || !IsWordChar(s[p])
  }

  /** A word cannot match where it would end inside a longer run, nor run
      past the end of one. */
  lemma NoMatchInRun(s: string, w: string, p: nat, e: nat)
    requires IsWord(w)
    requires p < e <= |s|
    requires forall i :: p <= i < e ==> IsWordChar(s[i])
    requires e < |s| ==> !IsWordChar(s[e])
    requires s[p..e] != w
    ensures !MatchesAt(s, w, p)
  {
    var q := p + |w|;
    if q < e {
      assert !IsBoundary(s, q);
    } else if e < q <= |s| {
      assert s[p..q][e - p] == s[e];
      assert IsWordChar(w[e - p]);
    }
  }

  /** Inside a run of word characters a word target never matches, so the
      scan skips to the end of the run. */
  lemma {:induction false} SkipInsideRun(s: string, w: string, p: nat, q: nat, e: nat)
    requires IsWord(w)
    requires p < q <= e <= |s|
    requires forall i :: p <= i < e ==> IsWordChar(s[i])
    ensures CountFrom(s, w, q) == CountFrom(s, w, e)
    decreases e - q
  {
    if q < e {
      assert !IsBoundary(s, q);
      assert !MatchesAt(s, w, q);
      SkipInsideRun(s, w, p, q + 1, e);
    }
  }

  /** From an aligned position the scan counts the tokens of the rest of the
      text that equal the word. */
  lemma {:induction false} CountFromTokens(s: string, w: string, p: nat)
    requires IsWord(w)
    requires p <= |s| && Aligned(s, p)
    ensures CountFrom(s, w, p) == multiset(Tokens(s[p..]))[w]
    decreases |s| - p
  {
    if p == |s| {
      CountFromEnd(s, w);
    } else if !IsWordChar(s[p]) {
      assert Aligned(s, p + 1);
      CountFromTokens(s, w, p + 1);
      CountFromNonWord(s, w, p);
    } else {
      var e := p + RunLength(s[p..]);
      WordRunAt(s, p, e);
      CountFromTokens(s, w, e);
      CountFromWordRun(s, w, p, e);
    }
  }

  /** At the end of the text nothing is left to count. */
  lemma CountFromEnd(s: string, w: string)
    requires IsWord(w)
    ensures CountFrom(s, w, |s|) == multiset(Tokens(s[|s|..]))[w]
  {
    assert !MatchesAt(s, w, |s|);
    assert s[|s|..] == [];
  }

  /** A non-word character neither matches nor yields a token. */
  lemma CountFromNonWord(s: string, w: string, p: nat)
    requires IsWord(w)
    requires p < |s| && !IsWordChar(s[p])
    requires CountFrom(s, w, p + 1) == multiset(Tokens(s[p + 1..]))[w]
    ensures CountFrom(s, w, p) == multiset(Tokens(s[p..]))[w]
  {
    calc {
      CountFrom(s, w, p);
      == { assert !MatchesAt(s, w, p); }
      CountFrom(s, w, p + 1);
      == multiset(Tokens(s[p + 1..]))[w];
      == { assert s[p..][0] == s[p]; assert s[p..][1..] == s[p + 1..]; }
      multiset(Tokens(s[p..]))[w];
    }
  }

  /** The run of word characters starting at `p` ends at `e`. */
  lemma WordRunAt(s: string, p: nat, e: nat)
    requires p < |s| && IsWordChar(s[p])
    requires e == p + RunLength(s[p..])
    ensures p < e <= |s|
    ensures forall i :: p <= i < e ==> IsWordChar(s[i])
    ensures e < |s| ==> !IsWordChar(s[e])
    ensures Aligned(s, e)
    ensures Tokens(s[p..]) == [s[p..e]] + Tokens(s[e..])
  {
    var k := e - p;
    assert s[p..][..k] == s[p..e];
    assert s[p..][k..] == s[e..];
    forall i | p <= i < e
      ensures IsWordChar(s[i])
    {
      assert s[i] == s[p..][i - p];
    }
    if e < |s| {
      assert s[e] == s[p..][k];
    }
  }

  /** Counting in a list with one more element in front. */
  lemma MultisetConsCount(x: string, ts: seq<string>, w: string)
    ensures multiset([x] + ts)[w] == (if x == w then 1 else 0) + multiset(ts)[w]
  {
    assert multiset([x] + ts) == multiset{x} + multiset(ts);
  }

  /** A whole run of word characters is one token: the scan counts it when it
      is the word, and skips past it otherwise. */
  lemma CountFromWordRun(s: string, w: string, p: nat, e: nat)
    requires IsWord(w)
    requires p < e <= |s|
    requires forall i :: p <= i < e ==> IsWordChar(s[i])
    requires e < |s| ==> !IsWordChar(s[e])
    requires Aligned(s, p)
    requires Tokens(s[p..]) == [s[p..e]] + Tokens(s[e..])
    requires CountFrom(s, w, e) == multiset(Tokens(s[e..]))[w]
    ensures CountFrom(s, w, p) == multiset(Tokens(s[p..]))[w]
  {
    RunScan(s, w, p, e);
    calc {
      multiset(Tokens(s[p..]))[w];
      == multiset([s[p..e]] + Tokens(s[e..]))[w];
      == { MultisetConsCount(s[p..e], Tokens(s[e..]), w); }
      (if s[p..e] == w then 1 else 0) + multiset(Tokens(s[e..]))[w];
      == CountFrom(s, w, p);
    }
  }

  /** The scan over a whole run of word characters: one match if the run is
      the word, none otherwise. */
  lemma RunScan(s: string, w: string, p: nat, e: nat)
    requires IsWord(w)
    requires p < e <= |s|
    requires forall i :: p <= i < e ==> IsWordChar(s[i])
    requires e < |s| ==> !IsWordChar(s[e])
    requires Aligned(s, p)
    ensures CountFrom(s, w, p) == (if s[p..e] == w then 1 else 0) + CountFrom(s, w, e)
  {
    if s[p..e] == w {
      assert MatchesAt(s, w, p);
    } else {
      NoMatchInRun(s, w, p, e);
      SkipInsideRun(s, w, p, p + 1, e);
    }
  }

  /** Whole words only: for a target made of word characters, the count is
      the number of tokens of the lower-cased text equal to the lower-cased
      target, so a target inside a longer token is never counted. */
  lemma CountWordOccurrencesIsTokenCount(text: string, word: string)
    requires IsWord(LowerStr(word))
    ensures CountWordOccurrences(text, word) == multiset(Tokens(LowerStr(text)))[LowerStr(word)]
  {
    CountFromTokens(LowerStr(text), LowerStr(word), 0);
    assert LowerStr(text)[0..] == LowerStr(text);
  }

  /** The occurrence count of a word agrees with its entry in the frequency
      tally, and is zero when the tally has no entry for it. */
  lemma CountWordOccurrencesMatchesFrequencies(text: string, word: string)
    requires IsWord(LowerStr(word))
    ensures LowerStr(word) in Frequencies.WordFrequencies(text) ==>
      CountWordOccurrences(text, word) == Frequencies.WordFrequencies(text)[LowerStr(word)]
    ensures LowerStr(word) !in Frequencies.WordFrequencies(text) ==> CountWordOccurrences(text, word) == 0
  {
    CountWordOccurrencesIsTokenCount(text, word);
    Frequencies.WordFrequenciesCounts(text);
  }
}

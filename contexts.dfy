/** `find_word_contexts`: every occurrence of the lower-cased target among the
    tokens, with the clipped window of words around it, searched over the
    whole text or sentence by sentence; the contexts are collected in a list
    and written to a file one per line. */
module Contexts {
  import opened Chars
  import opened Tokenizer
  import opened SentenceSplit
  import Occurrences

  function Max(a: int, b: int): int {
    if a >= b then a else b
  }

  function Min(a: int, b: int): int {
    if a <= b then a else b
  }

  /** A Python slice bound for a sequence of length `n`: a negative bound
      counts from the end; the result is clamped to `0..n`. */
  function SliceBound(i: int, n: nat): (r: nat)
    ensures r <= n
    ensures 0 <= i <= n ==> r == i
  {
    if i < 0 then (if i + n < 0 then 0 else i + n)
    else if i > n then n
    else i
  }

  /** `s[lo:hi]` with Python's slice semantics: empty when the clamped lower
      bound is not below the clamped upper bound. */
  function PySlice<T>(s: seq<T>, lo: int, hi: int): (r: seq<T>)
    ensures 0 <= lo <= hi <= |s| ==> r == s[lo..hi]
    ensures forall k :: 0 <= k < |r| ==> r[k] in s
  {
    var a := SliceBound(lo, |s|);
    var b := SliceBound(hi, |s|);
    if a < b then s[a..b] else []
  }

  /** `words[max(0, i - left_len):min(len(words), i + right_len + 1)]`. */
  function Window(words: seq<string>, i: int, leftLen: int, rightLen: int): seq<string> {
    PySlice(words, Max(0, i - leftLen), Min(|words|, i + rightLen + 1))
  }

  /** `' '.join(...)` of the window: one context line. */
  function Context(words: seq<string>, i: int, leftLen: int, rightLen: int): string {
    JoinWords(Window(words, i, leftLen, rightLen))
  }

  /** `[i for i, w in enumerate(words) if w == target]`: the positions of the
      target, each once, in increasing order. */
  function Indices(words: seq<string>, target: string): (r: seq<nat>)
    ensures forall k :: 0 <= k < |r| ==> r[k] < |words| && words[r[k]] == target
    ensures forall k, m :: 0 <= k < m < |r| ==> r[k] < r[m]
    ensures forall i :: 0 <= i < |words| && words[i] == target ==> i in r
  {
    if words == [] then []
    else
      var n := |words| - 1;
      var r := Indices(words[..n], target);
      if words[n] == target then r + [n] else r
  }

  /** There is one index per occurrence of the target. */
  lemma {:induction false} IndicesCount(words: seq<string>, target: string)
    ensures |Indices(words, target)| == multiset(words)[target]
    decreases |words|
  {
    if words != [] {
      var n := |words| - 1;
      assert words == words[..n] + [words[n]];
      IndicesCount(words[..n], target);
    }
  }

  /** The contexts of the given positions, in the order given. */
  function ContextsAt(words: seq<string>, idxs: seq<nat>, leftLen: int, rightLen: int): seq<string> {
    seq(|idxs|, k requires 0 <= k < |idxs| => Context(words, idxs[k], leftLen, rightLen))
  }

  /** The contexts of every occurrence of `target` in one token list. */
  function SearchContexts(words: seq<string>, target: string, leftLen: int, rightLen: int): seq<string> {
    ContextsAt(words, Indices(words, target), leftLen, rightLen)
  }

  /** The contexts found in a list of token lists, one list after another:
      the sentence-by-sentence search. */
  function ListContexts(wss: seq<seq<string>>, target: string, leftLen: int, rightLen: int): seq<string> {
    if wss == [] then []
    else SearchContexts(wss[0], target, leftLen, rightLen) + ListContexts(wss[1..], target, leftLen, rightLen)
  }

  /** The list `find_word_contexts` collects in `results`. */
  function FindContexts(text: string, targetWord: string, leftLen: int, rightLen: int, cutLength: bool): seq<string> {
    var target := LowerStr(targetWord);
    if cutLength then ListContexts(SentenceWords(Sentences(text)), target, leftLen, rightLen)
    else SearchContexts(Tokens(LowerStr(text)), target, leftLen, rightLen)
  }

  /** The text of the output file: each context followed by a line feed. */
  function JoinLines(lines: seq<string>): string {
    if lines == [] then [] else lines[0] + "\n" + JoinLines(lines[1..])
  }

  /** Number of characters before the first line feed of `f` (all of them if none). */
  function LineLength(f: string): (k: nat)
    ensures k <= |f|
    ensures forall i :: 0 <= i < k ==> f[i] != '\n'
    ensures k < |f| ==> f[k] == '\n'
  {
    if f == [] || f[0] == '\n' then 0 else 1 + LineLength(f[1..])
  }

  /** The lines of a file's text, without their line feeds. */
  function ReadLines(f: string): seq<string>
    decreases |f|
  {
    if f == [] then []
    else
      var k := LineLength(f);
      [f[..k]] + ReadLines(if k < |f| then f[k + 1..] else [])
  }

  predicate NoLineFeed(line: string) {
    forall i :: 0 <= i < |line| ==> line[i] != '\n'
  }

  /** Reading back the file gives exactly the lines written, one per line,
      in order, when no line holds a line feed itself. */
  lemma {:induction false} ReadLinesOfJoinLines(lines: seq<string>)
    requires forall k :: 0 <= k < |lines| ==> NoLineFeed(lines[k])
    ensures ReadLines(JoinLines(lines)) == lines
    decreases |lines|
  {
    if lines != [] {
      var f := JoinLines(lines);
      var rest := JoinLines(lines[1..]);
      assert f == lines[0] + ("\n" + rest);
      assert f[|lines[0]|] == '\n';
      assert forall i :: 0 <= i < |lines[0]| ==> f[i] == lines[0][i];
      LineLengthUnique(f, |lines[0]|);
      assert f[..|lines[0]|] == lines[0];
      assert f[|lines[0]| + 1..] == rest;
      ReadLinesOfJoinLines(lines[1..]);
    }
  }

  lemma LineLengthUnique(f: string, k: nat)
    requires k < |f| && f[k] == '\n'
    requires forall i :: 0 <= i < k ==> f[i] != '\n'
    ensures LineLength(f) == k
  {
  }

  /** Writing one more line appends it, with its line feed, to the file text. */
  lemma {:induction false} JoinLinesSnoc(lines: seq<string>, line: string)
    ensures JoinLines(lines + [line]) == JoinLines(lines) + line + "\n"
    decreases |lines|
  {
    if lines == [] {
      assert [] + [line] == [line];
    } else {
      assert (lines + [line])[1..] == lines[1..] + [line];
      JoinLinesSnoc(lines[1..], line);
    }
  }

  /** Searching one more token list appends its contexts. */
  lemma {:induction false} ListContextsSnoc(wss: seq<seq<string>>, words: seq<string>, target: string, leftLen: int, rightLen: int)
    ensures ListContexts(wss + [words], target, leftLen, rightLen)
         == ListContexts(wss, target, leftLen, rightLen) + SearchContexts(words, target, leftLen, rightLen)
    decreases |wss|
  {
    if wss == [] {
      assert [] + [words] == [words];
      assert [words][1..] == [];
    } else {
      assert (wss + [words])[0] == wss[0];
      assert (wss + [words])[1..] == wss[1..] + [words];
      ListContextsSnoc(wss[1..], words, target, leftLen, rightLen);
    }
  }

  /** Taking one more index appends its context. */
  lemma ContextsAtSnoc(words: seq<string>, idxs: seq<nat>, j: nat, leftLen: int, rightLen: int)
    requires j < |idxs|
    ensures ContextsAt(words, idxs[..j + 1], leftLen, rightLen)
         == ContextsAt(words, idxs[..j], leftLen, rightLen) + [Context(words, idxs[j], leftLen, rightLen)]
  {
  }

  /** The loop over the occurrences in one token list: appends the context of
      each occurrence, in order. */
  method CollectContexts(words: seq<string>, target: string, leftLen: int, rightLen: int)
    returns (found: seq<string>)
    ensures found == SearchContexts(words, target, leftLen, rightLen)
    ensures |found| == multiset(words)[target]
  {
    var indices := Indices(words, target);
    found := [];
    for j := 0 to |indices|
      invariant found == ContextsAt(words, indices[..j], leftLen, rightLen)
    {
      var idx := indices[j];
      var lStart := Max(0, idx - leftLen);
      var rEnd := Min(|words|, idx + rightLen + 1);
      var context := JoinWords(PySlice(words, lStart, rEnd));
      ContextsAtSnoc(words, indices, j, leftLen, rightLen);
      found := found + [context];
    }
    assert indices[..|indices|] == indices;
    IndicesCount(words, target);
  }

  /** The loop that writes each context and a line feed to the file. */
  method WriteLines(lines: seq<string>) returns (file: string)
    ensures file == JoinLines(lines)
    ensures (forall k :: 0 <= k < |lines| ==> NoLineFeed(lines[k])) ==> ReadLines(file) == lines
  {
    file := [];
    for k := 0 to |lines|
      invariant file == JoinLines(lines[..k])
    {
      JoinLinesSnoc(lines[..k], lines[k]);
      assert lines[..k + 1] == lines[..k] + [lines[k]];
      file := file + lines[k] + "\n";
    }
    assert lines[..|lines|] == lines;
    if forall k :: 0 <= k < |lines| ==> NoLineFeed(lines[k]) {
      ReadLinesOfJoinLines(lines);
    }
  }

  /** `find_word_contexts(text, target_word, left_len, right_len, cut_length)`:
      returns the list of contexts it collects and the text it writes to the file. */
  method FindWordContexts(text: string, targetWord: string, leftLen: int, rightLen: int, cutLength: bool)
    returns (results: seq<string>, file: string)
    ensures results == FindContexts(text, targetWord, leftLen, rightLen, cutLength)
    ensures file == JoinLines(results)
    ensures ReadLines(file) == results
    ensures |results| == multiset(Tokens(LowerStr(text)))[LowerStr(targetWord)]
  {
    var target := LowerStr(targetWord);
    results := [];
    if cutLength {
      var sentences := Sentences(text);
      ghost var wss := SentenceWords(sentences);
      for s := 0 to |sentences|
        invariant results == ListContexts(wss[..s], target, leftLen, rightLen)
      {
        var words := Tokens(LowerStr(sentences[s]));
        var found := CollectContexts(words, target, leftLen, rightLen);
        assert wss[..s + 1] == wss[..s] + [words];
        ListContextsSnoc(wss[..s], words, target, leftLen, rightLen);
        results := results + found;
      }
      assert wss[..|sentences|] == wss;
    } else {
      var words := Tokens(LowerStr(text));
      results := CollectContexts(words, target, leftLen, rightLen);
    }
    FindContextsHaveNoLineFeed(text, targetWord, leftLen, rightLen, cutLength);
    file := WriteLines(results);
    FindContextsCount(text, targetWord, leftLen, rightLen, cutLength);
  }

  /** Every entry of every list is a token. */
  predicate AllWords(wss: seq<seq<string>>) {
    forall j, k :: 0 <= j < |wss| && 0 <= k < |wss[j]| ==> IsWord(wss[j][k])
  }

  lemma SentenceWordsAreWords(sents: seq<string>)
    ensures AllWords(SentenceWords(sents))
  {
    forall j | 0 <= j < |sents|
      ensures forall k :: 0 <= k < |SentenceWords(sents)[j]| ==> IsWord(SentenceWords(sents)[j][k])
    {
      assert SentenceWords(sents)[j] == Tokens(LowerStr(sents[j]));
      TokensAreWords(LowerStr(sents[j]));
    }
  }

  /** Every window of a token list is made of tokens. */
  lemma WindowWords(words: seq<string>, i: int, leftLen: int, rightLen: int)
    requires forall k :: 0 <= k < |words| ==> IsWord(words[k])
    ensures forall k :: 0 <= k < |Window(words, i, leftLen, rightLen)| ==> IsWord(Window(words, i, leftLen, rightLen)[k])
  {
  }

  /** A context line holds word characters and spaces only, never a line feed. */
  lemma ContextHasNoLineFeed(words: seq<string>, i: int, leftLen: int, rightLen: int)
    requires forall k :: 0 <= k < |words| ==> IsWord(words[k])
    ensures NoLineFeed(Context(words, i, leftLen, rightLen))
  {
    WindowWords(words, i, leftLen, rightLen);
    JoinWordsChars(Window(words, i, leftLen, rightLen));
  }

  lemma SearchContextsHaveNoLineFeed(words: seq<string>, target: string, leftLen: int, rightLen: int)
    requires forall k :: 0 <= k < |words| ==> IsWord(words[k])
    ensures forall k :: 0 <= k < |SearchContexts(words, target, leftLen, rightLen)| ==>
      NoLineFeed(SearchContexts(words, target, leftLen, rightLen)[k])
  {
    var idx := Indices(words, target);
    forall k | 0 <= k < |idx|
      ensures NoLineFeed(SearchContexts(words, target, leftLen, rightLen)[k])
    {
      ContextHasNoLineFeed(words, idx[k], leftLen, rightLen);
    }
  }

  lemma {:induction false} ListContextsHaveNoLineFeed(wss: seq<seq<string>>, target: string, leftLen: int, rightLen: int)
    requires AllWords(wss)
    ensures forall k :: 0 <= k < |ListContexts(wss, target, leftLen, rightLen)| ==>
      NoLineFeed(ListContexts(wss, target, leftLen, rightLen)[k])
    decreases |wss|
  {
    if wss != [] {
      SearchContextsHaveNoLineFeed(wss[0], target, leftLen, rightLen);
      ListContextsHaveNoLineFeed(wss[1..], target, leftLen, rightLen);
    }
  }

  /** No context holds a line feed, so the file has exactly one line per context. */
  lemma FindContextsHaveNoLineFeed(text: string, targetWord: string, leftLen: int, rightLen: int, cutLength: bool)
    ensures forall k :: 0 <= k < |FindContexts(text, targetWord, leftLen, rightLen, cutLength)| ==>
      NoLineFeed(FindContexts(text, targetWord, leftLen, rightLen, cutLength)[k])
  {
    if cutLength {
      SentenceWordsAreWords(Sentences(text));
      ListContextsHaveNoLineFeed(SentenceWords(Sentences(text)), LowerStr(targetWord), leftLen, rightLen);
    } else {
      TokensAreWords(LowerStr(text));
      SearchContextsHaveNoLineFeed(Tokens(LowerStr(text)), LowerStr(targetWord), leftLen, rightLen);
    }
  }

  /** List by list there is one context per occurrence of the target in the
      concatenated lists. */
  lemma {:induction false} ListContextsCount(wss: seq<seq<string>>, target: string, leftLen: int, rightLen: int)
    ensures |ListContexts(wss, target, leftLen, rightLen)| == multiset(Flatten(wss))[target]
    decreases |wss|
  {
    if wss != [] {
      IndicesCount(wss[0], target);
      ListContextsCount(wss[1..], target, leftLen, rightLen);
    }
  }

  /** One context per occurrence of the lower-cased target among the tokens
      of the lower-cased text, whether or not the search is cut at sentence
      boundaries. */
  lemma FindContextsCount(text: string, targetWord: string, leftLen: int, rightLen: int, cutLength: bool)
    ensures |FindContexts(text, targetWord, leftLen, rightLen, cutLength)|
         == multiset(Tokens(LowerStr(text)))[LowerStr(targetWord)]
  {
    if cutLength {
      ListContextsCount(SentenceWords(Sentences(text)), LowerStr(targetWord), leftLen, rightLen);
      SentenceTokensConcat(text);
    } else {
      IndicesCount(Tokens(LowerStr(text)), LowerStr(targetWord));
    }
  }

  /** The window around an occurrence: the token slice
      `[max(0, i - leftLen), min(n, i + rightLen + 1))`, clipped only at the
      ends of the token list; re-tokenising the context line gives exactly
      that slice, which is non-empty, has at most `leftLen + 1 + rightLen`
      words, and holds the occurrence at offset `i - lo`. */
  lemma ContextWindow(words: seq<string>, i: int, leftLen: int, rightLen: int)
    requires forall k :: 0 <= k < |words| ==> IsWord(words[k])
    requires 0 <= i < |words| && leftLen >= 0 && rightLen >= 0
    ensures var lo, hi := Max(0, i - leftLen), Min(|words|, i + rightLen + 1);
      && 0 <= lo <= i < hi <= |words|
      && (lo == 0 || lo == i - leftLen)
      && (hi == |words| || hi == i + rightLen + 1)
      && Tokens(Context(words, i, leftLen, rightLen)) == words[lo..hi]
      && 1 <= hi - lo <= leftLen + 1 + rightLen
      && words[lo..hi][i - lo] == words[i]
  {
    var lo, hi := Max(0, i - leftLen), Min(|words|, i + rightLen + 1);
    assert Window(words, i, leftLen, rightLen) == words[lo..hi];
    TokensOfJoinWords(words[lo..hi]);
  }

  /** `target` is entry `i` of list `j`. */
  predicate IsHit(wss: seq<seq<string>>, target: string, j: int, i: int) {
    0 <= j < |wss| && 0 <= i < |wss[j]| && wss[j][i] == target
  }

  /** Context `c` is the window around hit (`j`, `i`) within list `j`. */
  predicate IsContextOfHit(c: string, wss: seq<seq<string>>, target: string, leftLen: int, rightLen: int, j: int, i: int) {
    IsHit(wss, target, j, i) && c == Context(wss[j], i, leftLen, rightLen)
  }

  /** The occurrences of `target` list by list, as pairs (list number counted
      from `first`, position within that list). */
  function Hits(wss: seq<seq<string>>, target: string, first: nat): seq<(nat, nat)>
    decreases |wss|
  {
    if wss == [] then []
    else ListHits(wss[0], target, first) + Hits(wss[1..], target, first + 1)
  }

  /** The hits of one list, numbered `list`. */
  function ListHits(words: seq<string>, target: string, list: nat): (h: seq<(nat, nat)>)
    ensures |h| == |Indices(words, target)|
  {
    var idx := Indices(words, target);
    seq(|idx|, k requires 0 <= k < |idx| => (list, idx[k]))
  }

  /** Hit `a` comes before hit `b`: an earlier list, or the same list and an
      earlier position. */
  predicate HitBefore(a: (nat, nat), b: (nat, nat)) {
    a.0 < b.0 || (a.0 == b.0 && a.1 < b.1)
  }

  predicate HitsInOrder(h: seq<(nat, nat)>) {
    forall k, m :: 0 <= k < m < |h| ==> HitBefore(h[k], h[m])
  }

  /** Unfolding `Hits` once: the first list's hits, then the rest. */
  lemma HitsUnfold(wss: seq<seq<string>>, target: string, first: nat)
    requires wss != []
    ensures |Hits(wss, target, first)| == |Indices(wss[0], target)| + |Hits(wss[1..], target, first + 1)|
    ensures forall k :: 0 <= k < |Indices(wss[0], target)| ==>
      Hits(wss, target, first)[k] == (first, Indices(wss[0], target)[k])
    ensures forall k :: |Indices(wss[0], target)| <= k < |Hits(wss, target, first)| ==>
      Hits(wss, target, first)[k] == Hits(wss[1..], target, first + 1)[k - |Indices(wss[0], target)|]
  {
  }

  /** Unfolding `ListContexts` once: the first list's contexts, one per
      index, then the rest. */
  lemma ListContextsUnfold(wss: seq<seq<string>>, target: string, leftLen: int, rightLen: int)
    requires wss != []
    ensures ListContexts(wss, target, leftLen, rightLen)
         == SearchContexts(wss[0], target, leftLen, rightLen) + ListContexts(wss[1..], target, leftLen, rightLen)
    ensures |SearchContexts(wss[0], target, leftLen, rightLen)| == |Indices(wss[0], target)|
  {
  }

  /** Hit list numbers run from `first` to `first + |wss| - 1`. */
  lemma {:induction false} HitsRange(wss: seq<seq<string>>, target: string, first: nat)
    ensures forall k :: 0 <= k < |Hits(wss, target, first)| ==> first <= Hits(wss, target, first)[k].0 < first + |wss|
    decreases |wss|
  {
    if wss != [] {
      HitsUnfold(wss, target, first);
      HitsRange(wss[1..], target, first + 1);
    }
  }

  /** The hits come in list order, then in position order. */
  lemma {:induction false} HitsAreInOrder(wss: seq<seq<string>>, target: string, first: nat)
    ensures HitsInOrder(Hits(wss, target, first))
    decreases |wss|
  {
    if wss != [] {
      var idx := Indices(wss[0], target);
      var here: seq<(nat, nat)> := seq(|idx|, k requires 0 <= k < |idx| => (first, idx[k]));
      var later := Hits(wss[1..], target, first + 1);
      assert Hits(wss, target, first) == here + later;
      HitsRange(wss[1..], target, first + 1);
      HitsAreInOrder(wss[1..], target, first + 1);
      HitsConcatInOrder(here, later, first);
    }
  }

  /** The first list's hits, in position order, followed by in-order hits of
      later lists, are in order. */
  lemma HitsConcatInOrder(here: seq<(nat, nat)>, later: seq<(nat, nat)>, first: nat)
    requires forall k :: 0 <= k < |here| ==> here[k].0 == first
    requires forall k, m :: 0 <= k < m < |here| ==> here[k].1 < here[m].1
    requires forall k :: 0 <= k < |later| ==> first < later[k].0
    requires HitsInOrder(later)
    ensures HitsInOrder(here + later)
  {
  }

  /** Every occurrence of the target in every list is among the hits. */
  lemma {:induction false} HitsComplete(wss: seq<seq<string>>, target: string, first: nat)
    ensures forall j, i :: IsHit(wss, target, j, i) ==> (first + j, i) in Hits(wss, target, first)
    decreases |wss|
  {
    if wss != [] {
      HitsComplete(wss[1..], target, first + 1);
      forall j, i | IsHit(wss, target, j, i)
        ensures (first + j, i) in Hits(wss, target, first)
      {
        if j == 0 {
          HitInFirstList(wss, target, first, i);
        } else {
          assert IsHit(wss[1..], target, j - 1, i);
          HitInLaterList(wss, target, first, first + j, i);
        }
      }
    }
  }

  lemma HitInFirstList(wss: seq<seq<string>>, target: string, first: nat, i: int)
    requires IsHit(wss, target, 0, i)
    ensures (first, i) in Hits(wss, target, first)
  {
    var idx := Indices(wss[0], target);
    var k :| 0 <= k < |idx| && idx[k] == i;
    HitsUnfold(wss, target, first);
    assert Hits(wss, target, first)[k] == (first, i);
  }

  lemma HitInLaterList(wss: seq<seq<string>>, target: string, first: nat, j: nat, i: nat)
    requires wss != []
    requires (j, i) in Hits(wss[1..], target, first + 1)
    ensures (j, i) in Hits(wss, target, first)
  {
    var later := Hits(wss[1..], target, first + 1);
    var n := |Indices(wss[0], target)|;
    var k :| 0 <= k < |later| && later[k] == (j, i);
    HitsUnfold(wss, target, first);
    assert Hits(wss, target, first)[n + k] == (j, i);
  }

  /** Entry `k` of `cs` is the context of hit `k` of `h`, whose list numbers
      count from `first`. */
  predicate ContextOfHitAt(cs: seq<string>, h: seq<(nat, nat)>, wss: seq<seq<string>>, target: string,
                           leftLen: int, rightLen: int, first: nat, k: int) {
    0 <= k < |h| && k < |cs| && first <= h[k].0
    && IsContextOfHit(cs[k], wss, target, leftLen, rightLen, h[k].0 - first, h[k].1)
  }

  /** The k-th context of the list-by-list search is the window of the k-th
      hit, taken within the hit's own list. */
  lemma {:induction false} ListContextsAtHits(wss: seq<seq<string>>, target: string, leftLen: int, rightLen: int, first: nat)
    ensures |ListContexts(wss, target, leftLen, rightLen)| == |Hits(wss, target, first)|
    ensures forall k :: 0 <= k < |Hits(wss, target, first)| ==>
      ContextOfHitAt(ListContexts(wss, target, leftLen, rightLen), Hits(wss, target, first), wss, target, leftLen, rightLen, first, k)
    decreases |wss|
  {
    if wss != [] {
      var n := |Indices(wss[0], target)|;
      ListContextsAtHits(wss[1..], target, leftLen, rightLen, first + 1);
      HitsUnfold(wss, target, first);
      forall k | 0 <= k < |Hits(wss, target, first)|
        ensures ContextOfHitAt(ListContexts(wss, target, leftLen, rightLen), Hits(wss, target, first), wss, target, leftLen, rightLen, first, k)
      {
        if k < n {
          ContextAtFirstList(wss, target, leftLen, rightLen, first, k);
        } else {
          assert ContextOfHitAt(ListContexts(wss[1..], target, leftLen, rightLen), Hits(wss[1..], target, first + 1),
                                wss[1..], target, leftLen, rightLen, first + 1, k - n);
          ContextAtLaterList(wss, target, leftLen, rightLen, first, k);
        }
      }
    }
  }

  lemma ContextAtFirstList(wss: seq<seq<string>>, target: string, leftLen: int, rightLen: int, first: nat, k: nat)
    requires wss != [] && k < |Indices(wss[0], target)|
    ensures ContextOfHitAt(ListContexts(wss, target, leftLen, rightLen), Hits(wss, target, first), wss, target, leftLen, rightLen, first, k)
  {
    var idx := Indices(wss[0], target);
    var here := SearchContexts(wss[0], target, leftLen, rightLen);
    HitsUnfold(wss, target, first);
    ListContextsUnfold(wss, target, leftLen, rightLen);
    assert here[k] == Context(wss[0], idx[k], leftLen, rightLen);
    ContextOfHitFirst(ListContexts(wss, target, leftLen, rightLen), Hits(wss, target, first), wss, target,
                      leftLen, rightLen, first, k, idx[k]);
  }

  /** The entry-wise condition for a hit in the first list. */
  lemma ContextOfHitFirst(cs: seq<string>, h: seq<(nat, nat)>, wss: seq<seq<string>>, target: string,
                          leftLen: int, rightLen: int, first: nat, k: nat, i: nat)
    requires k < |cs| && k < |h| && h[k] == (first, i)
    requires IsHit(wss, target, 0, i) && cs[k] == Context(wss[0], i, leftLen, rightLen)
    ensures ContextOfHitAt(cs, h, wss, target, leftLen, rightLen, first, k)
  {
  }

  lemma ContextAtLaterList(wss: seq<seq<string>>, target: string, leftLen: int, rightLen: int, first: nat, k: nat)
    requires wss != []
    requires |Indices(wss[0], target)| <= k
    requires ContextOfHitAt(ListContexts(wss[1..], target, leftLen, rightLen), Hits(wss[1..], target, first + 1),
                            wss[1..], target, leftLen, rightLen, first + 1, k - |Indices(wss[0], target)|)
    ensures ContextOfHitAt(ListContexts(wss, target, leftLen, rightLen), Hits(wss, target, first), wss, target, leftLen, rightLen, first, k)
  {
    ListContextsUnfold(wss, target, leftLen, rightLen);
    assert Hits(wss, target, first) == ListHits(wss[0], target, first) + Hits(wss[1..], target, first + 1);
    ContextOfHitShift(SearchContexts(wss[0], target, leftLen, rightLen), ListContexts(wss[1..], target, leftLen, rightLen),
                      ListHits(wss[0], target, first), Hits(wss[1..], target, first + 1),
                      wss, target, leftLen, rightLen, first, k);
  }

  /** Hits and contexts of the later lists, shifted past the first list's
      entries and by one list, are hits and contexts of the whole. */
  lemma ContextOfHitShift(here: seq<string>, laterCs: seq<string>, hereHits: seq<(nat, nat)>, later: seq<(nat, nat)>,
                          wss: seq<seq<string>>, target: string, leftLen: int, rightLen: int, first: nat, k: nat)
    requires wss != [] && |here| == |hereHits| <= k
    requires ContextOfHitAt(laterCs, later, wss[1..], target, leftLen, rightLen, first + 1, k - |here|)
    ensures ContextOfHitAt(here + laterCs, hereHits + later, wss, target, leftLen, rightLen, first, k)
  {
    var hit := later[k - |here|];
    assert (hereHits + later)[k] == hit;
    assert (here + laterCs)[k] == laterCs[k - |here|];
    assert wss[1..][hit.0 - (first + 1)] == wss[hit.0 - first];
  }

  /** With `cut_length`: the contexts correspond one to one, in order, to the
      hits of the sentences' token lists — every occurrence in every
      sentence, in sentence order and then position order — and each is the
      clipped window around its occurrence within its own sentence's tokens
      (see ContextWindow), so no context reaches across a sentence boundary. */
  lemma CutContextsStayInSentence(text: string, targetWord: string, leftLen: int, rightLen: int)
    ensures var wss := SentenceWords(Sentences(text));
      var hits := Hits(wss, LowerStr(targetWord), 0);
      && HitsInOrder(hits)
      && (forall j, i :: IsHit(wss, LowerStr(targetWord), j, i) ==> (j, i) in hits)
      && |FindContexts(text, targetWord, leftLen, rightLen, true)| == |hits|
      && forall k :: 0 <= k < |hits| ==>
           ContextOfHitAt(FindContexts(text, targetWord, leftLen, rightLen, true), hits,
                          wss, LowerStr(targetWord), leftLen, rightLen, 0, k)
  {
    var wss := SentenceWords(Sentences(text));
    HitsAreInOrder(wss, LowerStr(targetWord), 0);
    HitsComplete(wss, LowerStr(targetWord), 0);
    ListContextsAtHits(wss, LowerStr(targetWord), leftLen, rightLen, 0);
  }

  /** The number of contexts is the number `count_word_occurrences` reports
      for a target made of word characters, with or without `cut_length`. */
  lemma ContextsMatchOccurrenceCount(text: string, targetWord: string, leftLen: int, rightLen: int, cutLength: bool)
    requires IsWord(LowerStr(targetWord))
    ensures |FindContexts(text, targetWord, leftLen, rightLen, cutLength)|
         == Occurrences.CountWordOccurrences(text, targetWord)
  {
    FindContextsCount(text, targetWord, leftLen, rightLen, cutLength);
    Occurrences.CountWordOccurrencesIsTokenCount(text, targetWord);
  }

  /** An absent target is not an error: no contexts, and an empty file. */
  lemma AbsentTargetGivesNoContexts(text: string, targetWord: string, leftLen: int, rightLen: int, cutLength: bool)
    requires LowerStr(targetWord) !in Tokens(LowerStr(text))
    ensures FindContexts(text, targetWord, leftLen, rightLen, cutLength) == []
    ensures JoinLines(FindContexts(text, targetWord, leftLen, rightLen, cutLength)) == []
  {
    FindContextsCount(text, targetWord, leftLen, rightLen, cutLength);
  }
}

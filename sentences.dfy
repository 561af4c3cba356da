/** Sentence segmentation as `re.split(r'(?<=[.!?])\s+', text)` performs it:
    the text is cut at every maximal whitespace run that directly follows
    `.`, `!` or `?`, and the runs themselves are dropped. */
module SentenceSplit {
  import opened Chars
  import opened Tokenizer

  /** The pattern matches at `p`: the lookbehind sees `.`, `!` or `?` and `\s` sees whitespace. */
  predicate IsSplitAt(s: string, p: int) {
    0 < p < |s| && IsSentenceEnd(s[p - 1]) && IsSpace(s[p])
  }

  /** The first position at or after `q` where the pattern matches, or `|s|`. */
  function FindSplit(s: string, q: nat): (p: nat)
    requires q <= |s|
    ensures q <= p <= |s|
    ensures p < |s| ==> IsSplitAt(s, p)
    ensures forall j :: q <= j < p ==> !IsSplitAt(s, j)
    decreases |s| - q
  {
    if q == |s| then |s|
    else if IsSplitAt(s, q) then q
    else FindSplit(s, q + 1)
  }

  /** Length of the leading whitespace run of `s` (what the greedy `\s+` consumes). */
  function SpaceRun(s: string): (k: nat)
    ensures k <= |s|
    ensures forall i :: 0 <= i < k ==> IsSpace(s[i])
    ensures k < |s| ==> !IsSpace(s[k])
  {
    if s == [] || !IsSpace(s[0]) then 0 else 1 + SpaceRun(s[1..])
  }

  /** `re.split(r'(?<=[.!?])\s+', s)`. */
  function Sentences(s: string): (r: seq<string>)
    ensures |r| >= 1
    decreases |s|
  {
    var p := FindSplit(s, 0);
    if p == |s| then [s]
    else [s[..p]] + Sentences(s[p + SpaceRun(s[p..])..])
  }

  /** The whitespace runs the split removes, in order. */
  function Separators(s: string): (r: seq<string>)
    ensures |r| + 1 == |Sentences(s)|
    decreases |s|
  {
    var p := FindSplit(s, 0);
    if p == |s| then []
    else [s[p..p + SpaceRun(s[p..])]] + Separators(s[p + SpaceRun(s[p..])..])
  }

  /** A non-empty run of whitespace. */
  predicate IsSpaceRun(g: string) {
    g != [] && forall i :: 0 <= i < |g| ==> IsSpace(g[i])
  }

  /** A sentence that the split leaves behind ends with `.`, `!` or `?`. */
  predicate EndsSentence(t: string) {
    t != [] && IsSentenceEnd(t[|t| - 1])
  }

  /** What one split step does: `s` is the sentence `s[..p]`, the separator
      `s[p..e]` and the rest `s[e..]`, which is split again. */
  lemma SplitStep(s: string, p: nat, e: nat)
    requires p == FindSplit(s, 0) && p < |s|
    requires e == p + SpaceRun(s[p..])
    ensures p < e <= |s|
    ensures Sentences(s) == [s[..p]] + Sentences(s[e..])
    ensures Separators(s) == [s[p..e]] + Separators(s[e..])
    ensures s == s[..p] + s[p..e] + s[e..]
  {
    SplitConcat(s, p, e);
  }

  lemma SplitConcat(s: string, p: nat, e: nat)
    requires p <= e <= |s|
    ensures s == s[..p] + s[p..e] + s[e..]
  {
  }

  /** The pieces of one split step: the separator is a maximal whitespace
      run after `.`, `!` or `?`, and the sentence before it has no split point. */
  lemma SplitStepPieces(s: string, p: nat, e: nat)
    requires p == FindSplit(s, 0) && p < |s|
    requires e == p + SpaceRun(s[p..])
    ensures IsSpaceRun(s[p..e]) && EndsSentence(s[..p])
    ensures s[e..] == [] || !IsSpace(s[e..][0])
    ensures forall j :: !IsSplitAt(s[..p], j)
  {
    SeparatorPiece(s, p, e);
    NoSplitBefore(s, p);
  }

  lemma SeparatorPiece(s: string, p: nat, e: nat)
    requires p == FindSplit(s, 0) && p < |s|
    requires e == p + SpaceRun(s[p..])
    ensures IsSpaceRun(s[p..e]) && EndsSentence(s[..p])
    ensures s[e..] == [] || !IsSpace(s[e..][0])
  {
    forall i | 0 <= i < e - p
      ensures IsSpace(s[p..e][i])
    {
      assert s[p..e][i] == s[p..][i];
    }
    if e < |s| {
      assert s[e] == s[p..][e - p];
    }
  }

  lemma NoSplitBefore(s: string, p: nat)
    requires p == FindSplit(s, 0) && p < |s|
    ensures forall j :: !IsSplitAt(s[..p], j)
  {
    forall j
      ensures !IsSplitAt(s[..p], j)
    {
      if 0 < j < p {
        assert !IsSplitAt(s, j);
      }
    }
  }

  /** The split loses nothing but the separators: the sentences with the
      separators put back between them are the text. */
  lemma {:induction false} SentencesRejoin(s: string)
    ensures Interleave(Sentences(s), Separators(s)) == s
    decreases |s|
  {
    var p := FindSplit(s, 0);
    if p < |s| {
      var e := p + SpaceRun(s[p..]);
      SplitStep(s, p, e);
      SentencesRejoin(s[e..]);
      InterleaveCons(s[..p], s[p..e], Sentences(s[e..]), Separators(s[e..]));
    }
  }

  /** Every separator is a non-empty whitespace run that follows `.`, `!` or
      `?` and is not followed by more whitespace, and no sentence holds a
      place where the pattern would match. */
  lemma {:induction false} SentencesSeparated(s: string)
    ensures forall i :: 0 <= i < |Separators(s)| ==> IsSpaceRun(Separators(s)[i])
    ensures forall i :: 0 <= i < |Separators(s)| ==> EndsSentence(Sentences(s)[i])
    ensures forall i :: 0 < i < |Sentences(s)| ==> Sentences(s)[i] == [] || !IsSpace(Sentences(s)[i][0])
    ensures forall i, j :: 0 <= i < |Sentences(s)| ==> !IsSplitAt(Sentences(s)[i], j)
    decreases |s|
  {
    var p := FindSplit(s, 0);
    if p < |s| {
      var e := p + SpaceRun(s[p..]);
      SplitStep(s, p, e);
      SplitStepPieces(s, p, e);
      SentencesSeparated(s[e..]);
    }
  }

  /** `[re.findall(r'\b\w+\b', sentence.lower()) for sentence in sents]`. */
  function SentenceWords(sents: seq<string>): seq<seq<string>> {
    seq(|sents|, j requires 0 <= j < |sents| => Tokens(LowerStr(sents[j])))
  }

  /** Concatenation of a list of token lists. */
  function Flatten(xss: seq<seq<string>>): seq<string> {
    if xss == [] then [] else xss[0] + Flatten(xss[1..])
  }

  /** The split only removes whitespace after `.`, `!` or `?`, which lies
      between tokens: the sentences' token lists, concatenated, are the token
      list of the whole text. */
  lemma {:induction false} SentenceTokensConcat(s: string)
    ensures Flatten(SentenceWords(Sentences(s))) == Tokens(LowerStr(s))
    decreases |s|
  {
    var p := FindSplit(s, 0);
    if p == |s| {
      SingleSentenceTokens(s);
    } else {
      var e := p + SpaceRun(s[p..]);
      SplitStep(s, p, e);
      SentenceTokensConcat(s[e..]);
      SplitTokensStep(s, p, e);
    }
  }

  /** A text without a split point is one sentence with the text's tokens. */
  lemma SingleSentenceTokens(s: string)
    requires FindSplit(s, 0) == |s|
    ensures Flatten(SentenceWords(Sentences(s))) == Tokens(LowerStr(s))
  {
    assert Sentences(s) == [s];
    assert SentenceWords([s]) == [Tokens(LowerStr(s))];
    assert Flatten([Tokens(LowerStr(s))]) == Tokens(LowerStr(s)) + [];
  }

  /** One split step keeps the concatenated tokens. */
  lemma SplitTokensStep(s: string, p: nat, e: nat)
    requires p == FindSplit(s, 0) && p < |s|
    requires e == p + SpaceRun(s[p..])
    requires e <= |s|
    requires Flatten(SentenceWords(Sentences(s[e..]))) == Tokens(LowerStr(s[e..]))
    ensures Flatten(SentenceWords(Sentences(s))) == Tokens(LowerStr(s))
  {
    SplitStep(s, p, e);
    SeparatorPiece(s, p, e);
    var rest := Sentences(s[e..]);
    SentenceWordsCons(s[..p], rest);
    calc {
      Flatten(SentenceWords(Sentences(s)));
      == Flatten(SentenceWords([s[..p]] + rest));
      == Flatten([Tokens(LowerStr(s[..p]))] + SentenceWords(rest));
      == { FlattenCons(Tokens(LowerStr(s[..p])), SentenceWords(rest)); }
      Tokens(LowerStr(s[..p])) + Flatten(SentenceWords(rest));
      == Tokens(LowerStr(s[..p])) + Tokens(LowerStr(s[e..]));
      == { SeparatorTokens(s[..p], s[p..e], s[e..]); }
      Tokens(LowerStr(s[..p] + s[p..e] + s[e..]));
      == Tokens(LowerStr(s));
    }
  }

  lemma SentenceWordsCons(a: string, rest: seq<string>)
    ensures SentenceWords([a] + rest) == [Tokens(LowerStr(a))] + SentenceWords(rest)
  {
  }

  lemma FlattenCons(xs: seq<string>, xss: seq<seq<string>>)
    ensures Flatten([xs] + xss) == xs + Flatten(xss)
  {
    assert ([xs] + xss)[1..] == xss;
  }

  /** Lower-casing and tokenising a sentence, a separator and a rest. */
  lemma SeparatorTokens(a: string, g: string, rest: string)
    requires IsSpaceRun(g)
    ensures Tokens(LowerStr(a + g + rest)) == Tokens(LowerStr(a)) + Tokens(LowerStr(rest))
  {
    LowerStrConcat(a + g, rest);
    LowerStrConcat(a, g);
    TokensConcatSep(LowerStr(a), LowerStr(g), LowerStr(rest));
  }
}

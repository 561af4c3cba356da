/** Tokenisation as `re.findall(r'\b\w+\b', s)` performs it: every maximal run
    of word characters, left to right. */
module Tokenizer {
  import opened Chars

  /** What the pattern `\b\w+\b` matches: a non-empty run of word characters. */
  predicate IsWord(t: string) {
    |t| > 0 && forall i :: 0 <= i < |t| ==> IsWordChar(t[i])
  }

  /** A stretch of text that holds no word character. */
  predicate AllNonWord(g: string) {
    forall i :: 0 <= i < |g| ==> !IsWordChar(g[i])
  }

  /** Length of the leading run of word characters of `s` (what the greedy
      `\w+` consumes when it starts at the front). */
  function RunLength(s: string): (k: nat)
    ensures k <= |s|
    ensures forall i :: 0 <= i < k ==> IsWordChar(s[i])
    ensures k < |s| ==> !IsWordChar(s[k])
  {
    if s == [] || !IsWordChar(s[0]) then 0 else 1 + RunLength(s[1..])
  }

  /** The leading run is unique: any prefix of word characters that is not
      followed by a word character is the run. */
  lemma RunLengthUnique(s: string, k: nat)
    requires k <= |s|
    requires forall i :: 0 <= i < k ==> IsWordChar(s[i])
    requires k < |s| ==> !IsWordChar(s[k])
    ensures RunLength(s) == k
  {
  }

  /** The token list of `s`, in order of occurrence. */
  function Tokens(s: string): seq<string>
    decreases |s|
  {
    if s == [] then []
    else if !IsWordChar(s[0]) then Tokens(s[1..])
    else
      var k := RunLength(s);
      [s[..k]] + Tokens(s[k..])
  }

  /** Every token is a word, and the tokens of a lower-case text are lower-case. */
  lemma {:induction false} TokensAreWords(s: string)
    ensures forall i :: 0 <= i < |Tokens(s)| ==> IsWord(Tokens(s)[i])
    ensures IsLowerCase(s) ==> forall i :: 0 <= i < |Tokens(s)| ==> IsLowerCase(Tokens(s)[i])
    decreases |s|
  {
    if s != [] {
      if !IsWordChar(s[0]) {
        TokensAreWords(s[1..]);
      } else {
        var k := RunLength(s);
        TokensAreWords(s[k..]);
        assert Tokens(s) == [s[..k]] + Tokens(s[k..]);
      }
    }
  }

  /** Text without word characters contributes no token. */
  lemma {:induction false} TokensSkipNonWord(g: string, rest: string)
    requires AllNonWord(g)
    ensures Tokens(g + rest) == Tokens(rest)
    decreases |g|
  {
    if g != [] {
      assert (g + rest)[0] == g[0];
      assert (g + rest)[1..] == g[1..] + rest;
      assert Tokens(g + rest) == Tokens(g[1..] + rest);
      TokensSkipNonWord(g[1..], rest);
    } else {
      assert g + rest == rest;
    }
  }

  /** A word that is not followed by a word character is one whole token. */
  lemma TokensWordPrefix(t: string, rest: string)
    requires IsWord(t)
    requires rest == [] || !IsWordChar(rest[0])
    ensures Tokens(t + rest) == [t] + Tokens(rest)
  {
    RunLengthUnique(t + rest, |t|);
    assert (t + rest)[..|t|] == t;
    assert (t + rest)[|t|..] == rest;
  }

  /** Cutting the text at a non-empty stretch of non-word characters cuts its
      token list at the same place. */
  lemma {:induction false} TokensConcatSep(a: string, g: string, b: string)
    requires g != [] && AllNonWord(g)
    ensures Tokens(a + g + b) == Tokens(a) + Tokens(b)
    decreases |a|
  {
    if a == [] {
      assert a + g + b == g + b;
      TokensSkipNonWord(g, b);
    } else if !IsWordChar(a[0]) {
      assert (a + g + b)[1..] == a[1..] + g + b;
      TokensConcatSep(a[1..], g, b);
    } else {
      var k := RunLength(a);
      var s := a + g + b;
      RunLengthUnique(s, k);
      assert s[..k] == a[..k];
      assert s[k..] == a[k..] + g + b;
      TokensConcatSep(a[k..], g, b);
    }
  }

  /** `gaps[0] + ts[0] + gaps[1] + ... + ts[n-1] + gaps[n]`. */
  function Interleave(gaps: seq<string>, ts: seq<string>): string
    requires |gaps| == |ts| + 1
  {
    if ts == [] then gaps[0] else gaps[0] + ts[0] + Interleave(gaps[1..], ts[1..])
  }

  /** `ts` are words and `gaps` the non-word stretches between them; every gap
      strictly between two words is non-empty. */
  predicate Separates(gaps: seq<string>, ts: seq<string>) {
    && |gaps| == |ts| + 1
    && (forall i :: 0 <= i < |ts| ==> IsWord(ts[i]))
    && (forall i :: 0 <= i < |gaps| ==> AllNonWord(gaps[i]))
    && (forall i :: 0 < i < |ts| ==> gaps[i] != [])
  }

  /** Tokenising a text built from separated words gives back those words. */
  lemma {:induction false} TokensOfInterleave(gaps: seq<string>, ts: seq<string>)
    requires Separates(gaps, ts)
    ensures Tokens(Interleave(gaps, ts)) == ts
    decreases |ts|
  {
    if ts == [] {
      assert gaps[0] + [] == gaps[0];
      TokensSkipNonWord(gaps[0], []);
    } else {
      var rest := Interleave(gaps[1..], ts[1..]);
      assert Separates(gaps[1..], ts[1..]);
      TokensOfInterleave(gaps[1..], ts[1..]);
      if ts[1..] != [] {
        assert rest == gaps[1] + ts[1] + Interleave(gaps[2..], ts[2..]);
        assert rest[0] == gaps[1][0];
      }
      TokensWordPrefix(ts[0], rest);
      TokensSkipNonWord(gaps[0], ts[0] + rest);
      assert Interleave(gaps, ts) == gaps[0] + (ts[0] + rest);
    }
  }

  /** The non-word stretches around and between the tokens of `s`. */
  function Gaps(s: string): (g: seq<string>)
    ensures |g| == |Tokens(s)| + 1
    ensures g[0] == [] <==> (s == [] || IsWordChar(s[0]))
    ensures forall i :: 0 <= i < |g| ==> AllNonWord(g[i])
    ensures forall i :: 0 < i < |Tokens(s)| ==> g[i] != []
    decreases |s|
  {
    if s == [] then [[]]
    else if !IsWordChar(s[0]) then
      var g := Gaps(s[1..]);
      [[s[0]] + g[0]] + g[1..]
    else
      [[]] + Gaps(s[RunLength(s)..])
  }

  /** Every text is its tokens interleaved with its gaps; with
      TokensOfInterleave this says the token list is the unique list of
      separated words the text is made of. */
  lemma {:induction false} TokensDecompose(s: string)
    ensures Separates(Gaps(s), Tokens(s))
    ensures Interleave(Gaps(s), Tokens(s)) == s
    decreases |s|
  {
    if s == [] {
    } else if !IsWordChar(s[0]) {
      TokensDecompose(s[1..]);
      DecomposeNonWordStep(s);
    } else {
      TokensDecompose(s[RunLength(s)..]);
      DecomposeWordStep(s);
    }
  }

  /** TokensDecompose when the text starts with a non-word character. */
  lemma DecomposeNonWordStep(s: string)
    requires s != [] && !IsWordChar(s[0])
    requires Interleave(Gaps(s[1..]), Tokens(s[1..])) == s[1..]
    ensures Interleave(Gaps(s), Tokens(s)) == s
  {
    var g := Gaps(s[1..]);
    assert Gaps(s) == [[s[0]] + g[0]] + g[1..];
    assert Tokens(s) == Tokens(s[1..]);
    InterleaveExtendGap(s[0], g, Tokens(s[1..]));
    assert s == [s[0]] + s[1..];
  }

  /** Prepending a character to the first gap prepends it to the text. */
  lemma InterleaveExtendGap(c: char, gaps: seq<string>, ts: seq<string>)
    requires |gaps| == |ts| + 1
    ensures Interleave([[c] + gaps[0]] + gaps[1..], ts) == [c] + Interleave(gaps, ts)
  {
    var gs := [[c] + gaps[0]] + gaps[1..];
    assert gs[0] == [c] + gaps[0] && gs[1..] == gaps[1..];
    if ts != [] {
      ConcatAssoc([c], gaps[0], ts[0], Interleave(gaps[1..], ts[1..]));
    }
  }

  lemma ConcatAssoc(a: string, b: string, c: string, d: string)
    ensures a + b + c + d == a + (b + c + d)
  {
  }

  /** TokensDecompose when the text starts with a word character. */
  lemma DecomposeWordStep(s: string)
    requires s != [] && IsWordChar(s[0])
    requires Interleave(Gaps(s[RunLength(s)..]), Tokens(s[RunLength(s)..])) == s[RunLength(s)..]
    ensures Interleave(Gaps(s), Tokens(s)) == s
  {
    var k := RunLength(s);
    var g := Gaps(s[k..]);
    var ts := Tokens(s[k..]);
    WordStepUnfold(s);
    calc {
      Interleave(Gaps(s), Tokens(s));
      == Interleave([[]] + g, [s[..k]] + ts);
      == { InterleaveCons([], s[..k], g, ts); }
      [] + s[..k] + Interleave(g, ts);
      == { assert [] + s[..k] == s[..k]; }
      s[..k] + s[k..];
      == s;
    }
  }

  /** One step of Gaps and Tokens at a word character. */
  lemma WordStepUnfold(s: string)
    requires s != [] && IsWordChar(s[0])
    ensures Gaps(s) == [[]] + Gaps(s[RunLength(s)..])
    ensures Tokens(s) == [s[..RunLength(s)]] + Tokens(s[RunLength(s)..])
  {
  }

  /** Interleaving a gap and a word in front of an interleaving puts them in
      front of its text. */
  lemma InterleaveCons(g: string, t: string, gaps: seq<string>, ts: seq<string>)
    requires |gaps| == |ts| + 1
    ensures Interleave([g] + gaps, [t] + ts) == g + t + Interleave(gaps, ts)
  {
    assert ([g] + gaps)[1..] == gaps;
    assert ([t] + ts)[1..] == ts;
  }

  /** `' '.join(ws)`. */
  function JoinWords(ws: seq<string>): string {
    if ws == [] then []
    else if |ws| == 1 then ws[0]
    else ws[0] + " " + JoinWords(ws[1..])
  }

  /** Joining words with single spaces and tokenising again is the identity. */
  lemma {:induction false} TokensOfJoinWords(ws: seq<string>)
    requires forall i :: 0 <= i < |ws| ==> IsWord(ws[i])
    ensures Tokens(JoinWords(ws)) == ws
    decreases |ws|
  {
    if |ws| == 1 {
      calc {
        Tokens(JoinWords(ws));
        == { assert ws[0] + [] == ws[0]; }
        Tokens(ws[0] + []);
        == { TokensWordPrefix(ws[0], []); }
        [ws[0]] + Tokens([]);
        == ws;
      }
    } else if |ws| > 1 {
      var tail := JoinWords(ws[1..]);
      calc {
        Tokens(JoinWords(ws));
        == { assert JoinWords(ws) == ws[0] + (" " + tail); }
        Tokens(ws[0] + (" " + tail));
        == { assert (" " + tail)[0] == ' '; TokensWordPrefix(ws[0], " " + tail); }
        [ws[0]] + Tokens(" " + tail);
        == { TokensSkipNonWord(" ", tail); }
        [ws[0]] + Tokens(tail);
        == { TokensOfJoinWords(ws[1..]); }
        [ws[0]] + ws[1..];
        == ws;
      }
    }
  }

  /** A string of joined words holds only word characters and spaces. */
  lemma {:induction false} JoinWordsChars(ws: seq<string>)
    requires forall i :: 0 <= i < |ws| ==> IsWord(ws[i])
    ensures forall i :: 0 <= i < |JoinWords(ws)| ==> IsWordChar(JoinWords(ws)[i]) || JoinWords(ws)[i] == ' '
    decreases |ws|
  {
    if |ws| > 1 {
      JoinWordsChars(ws[1..]);
    }
  }
}

/** Worked examples of the operations on short texts. */
module Scenarios {
  import opened Chars
  import opened Tokenizer
  import SentenceSplit
  import Occurrences
  import Contexts

  lemma LowerCat()
    ensures LowerStr("CAT") == "cat"
  {
    var t := LowerStr("CAT");
    assert t[0] == 'c' && t[1] == 'a' && t[2] == 't';
  }

  /** The example text's tokens. */
  lemma ExampleTokens(text: string)
    requires text == "a b c cat d e"
    ensures Tokens(LowerStr(text)) == ["a", "b", "c", "cat", "d", "e"]
  {
    var ws := ["a", "b", "c", "cat", "d", "e"];
    calc {
      Tokens(LowerStr(text));
      == { ExampleLower(text); }
      Tokens(text);
      == { ExampleJoin(); }
      Tokens(JoinWords(ws));
      == { ExampleWords(); TokensOfJoinWords(ws); }
      ws;
    }
  }

  lemma ExampleLower(text: string)
    requires text == "a b c cat d e"
    ensures LowerStr(text) == text
  {
    LowerStrOfLowerCase(text);
  }

  lemma ExampleJoin()
    ensures JoinWords(["a", "b", "c", "cat", "d", "e"]) == "a b c cat d e"
  {
  }

  lemma ExampleWords()
    ensures forall i :: 0 <= i < 6 ==> IsWord(["a", "b", "c", "cat", "d", "e"][i])
  {
  }

  /** "cat" occurs once, at index 3. */
  lemma ExampleIndices()
    ensures Contexts.Indices(["a", "b", "c", "cat", "d", "e"], "cat") == [3]
  {
    var ws := ["a", "b", "c", "cat", "d", "e"];
    var r := Contexts.Indices(ws, "cat");
    Contexts.IndicesCount(ws, "cat");
    assert multiset(ws)["cat"] == 1;
    assert ws[r[0]] == "cat";
  }

  lemma JoinExample()
    ensures JoinWords(["b", "c", "cat", "d"]) == "b c cat d"
  {
  }

  lemma ExampleSearch()
    ensures Contexts.SearchContexts(["a", "b", "c", "cat", "d", "e"], "cat", 2, 1) == ["b c cat d"]
  {
    var ws := ["a", "b", "c", "cat", "d", "e"];
    calc {
      Contexts.SearchContexts(ws, "cat", 2, 1);
      == { ExampleIndices(); }
      Contexts.ContextsAt(ws, [3], 2, 1);
      == [Contexts.Context(ws, 3, 2, 1)];
      == { assert Contexts.Window(ws, 3, 2, 1) == ["b", "c", "cat", "d"]; }
      [JoinWords(["b", "c", "cat", "d"])];
      == { JoinExample(); }
      ["b c cat d"];
    }
  }

  /** Two words to the left and one to the right of the single "cat",
      found whatever the case of the target. */
  lemma WindowExample(text: string)
    requires text == "a b c cat d e"
    ensures Contexts.FindContexts(text, "CAT", 2, 1, false) == ["b c cat d"]
  {
    ExampleTokens(text);
    LowerCat();
    ExampleSearch();
  }

  /** The first place where the split pattern matches is the space after "end.". */
  lemma FirstSplit(s: string)
    requires s == "old end. cat here."
    ensures SentenceSplit.FindSplit(s, 0) == 8
  {
    assert SentenceSplit.IsSplitAt(s, 8);
    forall j | 0 <= j < 8
      ensures !SentenceSplit.IsSplitAt(s, j)
    {
    }
  }

  /** A sentence with no space after its full stop is not split. */
  lemma LastSentence(t: string)
    requires t == "cat here."
    ensures SentenceSplit.Sentences(t) == [t]
  {
    forall j | 0 <= j < |t|
      ensures !SentenceSplit.IsSplitAt(t, j)
    {
    }
    assert SentenceSplit.FindSplit(t, 0) == |t|;
  }

  /** The example text splits into two sentences at ". ". */
  lemma ExampleSentences(s: string)
    requires s == "old end. cat here."
    ensures SentenceSplit.Sentences(s) == ["old end.", "cat here."]
  {
    FirstSplit(s);
    ExampleSeparator(s);
    ExamplePieces(s);
    LastSentence(s[9..]);
    TwoSentences(s, 8, 9);
  }

  /** A text with one split point, whose rest is a single sentence, is two sentences. */
  lemma TwoSentences(s: string, p: nat, e: nat)
    requires p == SentenceSplit.FindSplit(s, 0) && p < |s|
    requires e == p + SentenceSplit.SpaceRun(s[p..])
    requires SentenceSplit.Sentences(s[e..]) == [s[e..]]
    ensures SentenceSplit.Sentences(s) == [s[..p], s[e..]]
  {
    SentenceSplit.SplitStep(s, p, e);
  }

  /** The separator is the single space after "end.". */
  lemma ExampleSeparator(s: string)
    requires s == "old end. cat here."
    ensures SentenceSplit.SpaceRun(s[8..]) == 1
  {
    assert s[8..][0] == ' ' && s[8..][1] == 'c';
  }

  lemma ExamplePieces(s: string)
    requires s == "old end. cat here."
    ensures s[..8] == "old end." && s[9..] == "cat here."
  {
  }

  /** Two words, a space between them and a full stop after them. */
  lemma TwoWordSentenceTokens(a: string, b: string)
    requires IsWord(a) && IsWord(b)
    ensures Tokens(a + " " + b + ".") == [a, b]
  {
    calc {
      Tokens(a + " " + b + ".");
      == { assert a + " " + b + "." == a + (" " + (b + ".")); }
      Tokens(a + (" " + (b + ".")));
      == { TokensWordPrefix(a, " " + (b + ".")); }
      [a] + Tokens(" " + (b + "."));
      == { TokensSkipNonWord(" ", b + "."); }
      [a] + Tokens(b + ".");
      == { TokensWordPrefix(b, "."); }
      [a] + ([b] + Tokens("."));
      == { TokensSkipNonWord(".", []); assert "." + [] == "."; }
      [a] + ([b] + Tokens([]));
      == [a, b];
    }
  }

  lemma FirstSentenceTokens()
    ensures Tokens("old end.") == ["old", "end"]
  {
    assert IsWord("old") && IsWord("end");
    TwoWordSentenceTokens("old", "end");
    assert "old" + " " + "end" + "." == "old end.";
  }

  lemma LastSentenceTokens()
    ensures Tokens("cat here.") == ["cat", "here"]
  {
    assert IsWord("cat") && IsWord("here");
    TwoWordSentenceTokens("cat", "here");
    assert "cat" + " " + "here" + "." == "cat here.";
  }

  lemma ExampleSentenceTokens()
    ensures Tokens(LowerStr("old end.")) == ["old", "end"]
    ensures Tokens(LowerStr("cat here.")) == ["cat", "here"]
  {
    LowerStrOfLowerCase("old end.");
    LowerStrOfLowerCase("cat here.");
    FirstSentenceTokens();
    LastSentenceTokens();
  }

  lemma ExampleTextTokens(text: string)
    requires text == "old end. cat here."
    ensures Tokens(LowerStr(text)) == ["old", "end", "cat", "here"]
  {
    calc {
      Tokens(LowerStr(text));
      == { ExampleTextLower(text); }
      Tokens(text);
      == { ExampleTextPieces(); }
      Tokens("old end." + " " + "cat here.");
      == { TokensConcatSep("old end.", " ", "cat here."); }
      Tokens("old end.") + Tokens("cat here.");
      == { FirstSentenceTokens(); LastSentenceTokens(); }
      ["old", "end"] + ["cat", "here"];
    }
  }

  lemma ExampleTextLower(text: string)
    requires text == "old end. cat here."
    ensures LowerStr(text) == text
  {
    LowerStrOfLowerCase(text);
  }

  lemma ExampleTextPieces()
    ensures "old end." + " " + "cat here." == "old end. cat here."
  {
  }

  lemma ExampleSentenceWords()
    ensures SentenceSplit.SentenceWords(["old end.", "cat here."]) == [["old", "end"], ["cat", "here"]]
  {
    var sents := ["old end.", "cat here."];
    ExampleSentenceTokens();
    assert SentenceSplit.SentenceWords(sents)[0] == Tokens(LowerStr(sents[0]));
    assert SentenceSplit.SentenceWords(sents)[1] == Tokens(LowerStr(sents[1]));
  }

  /** Sentence by sentence, the left context of "cat" stops at the start of
      its sentence; over the whole text it reaches back into the previous one. */
  lemma SentenceCutExample(text: string)
    requires text == "old end. cat here."
    ensures Contexts.FindContexts(text, "cat", 2, 0, true) == ["cat"]
    ensures Contexts.FindContexts(text, "cat", 2, 0, false) == ["old end cat"]
  {
    ExampleSentences(text);
    LowerStrOfLowerCase("cat");
    ExampleSentenceWords();
    CutSearch();
    ExampleTextTokens(text);
    WholeSearch();
  }

  lemma CutSearch()
    ensures Contexts.ListContexts([["old", "end"], ["cat", "here"]], "cat", 2, 0) == ["cat"]
  {
    var wss := [["old", "end"], ["cat", "here"]];
    NoCat();
    CatFirst();
    assert wss[1..] == [["cat", "here"]];
    assert wss[1..][1..] == [];
  }

  lemma NoCat()
    ensures Contexts.SearchContexts(["old", "end"], "cat", 2, 0) == []
  {
    var r := Contexts.Indices(["old", "end"], "cat");
    Contexts.IndicesCount(["old", "end"], "cat");
    assert multiset(["old", "end"])["cat"] == 0;
  }

  lemma CatFirst()
    ensures Contexts.SearchContexts(["cat", "here"], "cat", 2, 0) == ["cat"]
  {
    var ws := ["cat", "here"];
    var r := Contexts.Indices(ws, "cat");
    Contexts.IndicesCount(ws, "cat");
    assert multiset(ws)["cat"] == 1;
    assert ws[r[0]] == "cat";
    assert Contexts.Window(ws, 0, 2, 0) == ["cat"];
  }

  lemma WholeSearch()
    ensures Contexts.SearchContexts(["old", "end", "cat", "here"], "cat", 2, 0) == ["old end cat"]
  {
    var ws := ["old", "end", "cat", "here"];
    calc {
      Contexts.SearchContexts(ws, "cat", 2, 0);
      == { WholeIndices(); }
      Contexts.ContextsAt(ws, [2], 2, 0);
      == [Contexts.Context(ws, 2, 2, 0)];
      == { assert Contexts.Window(ws, 2, 2, 0) == ["old", "end", "cat"]; }
      [JoinWords(["old", "end", "cat"])];
      == { WholeJoin(); }
      ["old end cat"];
    }
  }

  lemma WholeIndices()
    ensures Contexts.Indices(["old", "end", "cat", "here"], "cat") == [2]
  {
    var ws := ["old", "end", "cat", "here"];
    var r := Contexts.Indices(ws, "cat");
    Contexts.IndicesCount(ws, "cat");
    assert multiset(ws)["cat"] == 1;
    assert ws[r[0]] == "cat";
  }

  lemma WholeJoin()
    ensures JoinWords(["old", "end", "cat"]) == "old end cat"
  {
  }

  lemma CategoryJoin()
    ensures JoinWords(["cat", "category", "cat"]) == "cat category cat"
  {
  }

  lemma CategoryTokens()
    ensures Tokens("cat category cat") == ["cat", "category", "cat"]
  {
    var ws := ["cat", "category", "cat"];
    assert IsWord("cat") && IsWord("category");
    CategoryJoin();
    TokensOfJoinWords(ws);
  }

  lemma CategoryLower()
    ensures LowerStr("cat category cat") == "cat category cat"
  {
    LowerStrOfLowerCase("cat category cat");
  }

  /** "cat" inside "category" is not an occurrence of "cat". */
  lemma WholeWordExample(text: string)
    requires text == "cat category cat"
    ensures Occurrences.CountWordOccurrences(text, "CAT") == 2
  {
    CategoryTokens();
    CategoryLower();
    LowerCat();
    CountByTokens(text, "CAT", ["cat", "category", "cat"]);
    CatCount();
  }

  lemma CountByTokens(text: string, word: string, ws: seq<string>)
    requires IsWord(LowerStr(word))
    requires Tokens(LowerStr(text)) == ws
    ensures Occurrences.CountWordOccurrences(text, word) == multiset(ws)[LowerStr(word)]
  {
    Occurrences.CountWordOccurrencesIsTokenCount(text, word);
  }

  lemma CatCount()
    ensures multiset(["cat", "category", "cat"])["cat"] == 2
  {
  }
}

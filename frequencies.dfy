/** `count_word_frequencies`: a `Counter` over the tokens of the lower-cased text. */
module Frequencies {
  import opened Chars
  import opened Tokenizer

  /** `Counter(ws)`: every distinct word mapped to how often it occurs,
      built by counting the words one after another. */
  function Tally(ws: seq<string>): map<string, nat> {
    if ws == [] then map[]
    else
      var m := Tally(ws[..|ws| - 1]);
      var w := ws[|ws| - 1];
      m[w := (if w in m then m[w] else 0) + 1]
  }

  /** The tally holds exactly the words of the list, each with its multiplicity. */
  lemma {:induction false} TallyCounts(ws: seq<string>)
    ensures forall w :: w in Tally(ws) <==> w in ws
    ensures forall w :: w in Tally(ws) ==> Tally(ws)[w] == multiset(ws)[w]
    decreases |ws|
  {
    if ws != [] {
      var init := ws[..|ws| - 1];
      TallyCounts(init);
      assert ws == init + [ws[|ws| - 1]];
    }
  }

  /** Sum of the values of a map, in no particular order of keys. */
  ghost function SumValues(m: map<string, nat>): nat
    decreases |m|
  {
    if m == map[] then 0
    else
      var k := PickKey(m);
      m[k] + SumValues(m - {k})
  }

  ghost function PickKey(m: map<string, nat>): (k: string)
    requires m != map[]
    ensures k in m
  {
    var k :| k in m; k
  }

  /** The sum does not depend on which key is taken out first. */
  lemma {:induction false} SumValuesRemove(m: map<string, nat>, k: string)
    requires k in m
    ensures SumValues(m) == m[k] + SumValues(m - {k})
    decreases |m|
  {
    var j := PickKey(m);
    if j != k {
      SumValuesRemove(m - {j}, k);
      SumValuesRemove(m - {k}, j);
      assert m - {j} - {k} == m - {k} - {j};
    }
  }

  /** Counting one more occurrence of a word adds one to the sum. */
  lemma SumValuesIncrement(m: map<string, nat>, w: string)
    ensures SumValues(m[w := (if w in m then m[w] else 0) + 1]) == SumValues(m) + 1
  {
    var m' := m[w := (if w in m then m[w] else 0) + 1];
    SumValuesRemove(m', w);
    if w in m {
      SumValuesRemove(m, w);
      assert m' - {w} == m - {w};
    } else {
      assert m' - {w} == m;
    }
  }

  /** The counts of a tally add up to the number of words counted. */
  lemma {:induction false} TallyTotal(ws: seq<string>)
    ensures SumValues(Tally(ws)) == |ws|
    decreases |ws|
  {
    if ws != [] {
      TallyTotal(ws[..|ws| - 1]);
      SumValuesIncrement(Tally(ws[..|ws| - 1]), ws[|ws| - 1]);
    }
  }

  /** `count_word_frequencies(text)`. */
  function WordFrequencies(text: string): map<string, nat> {
    Tally(Tokens(LowerStr(text)))
  }

  /** Each key is a lower-case word of the text, counted as often as it
      occurs in the token list of the lower-cased text; every such token is a key. */
  lemma WordFrequenciesCounts(text: string)
    ensures forall w :: w in WordFrequencies(text) <==> w in Tokens(LowerStr(text))
    ensures forall w :: w in WordFrequencies(text) ==>
      WordFrequencies(text)[w] == multiset(Tokens(LowerStr(text)))[w] && IsWord(w) && IsLowerCase(w)
  {
    TallyCounts(Tokens(LowerStr(text)));
    LowerStrIsLowerCase(text);
    TokensAreWords(LowerStr(text));
  }

  /** The counts add up to the total number of tokens. */
  lemma WordFrequenciesTotal(text: string)
    ensures SumValues(WordFrequencies(text)) == |Tokens(LowerStr(text))|
  {
    TallyTotal(Tokens(LowerStr(text)));
  }

  /** Case does not matter: a text and its lower-cased form have the same tally. */
  lemma WordFrequenciesCaseInsensitive(text: string)
    ensures WordFrequencies(LowerStr(text)) == WordFrequencies(text)
  {
    LowerStrIsLowerCase(text);
  }
}

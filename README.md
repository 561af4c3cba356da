# Word-level text analysis of a chapter text

This project models the three text helpers of `task_3.py` and proves what
they promise:

- `count_word_frequencies` lower-cases a text, splits it into tokens with
  `re.findall(r'\b\w+\b', ...)` (every maximal run of word characters) and
  tallies them in a `Counter`.
- `count_word_occurrences` counts the matches of `\b` + the escaped,
  lower-cased word + `\b` in the lower-cased text.
- `find_word_contexts` lower-cases the target and does one of two searches:
  - over the whole text's token list;
  - with `cut_length` set, over each sentence's token list. Sentences come
    from `re.split(r'(?<=[.!?])\s+', text)`.

  For every token equal to the target at index `i`, it appends the words
  `[max(0, i - left_len), min(n, i + right_len + 1))` joined by single
  spaces to a result list. Then it writes each context followed by a line
  feed to a file.

Modules, one per file:

- `Chars`: the character classes `\w` and `\s`, and `str.lower()`, on ASCII.
- `Tokenizer`: the `findall` tokeniser and `' '.join`. Two facts pin the
  token list down: every text is its tokens interleaved with non-word gaps,
  and a text built that way tokenises back to those words.
- `Frequencies`: the `Counter` as a `map<string, nat>` built word by word.
- `Occurrences`: the left-to-right regular-expression scan for `\bw\b`.
- `SentenceSplit`: the lookbehind split and its separators.
- `Contexts`: the following pieces.
  - Python slice semantics.
  - The window and context functions.
  - The loops of `find_word_contexts` as methods:
    - `CollectContexts` is the loop over the indices of one token list.
    - `FindWordContexts` is the whole function. Its loop over sentences
      calls `CollectContexts`.
    - `WriteLines` is the file-writing loop.
  - The lemmas that relate the result to the tokens and the sentences.
- `Scenarios`: worked examples on concrete texts.

`find_word_contexts` returns `None` and writes a file. The model's
`FindWordContexts` returns the list the function collects (`results`) and
the text it writes (`file`).

## Model

| member | source | states |
|---|---|---|
| Chars.Lower | task_3.py:48 | lower-casing a character maps `A`..`Z` to `a`..`z` and leaves every other character alone; it keeps the word/non-word and space/non-space class |
| Chars.LowerStr | task_3.py:48 | `text.lower()` keeps the length and lowers each character in place |
| Chars.LowerStrIsLowerCase | task_3.py:48 | the lower-cased text is lower-case, and lower-casing it again changes nothing |
| Chars.LowerStrConcat | task_3.py:72-74 | lower-casing distributes over concatenation, so lowering a sentence is lowering that slice of the text |
| Tokenizer.RunLength | task_3.py:48 | the greedy `\w+` at the front consumes only word characters and stops at a non-word character or the end |
| Tokenizer.TokensAreWords | task_3.py:48 | every token `findall` returns is a non-empty run of word characters, and the tokens of a lower-case text are lower-case |
| Tokenizer.TokensDecompose | task_3.py:48 | every text is its tokens interleaved with non-word gaps, and the gaps between two tokens are non-empty |
| Tokenizer.TokensOfInterleave | task_3.py:48 | any text made of word runs separated by non-word gaps tokenises to exactly those runs, so the token list is the unique such decomposition |
| Tokenizer.TokensConcatSep | task_3.py:72-74 | cutting a text at a non-empty non-word stretch cuts its token list at the same place |
| Tokenizer.TokensOfJoinWords | task_3.py:79 | joining tokens with single spaces and tokenising again gives back the same tokens |
| Frequencies.TallyCounts | task_3.py:49 | the `Counter` holds exactly the words of the list, each mapped to its multiplicity |
| Frequencies.TallyTotal | task_3.py:49 | the counts of the `Counter` add up to the length of the list |
| Frequencies.WordFrequenciesCounts | task_3.py:46-49 | the keys are exactly the tokens of the lower-cased text, each counted as often as it occurs; every key is a lower-case word |
| Frequencies.WordFrequenciesTotal | task_3.py:46-49 | the frequencies sum to the number of tokens of the lower-cased text |
| Frequencies.WordFrequenciesCaseInsensitive | task_3.py:48 | a text and its lower-cased form have the same tally |
| Occurrences.CountFromTokens | task_3.py:53 | from any position outside a word, the `findall` scan for `\bw\b` counts exactly the tokens of the rest of the text equal to `w` |
| Occurrences.CountWordOccurrencesIsTokenCount | task_3.py:51-53 | for a target made of word characters, the occurrence count is the number of tokens of the lower-cased text equal to the lower-cased target: whole words only, never inside a longer token |
| Occurrences.CountWordOccurrencesMatchesFrequencies | task_3.py:46-53 | the occurrence count equals the target's entry in the frequency tally, and is 0 when the tally has no entry for it |
| SentenceSplit.FindSplit | task_3.py:72 | the split point found is the first position at or after the start where `.`, `!` or `?` is followed by whitespace, or the end of the text if there is none |
| SentenceSplit.SpaceRun | task_3.py:72 | the greedy `\s+` consumes only whitespace and stops at a non-space character or the end |
| SentenceSplit.SplitStep | task_3.py:72 | one split step yields the sentence before the split point and splits the rest after the whitespace run again |
| SentenceSplit.SentencesRejoin | task_3.py:72 | putting the removed separators back between the sentences gives the text, so the split loses nothing else |
| SentenceSplit.SentencesSeparated | task_3.py:72 | every separator is a non-empty whitespace run after `.`, `!` or `?` and is not followed by more whitespace; no sentence contains a split point |
| SentenceSplit.SentenceTokensConcat | task_3.py:72-74 | the sentences' token lists, concatenated, are the token list of the whole lower-cased text |
| Contexts.SliceBound | task_3.py:79 | a slice bound within `0..n` is kept, and any bound is clamped into `0..n` |
| Contexts.PySlice | task_3.py:79 | `words[lo:hi]` is the ordinary slice when `0 <= lo <= hi <= n`, and holds only elements of `words` |
| Contexts.Indices | task_3.py:75 | the indices are in range and point at the target, strictly increase, and include every position of the target |
| Contexts.IndicesCount | task_3.py:75 | there are exactly as many indices as occurrences of the target |
| Contexts.ContextWindow | task_3.py:77-79 | for `left_len, right_len >= 0` the window is `[max(0,i-l), min(n,i+r+1))`, clipped only at the list ends; it is non-empty, has at most `l+1+r` words, holds the target at offset `i-lo`, and the context line tokenises back to that slice |
| Contexts.CollectContexts | task_3.py:75-80 | the inner loop appends the context of every index in order, giving one context per occurrence of the target in the token list |
| Contexts.WriteLines | task_3.py:92-95 | the file text is every context followed by a line feed; when no context holds a line feed, reading the file back line by line gives the contexts |
| Contexts.FindWordContexts | task_3.py:55-95 | `find_word_contexts` collects the contexts of the chosen search, whose number is the count of the lower-cased target among the tokens of the lower-cased text, and writes a file that reads back as exactly those contexts, one per line |
| Contexts.ReadLinesOfJoinLines | task_3.py:93-95 | writing lines without line feeds, each followed by `"\n"`, and splitting the file at line feeds gives back the lines |
| Contexts.FindContextsHaveNoLineFeed | task_3.py:79 | no context holds a line feed, so each context takes exactly one line of the file |
| Contexts.ListContextsCount | task_3.py:73-80 | the sentence-by-sentence search gives one context per occurrence of the target in the concatenated sentence token lists |
| Contexts.FindContextsCount | task_3.py:70-89 | with or without `cut_length` there is exactly one context per token of the lower-cased text equal to the lower-cased target |
| Contexts.HitsAreInOrder | task_3.py:73-80 | the occurrences come in sentence order, then in position order |
| Contexts.HitsComplete | task_3.py:73-76 | every occurrence of the target in every sentence is among them |
| Contexts.ListContextsAtHits | task_3.py:73-80 | context `k` of the sentence-by-sentence search is the window around occurrence `k`, taken within that occurrence's own sentence |
| Contexts.CutContextsStayInSentence | task_3.py:70-80 | with `cut_length`, the contexts match the sentences' occurrences one to one and in order, and each is clipped to its own sentence, so no context crosses a sentence boundary |
| Contexts.ContextsMatchOccurrenceCount | task_3.py:51-89 | for a target made of word characters, the number of contexts equals what `count_word_occurrences` returns, with or without `cut_length` |
| Contexts.AbsentTargetGivesNoContexts | task_3.py:92-95 | a target that does not occur gives no contexts and an empty file, not an error |
| Scenarios.WindowExample | task_3.py:83-89 | in `"a b c cat d e"`, the target `"CAT"` with left 2 and right 1 has the single context `"b c cat d"` |
| Scenarios.ExampleSentences | task_3.py:72 | `"old end. cat here."` splits into `"old end."` and `"cat here."` |
| Scenarios.SentenceCutExample | task_3.py:70-89 | in `"old end. cat here."` with left 2 and right 0, the context of `"cat"` is `"cat"` with `cut_length` and `"old end cat"` without it |
| Scenarios.WholeWordExample | task_3.py:53 | `"CAT"` occurs twice in `"cat category cat"`; the `cat` inside `category` is not counted |

## Left out

- `download_webpage` (task_3.py:6-15) is left out: it is network I/O through `requests`.
- `extract_chapter1_text` (task_3.py:17-44) is left out: it walks a BeautifulSoup tree, a foreign library whose internals are not part of this model.
- The `__main__` block (task_3.py:99-135) is left out: it is interactive glue (`input()` prompts, integer parsing, printing). This includes `Counter.most_common(20)`, whose order of tied counts comes from the library.
- The `print` calls, the `filename` parameter and opening the file (task_3.py:92-97) are left out. The model returns the text that would be written.
- `\w`, `\s` and `str.lower()` are modelled on ASCII only: a word character is a letter, a digit or `_`, and lower-casing maps `A`..`Z`. Python's Unicode classes, and lower-casing that can change a string's length, are not modelled.
- Occurrences.CountWordOccurrencesIsTokenCount: the link to the token list is proved only for targets made of word characters. For other targets the scan `CountFrom` still models what `re.findall` does with the escaped pattern, but nothing more is proved about it.
- Contexts.ContextWindow: the window bounds are proved for `left_len, right_len >= 0`. The program reads both with `int(input())` (task_3.py:121-122) and does not check their sign. Negative values are still modelled with Python's slice semantics (`Contexts.PySlice`), but nothing more is proved about them.
- The TF-IDF engine of the wider repository is not part of this model: its source is not among the modelled files, and it is built on a floating-point logarithm.

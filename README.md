# chinese-comprehension, modelled in Dafny

A model of the scoring and counting core of *chinese-comprehension*. The tool
estimates how much of a Chinese text a learner understands, given the learner's
list of known words. It has three command-line programs built on one shared
module:

- `comprehension.py` counts the tokens of a text and returns a report of:
  - the number of tokens left after exclusions;
  - the number of distinct tokens;
  - the percentage of token occurrences understood;
  - the number of distinct unknown tokens.

  With `-u` it also writes the unknown tokens, sorted by frequency, to a file.
- `analyzer.py` reports the total and distinct numbers of words and characters,
  each rounded to the nearest 50.
- `vocab_adder.py` appends the new words of a text to the known-words file.
- `core/shared.py` holds the shared helpers:
  - parsing a word-list file;
  - stripping whitespace;
  - dropping punctuation and excluded tokens;
  - rounding to the nearest 50.

The model has six modules:

| file | module | what it holds |
|---|---|---|
| `seqs.dfy` | `Seqs` | list comprehension as `Filter`, `"".join` as `Join`, order preservation |
| `shared.dfy` | `Shared` | `core/shared.py` |
| `counting.dfy` | `Counting` | `collections.Counter`, `dict.fromkeys`, and the stable sort by count, descending, used by `list.sort(..., reverse=True)` and `most_common()` |
| `analyzer.dfy` | `Analyzer` | `split_unicode_chrs` and the figures of `text_analyzer` |
| `comprehension.dfy` | `Comprehension` | the scoring body of `comprehension_checker` |
| `vocab_adder.dfy` | `VocabAdder` | the merge logic of `add_vocab` |

How the model is shaped:

- Python's `\s` is the set of code points for which `str.isspace()` holds
  (`Shared.IsWhitespace`).
- `re.match(r'[a-zA-Z0-9]+', x)` anchors only at the start of `x`. It becomes
  "the first character is an ASCII letter or digit".
- The segmenter (`lac.run`) cannot be modelled. Its output is a parameter,
  `segmented`.
- File contents are parameters too:
  - the known and exclusion files are given as their parsed sets;
  - the target text is given as a string;
  - the old vocabulary file is given as its lines.
- The command-line flags are parameters:
  - `-m` is `mode`;
  - `-c` is `characters`;
  - whether an output file was named is `writeUnknown`.

The imperative code stays imperative:

- `remove_punctuations` and `load_word_list_from_file` are methods.
- The classification loop of `comprehension_checker` is a method.
- The in-place `unknown_words.sort` is an insertion sort on an `array`. It is
  proved equal to the stable sort `Counting.SortedByCount`.
- The append loop of `add_vocab` is a method.
- Each of these methods is proved against a function on its inputs. Lemmas give
  that function its meaning:
  - the counts are conserved;
  - the result is ordered;
  - ties keep first-seen order;
  - the output has the right prefix;
  - there are no duplicates;
  - the operation is idempotent.

Behaviour of the code that the model keeps:

- **No tokens left after exclusions.** `comprehension_checker` has no guard for
  an empty token list:
  - it writes the (empty) unknown-words file;
  - it then fails with `ZeroDivisionError` at `comprehension.py:120`.

  The model returns `Err(ZeroDivision)` in exactly that case. It does not
  require a non-empty input.
- **Rounding.** `round_to_nearest_50` uses Python's `round`, which sends halves
  to the even neighbour: 25 rounds to 0, 75 to 100, 125 to 100. The model does
  the same.
- **The `-c` flag.** It does not compare a token's characters with the
  characters of the known words. It checks that every character is, on its own,
  an entry of the known list (`comprehension.py:98`). The model keeps that. The
  flag's help text (`comprehension.py:33`) promises more; see "## Findings".

## Model

| member | source | states |
|---|---|---|
| Shared.LoadWordList | core/shared.py:9-16 | the parsed word list never holds the empty string; a string is in it exactly when it is a maximal run of non-whitespace characters of the file content; no entry contains whitespace |
| Shared.SubWhitespaceRuns | core/shared.py:10 | `re.sub("\s+", "\n", s)` never lengthens the text; the result starts with `s`'s first character, or a newline when that is whitespace; the only whitespace left is `\n`, and no two newlines are adjacent |
| Shared.SubWhitespaceRunsVisible | core/shared.py:10 | deleting the newlines of the substituted text leaves exactly the non-whitespace characters of `s`, in order |
| Shared.SplitOn | core/shared.py:10 | `str.split` on a separator yields at least one piece and no piece contains the separator |
| Shared.FieldsAreWords | core/shared.py:10 | the non-empty pieces of `re.sub("\s+", "\n", s).split("\n")` are exactly the words of `s` |
| Shared.WordsAreMaximalRuns | core/shared.py:10 | the words of `s` are exactly its maximal runs of non-whitespace characters |
| Shared.TextCleanUp | core/shared.py:18-22 | cleaning the text removes exactly the whitespace characters and keeps every other character in order; the result holds no whitespace |
| Shared.RemovePunctuations | core/shared.py:24-30 | the four passes, one per sentence punctuation mark, together drop exactly the tokens equal to ！ ？ 。 ， and keep the rest in order |
| Shared.WithoutTwice | core/shared.py:26-28 | dropping one set of tokens and then another equals dropping their union in one pass |
| Shared.RemovePunctuationsSpec | core/shared.py:24-30 | a token survives exactly when it was present and is not one of the four marks; every survivor keeps its number of occurrences |
| Shared.RemoveExclusions | core/shared.py:32-40 | the list never grows; a token survives exactly when it was present, is not a one-character punctuation mark, not an extra exclusion, and does not start with an ASCII letter or digit; a survivor keeps its number of occurrences, an excluded token has none |
| Shared.RemoveExclusionsIdempotent | core/shared.py:38 | removing the same exclusions twice equals removing them once |
| Shared.RoundToNearest50 | core/shared.py:42-43 | the result is a multiple of 50 within 25 of `x`, strictly within 25 unless `x` is halfway; it is `x` when `x` is a multiple of 50; a halfway `x` goes to the even multiple; it is non-negative for non-negative `x` |
| Shared.RoundIsNearest | core/shared.py:43 | no multiple of 50 is nearer to `x` than the rounded value |
| Shared.RoundMonotonic | core/shared.py:43 | rounding never reverses the order of two figures |
| Counting.Distinct | vocab_adder.py:38 | `dict.fromkeys` keeps each token once: its keys are exactly the tokens of the list, without duplicates, and never more than the list |
| Counting.DistinctCount | comprehension.py:87 | `len(Counter(ts))` is the number of distinct tokens of `ts` |
| Counting.DistinctInFirstSeenOrder | vocab_adder.py:38 | the de-duplicated keys follow the order in which each token first occurs |
| Counting.Items | comprehension.py:84-93 | `Counter(ts).items()` has one entry per distinct token, no key twice, and each entry pairs a token of `ts` with its exact number of occurrences |
| Counting.CounterTotal | comprehension.py:84-85 | the counts of `Counter(ts)` add up to `len(ts)` |
| Counting.ItemsExact | comprehension.py:84-93 | `Counter(ts).items()` pairs every token of `ts` with its exact number of occurrences, and holds nothing else |
| Counting.ItemsInFirstSeenOrder | comprehension.py:93 | the items of a `Counter` have distinct keys and follow first-occurrence order |
| Counting.SortedByCount | comprehension.py:106 | sorting by count with `reverse=True` is a permutation of its input with non-increasing counts |
| Counting.SortedByCountCorrect | comprehension.py:106 | sorting by count with `reverse=True` gives non-increasing counts, is a permutation that keeps the total count, keeps entries of equal count in their original order, and keeps keys distinct |
| Counting.MostCommon | analyzer.py:71-77 | `most_common()` has one line per distinct token, holds the same entries as `Counter(ts).items()`, and its counts never increase |
| Counting.MostCommonSpec | analyzer.py:71-77 | `most_common()` lists every distinct token once with its exact count, has as many lines as there are distinct tokens, has non-increasing counts, and lists tokens of equal count in first-seen order |
| Analyzer.ChrSplitterPiecesAreCharacters | analyzer.py:34-45 | the non-empty pieces of the splitter's output are the characters of the text, each as a string of its own, in order |
| Analyzer.SplitUnicodeChrs | analyzer.py:37-45 | `split_unicode_chrs` yields each character of the text as a string of its own, in order |
| Analyzer.SplitUnicodeChrsRoundTrip | analyzer.py:36-45 | the pieces are as many as the characters, each piece is one character and none is empty, and joining them gives the text back |
| Analyzer.TextAnalyzer | analyzer.py:58-89 | Total Words rounds the unfiltered segmenter token count; Total Characters rounds the length of the text without whitespace; the two unique figures round the numbers of distinct words and characters left after exclusions |
| Analyzer.TextAnalyzerConsistent | analyzer.py:60-89 | each unique figure is at most its total, and is the rounded length of the ranking written to the output file |
| Analyzer.TextAnalyzerWordRanking | analyzer.py:60-72 | the word ranking lists exactly the kept tokens with their counts, with non-increasing counts and ties in first-seen order |
| Analyzer.TextAnalyzerCharacterRanking | analyzer.py:63-77 | the character ranking lists exactly the kept non-whitespace characters with their counts, with non-increasing counts and ties in first-seen order |
| Comprehension.CharacterVocabulary | comprehension.py:77-79 | in simple mode the vocabulary holds only one-character strings, and a character is in it exactly when it occurs in some known entry |
| Comprehension.Vocabulary | comprehension.py:71-79 | in simple mode the vocabulary holds only one-character strings, exactly the characters of the known entries; in smart mode it is the known entries themselves |
| Comprehension.ScoredTokens | comprehension.py:71-83 | the counted list is the mode's split (segmenter tokens in smart mode, the non-whitespace characters of the text in order otherwise) with the excluded tokens removed: it keeps the split's order, never grows, and each kept token keeps its number of occurrences while an excluded one has none |
| Comprehension.Understood | comprehension.py:96-100 | a token is understood exactly when it is in the vocabulary, or the `-c` flag is set and the set of its characters is a subset of the vocabulary |
| Comprehension.CharacterSetCovered | comprehension.py:98 | the set of a token's characters is a subset of the vocabulary exactly when each character, on its own, is an entry |
| Comprehension.InsertByCountAt | comprehension.py:106 | one step of the in-place sort moves `a[i]` into the sorted prefix behind every entry of equal or larger count and leaves the rest of the array alone |
| Comprehension.SortByCount | comprehension.py:106 | the in-place sort leaves the array equal to the stable sort by count, descending, of its old contents |
| Comprehension.ClassifyStep | comprehension.py:96-104 | an understood entry adds its count to the understood total; any other entry is appended to the unknown list |
| Comprehension.Classify | comprehension.py:88-104 | the loop sums the counts of the understood entries, counts the unknown entries, and collects the unknown entries in `Counter` order only when an output file is given |
| Comprehension.PercentBounds | comprehension.py:120 | the percentage lies between 0 and 100 |
| Comprehension.Score | comprehension.py:84-122 | the run fails with a division by zero exactly when no token remains, and returns a report whenever one does; the report gives the token count, the distinct count, the understood occurrences, the unknown distinct tokens, and the unknown list sorted by count; understood never exceeds the token count and the percentage is their ratio, within 0 to 100 |
| Comprehension.ComprehensionChecker | comprehension.py:68-122 | the run fails with `InvalidMode` exactly when the mode is neither smart nor simple; with a valid mode it fails exactly when no token is left and returns a report whenever one is, scoring the mode's tokens against the mode's vocabulary as above |
| Comprehension.OccurrencesConserved | comprehension.py:84-104 | understood occurrences plus the counts of the unknown tokens equal the number of tokens |
| Comprehension.DistinctConserved | comprehension.py:87-102 | known distinct tokens plus unknown distinct tokens equal the number of distinct tokens |
| Comprehension.UnknownWordsExact | comprehension.py:96-104 | the unknown list holds exactly the tokens that are not understood, each with its exact count |
| Comprehension.UnknownWordsOrder | comprehension.py:106 | the sorted unknown list names each token once, has non-increasing counts, and keeps tokens of equal count in first-seen order |
| Comprehension.CharactersOfEntries | comprehension.py:77-79 | each character of a token is in the character vocabulary exactly when it occurs in some known entry |
| Comprehension.UnderstoodAsDocumented | comprehension.py:33 | the test the `-c` help text describes: a token is understood when it is a known entry, or the flag is set and each of its characters occurs in some known entry, even inside a longer word |
| Comprehension.UnderstoodAsDocumentedIsCharacterTest | comprehension.py:33 | the described test is the code's test run against the characters of the known entries, and it accepts every token the code's test accepts |
| Comprehension.CharactersFlagAsWritten | comprehension.py:98 | with 慢走 and 的 known and `-c` set, the code calls 慢慢的 unknown, while the described test calls it understood |
| Comprehension.CharactersFlagExample | comprehension.py:98-100 | with `-c`, 慢慢的 counts as understood when 慢 and 的 are entries; without `-c` it does not; with `-c` and only 的 known it does not either |
| VocabAdder.TokensToAdd | vocab_adder.py:22-27 | the offered list is the mode's split (segmenter tokens in smart mode, the non-whitespace characters of the text in order in any other mode) with punctuation and tokens starting with an ASCII letter or digit removed: it keeps the split's order, never grows, and each kept token keeps its number of occurrences |
| VocabAdder.Merged | vocab_adder.py:32-41 | the rewritten list starts with the old lines unchanged, grows by at most the number of keys, and holds exactly the old lines and the keys |
| VocabAdder.WriteLines | vocab_adder.py:35-36 | every old line is written back, unchanged and in order |
| VocabAdder.MergedStep | vocab_adder.py:38-41 | because the keys are distinct, a key is already listed exactly when it is an old line, and the loop appends it exactly when it is not |
| VocabAdder.AddVocab | vocab_adder.py:18-41 | the lines written are the old lines followed by each de-duplicated kept token that is not among them, in order |
| VocabAdder.MergedShape | vocab_adder.py:32-40 | the old lines are kept unchanged as a prefix; every appended word was absent from them and is a token of the text; appended words are pairwise distinct and in first-occurrence order |
| VocabAdder.MergedCovers | vocab_adder.py:38-41 | every kept token of the text ends up in the written list |
| VocabAdder.AddedAreKept | vocab_adder.py:22-27 | an appended word is never punctuation nor starts with an ASCII letter or digit, and comes from the segmenter in smart mode and from the characters of the text in any other mode |
| VocabAdder.MergedIdempotent | vocab_adder.py:38-41 | adding the same text a second time appends nothing |

## Left out

- **Command line and constants:**
  - The argument parsing and the module-level `args` are not modelled. The mode,
    the `-c` flag and whether an output file was named are parameters.
  - The `base` parameter of `round_to_nearest_50` keeps its default of 50 in the
    model.
- **File I/O:**
  - `text_setup` and opening and reading files are not modelled. Content arrives
    as parameters. `shared.text_setup` is not part of this model.
  - The old vocabulary file is given as its lines, so `str.splitlines` is not
    modelled.
  - Writing the output files is not modelled. The model returns what would be
    written: the rankings, the sorted unknown list, and the rewritten vocabulary
    lines.
  - The `except KeyError` handlers around file access are not modelled.
- **Segmenter:** the LAC segmenter is a foreign library. Its tokens are the
  `segmented` parameter. Nothing is assumed about them: they need not
  concatenate to the cleaned text.
- **`shared.split_unicode_chrs`:** `comprehension.py` and `vocab_adder.py` call
  this function, but `core/shared.py` does not define it. The model uses the
  definition in `analyzer.py` in its place.
- **Surrogate pairs:**
  - `Analyzer.SplitUnicodeChrs` does not model the pattern's branch for
    UTF-16 surrogate pairs. A Dafny `char` is a Unicode scalar value, so a string
    never holds a lone surrogate.
  - A Python `str` read from a UTF-8 file never holds one either.
  - Every piece is therefore one character.
- **Output:**
  - Console output is not modelled: the progress line, the ANSI colours, and the
    formatting of the percentage to three decimals.
  - `Comprehension.Score` gives the percentage as an exact real ratio, not a
    binary float.
- **Rounding:** `Shared.RoundToNearest50` treats `x / 50` as exact. For the
  counts the tool rounds, the binary float has the same halfway cases.
- **Regular expressions:** the regular-expression engine itself is not modelled.
  `\s` is the fixed set of `str.isspace()` code points. `[a-zA-Z0-9]` at the
  start of a token is an explicit character test.

## Findings

| source | as written | input that shows it | evidently intended | confidence | as-written member | corrected member |
|---|---|---|---|---|---|---|
| comprehension.py:98 | with `-c`, each character of a token must be a whole entry of the known list | known list {慢走, 的}, `-c`, token 慢慢的: the code calls it unknown | the help text at comprehension.py:33 says 慢 and 的 may be part of other words, so 慢慢的 should be understood | medium, not executed | Comprehension.CharactersFlagAsWritten | Comprehension.UnderstoodAsDocumented |

The scoring members (`Comprehension.Classify`, `Comprehension.Score`,
`Comprehension.ComprehensionChecker`) keep the test as written. That way they
state what the program computes. `Comprehension.UnderstoodAsDocumented` is the
corrected test. `Comprehension.UnderstoodAsDocumentedIsCharacterTest` shows that
it equals the written test run against the characters of the known entries, and
that it never rejects a token the written test accepts.

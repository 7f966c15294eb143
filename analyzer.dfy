/** The counting part of `analyzer.py`: the character splitter and the four
    rounded figures of `text_analyzer`, with the `most_common()` rankings that
    it writes to the output file. */
module Analyzer {
  import opened Seqs
  import opened Shared
  import opened Counting

  /** What `re.split` returns for the pattern `(?s)(...|.)`, which matches every
      single character and captures it: an empty piece before each character,
      the character itself, and one empty piece at the end. */
  function ChrSplitterPieces(text: string): seq<string>
  {
    if |text| == 0 then [""] else ["", [text[0]]] + ChrSplitterPieces(text[1..])
  }

  predicate IsNonEmpty(piece: string)
  {
    piece != ""
  }

  /** `split_unicode_chrs`: the non-empty pieces of the splitter's output,
      which are the characters of the text one by one. */
  function SplitUnicodeChrs(text: string): (r: seq<string>)
    ensures r == Characters(text)
  {
    ChrSplitterPiecesAreCharacters(text);
    Filter(ChrSplitterPieces(text), IsNonEmpty)
  }

  /** Reference definition: each character of `text` as a string of its own. */
  function Characters(text: string): (r: seq<string>)
    ensures |r| == |text|
  {
    seq(|text|, i requires 0 <= i < |text| => [text[i]])
  }

  /** Dropping the empty pieces of the splitter's output leaves the characters
      of the text one by one. */
  lemma {:induction false} ChrSplitterPiecesAreCharacters(text: string)
    ensures Filter(ChrSplitterPieces(text), IsNonEmpty) == Characters(text)
    decreases |text|
  {
    if |text| == 0 {
      FilterSnoc([], "", IsNonEmpty);
    } else {
      ChrSplitterPiecesAreCharacters(text[1..]);
      var rest := ChrSplitterPieces(text[1..]);
      assert ChrSplitterPieces(text) == [""] + ([[text[0]]] + rest);
      calc {
        Filter(ChrSplitterPieces(text), IsNonEmpty);
        Filter([""] + ([[text[0]]] + rest), IsNonEmpty);
        { FilterCons("", [[text[0]]] + rest, IsNonEmpty); }
        Filter([[text[0]]] + rest, IsNonEmpty);
        { FilterCons([text[0]], rest, IsNonEmpty); }
        [[text[0]]] + Filter(rest, IsNonEmpty);
      }
      assert Characters(text) == [[text[0]]] + Characters(text[1..]);
    }
  }

  lemma {:induction false} JoinCharacters(text: string)
    ensures Join(Characters(text)) == text
    decreases |text|
  {
    if |text| > 0 {
      assert Characters(text) == [[text[0]]] + Characters(text[1..]);
      JoinCharacters(text[1..]);
      assert [text[0]] + text[1..] == text;
    }
  }

  /** Every piece of `split_unicode_chrs(text)` is one character of `text`, in
      order, no piece is empty, and joining the pieces gives `text` back. */
  lemma SplitUnicodeChrsRoundTrip(text: string)
    ensures |SplitUnicodeChrs(text)| == |text|
    ensures forall i :: 0 <= i < |text| ==> SplitUnicodeChrs(text)[i] == [text[i]]
    ensures forall i :: 0 <= i < |text| ==> SplitUnicodeChrs(text)[i] != ""
    ensures Join(SplitUnicodeChrs(text)) == text
  {
    JoinCharacters(text);
  }

  /** The four figures `text_analyzer` reports, each already rounded to the
      nearest 50, and the rankings it writes to the output file. */
  datatype Summary = Summary(
    totalWords: int,
    uniqueWords: int,
    totalCharacters: int,
    uniqueCharacters: int,
    wordRanking: seq<Entry>,
    characterRanking: seq<Entry>)

  /** `text_analyzer` on the raw text, with `segmented` standing for the
      segmenter's tokens of the cleaned text and `excludeWords` for the
      parsed exclusion file (empty when there is none). */
  function TextAnalyzer(excludeWords: set<string>, targetText: string, segmented: seq<string>): (s: Summary)
    ensures s.totalWords == RoundToNearest50(|segmented|)
    ensures s.totalCharacters == RoundToNearest50(|Filter(targetText, IsVisible)|)
    ensures s.uniqueWords == RoundToNearest50(|ElementsOf(RemoveExclusions(segmented, excludeWords))|)
    ensures s.uniqueCharacters == RoundToNearest50(|ElementsOf(RemoveExclusions(Characters(Filter(targetText, IsVisible)), excludeWords))|)
  {
    var content := TextCleanUp(targetText);
    var words := RemoveExclusions(segmented, excludeWords);
    var characters := RemoveExclusions(SplitUnicodeChrs(content), excludeWords);
    DistinctCount(words);
    DistinctCount(characters);
    Summary(
      RoundToNearest50(|segmented|),
      RoundToNearest50(|Distinct(words)|),
      RoundToNearest50(|content|),
      RoundToNearest50(|Distinct(characters)|),
      MostCommon(words),
      MostCommon(characters))
  }

  /** The unique figures never exceed the totals, and each ranking has one line
      per distinct kept token, so its length is what the unique figure rounds. */
  lemma TextAnalyzerConsistent(excludeWords: set<string>, targetText: string, segmented: seq<string>)
    ensures var s := TextAnalyzer(excludeWords, targetText, segmented);
      && 0 <= s.uniqueWords <= s.totalWords
      && 0 <= s.uniqueCharacters <= s.totalCharacters
      && s.uniqueWords == RoundToNearest50(|s.wordRanking|)
      && s.uniqueCharacters == RoundToNearest50(|s.characterRanking|)
  {
    var content := TextCleanUp(targetText);
    var words := RemoveExclusions(segmented, excludeWords);
    var characters := RemoveExclusions(SplitUnicodeChrs(content), excludeWords);
    MostCommonSpec(words);
    MostCommonSpec(characters);
    DistinctCount(words);
    DistinctCount(characters);
    RoundMonotonic(|ElementsOf(words)|, |segmented|);
    RoundMonotonic(|ElementsOf(characters)|, |content|);
  }

  /** The word ranking lists every kept token once with its number of
      occurrences, counts never increase down the list, and equal counts keep
      the order in which the tokens first appear. */
  lemma TextAnalyzerWordRanking(excludeWords: set<string>, targetText: string, segmented: seq<string>, w: string, n: nat)
    ensures var ranking := TextAnalyzer(excludeWords, targetText, segmented).wordRanking;
      && ((w, n) in ranking <==> w in segmented && !IsExcluded(w, excludeWords) && n == Occurrences(segmented, w))
      && NonIncreasing(ranking)
      && IncreasingBy(WithCount(ranking, n), FirstSeenEntry(RemoveExclusions(segmented, excludeWords)))
  {
    MostCommonSpec(RemoveExclusions(segmented, excludeWords));
  }

  /** The same for the character ranking, over the characters of the text that
      are not whitespace. */
  lemma TextAnalyzerCharacterRanking(excludeWords: set<string>, targetText: string, segmented: seq<string>, w: string, n: nat)
    ensures var ranking := TextAnalyzer(excludeWords, targetText, segmented).characterRanking;
      var characters := Characters(Filter(targetText, IsVisible));
      && ((w, n) in ranking <==> w in characters && !IsExcluded(w, excludeWords) && n == Occurrences(characters, w))
      && NonIncreasing(ranking)
      && IncreasingBy(WithCount(ranking, n), FirstSeenEntry(RemoveExclusions(characters, excludeWords)))
  {
    MostCommonSpec(RemoveExclusions(Characters(Filter(targetText, IsVisible)), excludeWords));
  }
}

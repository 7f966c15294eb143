/** The scoring body of `comprehension_checker` in `comprehension.py`: pick the
    tokens and the vocabulary for the mode, drop exclusions, count the tokens,
    classify each distinct token as understood or not, and collect the unknown
    ones sorted by count. */
module Comprehension {
  import opened Seqs
  import opened Shared
  import opened Counting
  import opened Analyzer

  datatype Failure =
    | InvalidMode   // the `KeyError` raised for a mode other than "smart" or "simple"
    | ZeroDivision  // the `ZeroDivisionError` of the percentage when no token remains

  datatype Result<T> = Ok(value: T) | Err(error: Failure)

  /** What a run computes. The returned text shows `wordCount`, `uniqueCount`,
      `percent` and `unknownCount`; `understood` is the numerator of `percent`;
      `unknownWords` holds the `(token, count)` lines written to the
      unknown-words file. */
  datatype Report = Report(
    wordCount: nat,
    uniqueCount: nat,
    understood: nat,
    unknownCount: nat,
    unknownWords: seq<Entry>,
    percent: real)

  predicate IsValidMode(mode: string)
  {
    mode == "smart" || mode == "simple"
  }

  /** `set("".join(known_words))`: every character of every known entry, as a
      one-character string. */
  function CharacterVocabulary(knownWords: set<string>): (v: set<string>)
    ensures forall x :: x in v ==> |x| == 1
    ensures forall c :: [c] in v <==> exists w :: w in knownWords && c in w
  {
    var v := set w, c | w in knownWords && c in w :: [c];
    assert forall w, c :: w in knownWords && c in w ==> [c] in v;
    v
  }

  /** The vocabulary the tokens are checked against: the characters of the known
      entries in simple mode, the entries themselves otherwise. */
  function Vocabulary(knownWords: set<string>, mode: string): (v: set<string>)
    ensures mode == "simple" ==> forall x :: x in v ==> |x| == 1
    ensures mode == "simple" ==> forall c :: [c] in v <==> exists w :: w in knownWords && c in w
    ensures mode != "simple" ==> v == knownWords
  {
    if mode == "simple" then CharacterVocabulary(knownWords) else knownWords
  }

  /** The token list that is counted: the segmenter's tokens in smart mode, the
      characters of the cleaned text otherwise, without exclusions. */
  function ScoredTokens(excludeWords: set<string>, targetText: string, segmented: seq<string>, mode: string): (r: seq<string>)
    ensures |r| <= if mode == "smart" then |segmented| else |Filter(targetText, IsVisible)|
    ensures forall t :: t in r <==>
      && t in (if mode == "smart" then segmented else Characters(Filter(targetText, IsVisible)))
      && !IsExcluded(t, excludeWords)
    ensures var split := if mode == "smart" then segmented else Characters(Filter(targetText, IsVisible));
      && r == RemoveExclusions(split, excludeWords)
      && forall t :: multiset(r)[t] == if IsExcluded(t, excludeWords) then 0 else multiset(split)[t]
  {
    RemoveExclusions(if mode == "smart" then segmented else SplitUnicodeChrs(TextCleanUp(targetText)), excludeWords)
  }

  /** A token is understood when it is in the vocabulary or, with the characters
      flag, when each of its characters is on its own an entry of the vocabulary. */
  predicate Understood(token: string, vocabulary: set<string>, characters: bool)
    ensures Understood(token, vocabulary, characters) <==>
      token in vocabulary || (ElementsOf(Characters(token)) <= vocabulary && characters)
  {
    CharacterSetCovered(token, vocabulary);
    token in vocabulary || (characters && forall i :: 0 <= i < |token| ==> [token[i]] in vocabulary)
  }

  function IsKnown(vocabulary: set<string>, characters: bool): Entry -> bool
  {
    (e: Entry) => Understood(e.0, vocabulary, characters)
  }

  function IsUnknown(vocabulary: set<string>, characters: bool): Entry -> bool
  {
    (e: Entry) => !Understood(e.0, vocabulary, characters)
  }

  /** One step of the insertion sort: moves `a[i]` left past the entries of
      smaller count, into the sorted prefix `a[..i]`. */
  method InsertByCountAt(a: array<Entry>, i: nat)
    requires i < a.Length
    modifies a
    ensures a[..i + 1] == InsertByCount(old(a[..i]), old(a[i]))
    ensures a[i + 1..] == old(a[i + 1..])
  {
    var x := a[i];
    ghost var s, rest := a[..i], a[i + 1..];
    assert s[..i] == s && s[i..] == [];
    assert a[..] == s[..i] + [a[i]] + s[i..] + rest;
    var j := i;
    while j > 0 && a[j - 1].1 < x.1
      invariant 0 <= j <= i
      invariant a[..] == s[..j] + [a[j]] + s[j..] + rest
      invariant InsertByCount(s, x) == InsertByCount(s[..j], x) + s[j..]
    {
      InsertByCountPasses(s, j, x);
      ShiftRight(s, j, a[j], rest);
      a[j] := a[j - 1];
      j := j - 1;
    }
    InsertByCountStops(s, j, x);
    a[j] := x;
    Placed(s, j, x, rest);
  }

  /** Copying the entry left of the gap into it moves the gap one place left. */
  lemma ShiftRight(s: seq<Entry>, j: nat, y: Entry, rest: seq<Entry>)
    requires 0 < j <= |s|
    ensures (s[..j] + [y] + s[j..] + rest)[j := (s[..j] + [y] + s[j..] + rest)[j - 1]]
         == s[..j - 1] + [s[j - 1]] + s[j - 1..] + rest
  {
    assert s[..j] == s[..j - 1] + [s[j - 1]];
    assert s[j - 1..] == [s[j - 1]] + s[j..];
  }

  lemma Placed(s: seq<Entry>, j: nat, x: Entry, rest: seq<Entry>)
    requires j <= |s|
    ensures var t := s[..j] + [x] + s[j..] + rest;
      t[..|s| + 1] == s[..j] + [x] + s[j..] && t[|s| + 1..] == rest
  {
  }

  lemma InsertByCountPasses(s: seq<Entry>, j: nat, x: Entry)
    requires 0 < j <= |s| && s[j - 1].1 < x.1
    ensures InsertByCount(s[..j], x) + s[j..] == InsertByCount(s[..j - 1], x) + s[j - 1..]
  {
    assert s[..j][..j - 1] == s[..j - 1];
    assert s[j - 1..] == [s[j - 1]] + s[j..];
  }

  lemma InsertByCountStops(s: seq<Entry>, j: nat, x: Entry)
    requires j <= |s| && (j == 0 || s[j - 1].1 >= x.1)
    ensures InsertByCount(s[..j], x) + s[j..] == s[..j] + [x] + s[j..]
  {
  }

  /** `unknown_words.sort(key=sort_by_count, reverse=True)`: an in-place stable
      sort by count, descending. */
  method SortByCount(a: array<Entry>)
    modifies a
    ensures a[..] == SortedByCount(old(a[..]))
  {
    ghost var input := a[..];
    for i := 0 to a.Length
      invariant a[..i] == SortedByCount(input[..i])
      invariant a[i..] == input[i..]
    {
      ghost var before := a[..];
      InsertByCountAt(a, i);
      SortStep(input, before, a[..], i);
    }
    assert input[..a.Length] == input;
  }

  /** One pass of the outer loop of the sort, on the array's contents before
      and after inserting the entry at `i`. */
  lemma SortStep(input: seq<Entry>, before: seq<Entry>, after: seq<Entry>, i: nat)
    requires i < |input| == |before| == |after|
    requires before[..i] == SortedByCount(input[..i]) && before[i..] == input[i..]
    requires after[..i + 1] == InsertByCount(before[..i], before[i]) && after[i + 1..] == before[i + 1..]
    ensures after[..i + 1] == SortedByCount(input[..i + 1]) && after[i + 1..] == input[i + 1..]
  {
    assert before[i] == before[i..][0] == input[i];
    assert input[..i + 1][..i] == input[..i];
    assert before[i + 1..] == before[i..][1..];
  }

  /** `set([char for char in hanzi]).issubset(vocabulary)` holds exactly when
      each character of `hanzi` is on its own an entry of the vocabulary. */
  lemma CharacterSetCovered(token: string, vocabulary: set<string>)
    ensures ElementsOf(Characters(token)) <= vocabulary <==> forall i :: 0 <= i < |token| ==> [token[i]] in vocabulary
  {
    var cs := Characters(token);
    if !(ElementsOf(cs) <= vocabulary) {
      var x :| x in ElementsOf(cs) && x !in vocabulary;
      var i :| 0 <= i < |cs| && cs[i] == x;
    } else {
      forall i | 0 <= i < |token| ensures [token[i]] in vocabulary {
        assert cs[i] in ElementsOf(cs);
      }
    }
  }

  lemma ClassifyStep(counted: seq<Entry>, k: nat, vocabulary: set<string>, characters: bool)
    requires k < |counted|
    ensures var e := counted[k];
      var known, unknown := Filter(counted[..k], IsKnown(vocabulary, characters)), Filter(counted[..k], IsUnknown(vocabulary, characters));
      if Understood(e.0, vocabulary, characters) then
        && SumCounts(Filter(counted[..k + 1], IsKnown(vocabulary, characters))) == SumCounts(known) + e.1
        && Filter(counted[..k + 1], IsUnknown(vocabulary, characters)) == unknown
      else
        && SumCounts(Filter(counted[..k + 1], IsKnown(vocabulary, characters))) == SumCounts(known)
        && Filter(counted[..k + 1], IsUnknown(vocabulary, characters)) == unknown + [e]
  {
    assert counted[..k + 1] == counted[..k] + [counted[k]];
    FilterSnoc(counted[..k], counted[k], IsKnown(vocabulary, characters));
    FilterSnoc(counted[..k], counted[k], IsUnknown(vocabulary, characters));
    SumCountsSnoc(Filter(counted[..k], IsKnown(vocabulary, characters)), counted[k]);
    if !Understood(counted[k].0, vocabulary, characters) {
      assert Filter(counted[..k + 1], IsKnown(vocabulary, characters)) == Filter(counted[..k], IsKnown(vocabulary, characters));
    }
  }

  /** The loop over `counted_target.items()`: adds up the understood occurrences,
      counts the unknown tokens and, when an unknown-words file was given,
      collects them with their counts. */
  method Classify(counted: seq<Entry>, vocabulary: set<string>, characters: bool, writeUnknown: bool)
    returns (understood: nat, unknownWordCounter: nat, unknownWords: seq<Entry>)
    ensures understood == SumCounts(Filter(counted, IsKnown(vocabulary, characters)))
    ensures unknownWordCounter == |Filter(counted, IsUnknown(vocabulary, characters))|
    ensures unknownWords == if writeUnknown then Filter(counted, IsUnknown(vocabulary, characters)) else []
  {
    understood := 0;
    unknownWords := [];
    unknownWordCounter := 0;
    for k := 0 to |counted|
      invariant understood == SumCounts(Filter(counted[..k], IsKnown(vocabulary, characters)))
      invariant unknownWordCounter == |Filter(counted[..k], IsUnknown(vocabulary, characters))|
      invariant unknownWords == if writeUnknown then Filter(counted[..k], IsUnknown(vocabulary, characters)) else []
    {
      var (hanzi, count) := counted[k];
      ClassifyStep(counted, k, vocabulary, characters);
      if hanzi in vocabulary {
        understood := understood + count;
      } else if (forall i :: 0 <= i < |hanzi| ==> [hanzi[i]] in vocabulary) && characters {
        understood := understood + count;
      } else {
        unknownWordCounter := unknownWordCounter + 1;
        if writeUnknown {
          unknownWords := unknownWords + [(hanzi, count)];
        }
      }
    }
    assert counted[..|counted|] == counted;
  }

  lemma PercentBounds(understood: nat, total: nat)
    requires 0 < total && understood <= total
    ensures 0.0 <= (understood as real) / (total as real) * 100.0 <= 100.0
  {
  }

  /** What the report says about the counted tokens: the number of tokens and of
      distinct tokens, the occurrences understood, the unknown distinct tokens,
      the unknown-words lines (sorted by count, only when a file was given) and
      the percentage understood. */
  ghost predicate Scores(r: Report, tokens: seq<string>, vocabulary: set<string>, characters: bool, writeUnknown: bool)
  {
    var unknown := Filter(Items(tokens), IsUnknown(vocabulary, characters));
    && r.wordCount == |tokens| > 0
    && r.uniqueCount == |ElementsOf(tokens)|
    && r.understood == SumCounts(Filter(Items(tokens), IsKnown(vocabulary, characters)))
    && r.unknownCount == |unknown|
    && r.unknownWords == (if writeUnknown then SortedByCount(unknown) else [])
    && r.understood <= r.wordCount
    && r.percent == (r.understood as real) / (r.wordCount as real) * 100.0
    && 0.0 <= r.percent <= 100.0
  }

  /** `comprehension_checker` from the `Counter` onwards, on the filtered tokens
      and the vocabulary of the mode. */
  method Score(tokens: seq<string>, vocabulary: set<string>, characters: bool, writeUnknown: bool)
    returns (result: Result<Report>)
    ensures result == Err(ZeroDivision) <==> |tokens| == 0
    ensures |tokens| > 0 ==> result.Ok?
    ensures result.Ok? ==> Scores(result.value, tokens, vocabulary, characters, writeUnknown)
  {
    var counted := Items(tokens);
    var targetLength := |tokens|;
    DistinctCount(tokens);
    var totalUniqueWords := |counted|;

    var understood, unknownWordCounter, unknownWords := Classify(counted, vocabulary, characters, writeUnknown);

    var sorted := new Entry[|unknownWords|](i requires 0 <= i < |unknownWords| => unknownWords[i]);
    assert sorted[..] == unknownWords;
    SortByCount(sorted);
    unknownWords := sorted[..];

    if targetLength == 0 {
      return Err(ZeroDivision);
    }
    OccurrencesConserved(tokens, vocabulary, characters);
    var percent := (understood as real) / (targetLength as real) * 100.0;
    PercentBounds(understood, targetLength);
    result := Ok(Report(targetLength, totalUniqueWords, understood, unknownWordCounter, unknownWords, percent));
  }

  /** `comprehension_checker` from the cleaned text onwards. `segmented` stands
      for the segmenter's tokens of the cleaned text, `characters` for the `-c`
      flag and `writeUnknown` for whether an unknown-words file was given. */
  method ComprehensionChecker(
    knownWords: set<string>, excludeWords: set<string>, targetText: string, segmented: seq<string>,
    mode: string, characters: bool, writeUnknown: bool)
    returns (result: Result<Report>)
    ensures result == Err(InvalidMode) <==> !IsValidMode(mode)
    ensures IsValidMode(mode) ==>
      (result == Err(ZeroDivision) <==> |ScoredTokens(excludeWords, targetText, segmented, mode)| == 0)
    ensures IsValidMode(mode) && |ScoredTokens(excludeWords, targetText, segmented, mode)| > 0 ==> result.Ok?
    ensures result.Ok? ==>
      && IsValidMode(mode)
      && Scores(result.value, ScoredTokens(excludeWords, targetText, segmented, mode),
                Vocabulary(knownWords, mode), characters, writeUnknown)
  {
    var content := TextCleanUp(targetText);
    var tokens: seq<string>;
    var vocabulary := knownWords;
    if mode == "smart" {
      tokens := segmented;
    } else if mode == "simple" {
      tokens := SplitUnicodeChrs(content);
      vocabulary := CharacterVocabulary(knownWords);
    } else {
      return Err(InvalidMode);
    }
    tokens := RemoveExclusions(tokens, excludeWords);
    result := Score(tokens, vocabulary, characters, writeUnknown);
  }

  lemma {:induction false} SplitByUnderstood(s: seq<Entry>, vocabulary: set<string>, characters: bool)
    ensures SumCounts(Filter(s, IsKnown(vocabulary, characters))) + SumCounts(Filter(s, IsUnknown(vocabulary, characters))) == SumCounts(s)
    ensures |Filter(s, IsKnown(vocabulary, characters))| + |Filter(s, IsUnknown(vocabulary, characters))| == |s|
    decreases |s|
  {
    if |s| > 0 {
      var init, last := s[..|s| - 1], s[|s| - 1];
      assert s == init + [last];
      SplitByUnderstood(init, vocabulary, characters);
      FilterSnoc(init, last, IsKnown(vocabulary, characters));
      FilterSnoc(init, last, IsUnknown(vocabulary, characters));
      SumCountsSnoc(init, last);
      SumCountsSnoc(Filter(init, IsKnown(vocabulary, characters)), last);
      SumCountsSnoc(Filter(init, IsUnknown(vocabulary, characters)), last);
      if Understood(last.0, vocabulary, characters) {
        assert Filter(s, IsKnown(vocabulary, characters)) == Filter(init, IsKnown(vocabulary, characters)) + [last];
        assert Filter(s, IsUnknown(vocabulary, characters)) == Filter(init, IsUnknown(vocabulary, characters));
      } else {
        assert Filter(s, IsKnown(vocabulary, characters)) == Filter(init, IsKnown(vocabulary, characters));
        assert Filter(s, IsUnknown(vocabulary, characters)) == Filter(init, IsUnknown(vocabulary, characters)) + [last];
      }
    }
  }

  /** Every occurrence is either understood or counted under an unknown token:
      the understood occurrences and the counts of the unknown tokens add up to
      the number of tokens, so understood never exceeds it. */
  lemma OccurrencesConserved(tokens: seq<string>, vocabulary: set<string>, characters: bool)
    ensures SumCounts(Filter(Items(tokens), IsKnown(vocabulary, characters)))
          + SumCounts(Filter(Items(tokens), IsUnknown(vocabulary, characters))) == |tokens|
  {
    SplitByUnderstood(Items(tokens), vocabulary, characters);
    CounterTotal(tokens);
  }

  /** Every distinct token is either known or unknown: the two numbers add up to
      the number of distinct tokens. */
  lemma DistinctConserved(tokens: seq<string>, vocabulary: set<string>, characters: bool)
    ensures |Filter(Items(tokens), IsKnown(vocabulary, characters))|
          + |Filter(Items(tokens), IsUnknown(vocabulary, characters))| == |ElementsOf(tokens)|
  {
    SplitByUnderstood(Items(tokens), vocabulary, characters);
    DistinctCount(tokens);
  }

  /** The unknown list holds exactly the tokens that are not understood, each
      with its exact number of occurrences. */
  lemma UnknownWordsExact(tokens: seq<string>, vocabulary: set<string>, characters: bool, e: Entry)
    ensures e in SortedByCount(Filter(Items(tokens), IsUnknown(vocabulary, characters)))
        <==> e.0 in tokens && e.1 == Occurrences(tokens, e.0) && !Understood(e.0, vocabulary, characters)
  {
    var u := Filter(Items(tokens), IsUnknown(vocabulary, characters));
    ItemsExact(tokens, e);
    FilterMember(Items(tokens), IsUnknown(vocabulary, characters), e);
    assert e in SortedByCount(u) <==> e in multiset(SortedByCount(u));
    assert e in u <==> e in multiset(u);
  }

  /** Sorted, the unknown list names each token once, its counts never increase,
      and tokens of equal count stay in the order in which they first appear. */
  lemma UnknownWordsOrder(tokens: seq<string>, vocabulary: set<string>, characters: bool, c: nat)
    ensures var unknown := SortedByCount(Filter(Items(tokens), IsUnknown(vocabulary, characters)));
      && DistinctKeys(unknown)
      && NonIncreasing(unknown)
      && IncreasingBy(WithCount(unknown, c), FirstSeenEntry(tokens))
  {
    var items := Items(tokens);
    var u := Filter(items, IsUnknown(vocabulary, characters));
    ItemsInFirstSeenOrder(tokens);
    FilterKeepsOrder(items, IsUnknown(vocabulary, characters), FirstSeenEntry(tokens));
    assert DistinctKeys(u) by {
      forall i, j | 0 <= i < j < |u| ensures u[i].0 != u[j].0 {
        assert FirstSeenEntry(tokens)(u[i]) < FirstSeenEntry(tokens)(u[j]);
      }
    }
    SortedByCountKeys(u);
    SortedByCountStable(u, c);
    FilterKeepsOrder(u, HasCount(c), FirstSeenEntry(tokens));
  }

  /** The character occurs in some known entry. */
  predicate InSomeEntry(c: char, knownWords: set<string>)
  {
    exists w :: w in knownWords && c in w
  }

  /** The `-c` test as the flag's help text describes it: each character of the
      token occurs somewhere in a known entry, possibly inside a longer word. */
  predicate UnderstoodAsDocumented(token: string, knownWords: set<string>, characters: bool)
    ensures UnderstoodAsDocumented(token, knownWords, characters) <==>
      token in knownWords
      || (characters && forall i :: 0 <= i < |token| ==> InSomeEntry(token[i], knownWords))
  {
    CharactersOfEntries(token, knownWords);
    token in knownWords || (characters && forall i :: 0 <= i < |token| ==> [token[i]] in CharacterVocabulary(knownWords))
  }

  lemma CharactersOfEntries(token: string, knownWords: set<string>)
    ensures (forall i :: 0 <= i < |token| ==> [token[i]] in CharacterVocabulary(knownWords))
        <==> (forall i :: 0 <= i < |token| ==> InSomeEntry(token[i], knownWords))
  {
    var v := CharacterVocabulary(knownWords);
    if forall i :: 0 <= i < |token| ==> [token[i]] in v {
      forall i | 0 <= i < |token| ensures InSomeEntry(token[i], knownWords) {
        assert [token[i]] in v;
      }
    }
    if forall i :: 0 <= i < |token| ==> InSomeEntry(token[i], knownWords) {
      forall i | 0 <= i < |token| ensures [token[i]] in v {
        var w :| w in knownWords && token[i] in w;
      }
    }
  }

  /** The documented test is the code's test run against the characters of the
      known entries, and it never rejects a token the code's test accepts. */
  lemma UnderstoodAsDocumentedIsCharacterTest(token: string, knownWords: set<string>, characters: bool)
    ensures UnderstoodAsDocumented(token, knownWords, characters) <==>
      token in knownWords || (characters && Understood(token, CharacterVocabulary(knownWords), true))
    ensures Understood(token, knownWords, characters) ==> UnderstoodAsDocumented(token, knownWords, characters)
  {
    if token in CharacterVocabulary(knownWords) {
      assert |token| == 1 && token == [token[0]];
    }
    if characters && Understood(token, knownWords, characters) && token !in knownWords {
      forall i | 0 <= i < |token| ensures [token[i]] in CharacterVocabulary(knownWords) {
        assert [token[i]] in knownWords && token[i] in [token[i]];
      }
    }
  }

  /** The help text's example: with 慢 known only inside 慢走, the code's `-c`
      test calls 慢慢的 unknown, while the documented test calls it understood. */
  lemma CharactersFlagAsWritten()
    ensures !Understood("慢慢的", {"慢走", "的"}, true)
    ensures UnderstoodAsDocumented("慢慢的", {"慢走", "的"}, true)
  {
    assert ["慢慢的"[0]] !in {"慢走", "的"};
    var t := "慢慢的";
    forall i | 0 <= i < |t| ensures InSomeEntry(t[i], {"慢走", "的"}) {
      if i < 2 {
        assert t[i] in "慢走";
      } else {
        assert t[i] in "的";
      }
    }
  }

  /** With the characters flag, a token such as 慢慢的 that is not itself an entry
      counts as understood once 慢 and 的 are entries; without it, it does not. */
  lemma CharactersFlagExample()
    ensures Understood("慢慢的", {"慢", "的"}, true)
    ensures !Understood("慢慢的", {"慢", "的"}, false)
    ensures !Understood("慢慢的", {"的"}, true)
  {
    assert ["慢慢的"[0]] !in {"的"};
  }
}

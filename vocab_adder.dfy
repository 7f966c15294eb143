/** The merge logic of `add_vocab` in `vocab_adder.py`: the lines of the known
    vocabulary file are written back unchanged, then every distinct kept token
    of the text that is not yet listed is appended, in order of first
    appearance. */
module VocabAdder {
  import opened Seqs
  import opened Shared
  import opened Counting
  import opened Analyzer

  /** The tokens offered for the vocabulary: the segmenter's tokens in smart mode,
      the characters of the cleaned text in any other mode, without punctuation
      and without tokens that start with an ASCII letter or digit. */
  function TokensToAdd(targetText: string, segmented: seq<string>, mode: string): (r: seq<string>)
    ensures |r| <= if mode == "smart" then |segmented| else |Filter(targetText, IsVisible)|
    ensures forall t :: t in r <==>
      && t in (if mode == "smart" then segmented else Characters(Filter(targetText, IsVisible)))
      && !IsExcluded(t, {})
    ensures var split := if mode == "smart" then segmented else Characters(Filter(targetText, IsVisible));
      && r == RemoveExclusions(split, {})
      && forall t :: multiset(r)[t] == if IsExcluded(t, {}) then 0 else multiset(split)[t]
  {
    RemoveExclusions(if mode == "smart" then segmented else SplitUnicodeChrs(TextCleanUp(targetText)), {})
  }

  /** The rewritten vocabulary list: the old lines, then each of `keys` that is
      not among them. */
  function Merged(oldLines: seq<string>, keys: seq<string>): (r: seq<string>)
    ensures |oldLines| <= |r| <= |oldLines| + |keys|
    ensures r[..|oldLines|] == oldLines
    ensures forall t :: t in r <==> t in oldLines || t in keys
  {
    WithoutMembers(keys, ElementsOf(oldLines));
    oldLines + Without(keys, ElementsOf(oldLines))
  }

  /** One pass of the append loop: since the keys are distinct, the key at `k`
      is already listed exactly when it is one of the old lines. */
  lemma MergedStep(oldLines: seq<string>, keys: seq<string>, k: nat)
    requires NoDuplicates(keys) && k < |keys|
    ensures keys[k] in Merged(oldLines, keys[..k]) <==> keys[k] in oldLines
    ensures Merged(oldLines, keys[..k + 1])
         == Merged(oldLines, keys[..k]) + (if keys[k] in oldLines then [] else [keys[k]])
  {
    var word := keys[k];
    assert keys[..k + 1] == keys[..k] + [word];
    FilterSnoc(keys[..k], word, NotIn(ElementsOf(oldLines)));
    FilterMember(keys[..k], NotIn(ElementsOf(oldLines)), word);
    assert word !in keys[..k];
  }

  /** The first loop of the rewrite: every known line is written back, in order. */
  method WriteLines(lines: seq<string>) returns (written: seq<string>)
    ensures written == lines
  {
    written := [];
    for k := 0 to |lines|
      invariant written == lines[..k]
    {
      written := written + [lines[k]];
    }
    assert lines[..|lines|] == lines;
  }

  /** `add_vocab` after the file has been read: `oldLines` stands for the lines
      of the known vocabulary file and `segmented` for the segmenter's tokens of
      the cleaned text. Returns the lines written back to the file. */
  method AddVocab(targetText: string, segmented: seq<string>, oldLines: seq<string>, mode: string)
    returns (written: seq<string>)
    ensures written == Merged(oldLines, Distinct(TokensToAdd(targetText, segmented, mode)))
  {
    var content := TextCleanUp(targetText);
    var tokens: seq<string>;
    if mode == "smart" {
      tokens := segmented;
    } else {
      tokens := SplitUnicodeChrs(content);
    }
    tokens := RemoveExclusions(tokens, {});
    assert tokens == TokensToAdd(targetText, segmented, mode);

    var knownWordsList := oldLines;
    written := WriteLines(knownWordsList);

    var keys := Distinct(tokens);
    for k := 0 to |keys|
      invariant knownWordsList == Merged(oldLines, keys[..k])
      invariant written == knownWordsList
    {
      var word := keys[k];
      MergedStep(oldLines, keys, k);
      if word !in knownWordsList {
        knownWordsList := knownWordsList + [word];
        written := written + [word];
      }
    }
    assert keys[..|keys|] == keys;
  }

  /** The rewritten list keeps the old lines as its prefix; each appended word
      was absent from them, appears once, and the appended words follow the
      order in which the tokens first appear. */
  lemma {:induction false} MergedShape(oldLines: seq<string>, tokens: seq<string>)
    ensures var m := Merged(oldLines, Distinct(tokens));
      && m[..|oldLines|] == oldLines
      && (forall i :: |oldLines| <= i < |m| ==> m[i] !in oldLines && m[i] in tokens)
      && NoDuplicates(m[|oldLines|..])
      && IncreasingBy(m[|oldLines|..], FirstSeen(tokens))
  {
    var keys := Distinct(tokens);
    var p := NotIn(ElementsOf(oldLines));
    var m := Merged(oldLines, keys);
    var added := Filter(keys, p);
    assert m[|oldLines|..] == added;
    forall i | |oldLines| <= i < |m| ensures m[i] !in oldLines && m[i] in tokens {
      assert m[i] == added[i - |oldLines|];
      FilterMember(keys, p, m[i]);
    }
    DistinctInFirstSeenOrder(tokens);
    FilterKeepsOrder(keys, p, FirstSeen(tokens));
    forall i, j | 0 <= i < j < |added| ensures added[i] != added[j] {
      assert FirstSeen(tokens)(added[i]) < FirstSeen(tokens)(added[j]);
    }
  }

  /** Every token offered ends up in the list, old lines included. */
  lemma MergedCovers(oldLines: seq<string>, tokens: seq<string>, t: string)
    requires t in tokens
    ensures t in Merged(oldLines, Distinct(tokens))
  {
    var keys := Distinct(tokens);
    if t !in oldLines {
      FilterMember(keys, NotIn(ElementsOf(oldLines)), t);
    }
  }

  /** Nothing excluded is ever appended: each appended word is a token of the
      mode's split of the text that is neither punctuation nor starts with an
      ASCII letter or digit. */
  lemma AddedAreKept(targetText: string, segmented: seq<string>, oldLines: seq<string>, mode: string)
    ensures var m := Merged(oldLines, Distinct(TokensToAdd(targetText, segmented, mode)));
      forall i :: |oldLines| <= i < |m| ==>
        && !IsExcluded(m[i], {})
        && m[i] in (if mode == "smart" then segmented else Characters(Filter(targetText, IsVisible)))
  {
    MergedShape(oldLines, TokensToAdd(targetText, segmented, mode));
  }

  /** Adding the same text a second time appends nothing. */
  lemma MergedIdempotent(oldLines: seq<string>, tokens: seq<string>)
    ensures Merged(Merged(oldLines, Distinct(tokens)), Distinct(tokens)) == Merged(oldLines, Distinct(tokens))
  {
    var keys := Distinct(tokens);
    var m := Merged(oldLines, keys);
    var again := Without(keys, ElementsOf(m));
    if again != [] {
      var x := again[0];
      FilterMember(keys, NotIn(ElementsOf(m)), x);
      MergedCovers(oldLines, tokens, x);
    }
  }
}

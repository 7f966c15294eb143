/** The token-list utilities of core/shared.py: word-list parsing, whitespace
    stripping, punctuation and exclusion filtering, and rounding to the nearest
    multiple of 50. File reading is left to the caller: every operation here
    takes the text it would have read. */
module Shared {
  import opened Seqs

  // ---------------------------------------------------------------------------
  // Whitespace, word lists and text clean-up
  // ---------------------------------------------------------------------------

  /** Python's `\s` on a `str`: the code points for which `str.isspace()` holds. */
  predicate IsWhitespace(c: char)
  {
    || ('\t' <= c <= '\r')
    || ('\U{1C}' <= c <= ' ')
    || c == '\U{85}' || c == '\U{A0}' || c == '\U{1680}'
    || ('\U{2000}' <= c <= '\U{200A}')
    || c == '\U{2028}' || c == '\U{2029}' || c == '\U{202F}' || c == '\U{205F}' || c == '\U{3000}'
  }

  predicate IsVisible(c: char)
  {
    !IsWhitespace(c)
  }

  predicate IsNotNewline(c: char)
  {
    c != '\n'
  }

  /** The text after its leading run of whitespace. */
  function SkipWhitespace(s: string): (r: string)
    ensures |r| <= |s|
    ensures r == [] || !IsWhitespace(r[0])
  {
    if s != [] && IsWhitespace(s[0]) then SkipWhitespace(s[1..]) else s
  }

  /** `re.sub("\s+", "\n", s)`: every maximal run of whitespace becomes one newline. */
  function SubWhitespaceRuns(s: string): (r: string)
    ensures |r| <= |s|
    ensures s != [] ==> r != [] && r[0] == (if IsWhitespace(s[0]) then '\n' else s[0])
    ensures forall i :: 0 <= i < |r| && IsWhitespace(r[i]) ==> r[i] == '\n'
    ensures forall i :: 0 < i < |r| && r[i] == '\n' ==> r[i - 1] != '\n'
    decreases |s|
  {
    if s == [] then []
    else if IsWhitespace(s[0]) then "\n" + SubWhitespaceRuns(SkipWhitespace(s[1..]))
    else [s[0]] + SubWhitespaceRuns(s[1..])
  }

  /** `s.split(sep)`: the pieces between the occurrences of `sep`. */
  function SplitOn(s: string, sep: char): (r: seq<string>)
    ensures |r| >= 1
    ensures forall i :: 0 <= i < |r| ==> sep !in r[i]
  {
    if s == [] then [""]
    else
      var rest := SplitOn(s[1..], sep);
      if s[0] == sep then [""] + rest else [[s[0]] + rest[0]] + rest[1..]
  }

  /** `re.sub("\s+", "\n", s).split("\n")`, shared by the two readers below. */
  function Fields(s: string): seq<string>
  {
    SplitOn(SubWhitespaceRuns(s), '\n')
  }

  /** Length of the leading run of non-whitespace characters. */
  function RunLength(s: string): (k: nat)
    ensures k <= |s|
    ensures forall i :: 0 <= i < k ==> !IsWhitespace(s[i])
    ensures k == |s| || IsWhitespace(s[k])
  {
    if s == [] || IsWhitespace(s[0]) then 0 else 1 + RunLength(s[1..])
  }

  /** `s[i..j]` is a maximal run of non-whitespace characters of `s`. */
  ghost predicate IsMaximalRun(s: string, i: int, j: int)
  {
    && 0 <= i < j <= |s|
    && (forall k :: i <= k < j ==> !IsWhitespace(s[k]))
    && (i == 0 || IsWhitespace(s[i - 1]))
    && (j == |s| || IsWhitespace(s[j]))
  }

  /** `w` is one of the whitespace-separated words of `s`. */
  ghost predicate IsWordOf(s: string, w: string)
  {
    exists i, j :: IsMaximalRun(s, i, j) && w == s[i..j]
  }

  /** The maximal non-whitespace runs of `s`, left to right (a reference reading of `s`). */
  function Words(s: string): seq<string>
    decreases |s|
  {
    if s == [] then []
    else if IsWhitespace(s[0]) then Words(s[1..])
    else [s[..RunLength(s)]] + Words(s[RunLength(s)..])
  }

  lemma {:induction false} SplitOnWithoutSep(u: string, sep: char)
    requires sep !in u
    ensures SplitOn(u, sep) == [u]
  {
    if u != [] {
      SplitOnWithoutSep(u[1..], sep);
      assert [u[0]] + u[1..] == u;
    }
  }

  lemma {:induction false} SplitOnAfterPiece(u: string, v: string, sep: char)
    requires sep !in u
    ensures SplitOn(u + [sep] + v, sep) == [u] + SplitOn(v, sep)
  {
    if u == [] {
      assert u + [sep] + v == [sep] + v;
      assert ([sep] + v)[1..] == v;
    } else {
      SplitOnAfterPiece(u[1..], v, sep);
      assert (u + [sep] + v)[1..] == u[1..] + [sep] + v;
      assert [u[0]] + u[1..] == u;
    }
  }

  lemma SubWhitespaceRunsCons(s: string)
    requires s != [] && !IsWhitespace(s[0])
    ensures SubWhitespaceRuns(s) == [s[0]] + SubWhitespaceRuns(s[1..])
    ensures RunLength(s) == RunLength(s[1..]) + 1
  {
  }

  lemma SliceAfterHead(s: string, k: nat)
    requires k < |s|
    ensures [s[0]] + s[1..][..k] == s[..k + 1] && s[1..][k..] == s[k + 1..]
  {
  }

  lemma {:induction false} SubWhitespaceRunsOfRun(s: string)
    ensures SubWhitespaceRuns(s) == s[..RunLength(s)] + SubWhitespaceRuns(s[RunLength(s)..])
    decreases |s|
  {
    if s == [] || IsWhitespace(s[0]) {
      assert RunLength(s) == 0;
      assert s[..0] == [] && s[0..] == s;
    } else {
      var k := RunLength(s[1..]);
      SubWhitespaceRunsOfRun(s[1..]);
      SubWhitespaceRunsCons(s);
      SliceAfterHead(s, k);
    }
  }

  lemma {:induction false} WordsSkipWhitespace(s: string)
    ensures Words(SkipWhitespace(s)) == Words(s)
    decreases |s|
  {
    if s != [] && IsWhitespace(s[0]) {
      WordsSkipWhitespace(s[1..]);
    }
  }

  lemma FieldsAfterWhitespace(s: string)
    requires s != [] && IsWhitespace(s[0])
    ensures Fields(s) == [""] + Fields(SkipWhitespace(s[1..]))
    ensures Words(s) == Words(SkipWhitespace(s[1..]))
  {
    WordsSkipWhitespace(s[1..]);
    var t := SkipWhitespace(s[1..]);
    assert SubWhitespaceRuns(s) == ['\n'] + SubWhitespaceRuns(t);
  }

  lemma FieldsOfWholeRun(s: string)
    requires s != [] && RunLength(s) == |s|
    ensures Fields(s) == [s] && Words(s) == [s]
  {
    SubWhitespaceRunsOfRun(s);
    assert s[..|s|] == s && s[|s|..] == [];
    assert SubWhitespaceRuns(s) == s;
    assert Words(s) == [s] + Words([]);
    assert '\n' !in s by {
      forall i | 0 <= i < |s| ensures s[i] != '\n' { assert !IsWhitespace(s[i]); }
    }
    SplitOnWithoutSep(s, '\n');
  }

  lemma FieldsOfRun(s: string)
    requires s != [] && !IsWhitespace(s[0]) && RunLength(s) < |s|
    ensures Fields(s) == [s[..RunLength(s)]] + Fields(SkipWhitespace(s[RunLength(s) + 1..]))
    ensures Words(s) == [s[..RunLength(s)]] + Words(SkipWhitespace(s[RunLength(s) + 1..]))
  {
    var k := RunLength(s);
    var u := s[..k];
    var t := SkipWhitespace(s[k + 1..]);
    SubWhitespaceRunsOfRun(s);
    assert '\n' !in u by {
      forall i | 0 <= i < |u| ensures u[i] != '\n' { assert !IsWhitespace(s[i]); }
    }
    assert s[k..][1..] == s[k + 1..];
    assert SubWhitespaceRuns(s[k..]) == "\n" + SubWhitespaceRuns(t);
    assert SubWhitespaceRuns(s) == u + ['\n'] + SubWhitespaceRuns(t);
    SplitOnAfterPiece(u, SubWhitespaceRuns(t), '\n');
    WordsSkipWhitespace(s[k + 1..]);
  }

  /** The non-empty fields of the substitute-and-split are the words of `s`. */
  lemma {:induction false} FieldsAreWords(s: string, w: string)
    requires w != ""
    ensures w in Fields(s) <==> w in Words(s)
    decreases |s|
  {
    if s == [] {
    } else if IsWhitespace(s[0]) {
      FieldsAfterWhitespace(s);
      FieldsAreWords(SkipWhitespace(s[1..]), w);
    } else {
      if RunLength(s) == |s| {
        FieldsOfWholeRun(s);
      } else {
        FieldsOfRun(s);
        FieldsAreWords(SkipWhitespace(s[RunLength(s) + 1..]), w);
      }
    }
  }

  lemma RunOfSuffix(s: string, d: nat, i: int, j: int)
    requires d <= |s| && IsMaximalRun(s[d..], i, j)
    requires i > 0 || d == 0 || IsWhitespace(s[d - 1])
    ensures IsMaximalRun(s, i + d, j + d) && s[d..][i..j] == s[i + d..j + d]
  {
    forall k | i + d <= k < j + d ensures !IsWhitespace(s[k]) {
      assert s[k] == s[d..][k - d];
    }
    if i > 0 {
      assert s[i + d - 1] == s[d..][i - 1];
    }
    if j + d < |s| {
      assert s[j + d] == s[d..][j];
    }
  }

  lemma RunInSuffix(s: string, d: nat, i: int, j: int)
    requires d <= i && IsMaximalRun(s, i, j)
    ensures IsMaximalRun(s[d..], i - d, j - d) && s[d..][i - d..j - d] == s[i..j]
  {
    var t := s[d..];
    forall k | i - d <= k < j - d ensures !IsWhitespace(t[k]) {
      assert t[k] == s[k + d];
    }
    if i - d > 0 {
      assert t[i - d - 1] == s[i - 1];
    }
    if j - d < |t| {
      assert t[j - d] == s[j];
    }
  }

  /** How `Words` peels off its first step: a whitespace character, or the
      leading run. */
  lemma WordsStep(s: string)
    requires s != []
    ensures var d := if IsWhitespace(s[0]) then 1 else RunLength(s);
      && 0 < d <= |s|
      && Words(s) == (if IsWhitespace(s[0]) then Words(s[d..]) else [s[..d]] + Words(s[d..]))
      && (!IsWhitespace(s[0]) ==> IsMaximalRun(s, 0, d))
      && (IsWhitespace(s[0]) || d == |s| || IsWhitespace(s[d]))
  {
  }

  lemma {:induction false} WordsAreRuns(s: string, w: string)
    requires w in Words(s)
    ensures IsWordOf(s, w)
    decreases |s|
  {
    var d := if IsWhitespace(s[0]) then 1 else RunLength(s);
    var t := s[d..];
    WordsStep(s);
    if !IsWhitespace(s[0]) && w == s[..d] {
    } else {
      assert w in Words(t);
      WordsAreRuns(t, w);
      assert d < |s| ==> t[0] == s[d];
      var i, j :| IsMaximalRun(t, i, j) && w == t[i..j];
      RunOfSuffix(s, d, i, j);
    }
  }

  lemma {:induction false} RunsAreWords(s: string, w: string)
    requires IsWordOf(s, w)
    ensures w in Words(s)
    decreases |s|
  {
    var i, j :| IsMaximalRun(s, i, j) && w == s[i..j];
    var d := if IsWhitespace(s[0]) then 1 else RunLength(s);
    WordsStep(s);
    if IsWhitespace(s[0]) {
      assert i >= 1;
      RunInSuffix(s, d, i, j);
      RunsAreWords(s[d..], w);
    } else if i == 0 {
      assert j <= d;
      assert j >= d;
    } else {
      assert i > d;
      RunInSuffix(s, d, i, j);
      RunsAreWords(s[d..], w);
    }
  }

  /** The words of `s` are exactly its maximal non-whitespace runs. */
  lemma WordsAreMaximalRuns(s: string, w: string)
    ensures w in Words(s) <==> IsWordOf(s, w)
  {
    if w in Words(s) {
      WordsAreRuns(s, w);
    }
    if IsWordOf(s, w) {
      RunsAreWords(s, w);
    }
  }

  /** `load_word_list_from_file` on the content of the file: the set of fields of
      the content with the empty entry removed. */
  method LoadWordList(content: string) returns (words: set<string>)
    ensures "" !in words
    ensures forall w :: w in words <==> IsWordOf(content, w)
    ensures forall w :: w in words ==> forall i :: 0 <= i < |w| ==> !IsWhitespace(w[i])
  {
    var fields := Fields(content);
    words := set w | w in fields;
    if "" in words {
      words := words - {""};
    }
    forall w
      ensures w in words <==> IsWordOf(content, w)
    {
      if w != "" {
        FieldsAreWords(content, w);
        WordsAreMaximalRuns(content, w);
      }
    }
  }

  lemma {:induction false} JoinSplitOn(t: string)
    ensures Join(SplitOn(t, '\n')) == Filter(t, IsNotNewline)
    decreases |t|
  {
    if t != [] {
      JoinSplitOn(t[1..]);
      FilterCons(t[0], t[1..], IsNotNewline);
      assert [t[0]] + t[1..] == t;
    } else {
      assert Filter(t, IsNotNewline) == [];
    }
  }

  lemma {:induction false} DropWhitespaceRun(s: string)
    ensures Filter(SkipWhitespace(s), IsVisible) == Filter(s, IsVisible)
    decreases |s|
  {
    if s != [] && IsWhitespace(s[0]) {
      DropWhitespaceRun(s[1..]);
      FilterCons(s[0], s[1..], IsVisible);
      assert [s[0]] + s[1..] == s;
    }
  }

  lemma {:induction false} SubWhitespaceRunsVisible(s: string)
    ensures Filter(SubWhitespaceRuns(s), IsNotNewline) == Filter(s, IsVisible)
    decreases |s|
  {
    if s == [] {
    } else {
      assert [s[0]] + s[1..] == s;
      FilterCons(s[0], s[1..], IsVisible);
      if IsWhitespace(s[0]) {
        var t := SkipWhitespace(s[1..]);
        SubWhitespaceRunsVisible(t);
        DropWhitespaceRun(s[1..]);
        FilterCons('\n', SubWhitespaceRuns(t), IsNotNewline);
      } else {
        SubWhitespaceRunsVisible(s[1..]);
        FilterCons(s[0], SubWhitespaceRuns(s[1..]), IsNotNewline);
      }
    }
  }

  /** `text_clean_up`: the joined fields, i.e. the text with every whitespace
      character deleted and every other character kept in order. */
  function TextCleanUp(text: string): (r: string)
    ensures r == Filter(text, IsVisible)
    ensures forall i :: 0 <= i < |r| ==> !IsWhitespace(r[i])
  {
    JoinSplitOn(SubWhitespaceRuns(text));
    SubWhitespaceRunsVisible(text);
    forall i | 0 <= i < |Filter(text, IsVisible)|
      ensures !IsWhitespace(Filter(text, IsVisible)[i])
    {
      var r := Filter(text, IsVisible);
      assert r[i] in r;
      FilterMember(text, IsVisible, r[i]);
    }
    Join(Fields(text))
  }

  // ---------------------------------------------------------------------------
  // Punctuation and exclusion filtering
  // ---------------------------------------------------------------------------

  /** The four marks `remove_punctuations` drops, in the order it tries them. */
  const SentencePunctuation: seq<string> := ["！", "？", "。", "，"]

  function NotIn(banned: set<string>): string -> bool
  {
    v => v !in banned
  }

  /** `[v for v in xs if v not in banned]`. */
  function Without(xs: seq<string>, banned: set<string>): seq<string>
  {
    Filter(xs, NotIn(banned))
  }

  lemma WithoutMembers(xs: seq<string>, banned: set<string>)
    ensures forall x :: x in Without(xs, banned) <==> x in xs && x !in banned
  {
    forall x ensures x in Without(xs, banned) <==> x in xs && x !in banned {
      FilterMember(xs, NotIn(banned), x);
    }
  }

  lemma {:induction false} WithoutTwice(xs: seq<string>, a: set<string>, b: set<string>)
    ensures Without(Without(xs, a), b) == Without(xs, a + b)
    decreases |xs|
  {
    if |xs| > 0 {
      var init, last := xs[..|xs| - 1], xs[|xs| - 1];
      assert xs == init + [last];
      WithoutTwice(init, a, b);
      FilterSnoc(init, last, NotIn(a));
      FilterSnoc(init, last, NotIn(a + b));
      FilterSnoc(Without(init, a), last, NotIn(b));
      assert Without(xs, a) == Without(init, a) + (if last !in a then [last] else []);
      assert Without(xs, a + b) == Without(init, a + b) + (if last !in a + b then [last] else []);
      if last !in a {
        assert Without(Without(xs, a), b) == Without(Without(init, a), b) + (if last !in b then [last] else []);
      } else {
        assert Without(xs, a) == Without(init, a);
      }
    }
  }

  /** `remove_punctuations`: drops every occurrence of the four marks, trying
      them one after another. */
  method RemovePunctuations(wordList: seq<string>) returns (r: seq<string>)
    ensures r == Without(wordList, {"！", "？", "。", "，"})
  {
    r := wordList;
    FilterKeepsAll(wordList, NotIn({}));
    assert ElementsOf(SentencePunctuation[..0]) == {};
    for k := 0 to |SentencePunctuation|
      invariant r == Without(wordList, ElementsOf(SentencePunctuation[..k]))
    {
      var p := SentencePunctuation[k];
      ghost var done := ElementsOf(SentencePunctuation[..k]);
      assert SentencePunctuation[..k + 1] == SentencePunctuation[..k] + [p];
      assert ElementsOf(SentencePunctuation[..k + 1]) == done + {p};
      WithoutTwice(wordList, done, {p});
      if p in r {
        r := Without(r, {p});
      } else {
        forall i | 0 <= i < |r| ensures NotIn({p})(r[i]) { assert r[i] in r; }
        FilterKeepsAll(r, NotIn({p}));
      }
    }
    assert SentencePunctuation[..4] == SentencePunctuation;
    assert ElementsOf(SentencePunctuation) == {"！", "？", "。", "，"};
  }

  lemma RemovePunctuationsSpec(wordList: seq<string>, x: string)
    ensures x in Without(wordList, {"！", "？", "。", "，"}) <==> x in wordList && x !in {"！", "？", "。", "，"}
    ensures multiset(Without(wordList, {"！", "？", "。", "，"}))[x]
            == if x in {"！", "？", "。", "，"} then 0 else multiset(wordList)[x]
  {
    FilterMember(wordList, NotIn({"！", "？", "。", "，"}), x);
    FilterMultiplicity(wordList, NotIn({"！", "？", "。", "，"}), x);
  }

  /** The punctuation string of `remove_exclusions`; each of its characters is an exclusion. */
  const Punctuations: string :=
    "！？｡。＂＃＄％＆＇（）＊＋，－／：；＜＝＞＠［＼］＾＿｀｛｜｝～｟｠｢｣､、〃《》「」『』【】〔〕〖〗〘〙〚〛〜〝〞〟〰〾〿–—‘’‛“”„‟…‧﹏.?;﹔|.-·-*─"

  predicate IsAsciiAlnum(c: char)
  {
    ('a' <= c <= 'z') || ('A' <= c <= 'Z') || ('0' <= c <= '9')
  }

  /** `re.match(r'[a-zA-Z0-9]+', x)` succeeds: the match is anchored at the start only. */
  predicate StartsWithAsciiAlnum(x: string)
  {
    |x| > 0 && IsAsciiAlnum(x[0])
  }

  /** The token is one of the punctuation characters, an additional exclusion,
      or starts with an ASCII letter or digit. */
  predicate IsExcluded(x: string, additional: set<string>)
  {
    (|x| == 1 && x[0] in Punctuations) || x in additional || StartsWithAsciiAlnum(x)
  }

  function Kept(additional: set<string>): string -> bool
  {
    x => !IsExcluded(x, additional)
  }

  /** `remove_exclusions`: keeps, in order and with their multiplicity, the tokens
      that are not excluded. */
  function RemoveExclusions(wordList: seq<string>, additional: set<string>): (r: seq<string>)
    ensures |r| <= |wordList|
    ensures forall x :: x in r <==> x in wordList && !IsExcluded(x, additional)
    ensures forall x :: multiset(r)[x] == if IsExcluded(x, additional) then 0 else multiset(wordList)[x]
  {
    forall x
      ensures x in Filter(wordList, Kept(additional)) <==> x in wordList && !IsExcluded(x, additional)
      ensures multiset(Filter(wordList, Kept(additional)))[x]
              == if IsExcluded(x, additional) then 0 else multiset(wordList)[x]
    {
      FilterMember(wordList, Kept(additional), x);
      FilterMultiplicity(wordList, Kept(additional), x);
    }
    Filter(wordList, Kept(additional))
  }

  /** Applying `remove_exclusions` twice with the same exclusions is the same as once. */
  lemma RemoveExclusionsIdempotent(wordList: seq<string>, additional: set<string>)
    ensures RemoveExclusions(RemoveExclusions(wordList, additional), additional)
            == RemoveExclusions(wordList, additional)
  {
    FilterIdempotent(wordList, Kept(additional));
  }

  // ---------------------------------------------------------------------------
  // Rounding
  // ---------------------------------------------------------------------------

  function Abs(x: int): nat
  {
    if x < 0 then -x else x
  }

  /** `round_to_nearest_50`: `50 * round(x / 50)`, where Python's `round` sends a
      half to the even neighbour. `x = 50 * q + rest` with `0 <= rest < 50`. */
  function RoundToNearest50(x: int): (r: int)
    ensures r % 50 == 0
    ensures Abs(r - x) <= 25
    ensures x % 50 != 25 ==> Abs(r - x) < 25
    ensures x % 50 == 0 ==> r == x
    ensures x % 50 == 25 ==> (r / 50) % 2 == 0
    ensures x >= 0 ==> r >= 0
  {
    var q, rest := x / 50, x % 50;
    50 * (if rest < 25 then q else if rest > 25 then q + 1 else if q % 2 == 0 then q else q + 1)
  }

  /** No multiple of 50 is nearer to `x` than the rounded value. */
  lemma RoundIsNearest(x: int, m: int)
    requires m % 50 == 0
    ensures Abs(RoundToNearest50(x) - x) <= Abs(m - x)
  {
  }

  /** Rounding never reverses the order of two figures. */
  lemma RoundMonotonic(x: int, y: int)
    requires x <= y
    ensures RoundToNearest50(x) <= RoundToNearest50(y)
  {
  }
}

/** The text heuristics of `client/js/ai.js` and the memo cache in front of its requests:
    keyword sentiment, the three most frequent long words as topics, picking suggestion lines
    out of a completion, stripping list numbering, and the prefixed cache keys.

    The completion endpoint is not modelled: each request's outcome is a parameter. Cache
    eviction by timer is not modelled either, so an entry stays until the model is discarded. */
module Ai {
  import opened Wrappers
  import Text

  const PositiveWords: seq<string> := ["good", "great", "awesome", "excellent", "happy", "love"]
  const NegativeWords: seq<string> := ["bad", "poor", "terrible", "awful", "sad", "hate"]

  /** `text.toLowerCase().split(/\W+/)`. */
  function Words(text: string): (r: seq<string>)
    ensures |r| >= 1
    ensures forall i | 0 <= i < |r| :: Text.NoSeparator(r[i], Text.NonWord)
  {
    Text.SplitOnRunsPieces(Text.ToLower(text), Text.NonWord);
    Text.SplitOnRuns(Text.ToLower(text), Text.NonWord)
  }

  // ---------------------------------------------------------------------------------------
  // Sentiment

  /** How many of `words` are in `list`, counting repeats. */
  function CountIn(words: seq<string>, list: seq<string>): (n: nat)
    ensures n <= |words|
  {
    if |words| == 0 then 0
    else CountIn(words[..|words| - 1], list) + (if words[|words| - 1] in list then 1 else 0)
  }

  /** The label the score's sign gives. */
  function Label(score: int): string {
    if score > 0 then "positive" else if score < 0 then "negative" else "neutral"
  }

  /** Positive words minus negative words, over the lower-cased word split. */
  function Score(text: string): int {
    CountIn(Words(text), PositiveWords) - CountIn(Words(text), NegativeWords)
  }

  /** `analyzeSentiment`: one pass over the words, each positive word scoring +1 and each
      negative word -1; the sign of the total names the sentiment. */
  method AnalyzeSentiment(text: string) returns (sentiment: string)
    ensures sentiment == Label(Score(text))
    ensures sentiment == "positive" <==> CountIn(Words(text), PositiveWords) > CountIn(Words(text), NegativeWords)
    ensures sentiment == "negative" <==> CountIn(Words(text), PositiveWords) < CountIn(Words(text), NegativeWords)
    ensures sentiment == "neutral" <==> CountIn(Words(text), PositiveWords) == CountIn(Words(text), NegativeWords)
  {
    var words := Words(text);
    var score := 0;
    var i := 0;
    while i < |words|
      invariant 0 <= i <= |words|
      invariant score == CountIn(words[..i], PositiveWords) - CountIn(words[..i], NegativeWords)
    {
      assert words[..i + 1][..i] == words[..i];
      if words[i] in PositiveWords {
        score := score + 1;
      }
      if words[i] in NegativeWords {
        score := score - 1;
      }
      i := i + 1;
    }
    assert words[..i] == words;
    if score > 0 {
      sentiment := "positive";
    } else if score < 0 {
      sentiment := "negative";
    } else {
      sentiment := "neutral";
    }
  }

  /** Lower-casing is idempotent, so the sentiment ignores letter case. */
  lemma ScoreIgnoresCase(text: string)
    ensures Score(Text.ToLower(text)) == Score(text)
  {
    assert Text.ToLower(Text.ToLower(text)) == Text.ToLower(text);
  }

  // ---------------------------------------------------------------------------------------
  // Topics

  /** Occurrences of `w` in `words`. */
  function CountOf(words: seq<string>, w: string): (n: nat)
    ensures n <= |words|
    ensures n > 0 <==> w in words
  {
    if |words| == 0 then 0
    else CountOf(words[..|words| - 1], w) + (if words[|words| - 1] == w then 1 else 0)
  }

  /** The `wordCount` object as a function: word to occurrences. */
  function Frequency(words: seq<string>): string -> nat {
    w => CountOf(words, w)
  }

  predicate Distinct(s: seq<string>) {
    forall i, j | 0 <= i < j < |s| :: s[i] != s[j]
  }

  /** The keys of the `wordCount` object: the words longer than three characters, each once, in
      order of first occurrence. */
  function Candidates(words: seq<string>): (r: seq<string>)
    ensures Distinct(r)
    ensures forall x | x in r :: |x| > 3 && x in words
    ensures forall w | w in words && |w| > 3 :: w in r
  {
    if |words| == 0 then []
    else
      var init := words[..|words| - 1];
      var last := words[|words| - 1];
      var c := Candidates(init);
      assert forall i | 0 <= i < |init| :: init[i] == words[i];
      if |last| > 3 && last !in c then c + [last] else c
  }

  /** The first candidate with the highest count: the one a stable descending sort puts first
      (see `MaxIndexIsFirstMax`). */
  function MaxIndex(cands: seq<string>, count: string -> nat): (i: nat)
    requires |cands| > 0
    ensures i < |cands|
  {
    if |cands| == 1 then 0
    else
      var j := 1 + MaxIndex(cands[1..], count);
      if count(cands[0]) >= count(cands[j]) then 0 else j
  }

  /** `MaxIndex` picks a candidate counted at least as often as every other, and strictly more
      often than every candidate before it. */
  lemma {:induction false} MaxIndexIsFirstMax(cands: seq<string>, count: string -> nat)
    requires |cands| > 0
    ensures forall j | 0 <= j < |cands| :: count(cands[j]) <= count(cands[MaxIndex(cands, count)])
    ensures forall j | 0 <= j < MaxIndex(cands, count) :: count(cands[j]) < count(cands[MaxIndex(cands, count)])
  {
    if |cands| > 1 {
      MaxIndexIsFirstMax(cands[1..], count);
      forall j | 1 <= j < |cands| ensures cands[j] == cands[1..][j - 1] {}
    }
  }

  /** The first `k` entries of the candidates sorted by descending count, the sort being stable:
      repeatedly the first most frequent of those left. */
  function Top(cands: seq<string>, count: string -> nat, k: nat): (r: seq<string>)
    ensures |r| == if k < |cands| then k else |cands|
    decreases k
  {
    if k == 0 || |cands| == 0 then []
    else
      var i := MaxIndex(cands, count);
      [cands[i]] + Top(cands[..i] + cands[i + 1..], count, k - 1)
  }

  /** Every entry of `Top` is a candidate. */
  lemma {:induction false} TopFromCandidates(cands: seq<string>, count: string -> nat, k: nat)
    ensures forall x | x in Top(cands, count, k) :: x in cands
    decreases k
  {
    if k > 0 && |cands| > 0 {
      var i := MaxIndex(cands, count);
      var rest := cands[..i] + cands[i + 1..];
      TopFromCandidates(rest, count, k - 1);
      RemoveAt(cands, i);
    }
  }

  /** Removing the entry at `i`: every other entry stays, and a duplicate-free list loses exactly
      that entry. */
  lemma RemoveAt(cands: seq<string>, i: nat)
    requires i < |cands|
    ensures var rest := cands[..i] + cands[i + 1..];
            && (forall c | c in cands && c != cands[i] :: c in rest)
            && (forall c | c in rest :: c in cands)
            && (Distinct(cands) ==> Distinct(rest) && cands[i] !in rest)
  {
    var rest := cands[..i] + cands[i + 1..];
    assert forall j | 0 <= j < |rest| :: rest[j] == if j < i then cands[j] else cands[j + 1];
    forall c | c in cands && c != cands[i] ensures c in rest {
      var j :| 0 <= j < |cands| && cands[j] == c;
      if j < i { assert rest[j] == c; } else { assert rest[j - 1] == c; }
    }
  }

  lemma DistinctCons(m: string, t: seq<string>)
    requires Distinct(t) && m !in t
    ensures Distinct([m] + t)
  {
    var r := [m] + t;
    forall p, q | 0 <= p < q < |r| ensures r[p] != r[q] {
      assert r[q] == t[q - 1];
      if p > 0 {
        assert r[p] == t[p - 1];
      }
    }
  }

  /** `Top` of a duplicate-free list is duplicate-free. */
  lemma {:induction false} TopDistinct(cands: seq<string>, count: string -> nat, k: nat)
    requires Distinct(cands)
    ensures Distinct(Top(cands, count, k))
    decreases k
  {
    if k > 0 && |cands| > 0 {
      var i := MaxIndex(cands, count);
      var rest := cands[..i] + cands[i + 1..];
      RemoveAt(cands, i);
      var t := Top(rest, count, k - 1);
      TopDistinct(rest, count, k - 1);
      TopFromCandidates(rest, count, k - 1);
      assert cands[i] !in t;
      DistinctCons(cands[i], t);
    }
  }

  /** No candidate `Top` leaves out counts more than one it keeps. */
  lemma {:induction false} TopKeepsMostFrequent(cands: seq<string>, count: string -> nat, k: nat)
    ensures forall c, x | c in cands && c !in Top(cands, count, k) && x in Top(cands, count, k) ::
              count(c) <= count(x)
    decreases k
  {
    if k == 0 || |cands| == 0 {
      assert Top(cands, count, k) == [];
    } else {
      var i := TopFirst(cands, count, k);
      var rest := cands[..i] + cands[i + 1..];
      assert forall c | c in cands && c != cands[i] :: c in rest by {
        RemoveAt(cands, i);
      }
      assert forall c, x | c in rest && c !in Top(rest, count, k - 1) && x in Top(rest, count, k - 1) ::
               count(c) <= count(x) by {
        TopKeepsMostFrequent(rest, count, k - 1);
      }
      TopStep(cands, cands[i], rest, Top(rest, count, k - 1), Top(cands, count, k), count);
    }
  }

  /** Putting a most frequent candidate in front of a selection from the others that keeps the
      most frequent of them gives a selection that keeps the most frequent of all. */
  lemma TopStep(cands: seq<string>, m: string, rest: seq<string>, t: seq<string>, r: seq<string>, count: string -> nat)
    requires r == [m] + t
    requires forall c | c in cands :: count(c) <= count(m)
    requires forall c | c in cands && c != m :: c in rest
    requires forall c, x | c in rest && c !in t && x in t :: count(c) <= count(x)
    ensures forall c, x | c in cands && c !in r && x in r :: count(c) <= count(x)
  {
    forall c, x | c in cands && c !in r && x in r ensures count(c) <= count(x) {
      if x != m {
        assert c in rest && c !in t && x in t;
      }
    }
  }

  /** `Top` starts with a candidate counted at least as often as every other. */
  lemma TopFirst(cands: seq<string>, count: string -> nat, k: nat) returns (i: nat)
    requires k > 0 && |cands| > 0
    ensures i < |cands|
    ensures Top(cands, count, k) == [cands[i]] + Top(cands[..i] + cands[i + 1..], count, k - 1)
    ensures forall c | c in cands :: count(c) <= count(cands[i])
  {
    i := MaxIndex(cands, count);
    MaxIndexIsFirstMax(cands, count);
  }

  /** `Top` lists its entries by descending count, as the sort orders them. */
  lemma {:induction false} TopDescending(cands: seq<string>, count: string -> nat, k: nat)
    ensures var r := Top(cands, count, k);
            forall i, j | 0 <= i < j < |r| :: count(r[i]) >= count(r[j])
    decreases k
  {
    if k > 0 && |cands| > 0 {
      var i := TopFirst(cands, count, k);
      var rest := cands[..i] + cands[i + 1..];
      var t := Top(rest, count, k - 1);
      var r := Top(cands, count, k);
      TopDescending(rest, count, k - 1);
      TopFromCandidates(rest, count, k - 1);
      RemoveAt(cands, i);
      forall p, q | 0 <= p < q < |r| ensures count(r[p]) >= count(r[q]) {
        assert r[q] == t[q - 1];
        if p > 0 {
          assert r[p] == t[p - 1];
        } else {
          assert t[q - 1] in rest;
        }
      }
    }
  }

  /** The three most frequent words longer than three characters, most frequent first. */
  function Topics(words: seq<string>): (r: seq<string>)
    ensures |r| <= 3
    ensures forall x | x in r :: |x| > 3 && x in words
    ensures forall i, j | 0 <= i < j < |r| :: CountOf(words, r[i]) >= CountOf(words, r[j])
  {
    TopsDescend(Candidates(words), words);
    Top(Candidates(words), Frequency(words), 3)
  }

  /** `extractTopics`: at most three distinct words longer than three characters, most frequent
      first. */
  function ExtractTopics(text: string): (r: seq<string>)
    ensures |r| <= 3
    ensures forall x | x in r :: |x| > 3 && x in Words(text)
    ensures forall i, j | 0 <= i < j < |r| :: CountOf(Words(text), r[i]) >= CountOf(Words(text), r[j])
  {
    Topics(Words(text))
  }

  /** Candidates of a word list are ranked most frequent first. */
  lemma {:induction false} TopsDescend(cands: seq<string>, words: seq<string>)
    requires forall x | x in cands :: |x| > 3 && x in words
    ensures var r := Top(cands, Frequency(words), 3);
            && |r| <= 3
            && (forall x | x in r :: |x| > 3 && x in words)
            && forall i, j | 0 <= i < j < |r| :: CountOf(words, r[i]) >= CountOf(words, r[j])
  {
    TopDescending(cands, Frequency(words), 3);
    TopFromCandidates(cands, Frequency(words), 3);
  }

  /** The topics are distinct, as many as there are qualifying words up to three, and every
      qualifying word left out occurs no more often than each topic. */
  lemma ExtractTopicsAreMostFrequent(text: string)
    ensures var r := ExtractTopics(text);
            var words := Words(text);
            && Distinct(r)
            && |r| == (if |Candidates(words)| < 3 then |Candidates(words)| else 3)
            && forall w, x | w in words && |w| > 3 && w !in r && x in r :: CountOf(words, w) <= CountOf(words, x)
  {
    var words := Words(text);
    var cands := Candidates(words);
    var r := ExtractTopics(text);
    assert r == Top(cands, Frequency(words), 3);
    TopDistinct(cands, Frequency(words), 3);
    TopKeepsMostFrequent(cands, Frequency(words), 3);
    forall w, x | w in words && |w| > 3 && w !in r && x in r ensures CountOf(words, w) <= CountOf(words, x) {
      assert w in cands;
      assert Frequency(words)(w) <= Frequency(words)(x);
    }
  }

  // ---------------------------------------------------------------------------------------
  // Suggestion lines

  predicate Blank(line: string) {
    Text.Trim(line) == []
  }

  predicate Suggests(line: string) {
    Text.Contains(line, "suggest") || Text.Contains(line, "recommend")
  }

  /** A picked line, trimmed, is non-empty, trimmed and still mentions a suggestion. */
  lemma PickedLine(line: string)
    requires !Blank(line) && Suggests(line)
    ensures Text.Trim(line) != [] && Text.Trim(Text.Trim(line)) == Text.Trim(line) && Suggests(Text.Trim(line))
  {
    Text.TrimIdempotent(line);
    if Text.Contains(line, "suggest") {
      Text.ContainsSurvivesTrim(line, "suggest");
    } else {
      Text.ContainsSurvivesTrim(line, "recommend");
    }
  }

  /** The trimmed non-blank lines that mention a suggestion or recommendation, in order. */
  function SuggestionLines(lines: seq<string>): (r: seq<string>)
    ensures |r| <= |lines|
    ensures forall i | 0 <= i < |r| :: r[i] != [] && Text.Trim(r[i]) == r[i] && Suggests(r[i])
  {
    if |lines| == 0 then []
    else if !Blank(lines[0]) && Suggests(lines[0]) then
      PickedLine(lines[0]);
      [Text.Trim(lines[0])] + SuggestionLines(lines[1..])
    else SuggestionLines(lines[1..])
  }

  /** Lines are picked one by one: the pick of a concatenation is the concatenation of picks. */
  lemma {:induction false} SuggestionLinesAppend(a: seq<string>, b: seq<string>)
    ensures SuggestionLines(a + b) == SuggestionLines(a) + SuggestionLines(b)
    decreases |a|
  {
    if |a| > 0 {
      assert (a + b)[0] == a[0];
      assert (a + b)[1..] == a[1..] + b;
      SuggestionLinesAppend(a[1..], b);
    } else {
      assert a + b == b;
    }
  }

  /** A single line is kept, trimmed, exactly when it is not blank and mentions a suggestion. */
  lemma SuggestionLinesSingle(line: string)
    ensures SuggestionLines([line]) == if !Blank(line) && Suggests(line) then [Text.Trim(line)] else []
  {
    assert [line][1..] == [];
  }

  /** `generateSuggestions`. */
  function GenerateSuggestions(analysis: string): (r: seq<string>)
    ensures |r| <= |Text.SplitOn(analysis, '\n')|
    ensures forall i | 0 <= i < |r| :: r[i] != [] && Text.Trim(r[i]) == r[i] && Suggests(r[i])
  {
    SuggestionLines(Text.SplitOn(analysis, '\n'))
  }

  // ---------------------------------------------------------------------------------------
  // Numbered lists

  /** Length of the leading run of decimal digits. */
  function DigitRun(s: string): (n: nat)
    ensures n <= |s|
    ensures forall i | 0 <= i < n :: Text.IsDigit(s[i])
    ensures n < |s| ==> !Text.IsDigit(s[n])
  {
    if |s| == 0 || !Text.IsDigit(s[0]) then 0 else 1 + DigitRun(s[1..])
  }

  /** `parseSuggestions`' replacement of a leading `\d+\.` and the `\s` run after it by nothing:
      a leading number, its dot and the spaces after it go. */
  function StripNumbering(line: string): (r: string)
    ensures |r| <= |line|
    ensures r == line || (exists d | 0 < d < |line| :: line[d] == '.' && r == line[|line| - |r|..])
  {
    var d := DigitRun(line);
    if 0 < d < |line| && line[d] == '.' then
      var after := line[d + 1..];
      after[Text.LeadingSpace(after)..]
    else line
  }

  /** The numbering written by `n + ". "` comes off, and a line that does not start with a digit
      is left as it is. */
  lemma StripNumberingInverse(n: nat, s: string)
    requires s == [] || !Text.IsWhitespace(s[0])
    ensures StripNumbering(Text.NatToDecimal(n) + ". " + s) == s
    ensures s == [] || !Text.IsDigit(s[0]) ==> StripNumbering(s) == s
  {
    var digits := Text.NatToDecimal(n);
    var line := digits + ". " + s;
    assert DigitRun(line) == |digits| by {
      assert line == digits + (". " + s);
      DigitRunPrefix(digits, ". " + s);
    }
    var after := line[|digits| + 1..];
    assert after == " " + s;
    assert Text.LeadingSpace(after) == 1;
  }

  lemma {:induction false} DigitRunPrefix(digits: string, rest: string)
    requires forall i | 0 <= i < |digits| :: Text.IsDigit(digits[i])
    requires rest == [] || !Text.IsDigit(rest[0])
    ensures DigitRun(digits + rest) == |digits|
    decreases |digits|
  {
    if |digits| > 0 {
      assert (digits + rest)[1..] == digits[1..] + rest;
      DigitRunPrefix(digits[1..], rest);
    } else {
      assert digits + rest == rest;
    }
  }

  /** The non-blank lines, in order. */
  function NonBlank(lines: seq<string>): (r: seq<string>)
    ensures |r| <= |lines|
  {
    if |lines| == 0 then []
    else if Blank(lines[0]) then NonBlank(lines[1..])
    else [lines[0]] + NonBlank(lines[1..])
  }

  /** Lines are kept one by one: the non-blank lines of a concatenation are those of each part,
      in order. */
  lemma {:induction false} NonBlankAppend(a: seq<string>, b: seq<string>)
    ensures NonBlank(a + b) == NonBlank(a) + NonBlank(b)
    decreases |a|
  {
    if |a| > 0 {
      assert (a + b)[0] == a[0];
      assert (a + b)[1..] == a[1..] + b;
      NonBlankAppend(a[1..], b);
    } else {
      assert a + b == b;
    }
  }

  /** Every kept line is a non-blank line of the input. */
  lemma {:induction false} NonBlankSound(lines: seq<string>)
    ensures forall x | x in NonBlank(lines) :: !Blank(x) && x in lines
  {
    if |lines| > 0 {
      NonBlankSound(lines[1..]);
      assert forall x | x in lines[1..] :: x in lines;
    }
  }

  /** A single line is kept exactly when it is not blank. */
  lemma NonBlankSingle(line: string)
    ensures NonBlank([line]) == if Blank(line) then [] else [line]
  {
    assert [line][1..] == [];
  }

  /** `parseSuggestions`: one entry per non-blank line, numbering stripped. */
  function ParseSuggestions(text: string): (r: seq<string>)
    ensures |r| == |NonBlank(Text.SplitOn(text, '\n'))|
    ensures forall i | 0 <= i < |r| :: r[i] == StripNumbering(NonBlank(Text.SplitOn(text, '\n'))[i])
  {
    var lines := NonBlank(Text.SplitOn(text, '\n'));
    seq(|lines|, i requires 0 <= i < |lines| => StripNumbering(lines[i]))
  }

  /** The lines of a numbered list: `n. item`, counting from `first`. */
  function Numbered(items: seq<string>, first: nat): (r: seq<string>)
    ensures |r| == |items|
    ensures forall k | 0 <= k < |items| :: r[k] == Text.NatToDecimal(first + k) + ". " + items[k]
  {
    seq(|items|, k requires 0 <= k < |items| => Text.NatToDecimal(first + k) + ". " + items[k])
  }

  /** A numbered line holds no line break, is not blank, and loses exactly its numbering. */
  lemma NumberedLine(n: nat, item: string)
    requires '\n' !in item && (item == [] || !Text.IsWhitespace(item[0]))
    ensures var line := Text.NatToDecimal(n) + ". " + item;
            '\n' !in line && !Blank(line) && StripNumbering(line) == item
  {
    var digits := Text.NatToDecimal(n);
    var line := digits + ". " + item;
    assert forall j | 0 <= j < |line| :: line[j] != '\n' by {
      forall j | 0 <= j < |line| ensures line[j] != '\n' {
        if j < |digits| {
          assert line[j] == digits[j];
        } else if j >= |digits| + 2 {
          assert line[j] == item[j - |digits| - 2];
        }
      }
    }
    assert line[0] == digits[0] && !Text.IsWhitespace(line[0]);
    StripNumberingInverse(n, item);
  }

  /** Only non-blank lines: all of them are kept. */
  lemma {:induction false} NonBlankKeepsAll(lines: seq<string>)
    requires forall i | 0 <= i < |lines| :: !Blank(lines[i])
    ensures NonBlank(lines) == lines
  {
    if |lines| > 0 {
      NonBlankKeepsAll(lines[1..]);
      assert [lines[0]] + lines[1..] == lines;
    }
  }

  /** A numbered list parses back into its items: the lines `1. item`, `2. item`, … joined by
      line breaks give the items again, for items without a line break or leading whitespace. */
  lemma ParseNumberedList(items: seq<string>)
    requires forall k | 0 <= k < |items| :: '\n' !in items[k] && (items[k] == [] || !Text.IsWhitespace(items[k][0]))
    ensures ParseSuggestions(Text.Join(Numbered(items, 1), "\n")) == items
  {
    var lines := Numbered(items, 1);
    if |items| == 0 {
      assert Text.SplitOn([], '\n') == [[]];
      assert NonBlank([[]]) == [];
    } else {
      NumberedLines(items);
      Text.JoinThenSplit(lines, '\n');
      NonBlankKeepsAll(lines);
      var r := ParseSuggestions(Text.Join(lines, "\n"));
      assert NonBlank(Text.SplitOn(Text.Join(lines, "\n"), '\n')) == lines;
      assert |r| == |items| && forall i | 0 <= i < |r| :: r[i] == StripNumbering(lines[i]);
    }
  }

  /** Every line of a numbered list is a line on its own, not blank, and loses its numbering. */
  lemma NumberedLines(items: seq<string>)
    requires forall k | 0 <= k < |items| :: '\n' !in items[k] && (items[k] == [] || !Text.IsWhitespace(items[k][0]))
    ensures var lines := Numbered(items, 1);
            forall k | 0 <= k < |items| :: '\n' !in lines[k] && !Blank(lines[k]) && StripNumbering(lines[k]) == items[k]
  {
    var lines := Numbered(items, 1);
    forall k | 0 <= k < |items| ensures '\n' !in lines[k] && !Blank(lines[k]) && StripNumbering(lines[k]) == items[k] {
      NumberedLine(1 + k, items[k]);
    }
  }

  /** Two lines without a line break split back into the two lines. */
  lemma SplitTwoLines(x: string, y: string)
    requires '\n' !in x && '\n' !in y
    ensures Text.SplitOn(x + "\n" + y, '\n') == [x, y]
  {
    var text := x + "\n" + y;
    assert text[|x|] == '\n' && text[..|x|] == x;
    assert Text.IndexOf(text, '\n') == |x|;
    assert text[|x| + 1..] == y;
  }

  /** Two non-blank lines are both kept. */
  lemma NonBlankTwo(x: string, y: string)
    requires !Blank(x) && !Blank(y)
    ensures NonBlank([x, y]) == [x, y]
  {
    var lines: seq<string> := [x, y];
    assert lines[1..] == [y] && |lines[1..][1..]| == 0;
  }

  /** Two non-blank lines give two entries, each stripped of its numbering. */
  lemma ParseTwoLines(x: string, y: string)
    requires '\n' !in x && '\n' !in y
    requires !Blank(x) && !Blank(y)
    ensures ParseSuggestions(x + "\n" + y) == [StripNumbering(x), StripNumbering(y)]
  {
    SplitTwoLines(x, y);
    NonBlankTwo(x, y);
  }

  // ---------------------------------------------------------------------------------------
  // The memo cache

  datatype Analysis = Analysis(sentiment: string, topics: seq<string>, suggestions: seq<string>)

  /** The values the shared cache holds, one kind per operation. */
  datatype Cached = AnalysisResult(analysis: Analysis) | ImageUrl(url: string) | SuggestionList(items: seq<string>)

  /** A call's effect: the cache afterwards, the value or error, and whether a request was made. */
  datatype Call = Call(cache: map<string, Cached>, result: Result<Cached, string>, requested: bool)

  /** The look-up-then-request path shared by the three operations: a hit returns the cached value
      without a request; a miss makes the request, caches a successful result and returns it, and
      turns a failure into the operation's error message. */
  function Memo(cache: map<string, Cached>, key: string, outcome: Result<Cached, string>, failure: string): (r: Call)
    ensures key in cache ==> r == Call(cache, Success(cache[key]), false)
    ensures key !in cache ==> r.requested
    ensures key !in cache && outcome.Success? ==> r.cache == cache[key := outcome.value] && r.result == outcome
    ensures key !in cache && outcome.Failure? ==> r.cache == cache && r.result == Failure(failure)
  {
    if key in cache then Call(cache, Success(cache[key]), false)
    else match outcome
      case Success(v) => Call(cache[key := v], Success(v), true)
      case Failure(_) => Call(cache, Failure(failure), true)
  }

  /** A successful call is answered from the cache the next time, whatever the request would say. */
  lemma MemoSecondCallHits(cache: map<string, Cached>, key: string, outcome: Result<Cached, string>,
                           again: Result<Cached, string>, failure: string)
    requires Memo(cache, key, outcome, failure).result.Success?
    ensures var first := Memo(cache, key, outcome, failure);
            Memo(first.cache, key, again, failure) == Call(first.cache, first.result, false)
  {
  }

  /** `analyzeContent`: `completion` is the outcome of the request for `text`, the text of its
      first choice when it succeeds. */
  function AnalyzeContent(cache: map<string, Cached>, text: string, completion: Result<string, string>): (r: Call)
    ensures "analyze_" + text in cache ==> r == Call(cache, Success(cache["analyze_" + text]), false)
    ensures "analyze_" + text !in cache && completion.Success? ==>
              && r.requested && r.result.Success? && r.result.value.AnalysisResult?
              && r.result.value.analysis.sentiment == Label(Score(text))
              && r.result.value.analysis.topics == ExtractTopics(completion.value)
              && |r.result.value.analysis.topics| <= 3
              && r.result.value.analysis.suggestions == GenerateSuggestions(completion.value)
              && r.cache == cache["analyze_" + text := r.result.value]
    ensures "analyze_" + text !in cache && completion.Failure? ==>
              r == Call(cache, Failure("Failed to analyze content"), true)
  {
    var outcome := match completion
      case Success(answer) => Success(AnalysisResult(Analysis(Label(Score(text)), ExtractTopics(answer), GenerateSuggestions(answer))))
      case Failure(e) => Failure(e);
    Memo(cache, "analyze_" + text, outcome, "Failed to analyze content")
  }

  /** `generateImage`: `url` is the outcome of the request, the URL of the first image. */
  function GenerateImage(cache: map<string, Cached>, prompt: string, url: Result<string, string>): (r: Call)
    ensures "image_" + prompt in cache ==> r == Call(cache, Success(cache["image_" + prompt]), false)
    ensures "image_" + prompt !in cache && url.Success? ==>
              r == Call(cache["image_" + prompt := ImageUrl(url.value)], Success(ImageUrl(url.value)), true)
    ensures "image_" + prompt !in cache && url.Failure? ==>
              r == Call(cache, Failure("Failed to generate image"), true)
  {
    var outcome := match url
      case Success(u) => Success(ImageUrl(u))
      case Failure(e) => Failure(e);
    Memo(cache, "image_" + prompt, outcome, "Failed to generate image")
  }

  /** `getSuggestions`: `completion` as for `AnalyzeContent`. */
  function GetSuggestions(cache: map<string, Cached>, text: string, completion: Result<string, string>): (r: Call)
    ensures "suggest_" + text in cache ==> r == Call(cache, Success(cache["suggest_" + text]), false)
    ensures "suggest_" + text !in cache && completion.Success? ==>
              && r.requested && r.result.Success? && r.result.value.SuggestionList?
              && r.result.value.items == ParseSuggestions(completion.value)
              && |r.result.value.items| == |NonBlank(Text.SplitOn(completion.value, '\n'))|
              && r.cache == cache["suggest_" + text := r.result.value]
    ensures "suggest_" + text !in cache && completion.Failure? ==>
              r == Call(cache, Failure("Failed to get suggestions"), true)
  {
    var outcome := match completion
      case Success(answer) => Success(SuggestionList(ParseSuggestions(answer)))
      case Failure(e) => Failure(e);
    Memo(cache, "suggest_" + text, outcome, "Failed to get suggestions")
  }

  /** The three prefixes keep the operations' entries apart: no two operations share a key. */
  lemma PrefixesSeparateOperations(a: string, b: string)
    ensures "analyze_" + a != "image_" + b
    ensures "analyze_" + a != "suggest_" + b
    ensures "image_" + a != "suggest_" + b
  {
    assert ("analyze_" + a)[0] == 'a' && ("image_" + b)[0] == 'i' && ("suggest_" + b)[0] == 's';
    assert ("image_" + a)[0] == 'i';
  }

  /** A cached analysis is served without a request, and an image request in between does not
      disturb it. */
  lemma AnalysisServedFromCache(cache: map<string, Cached>, text: string, prompt: string,
                                c1: Result<string, string>, u: Result<string, string>, c2: Result<string, string>)
    requires c1.Success?
    requires "analyze_" + text !in cache
    ensures var first := AnalyzeContent(cache, text, c1);
            var between := GenerateImage(first.cache, prompt, u);
            var second := AnalyzeContent(between.cache, text, c2);
            second.result == first.result && !second.requested
  {
    PrefixesSeparateOperations(text, prompt);
  }
}

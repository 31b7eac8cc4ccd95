/** String helpers with the semantics of the ECMAScript built-ins the source uses:
    `String.prototype.trim`, `includes`, `startsWith`, `split` on a character and on a
    regular expression of the form `/[class]+/`, and `Number.prototype.toString()` on integers. */
module Text {

  /** The characters `\s` matches and `trim` removes (WhiteSpace and LineTerminator of ECMA-262):
      this set and the range U+2000 to U+200A. */
  const WhitespaceChars: set<char> := {
    ' ', '\t', '\n', '\U{000B}', '\U{000C}', '\r', '\U{00A0}', '\U{1680}',
    '\U{2028}', '\U{2029}', '\U{202F}', '\U{205F}', '\U{3000}', '\U{FEFF}'}

  predicate IsWhitespace(c: char) {
    c in WhitespaceChars || ('\U{2000}' <= c <= '\U{200A}')
  }

  /** The characters `\w` matches: ASCII letters, digits and underscore. */
  predicate IsWordChar(c: char) {
    ('a' <= c <= 'z') || ('A' <= c <= 'Z') || ('0' <= c <= '9') || c == '_'
  }

  predicate IsDigit(c: char) {
    '0' <= c <= '9'
  }

  predicate AllWhitespace(s: string) {
    forall i | 0 <= i < |s| :: IsWhitespace(s[i])
  }

  /** Number of whitespace characters at the start of `s`. */
  function LeadingSpace(s: string): (n: nat)
    ensures n <= |s|
    ensures forall i | 0 <= i < n :: IsWhitespace(s[i])
    ensures n < |s| ==> !IsWhitespace(s[n])
  {
    if |s| == 0 || !IsWhitespace(s[0]) then 0 else 1 + LeadingSpace(s[1..])
  }

  /** Number of whitespace characters at the end of `s`. */
  function TrailingSpace(s: string): (n: nat)
    ensures n <= |s|
    ensures forall i | |s| - n <= i < |s| :: IsWhitespace(s[i])
    ensures n < |s| ==> !IsWhitespace(s[|s| - n - 1])
  {
    if |s| == 0 || !IsWhitespace(s[|s| - 1]) then 0 else 1 + TrailingSpace(s[..|s| - 1])
  }

  /** `s.trim()`: drops every leading and trailing whitespace character (see `TrimIsInfix`). */
  function Trim(s: string): (r: string)
    ensures |r| <= |s|
    ensures r == [] <==> AllWhitespace(s)
    ensures r != [] ==> !IsWhitespace(r[0]) && !IsWhitespace(r[|r| - 1])
  {
    var a := LeadingSpace(s);
    if a == |s| then [] else s[a..|s| - TrailingSpace(s)]
  }

  /** A string that neither starts nor ends with whitespace is its own trim. */
  lemma TrimOfTrimmed(s: string)
    requires s != [] ==> !IsWhitespace(s[0]) && !IsWhitespace(s[|s| - 1])
    ensures Trim(s) == s
  {
    if s != [] {
      assert LeadingSpace(s) == 0;
      assert TrailingSpace(s) == 0;
    }
  }

  /** The trimmed string is an infix of the input, and only whitespace lies around it. */
  lemma TrimIsInfix(s: string)
    ensures exists a | 0 <= a <= |s| - |Trim(s)| ::
              && Trim(s) == s[a..a + |Trim(s)|]
              && AllWhitespace(s[..a])
              && AllWhitespace(s[a + |Trim(s)|..])
  {
    var r := Trim(s);
    var a := LeadingSpace(s);
    if a == |s| {
      assert AllWhitespace(s[..0]) && AllWhitespace(s[0..]);
    } else {
      assert r == s[a..a + |r|];
      assert AllWhitespace(s[..a]);
      assert AllWhitespace(s[a + |r|..]);
    }
  }

  /** Trimming twice is trimming once. */
  lemma TrimIdempotent(s: string)
    ensures Trim(Trim(s)) == Trim(s)
  {
    var r := Trim(s);
    if r != [] {
      assert LeadingSpace(r) == 0;
      assert TrailingSpace(r) == 0;
    }
  }

  predicate StartsWith(s: string, prefix: string) {
    |prefix| <= |s| && s[..|prefix|] == prefix
  }

  /** `p` occurs in `s` starting at position `i`. */
  predicate OccursAt(s: string, p: string, i: int) {
    0 <= i <= |s| - |p| && s[i..i + |p|] == p
  }

  /** `s.includes(p)`. */
  predicate Contains(s: string, p: string) {
    exists i | 0 <= i <= |s| :: OccursAt(s, p, i)
  }

  /** An occurrence of a whitespace-free, non-empty `p` survives trimming. */
  lemma ContainsSurvivesTrim(s: string, p: string)
    requires Contains(s, p)
    requires p != []
    requires forall k | 0 <= k < |p| :: !IsWhitespace(p[k])
    ensures Contains(Trim(s), p)
  {
    var i :| 0 <= i <= |s| && OccursAt(s, p, i);
    OccurrenceInsideTrim(s, p, i);
    OccursInTrim(s, p, i);
  }

  lemma OccursInTrim(s: string, p: string, i: int)
    requires OccursAt(s, p, i) && p != []
    requires LeadingSpace(s) <= i && i + |p| <= |s| - TrailingSpace(s)
    ensures OccursAt(Trim(s), p, i - LeadingSpace(s))
  {
    TrimKeepsMiddle(s);
    OccursInSlice(s, p, LeadingSpace(s), |s| - TrailingSpace(s), i);
  }

  /** What `Trim` keeps of a string that is not all whitespace. */
  lemma TrimKeepsMiddle(s: string)
    ensures LeadingSpace(s) < |s| ==> Trim(s) == s[LeadingSpace(s)..|s| - TrailingSpace(s)]
  {
  }

  /** An occurrence lying within `s[a..b]` is an occurrence in that slice, shifted by `a`. */
  lemma OccursInSlice(s: string, p: string, a: int, b: int, i: int)
    requires OccursAt(s, p, i)
    requires 0 <= a <= i && i + |p| <= b <= |s|
    ensures OccursAt(s[a..b], p, i - a)
  {
    SliceOfSlice(s, a, b, i - a, i - a + |p|);
  }

  lemma OccurrenceInsideTrim(s: string, p: string, i: int)
    requires OccursAt(s, p, i)
    requires p != []
    requires forall k | 0 <= k < |p| :: !IsWhitespace(p[k])
    ensures LeadingSpace(s) <= i
    ensures i + |p| <= |s| - TrailingSpace(s)
  {
    var e := i + |p| - 1;
    assert s[i] == p[0];
    assert s[e] == p[|p| - 1];
  }

  lemma SliceOfSlice<T>(s: seq<T>, a: int, b: int, i: int, j: int)
    requires 0 <= a <= b <= |s|
    requires 0 <= i <= j <= b - a
    ensures s[a..b][i..j] == s[a + i..a + j]
  {
    var x := s[a..b][i..j];
    var y := s[a + i..a + j];
    assert |x| == |y|;
    forall k | 0 <= k < |x|
      ensures x[k] == y[k]
    {
    }
  }

  /** ASCII case folding of `toLowerCase`. */
  function LowerChar(c: char): char {
    if 'A' <= c <= 'Z' then (c as int + 32) as char else c
  }

  function ToLower(s: string): (r: string)
    ensures |r| == |s|
    ensures forall i | 0 <= i < |s| :: r[i] == LowerChar(s[i])
  {
    seq(|s|, i requires 0 <= i < |s| => LowerChar(s[i]))
  }

  /** Position of the first `c` in `s`. */
  function IndexOf(s: string, c: char): (i: nat)
    requires c in s
    ensures i < |s| && s[i] == c && c !in s[..i]
  {
    if s[0] == c then 0 else 1 + IndexOf(s[1..], c)
  }

  /** `parts.join(sep)`. */
  function Join(parts: seq<string>, sep: string): string {
    if |parts| == 0 then []
    else if |parts| == 1 then parts[0]
    else parts[0] + sep + Join(parts[1..], sep)
  }

  /** `s.split(sep)` for a one-character string separator: every occurrence cuts, so adjacent
      separators produce empty pieces. */
  function SplitOn(s: string, sep: char): (r: seq<string>)
    ensures |r| >= 1
    ensures forall i | 0 <= i < |r| :: sep !in r[i]
    decreases |s|
  {
    if sep !in s then [s]
    else
      var i := IndexOf(s, sep);
      [s[..i]] + SplitOn(s[i + 1..], sep)
  }

  /** Splitting on a character and joining the pieces with it gives the string back. */
  lemma {:induction false} SplitOnJoin(s: string, sep: char)
    ensures Join(SplitOn(s, sep), [sep]) == s
    decreases |s|
  {
    if sep in s {
      var i := IndexOf(s, sep);
      var rest := SplitOn(s[i + 1..], sep);
      SplitOnJoin(s[i + 1..], sep);
      assert SplitOn(s, sep) == [s[..i]] + rest;
      assert (([s[..i]] + rest)[1..]) == rest;
      assert s == s[..i] + [sep] + s[i + 1..];
    }
  }

  /** Joining pieces that do not contain the separator and splitting again gives the pieces
      back. */
  lemma {:induction false} JoinThenSplit(parts: seq<string>, sep: char)
    requires |parts| >= 1
    requires forall i | 0 <= i < |parts| :: sep !in parts[i]
    ensures SplitOn(Join(parts, [sep]), sep) == parts
    decreases |parts|
  {
    if |parts| > 1 {
      var head := parts[0];
      var rest := Join(parts[1..], [sep]);
      var s := head + [sep] + rest;
      assert Join(parts, [sep]) == s;
      assert s[|head|] == sep;
      var i := IndexOf(s, sep);
      assert forall j | 0 <= j < |head| :: s[j] == head[j] && s[j] != sep;
      assert i == |head|;
      assert s[..i] == head && s[i + 1..] == rest;
      JoinThenSplit(parts[1..], sep);
      assert [head] + parts[1..] == parts;
    }
  }

  /** The character classes the source splits on: `\s` and `\W`. */
  datatype Separator = Whitespace | NonWord

  predicate IsSep(kind: Separator, c: char) {
    match kind
    case Whitespace => IsWhitespace(c)
    case NonWord => !IsWordChar(c)
  }

  predicate NoSeparator(s: string, kind: Separator) {
    forall i | 0 <= i < |s| :: !IsSep(kind, s[i])
  }

  /** `s.split(/[class]+/)`: every maximal run of separators cuts the string. A leading (trailing)
      run yields an empty first (last) piece, and the empty string yields one empty piece.

      The string is read one character at a time: a non-separator joins the first piece of what
      follows, a separator followed by another one is inside a run, and the last separator of a
      run opens a new piece. */
  function SplitOnRuns(s: string, kind: Separator): (r: seq<string>)
    ensures |r| >= 1
  {
    if s == [] then [[]]
    else
      var rest := SplitOnRuns(s[1..], kind);
      if !IsSep(kind, s[0]) then [[s[0]] + rest[0]] + rest[1..]
      else if |s| > 1 && IsSep(kind, s[1]) then rest
      else [[]] + rest
  }

  /** No piece holds a separator. */
  predicate PiecesFree(r: seq<string>, kind: Separator) {
    forall i | 0 <= i < |r| :: NoSeparator(r[i], kind)
  }

  /** Only the first and the last piece may be empty. */
  predicate InnerNonEmpty(r: seq<string>) {
    forall i | 0 < i < |r| - 1 :: r[i] != []
  }

  /** The pieces of a run-split hold no separator; only the first and the last piece can be
      empty, and each is non-empty when the string starts (ends) with a non-separator. */
  lemma {:induction false} SplitOnRunsPieces(s: string, kind: Separator)
    ensures PiecesFree(SplitOnRuns(s, kind), kind) && InnerNonEmpty(SplitOnRuns(s, kind))
    ensures |s| > 0 && !IsSep(kind, s[0]) ==> SplitOnRuns(s, kind)[0] != []
    ensures |s| > 0 && !IsSep(kind, s[|s| - 1]) ==> SplitOnRuns(s, kind)[|SplitOnRuns(s, kind)| - 1] != []
  {
    if s != [] {
      SplitOnRunsPieces(s[1..], kind);
      if !IsSep(kind, s[0]) {
        PiecesOfWordChar(s[0], SplitOnRuns(s[1..], kind), kind);
      } else if |s| == 1 || !IsSep(kind, s[1]) {
        PiecesOfRunEnd(SplitOnRuns(s[1..], kind), kind);
      }
    }
  }

  /** A non-separator joins the first piece. */
  lemma PiecesOfWordChar(c: char, rest: seq<string>, kind: Separator)
    requires |rest| >= 1 && !IsSep(kind, c)
    requires PiecesFree(rest, kind) && InnerNonEmpty(rest)
    ensures var r := [[c] + rest[0]] + rest[1..];
            && PiecesFree(r, kind) && InnerNonEmpty(r) && r[0] != []
            && |r| == |rest| && (|rest| > 1 ==> r[|r| - 1] == rest[|rest| - 1])
  {
    var r := [[c] + rest[0]] + rest[1..];
    forall i | 0 <= i < |r| ensures NoSeparator(r[i], kind) {
      if i > 0 {
        assert r[i] == rest[i];
      }
    }
  }

  /** The end of a separator run opens a new, empty first piece. */
  lemma PiecesOfRunEnd(rest: seq<string>, kind: Separator)
    requires |rest| >= 1 && (|rest| > 1 ==> rest[0] != [])
    requires PiecesFree(rest, kind) && InnerNonEmpty(rest)
    ensures var r := [[]] + rest;
            PiecesFree(r, kind) && InnerNonEmpty(r) && r[|r| - 1] == rest[|rest| - 1]
  {
    var r := [[]] + rest;
    forall i | 0 <= i < |r| ensures NoSeparator(r[i], kind) {
      if i > 0 {
        assert r[i] == rest[i - 1];
      }
    }
    forall i | 0 < i < |r| - 1 ensures r[i] != [] {
      assert r[i] == rest[i - 1];
    }
  }

  /** The characters of `s` that are not separators, in order. */
  function Keep(s: string, kind: Separator): (r: string)
    ensures |r| <= |s|
  {
    if |s| == 0 then [] else (if IsSep(kind, s[0]) then [] else [s[0]]) + Keep(s[1..], kind)
  }

  function Flatten(parts: seq<string>): string {
    if |parts| == 0 then [] else parts[0] + Flatten(parts[1..])
  }

  lemma FlattenCons(head: string, more: seq<string>)
    ensures Flatten([head] + more) == head + Flatten(more)
  {
    assert ([head] + more)[1..] == more;
  }

  /** Adding a character to the front of the first part adds it to the front of the whole. */
  lemma FlattenPrepend(c: char, parts: seq<string>)
    requires |parts| >= 1
    ensures Flatten([[c] + parts[0]] + parts[1..]) == [c] + Flatten(parts)
  {
    FlattenCons([c] + parts[0], parts[1..]);
  }

  /** The pieces of a run-split are exactly the non-separator characters of the input, in order:
      nothing but separators is lost and nothing is invented. */
  lemma {:induction false} SplitOnRunsKeepsContent(s: string, kind: Separator)
    ensures Flatten(SplitOnRuns(s, kind)) == Keep(s, kind)
  {
    if s != [] {
      SplitOnRunsKeepsContent(s[1..], kind);
      if !IsSep(kind, s[0]) {
        FlattenPrepend(s[0], SplitOnRuns(s[1..], kind));
      } else if |s| == 1 || !IsSep(kind, s[1]) {
        FlattenCons([], SplitOnRuns(s[1..], kind));
      }
    }
  }

  /** Number of words in `s`: positions holding a non-separator that is first or follows a
      separator. `prevSep` says whether the character before `s` was a separator. */
  function WordStarts(s: string, kind: Separator, prevSep: bool): nat
    decreases |s|
  {
    if |s| == 0 then 0
    else (if prevSep && !IsSep(kind, s[0]) then 1 else 0) + WordStarts(s[1..], kind, IsSep(kind, s[0]))
  }

  /** Whether a separator came before matters only for a leading non-separator. */
  lemma WordStartsAfterSeparator(s: string, kind: Separator)
    ensures WordStarts(s, kind, true) == WordStarts(s, kind, false) + (if |s| > 0 && !IsSep(kind, s[0]) then 1 else 0)
  {
  }

  /** On a string that ends with a non-separator, the run-split has one piece per word, plus the
      empty first piece a leading separator run produces. */
  lemma {:induction false} SplitOnRunsCountsWords(s: string, kind: Separator)
    requires |s| > 0 && !IsSep(kind, s[|s| - 1])
    ensures |SplitOnRuns(s, kind)| == WordStarts(s, kind, true) + (if IsSep(kind, s[0]) then 1 else 0)
  {
    if |s| == 1 {
      assert WordStarts(s[1..], kind, false) == 0;
    } else {
      assert s[1..][|s| - 2] == s[|s| - 1];
      SplitOnRunsCountsWords(s[1..], kind);
      WordStartsAfterSeparator(s[1..], kind);
    }
  }

  function DigitChar(d: int): char
    requires 0 <= d < 10
  {
    "0123456789"[d]
  }

  /** `n.toString()` for a non-negative integer: canonical decimal digits. */
  function NatToDecimal(n: nat): (r: string)
    ensures |r| >= 1
    ensures forall i | 0 <= i < |r| :: IsDigit(r[i])
    ensures |r| > 1 ==> r[0] != '0'
  {
    if n < 10 then [DigitChar(n)] else NatToDecimal(n / 10) + [DigitChar(n % 10)]
  }

  /** The value of a string of decimal digits. */
  function DecimalValue(s: string): nat
    requires forall i | 0 <= i < |s| :: IsDigit(s[i])
  {
    if |s| == 0 then 0 else 10 * DecimalValue(s[..|s| - 1]) + DigitValue(s[|s| - 1])
  }

  function DigitValue(c: char): (d: nat)
    requires IsDigit(c)
    ensures d < 10
  {
    c as int - '0' as int
  }

  /** A digit is rendered back as itself. */
  lemma DigitCharOfValue(c: char)
    requires IsDigit(c)
    ensures DigitChar(DigitValue(c)) == c
  {
    var d := DigitValue(c);
    assert d in {0, 1, 2, 3, 4, 5, 6, 7, 8, 9};
  }

  /** Decimal rendering is read back as the same number. */
  lemma {:induction false} NatToDecimalRoundTrip(n: nat)
    ensures DecimalValue(NatToDecimal(n)) == n
  {
    if n >= 10 {
      NatToDecimalRoundTrip(n / 10);
      var r := NatToDecimal(n);
      assert r[..|r| - 1] == NatToDecimal(n / 10);
    }
  }

  /** Distinct numbers render as distinct strings. */
  lemma NatToDecimalInjective(m: nat, n: nat)
    requires NatToDecimal(m) == NatToDecimal(n)
    ensures m == n
  {
    NatToDecimalRoundTrip(m);
    NatToDecimalRoundTrip(n);
  }

  /** `i.toString()` for any integer. */
  function IntToDecimal(i: int): (r: string)
    ensures |r| >= 1
    ensures (r[0] == '-') <==> i < 0
  {
    if i < 0 then "-" + NatToDecimal(-i) else NatToDecimal(i)
  }
}

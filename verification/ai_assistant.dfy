/** The response handling and request batching of `AIAssistant` (`client/js/ai-assistant.js`):
    `parseResponse`, `validateResponse`, `sanitizeInput` and `batchProcess`.

    JSON-like values are a datatype; an object is the sequence of its own entries in
    `Object.entries` order, with distinct keys. The API call is a parameter `call` that either
    yields a response or fails, and the rate-limit wait is a `Pause` step in the returned trace.
    The `<script>` pass of `sanitizeInput` is a parameter `stripScripts`. */
module AiAssistant {
  import opened Wrappers
  import Text

  datatype Json =
    | JUndefined
    | JNull
    | JBool(b: bool)
    | JNum(n: int)
    | JStr(s: string)
    | JArray(items: seq<Json>)
    | JObject(members: seq<Member>)
    | JFunction

  datatype Member = Member(key: string, value: Json)

  /** JavaScript truthiness. */
  predicate Truthy(v: Json) {
    match v
    case JUndefined => false
    case JNull => false
    case JBool(b) => b
    case JNum(n) => n != 0
    case JStr(s) => s != ""
    case _ => true
  }

  /** `typeof v === 'object'`. */
  predicate IsObjectType(v: Json) {
    v.JNull? || v.JArray? || v.JObject?
  }

  /** The array index a property key names: canonical decimal digits only. */
  function CanonicalIndex(key: string): (r: Option<nat>)
    ensures r.Some? ==> Text.NatToDecimal(r.value) == key
  {
    if |key| >= 1 && (forall i | 0 <= i < |key| :: Text.IsDigit(key[i])) && (|key| == 1 || key[0] != '0')
    then
      CanonicalDecimal(key);
      Some(Text.DecimalValue(key))
    else None
  }

  lemma {:induction false} CanonicalDecimal(key: string)
    requires |key| >= 1 && forall i | 0 <= i < |key| :: Text.IsDigit(key[i])
    requires |key| == 1 || key[0] != '0'
    ensures Text.NatToDecimal(Text.DecimalValue(key)) == key
  {
    var n := Text.DecimalValue(key);
    if |key| == 1 {
      assert n == 10 * Text.DecimalValue(key[..0]) + Text.DigitValue(key[0]);
      assert key[..0] == [];
      Text.DigitCharOfValue(key[0]);
    } else {
      var init := key[..|key| - 1];
      assert forall i | 0 <= i < |init| :: Text.IsDigit(init[i]);
      assert init[0] == key[0];
      CanonicalDecimal(init);
      var m := Text.DecimalValue(init);
      assert n == 10 * m + Text.DigitValue(key[|key| - 1]);
      assert m >= 1;
      assert n / 10 == m && n % 10 == Text.DigitValue(key[|key| - 1]);
      Text.DigitCharOfValue(key[|key| - 1]);
      assert key == init + [key[|key| - 1]];
    }
  }

  /** The value under `key` among an object's entries, `undefined` when absent. */
  function Lookup(members: seq<Member>, key: string): Json {
    if members == [] then JUndefined
    else if members[0].key == key then members[0].value
    else Lookup(members[1..], key)
  }

  /** Property access `v[key]` on a value that is neither null nor undefined (own properties
      only; a string's characters are its indexed properties). */
  function Get(v: Json, key: string): Json {
    match v
    case JObject(members) => Lookup(members, key)
    case JArray(items) =>
      var i := CanonicalIndex(key);
      if i.Some? && i.value < |items| then items[i.value] else JUndefined
    case JStr(s) =>
      var i := CanonicalIndex(key);
      if i.Some? && i.value < |s| then JStr([s[i.value]]) else JUndefined
    case _ => JUndefined
  }

  const InvalidFormat: string := "Invalid API response format"
  const NoProperties: string := "TypeError: Cannot read properties of null or undefined"

  /** `parseResponse`: `choices[0].message.content` when `choices`, `choices[0]` and
      `choices[0].message` are all truthy; otherwise it throws. */
  function ParseResponse(response: Json): (r: Result<Json, string>)
    ensures response.JNull? || response.JUndefined? ==> r == Failure(NoProperties)
    ensures !response.JNull? && !response.JUndefined? && !Truthy(Get(response, "choices")) ==> r == Failure(InvalidFormat)
    ensures r.Failure? ==> r.error == NoProperties || r.error == InvalidFormat
    ensures r == Failure(NoProperties) <==> response.JNull? || response.JUndefined?
    ensures !response.JNull? && !response.JUndefined? ==>
              var choices := Get(response, "choices");
              var first := Get(choices, "0");
              var message := Get(first, "message");
              && (r.Success? <==> Truthy(choices) && Truthy(first) && Truthy(message))
              && (r.Success? ==> r.value == Get(message, "content"))
  {
    if response.JNull? || response.JUndefined? then Failure(NoProperties)
    else
      var choices := Get(response, "choices");
      if !Truthy(choices) then Failure(InvalidFormat)
      else
        var first := Get(choices, "0");
        if !Truthy(first) then Failure(InvalidFormat)
        else
          var message := Get(first, "message");
          if !Truthy(message) then Failure(InvalidFormat)
          else Success(Get(message, "content"))
  }

  /** A chat-completion reply as the API sends it: one choice whose message carries `content`,
      followed by any other choices. */
  function Reply(content: Json, others: seq<Json>): Json {
    var message := JObject([Member("role", JStr("assistant")), Member("content", content)]);
    JObject([Member("choices", JArray([JObject([Member("message", message)])] + others))])
  }

  /** Parsing a reply gives back its first message's content. */
  lemma ParseReply(content: Json, others: seq<Json>)
    ensures ParseResponse(Reply(content, others)) == Success(content)
  {
    var message := JObject([Member("role", JStr("assistant")), Member("content", content)]);
    var first := JObject([Member("message", message)]);
    var choices := JArray([first] + others);
    assert Get(Reply(content, others), "choices") == choices;
    FirstIndexKey();
    assert Get(choices, "0") == first;
    assert Get(first, "message") == message;
    assert "role" != "content";
    assert message.members[1..] == [Member("content", content)];
    assert Lookup(message.members[1..], "content") == content;
    assert Lookup(message.members, "content") == content;
    assert Get(message, "content") == content;
  }

  /** The key `"0"` names the first element. */
  lemma FirstIndexKey()
    ensures CanonicalIndex("0") == Some(0)
  {
    assert Text.DecimalValue("0") == 0 by {
      assert "0"[..0] == [];
    }
  }

  const InvalidResponse: string := "Invalid response format"
  const NoChoices: string := "No choices in response"

  /** `validateResponse`: a truthy object whose `choices` is a non-empty array passes;
      otherwise it throws, with the object check first. */
  function ValidateResponse(response: Json): (r: Result<bool, string>)
    ensures r.Success? ==> r.value
    ensures !Truthy(response) || !IsObjectType(response) ==> r == Failure(InvalidResponse)
    ensures r.Success? <==>
              response.JObject? && Get(response, "choices").JArray? && |Get(response, "choices").items| > 0
  {
    if !Truthy(response) || !IsObjectType(response) then Failure(InvalidResponse)
    else
      var choices := Get(response, "choices");
      if !Truthy(choices) || !choices.JArray? || |choices.items| == 0 then Failure(NoChoices)
      else Success(true)
  }

  /** The two checks agree when `choices` is an array: a response that parses also validates.
      They differ otherwise, in both directions: an array-like object of choices parses but
      does not validate, and a choices array holding `null` validates but does not parse. */
  lemma ParseAndValidate(response: Json)
    ensures ParseResponse(response).Success? && response.JObject? && Get(response, "choices").JArray? ==>
              ValidateResponse(response).Success?
    ensures var arrayLike := JObject([Member("choices", JObject([Member("0", Reply(JStr("x"), []).members[0].value.items[0])]))]);
            ParseResponse(arrayLike).Success? && ValidateResponse(arrayLike).Failure?
    ensures var nullChoice := JObject([Member("choices", JArray([JNull]))]);
            ValidateResponse(nullChoice).Success? && ParseResponse(nullChoice).Failure?
  {
    FirstIndexKey();
    if ParseResponse(response).Success? && response.JObject? && Get(response, "choices").JArray? {
      var items := Get(response, "choices").items;
      assert Get(Get(response, "choices"), "0") != JUndefined;
      assert |items| > 0;
    }
  }

  /** `s.replace(re, '')` with a global regular expression whose matches are never empty:
      scan left to right, drop each match, and resume after it. The scanner `m` gives the
      length of the match at the front of a string, 0 when there is none (a length past the
      end counts as the rest of the string). */
  function RemoveMatches(s: string, m: string -> nat): (r: string)
    ensures |r| <= |s|
    decreases |s|
  {
    if s == [] then []
    else
      var n := if m(s) <= |s| then m(s) else |s|;
      if n > 0 then RemoveMatches(s[n..], m)
      else [s[0]] + RemoveMatches(s[1..], m)
  }

  /** The expression matches somewhere in `s`. */
  predicate MatchesSomewhere(s: string, m: string -> nat) {
    exists i | 0 <= i < |s| :: m(s[i..]) > 0
  }

  /** Removal changes the string exactly when the expression matches in it. */
  lemma {:induction false} RemoveMatchesFixpoint(s: string, m: string -> nat)
    ensures RemoveMatches(s, m) == s <==> !MatchesSomewhere(s, m)
    decreases |s|
  {
    if s != [] {
      RemoveMatchesFixpoint(s[1..], m);
      if m(s) > 0 {
        assert s[0..] == s;
        assert MatchesSomewhere(s, m);
        var n := if m(s) <= |s| then m(s) else |s|;
        assert |RemoveMatches(s[n..], m)| <= |s| - n;
      } else {
        assert MatchesSomewhere(s, m) <==> MatchesSomewhere(s[1..], m) by {
          if MatchesSomewhere(s, m) {
            var i :| 0 <= i < |s| && m(s[i..]) > 0;
            assert i > 0 by {
              if i == 0 { assert s[0..] == s; }
            }
            assert s[1..][i - 1..] == s[i..];
          }
          if MatchesSomewhere(s[1..], m) {
            var i :| 0 <= i < |s[1..]| && m(s[1..][i..]) > 0;
            assert s[1..][i..] == s[i + 1..];
          }
        }
      }
    }
  }

  const JavascriptScheme: string := "javascript:"

  /** `/javascript:/gi` at the front of `s`. */
  function SchemeMatch(s: string): (n: nat)
    ensures n <= |s|
  {
    if |s| >= |JavascriptScheme| && Text.ToLower(s[..|JavascriptScheme|]) == JavascriptScheme
    then |JavascriptScheme| else 0
  }

  /** The length of the run of word characters at the front of `s`. */
  function WordRun(s: string): (n: nat)
    ensures n <= |s|
    ensures forall i | 0 <= i < n :: Text.IsWordChar(s[i])
    ensures n < |s| ==> !Text.IsWordChar(s[n])
  {
    if s == [] || !Text.IsWordChar(s[0]) then 0 else 1 + WordRun(s[1..])
  }

  /** `/on\w+=/gi` at the front of `s`. The greedy `\w+` can only be followed by `=` at the end
      of the whole run of word characters, since `=` is not one, so backtracking never finds a
      shorter match. */
  function HandlerMatch(s: string): (n: nat)
    ensures n <= |s|
  {
    if |s| >= 2 && Text.LowerChar(s[0]) == 'o' && Text.LowerChar(s[1]) == 'n' then
      var w := WordRun(s[2..]);
      if w >= 1 && 2 + w < |s| && s[2 + w] == '=' then 3 + w else 0
    else 0
  }

  /** `sanitizeInput` on a string: the script pass, one removal pass per pattern, then trim. */
  function SanitizeString(stripScripts: string -> string, s: string): (r: string)
    ensures r == Text.Trim(r)
    ensures |r| <= |stripScripts(s)|
  {
    Text.TrimIdempotent(RemoveMatches(RemoveMatches(stripScripts(s), SchemeMatch), HandlerMatch));
    Text.Trim(RemoveMatches(RemoveMatches(stripScripts(s), SchemeMatch), HandlerMatch))
  }

  /** No string shorter than `javascript:` holds a match of it. */
  lemma ShortHasNoScheme(s: string)
    requires |s| < |JavascriptScheme|
    ensures RemoveMatches(s, SchemeMatch) == s
  {
    RemoveMatchesFixpoint(s, SchemeMatch);
  }

  /** `on\w+=` cannot match where no character folds to `o`. */
  lemma NoHandlerWithoutO(s: string)
    requires forall i | 0 <= i < |s| :: Text.LowerChar(s[i]) != 'o'
    ensures RemoveMatches(s, HandlerMatch) == s
  {
    forall i | 0 <= i < |s| ensures HandlerMatch(s[i..]) == 0 {
      assert s[i..][0] == s[i];
    }
    RemoveMatchesFixpoint(s, HandlerMatch);
  }

  /** A string that starts with `javascript:` matches at its front. */
  lemma SchemeAtFront(s: string)
    requires |s| >= |JavascriptScheme| && s[..|JavascriptScheme|] == JavascriptScheme
    ensures SchemeMatch(s) == |JavascriptScheme|
  {
    assert Text.ToLower(JavascriptScheme) == JavascriptScheme;
  }

  /** A character that differs from the scheme at its position rules out a match. */
  lemma SchemeBlocked(s: string, k: nat)
    requires k < |JavascriptScheme| <= |s|
    requires Text.LowerChar(s[k]) != JavascriptScheme[k]
    ensures SchemeMatch(s) == 0
  {
    assert Text.ToLower(s[..|JavascriptScheme|])[k] == Text.LowerChar(s[k]);
  }

  /** A leading `javascript:` followed by less than a scheme's worth of text is removed and
      the rest kept. */
  lemma SchemeThenShortRest(rest: string)
    requires |rest| < |JavascriptScheme|
    ensures RemoveMatches(JavascriptScheme + rest, SchemeMatch) == rest
  {
    var s := JavascriptScheme + rest;
    assert s[..11] == JavascriptScheme;
    SchemeAtFront(s);
    assert s[11..] == rest;
    ShortHasNoScheme(rest);
  }

  /** Characters before the first position where a match can start are kept. */
  lemma {:induction false} KeepUnmatchedPrefix(s: string, j: nat, m: string -> nat)
    requires j <= |s|
    requires forall p | 0 <= p < j :: m(s[p..]) == 0
    ensures RemoveMatches(s, m) == s[..j] + RemoveMatches(s[j..], m)
  {
    if j > 0 {
      KeepUnmatchedPrefix(s, j - 1, m);
      KeepOneMore(s, j, m);
    }
  }

  /** Extending the kept prefix by one character with no match at its position. */
  lemma KeepOneMore(s: string, j: nat, m: string -> nat)
    requires 0 < j <= |s| && m(s[j - 1..]) == 0
    requires RemoveMatches(s, m) == s[..j - 1] + RemoveMatches(s[j - 1..], m)
    ensures RemoveMatches(s, m) == s[..j] + RemoveMatches(s[j..], m)
  {
    var r := s[j - 1..];
    KeepUnmatchedHead(r, m);
    assert r[1..] == s[j..];
    assert s[..j] == s[..j - 1] + [r[0]];
    SpliceHead(RemoveMatches(s, m), s[..j - 1], RemoveMatches(r, m), r[0], RemoveMatches(s[j..], m));
  }

  lemma SpliceHead<T>(x: seq<T>, a: seq<T>, y: seq<T>, c: T, t: seq<T>)
    requires x == a + y && y == [c] + t
    ensures x == (a + [c]) + t
  {
  }

  /** A string with no match at its front keeps its first character. */
  lemma KeepUnmatchedHead(s: string, m: string -> nat)
    requires s != [] && m(s) == 0
    ensures RemoveMatches(s, m) == [s[0]] + RemoveMatches(s[1..], m)
  {
  }

  /** No match starts within a leading `java` when the next character is `j` (where the scheme
      would need `s`), so those four characters are kept. */
  lemma KeepJavaPrefix(tail: string)
    requires |tail| >= |JavascriptScheme| - 1 && tail[0] == 'j'
    ensures RemoveMatches("java" + tail, SchemeMatch) == "java" + RemoveMatches(tail, SchemeMatch)
  {
    var s0 := "java" + tail;
    assert s0[..4] == "java" && s0[4..] == tail;
    JavaThenJBlocked(s0);
    KeepUnmatchedPrefix(s0, 4, SchemeMatch);
  }

  /** In `java` followed by `j`, no match of the scheme starts in the first four characters. */
  lemma JavaThenJBlocked(s: string)
    requires |s| >= |JavascriptScheme| + 3 && s[..4] == "java" && s[4] == 'j'
    ensures forall p | 0 <= p < 4 :: SchemeMatch(s[p..]) == 0
  {
    assert JavascriptScheme[0] == 'j' && JavascriptScheme[4] == 's';
    forall p | 0 <= p < 4 ensures SchemeMatch(s[p..]) == 0 {
      if p == 0 {
        assert s[0..] == s;
        SchemeBlocked(s, 4);
      } else {
        assert s[p..][0] == s[..4][p] == "java"[p];
        SchemeBlocked(s[p..], 0);
      }
    }
  }

  /** Sanitizing `javascript:` leaves nothing. */
  lemma SanitizeScheme()
    ensures SanitizeString(x => x, JavascriptScheme) == ""
  {
    SchemeThenShortRest("");
    assert JavascriptScheme + "" == JavascriptScheme;
  }

  /** The scheme pass over `javajavascript:script:` removes the inner `javascript:` and leaves
      the outer one spliced together. */
  lemma SchemePassSplices(rest: string)
    requires "java" + rest == JavascriptScheme
    ensures RemoveMatches("java" + (JavascriptScheme + rest), SchemeMatch) == JavascriptScheme
  {
    KeepJavaPrefix(JavascriptScheme + rest);
    SchemeThenShortRest(rest);
  }

  /** A string with no character folding to `o` that neither starts nor ends with whitespace
      (such as `javascript:`) is untouched by the handler pass and by trimming. */
  lemma HandlerFreeSurvivesTrim(s: string)
    requires forall i | 0 <= i < |s| :: Text.LowerChar(s[i]) != 'o'
    requires s != [] ==> !Text.IsWhitespace(s[0]) && !Text.IsWhitespace(s[|s| - 1])
    ensures Text.Trim(RemoveMatches(s, HandlerMatch)) == s
  {
    NoHandlerWithoutO(s);
    Text.TrimOfTrimmed(s);
  }

  /** Sanitizing `javajavascript:script:` (`rest` is the `script:` that completes `java`)
      leaves `javascript:`. */
  lemma SanitizeSpliced(rest: string)
    requires "java" + rest == JavascriptScheme
    ensures SanitizeString(x => x, "java" + (JavascriptScheme + rest)) == JavascriptScheme
  {
    SchemePassSplices(rest);
    SchemeIsHandlerFree();
    HandlerFreeSurvivesTrim(JavascriptScheme);
  }

  /** No character of `javascript:` folds to `o`, and it has no whitespace at either end. */
  lemma SchemeIsHandlerFree()
    ensures forall i | 0 <= i < |JavascriptScheme| :: Text.LowerChar(JavascriptScheme[i]) != 'o'
    ensures !Text.IsWhitespace(JavascriptScheme[0]) && !Text.IsWhitespace(JavascriptScheme[|JavascriptScheme| - 1])
  {
  }

  /** Each pattern is removed in a single left-to-right pass, so removal can splice a new
      match together: sanitizing `javajavascript:script:` leaves `javascript:`, and only a
      second sanitizing removes it. */
  lemma SanitizeNotIdempotent(rest: string)
    requires "java" + rest == JavascriptScheme
    ensures var once := SanitizeString(x => x, "java" + (JavascriptScheme + rest));
            once != "" && SanitizeString(x => x, once) == ""
  {
    SanitizeSpliced(rest);
    SanitizeScheme();
  }

  /** `null` somewhere inside: the value `Object.entries` refuses. */
  predicate HoldsNull(v: Json) {
    match v
    case JNull => true
    case JArray(items) => exists i | 0 <= i < |items| :: HoldsNull(items[i])
    case JObject(members) => exists i | 0 <= i < |members| :: HoldsNull(members[i].value)
    case _ => false
  }

  const NullEntries: string := "TypeError: Cannot convert undefined or null to object"

  /** `sanitizeInput`: strings are sanitized; objects (arrays included, whose entries are their
      indices) become plain objects with every entry sanitized; `null`, whose type is also
      `'object'`, throws; everything else is returned as it is. */
  function Sanitize(stripScripts: string -> string, v: Json): (r: Result<Json, string>)
    ensures v.JNull? ==> r == Failure(NullEntries)
    ensures v.JUndefined? || v.JBool? || v.JNum? || v.JFunction? ==> r == Success(v)
    ensures v.JStr? ==> r == Success(JStr(SanitizeString(stripScripts, v.s)))
    ensures r.Failure? ==> r.error == NullEntries
  {
    match v
    case JStr(s) => Success(JStr(SanitizeString(stripScripts, s)))
    case JNull => Failure(NullEntries)
    case JArray(items) =>
      var results := seq(|items|, i requires 0 <= i < |items| => Sanitize(stripScripts, items[i]));
      if exists i | 0 <= i < |results| :: results[i].Failure? then Failure(NullEntries)
      else Success(JObject(seq(|items|, i requires 0 <= i < |items| => Member(Text.NatToDecimal(i), results[i].value))))
    case JObject(members) =>
      var results := seq(|members|, i requires 0 <= i < |members| => Sanitize(stripScripts, members[i].value));
      if exists i | 0 <= i < |results| :: results[i].Failure? then Failure(NullEntries)
      else Success(JObject(seq(|members|, i requires 0 <= i < |members| => Member(members[i].key, results[i].value))))
    case _ => Success(v)
  }

  /** Sanitizing throws exactly when a `null` is reachable through objects and arrays; when it
      succeeds on an object it keeps the keys in order and sanitizes each value, and an array
      becomes an object keyed by its indices. */
  lemma {:induction false} SanitizeShape(stripScripts: string -> string, v: Json)
    ensures Sanitize(stripScripts, v).Failure? <==> HoldsNull(v)
    ensures v.JObject? && !HoldsNull(v) ==>
              var r := Sanitize(stripScripts, v).value;
              r.JObject? && |r.members| == |v.members| && forall i | 0 <= i < |v.members| ::
                r.members[i].key == v.members[i].key
                && Sanitize(stripScripts, v.members[i].value) == Success(r.members[i].value)
    ensures v.JArray? && !HoldsNull(v) ==>
              var r := Sanitize(stripScripts, v).value;
              r.JObject? && |r.members| == |v.items| && forall i | 0 <= i < |v.items| ::
                r.members[i].key == Text.NatToDecimal(i)
                && Sanitize(stripScripts, v.items[i]) == Success(r.members[i].value)
  {
    match v
    case JArray(items) =>
      var results := seq(|items|, i requires 0 <= i < |items| => Sanitize(stripScripts, items[i]));
      forall i | 0 <= i < |items| ensures results[i].Failure? <==> HoldsNull(items[i]) {
        SanitizeShape(stripScripts, items[i]);
      }
      assert HoldsNull(v) <==> exists i | 0 <= i < |results| :: results[i].Failure?;
    case JObject(members) =>
      var results := seq(|members|, i requires 0 <= i < |members| => Sanitize(stripScripts, members[i].value));
      forall i | 0 <= i < |members| ensures results[i].Failure? <==> HoldsNull(members[i].value) {
        SanitizeShape(stripScripts, members[i].value);
      }
      assert HoldsNull(v) <==> exists i | 0 <= i < |results| :: results[i].Failure?;
    case _ =>
  }

  /** The batch size `batchProcess` uses when none is given. */
  const DefaultBatchSize: nat := 3

  function Concat<T>(chunks: seq<seq<T>>): seq<T> {
    if chunks == [] then [] else chunks[0] + Concat(chunks[1..])
  }

  /** The batches of the loop `for (i = 0; i < n; i += size) requests.slice(i, i + size)`. */
  function Chunks<T>(s: seq<T>, size: nat): (r: seq<seq<T>>)
    requires size > 0
    ensures Concat(r) == s
    ensures forall i | 0 <= i < |r| :: 0 < |r[i]| <= size
    ensures forall i | 0 <= i < |r| - 1 :: |r[i]| == size
    decreases |s|
  {
    if s == [] then []
    else if |s| <= size then
      assert Concat([s][1..]) == [];
      [s]
    else
      var rest := Chunks(s[size..], size);
      assert ([s[..size]] + rest)[1..] == rest;
      assert s[..size] + s[size..] == s;
      [s[..size]] + rest
  }

  /** The loop makes `ceil(|s| / size)` batches: enough to hold every request, and one fewer
      would not be. */
  lemma {:induction false} ChunksCount<T>(s: seq<T>, size: nat)
    requires size > 0
    ensures |Chunks(s, size)| * size >= |s| > (|Chunks(s, size)| - 1) * size
    decreases |s|
  {
    if |s| > size {
      var n := |Chunks(s[size..], size)|;
      ChunksCount(s[size..], size);
      assert |Chunks(s, size)| == n + 1;
      assert (n + 1) * size == n * size + size;
    }
  }

  /** One step of the batch loop: a batch of requests sent together, or the rate-limit wait. */
  datatype Step<Req> = Send(batch: seq<Req>) | Pause

  /** The error of the first failing call in a batch, if any. */
  function FirstError<Req, Res, E>(batch: seq<Req>, call: Req -> Result<Res, E>): (r: Option<E>)
    ensures r.None? <==> forall i | 0 <= i < |batch| :: call(batch[i]).Success?
  {
    if batch == [] then None
    else if call(batch[0]).Failure? then Some(call(batch[0]).error)
    else FirstError(batch[1..], call)
  }

  /** The loop over the batches: each batch is sent, a failure ends the loop, and a pause
      separates a batch from the next one. Returns the result and the steps taken. */
  function RunBatches<Req, Res, E>(chunks: seq<seq<Req>>, call: Req -> Result<Res, E>): (r: (Result<seq<Res>, E>, seq<Step<Req>>))
    ensures r.1 == [] <==> chunks == []
    ensures r.1 != [] ==> r.1[0] == Send(chunks[0]) && r.1[|r.1| - 1].Send?
  {
    if chunks == [] then (Success([]), [])
    else
      var batch := chunks[0];
      match FirstError(batch, call)
      case Some(e) => (Failure(e), [Send(batch)])
      case None =>
        var (rest, steps) := RunBatches(chunks[1..], call);
        var results := seq(|batch|, i requires 0 <= i < |batch| => call(batch[i]).value);
        ( if rest.Success? then Success(results + rest.value) else rest,
          [Send(batch)] + (if |chunks| > 1 then [Pause] + steps else steps) )
  }

  /** `batchProcess`: succeeds exactly when every call does, and then returns one response per
      request, in request order. The size must be positive: with 0 the loop never advances. */
  function BatchProcess<Req, Res, E>(requests: seq<Req>, batchSize: nat, call: Req -> Result<Res, E>): (r: (Result<seq<Res>, E>, seq<Step<Req>>))
    requires batchSize > 0
    ensures r.0.Success? <==> forall i | 0 <= i < |requests| :: call(requests[i]).Success?
    ensures r.0.Success? ==>
              |r.0.value| == |requests| && forall i | 0 <= i < |requests| :: r.0.value[i] == call(requests[i]).value
  {
    RunBatchesResults(Chunks(requests, batchSize), call);
    RunBatches(Chunks(requests, batchSize), call)
  }

  /** The batch loop succeeds exactly when every call does, and then returns every response in
      request order. */
  lemma {:induction false} RunBatchesResults<Req, Res, E>(chunks: seq<seq<Req>>, call: Req -> Result<Res, E>)
    ensures var (r, _) := RunBatches(chunks, call);
            var all := Concat(chunks);
            && (r.Success? <==> forall i | 0 <= i < |all| :: call(all[i]).Success?)
            && (r.Success? ==> |r.value| == |all| && forall i | 0 <= i < |all| :: r.value[i] == call(all[i]).value)
  {
    if chunks != [] {
      RunBatchesResults(chunks[1..], call);
      var batch := chunks[0];
      var all := Concat(chunks);
      var tail := Concat(chunks[1..]);
      assert all == batch + tail;
      assert forall i | 0 <= i < |tail| :: all[|batch| + i] == tail[i];
      if FirstError(batch, call).None? {
        var (rest, _) := RunBatches(chunks[1..], call);
        if !rest.Success? {
          var i :| 0 <= i < |tail| && !call(tail[i]).Success?;
          assert !call(all[|batch| + i]).Success?;
        }
      } else {
        var i :| 0 <= i < |batch| && !call(batch[i]).Success?;
        assert all[i] == batch[i];
      }
    }
  }

  /** The batches a sequence of steps sends, in order. */
  function SentBatches<Req>(steps: seq<Step<Req>>): seq<seq<Req>> {
    if steps == [] then []
    else (if steps[0].Send? then [steps[0].batch] else []) + SentBatches(steps[1..])
  }

  /** When every call of the first batch succeeds, the loop sends it and, if more batches
      follow, pauses and carries on with them. */
  lemma RunBatchesUnfold<Req, Res, E>(chunks: seq<seq<Req>>, call: Req -> Result<Res, E>)
    requires chunks != []
    requires forall i | 0 <= i < |Concat(chunks)| :: call(Concat(chunks)[i]).Success?
    ensures forall i | 0 <= i < |Concat(chunks[1..])| :: call(Concat(chunks[1..])[i]).Success?
    ensures RunBatches(chunks, call).1 ==
              [Send(chunks[0])] + (if |chunks| > 1 then [Pause] + RunBatches(chunks[1..], call).1 else [])
  {
    var batch := chunks[0];
    var tail := Concat(chunks[1..]);
    assert Concat(chunks) == batch + tail;
    assert forall i | 0 <= i < |tail| :: Concat(chunks)[|batch| + i] == tail[i];
    assert forall i | 0 <= i < |batch| :: Concat(chunks)[i] == batch[i];
    assert FirstError(batch, call).None?;
    if |chunks| == 1 {
      assert chunks[1..] == [];
    }
  }

  /** When every call succeeds, every batch is sent, in order. */
  lemma {:induction false} RunBatchesSendsAll<Req, Res, E>(chunks: seq<seq<Req>>, call: Req -> Result<Res, E>)
    requires forall i | 0 <= i < |Concat(chunks)| :: call(Concat(chunks)[i]).Success?
    ensures SentBatches(RunBatches(chunks, call).1) == chunks
  {
    if chunks != [] {
      RunBatchesUnfold(chunks, call);
      RunBatchesSendsAll(chunks[1..], call);
      SentOfUnfolded(chunks[0], chunks[1..], RunBatches(chunks[1..], call).1);
      assert chunks == [chunks[0]] + chunks[1..];
    }
  }

  /** The batches sent by one unfolding of the loop: the first batch, then (after a pause)
      those sent by the rest. */
  lemma SentOfUnfolded<Req>(first: seq<Req>, more: seq<seq<Req>>, tailSteps: seq<Step<Req>>)
    requires SentBatches(tailSteps) == more
    ensures SentBatches([Send(first)] + (if |more| > 0 then [Pause] + tailSteps else [])) == [first] + more
  {
    var after := if |more| > 0 then [Pause] + tailSteps else [];
    assert ([Send(first)] + after)[1..] == after;
    if |more| > 0 {
      assert after[1..] == tailSteps;
    }
  }

  /** When every call succeeds, sending and pausing alternate, so there is one pause fewer
      than there are batches. */
  lemma {:induction false} RunBatchesAlternate<Req, Res, E>(chunks: seq<seq<Req>>, call: Req -> Result<Res, E>)
    requires forall i | 0 <= i < |Concat(chunks)| :: call(Concat(chunks)[i]).Success?
    ensures var steps := RunBatches(chunks, call).1;
            forall k | 0 <= k < |steps| - 1 :: steps[k].Send? != steps[k + 1].Send?
  {
    if |chunks| > 1 {
      RunBatchesUnfold(chunks, call);
      RunBatchesAlternate(chunks[1..], call);
      var steps := RunBatches(chunks, call).1;
      var tailSteps := RunBatches(chunks[1..], call).1;
      forall k | 2 <= k < |steps| - 1 ensures steps[k].Send? != steps[k + 1].Send? {
        assert steps[k] == tailSteps[k - 2] && steps[k + 1] == tailSteps[k - 1];
      }
    } else if |chunks| == 1 {
      RunBatchesUnfold(chunks, call);
    }
  }

  /** `batchProcess` sends the requests in batches of `batchSize`, the last possibly shorter;
      when every call succeeds the batches cover the requests in order, and a pause separates
      consecutive batches, with none before the first or after the last. */
  lemma BatchProcessSteps<Req, Res, E>(requests: seq<Req>, batchSize: nat, call: Req -> Result<Res, E>)
    requires batchSize > 0
    ensures var steps := BatchProcess(requests, batchSize, call).1;
            && (steps == [] <==> requests == [])
            && (steps != [] ==> steps[0].Send? && steps[|steps| - 1].Send?)
            && (forall k | 0 <= k < |steps| :: steps[k].Send? ==> 0 < |steps[k].batch| <= batchSize)
    ensures (forall i | 0 <= i < |requests| :: call(requests[i]).Success?) ==>
              var steps := BatchProcess(requests, batchSize, call).1;
              && Concat(SentBatches(steps)) == requests
              && forall k | 0 <= k < |steps| - 1 :: steps[k].Send? != steps[k + 1].Send?
  {
    var chunks := Chunks(requests, batchSize);
    RunBatchesSendsChunks(chunks, call);
    var steps := BatchProcess(requests, batchSize, call).1;
    forall k | 0 <= k < |steps| && steps[k].Send? ensures 0 < |steps[k].batch| <= batchSize {
      assert steps == RunBatches(chunks, call).1;
      assert steps[k].batch in chunks;
      var i :| 0 <= i < |chunks| && chunks[i] == steps[k].batch;
    }
    if forall i | 0 <= i < |requests| :: call(requests[i]).Success? {
      RunBatchesSendsAll(chunks, call);
      RunBatchesAlternate(chunks, call);
    }
  }

  lemma {:induction false} RunBatchesSendsChunks<Req, Res, E>(chunks: seq<seq<Req>>, call: Req -> Result<Res, E>)
    ensures forall k | 0 <= k < |RunBatches(chunks, call).1| && RunBatches(chunks, call).1[k].Send? ::
              RunBatches(chunks, call).1[k].batch in chunks
  {
    if chunks != [] {
      RunBatchesSendsChunks(chunks[1..], call);
      var steps := RunBatches(chunks, call).1;
      var tailSteps := RunBatches(chunks[1..], call).1;
      assert forall j | 0 <= j < |tailSteps| && tailSteps[j].Send? :: tailSteps[j].batch in chunks[1..];
      if FirstError(chunks[0], call).None? {
        var gap := if |chunks| > 1 then 2 else 1;
        assert steps == [Send(chunks[0])] + (if |chunks| > 1 then [Pause] + tailSteps else tailSteps);
        forall k | gap <= k < |steps| && steps[k].Send? ensures steps[k].batch in chunks {
          assert steps[k] == tailSteps[k - gap];
          assert tailSteps[k - gap].Send?;
          assert tailSteps[k - gap].batch in chunks[1..];
          var i :| 0 <= i < |chunks[1..]| && chunks[1..][i] == steps[k].batch;
          assert chunks[i + 1] == steps[k].batch;
        }
      }
    }
  }
}

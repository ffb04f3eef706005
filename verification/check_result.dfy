/** `CheckResult`: the outcome of one GatorGrader check (name, pass/fail
    flag, diagnostic), the tolerant parser that digs the three fields out of
    the tool's noisy output, and the one-line report a result renders to.

    Each of the parser's three regular expressions has the form
    `.*"key":\s*VALUE.*` and is matched against the whole (DOTALL) text. The
    greedy leading `.*` makes the engine try the LAST start position first,
    so a match is "the largest position p whose suffix starts with the key
    pattern followed by a well-formed value"; that is what `LastMatch`
    computes, position by position, without any regular-expression engine. */
module CheckResults {
  import opened Results
  import opened Texts

  datatype CheckResult = CheckResult(check: string, outcome: bool, diagnostic: string)

  /** `MalformedJsonException(reason, json)`: a reason and, unless the input
      was null, the normalised text that failed to parse. */
  datatype Malformed = Malformed(reason: string, json: Option<string>)

  /** `getMessage()` of the exception. */
  function Message(e: Malformed): string {
    "Failed to parse json -- " + e.reason
    + match e.json
      case Some(t) => ":\n---\n" + t + "\n---"
      case None => ""
  }

  const NullReason := "Null JSON text"
  const CheckKey := "check"
  const OutcomeKey := "outcome"
  const DiagnosticKey := "diagnostic"

  function MissingReason(key: string): string {
    "Could not find '" + key + "' key in"
  }

  // ---------------------------------------------------------------------
  // Normalisation: `json.replaceAll("\\\\\"", "'").trim()`

  /** A backslash immediately followed by a double quote starts at `i`. */
  predicate EscapedQuoteAt(s: string, i: int) {
    0 <= i && i + 1 < |s| && s[i] == '\\' && s[i + 1] == '"'
  }

  /** Left-to-right, non-overlapping replacement of every `\"` by `'`. */
  function Unescape(s: string): (r: string)
    ensures |r| <= |s|
    ensures r == [] <==> s == []
    ensures s != [] ==> (r[0] == '"' <==> s[0] == '"')
    ensures forall i :: !EscapedQuoteAt(r, i)
    ensures (forall i :: !EscapedQuoteAt(s, i)) ==> r == s
  {
    if s == [] then []
    else if EscapedQuoteAt(s, 0) then
      var rest := Unescape(s[2..]);
      var r := ['\''] + rest;
      forall i ensures !EscapedQuoteAt(r, i) {
        if i >= 1 && EscapedQuoteAt(r, i) {
          assert EscapedQuoteAt(rest, i - 1);
        }
      }
      r
    else
      var rest := Unescape(s[1..]);
      var r := [s[0]] + rest;
      forall i ensures !EscapedQuoteAt(r, i) {
        if i >= 1 && EscapedQuoteAt(r, i) {
          assert EscapedQuoteAt(rest, i - 1);
        }
      }
      assert (forall i :: !EscapedQuoteAt(s, i)) ==> forall i :: !EscapedQuoteAt(s[1..], i) by {
        forall i | EscapedQuoteAt(s[1..], i) ensures EscapedQuoteAt(s, i + 1) { }
      }
      r
  }

  /** `a` ends with a backslash and `b` starts with a double quote: the one
      way gluing two texts makes an escaped quote neither of them holds. */
  predicate EscapeAcross(a: string, b: string) {
    a != [] && b != [] && a[|a| - 1] == '\\' && b[0] == '"'
  }

  /** Replacement works piece by piece, unless the cut splits an escaped
      quote. */
  lemma {:induction false} UnescapeAppend(a: string, b: string)
    requires !EscapeAcross(a, b)
    ensures Unescape(a + b) == Unescape(a) + Unescape(b)
    decreases |a|
  {
    if a == [] {
      assert a + b == b;
    } else if EscapedQuoteAt(a, 0) {
      assert Unescape(a + b) == ['\''] + Unescape(a[2..] + b) by {
        assert EscapedQuoteAt(a + b, 0);
        assert (a + b)[2..] == a[2..] + b;
      }
      assert !EscapeAcross(a[2..], b) by {
        assert a[2..] != [] ==> a[2..][|a[2..]| - 1] == a[|a| - 1];
      }
      UnescapeAppend(a[2..], b);
      Regroup("'", Unescape(a[2..]), Unescape(b), Unescape(a + b), Unescape(a));
    } else {
      assert Unescape(a + b) == [a[0]] + Unescape(a[1..] + b) by {
        assert !EscapedQuoteAt(a + b, 0) by {
          if |a| == 1 {
            assert (a + b)[0] == a[0] && (b != [] ==> (a + b)[1] == b[0]);
          } else {
            assert (a + b)[0] == a[0] && (a + b)[1] == a[1];
          }
        }
        assert (a + b)[1..] == a[1..] + b;
      }
      assert !EscapeAcross(a[1..], b) by {
        assert a[1..] != [] ==> a[1..][|a[1..]| - 1] == a[|a| - 1];
      }
      UnescapeAppend(a[1..], b);
      Regroup([a[0]], Unescape(a[1..]), Unescape(b), Unescape(a + b), Unescape(a));
    }
  }

  lemma Regroup(h: string, x: string, y: string, whole: string, left: string)
    requires whole == h + (x + y) && left == h + x
    ensures whole == left + y
  {
  }

  /** Every escaped quote becomes one single quote, wherever it stands and
      whatever surrounds it. */
  lemma UnescapeQuote(a: string, b: string)
    ensures Unescape(a + "\\\"" + b) == Unescape(a) + "'" + Unescape(b)
  {
    var t := "\\\"" + b;
    assert a + "\\\"" + b == a + t;
    UnescapeAppend(a, t);
    assert EscapedQuoteAt(t, 0) && t[2..] == b;
  }

  /** Every other character is kept: one that does not open an escaped
      quote is copied and the replacement carries on after it. */
  lemma UnescapeKeeps(c: char, b: string)
    requires !EscapeAcross([c], b)
    ensures Unescape([c] + b) == [c] + Unescape(b)
  {
    UnescapeAppend([c], b);
    assert !EscapedQuoteAt([c], 0);
  }

  lemma EscapeFreeSlice(s: string, a: nat, b: nat)
    requires a <= b <= |s|
    requires forall i :: !EscapedQuoteAt(s, i)
    ensures forall i :: !EscapedQuoteAt(s[a..b], i)
  {
    assert forall i :: EscapedQuoteAt(s[a..b], i) ==> EscapedQuoteAt(s, a + i);
  }

  /** The text every key is searched in: escaped quotes replaced, then
      trimmed. No escaped quote is left in it. */
  function Normalize(json: string): (r: string)
    ensures r == Trim(Unescape(json))
    ensures forall i :: !EscapedQuoteAt(r, i)
    ensures r == [] || (!IsTrimmable(r[0]) && !IsTrimmable(r[|r| - 1]))
  {
    var u := Unescape(json);
    var l := TrimLeft(u);
    EscapeFreeSlice(u, |u| - |l|, |u|);
    assert l == u[|u| - |l|..|u|];
    var r := TrimRight(l);
    EscapeFreeSlice(l, 0, |r|);
    assert r == l[0..|r|];
    r
  }

  /** Text with no backslash has nothing to unescape, so normalizing it
      is trimming it. */
  lemma NormalizeEscapeFree(s: string)
    requires '\\' !in s
    ensures Normalize(s) == Trim(s)
  {
    assert forall i :: !EscapedQuoteAt(s, i) by {
      assert forall i :: 0 <= i < |s| ==> s[i] != '\\';
    }
    assert Unescape(s) == s;
  }

  // ---------------------------------------------------------------------
  // Matching one key at one position

  /** Java's `\s`: `[ \t\n\x0B\f\r]`. */
  predicate IsRegexSpace(c: char) {
    c == ' ' || c == '\t' || c == '\n' || c == '\U{B}' || c == '\U{C}' || c == '\r'
  }

  /** `\s*` is greedy and is followed by a non-space token, so it always
      stops at the first non-space position. */
  function SkipSpace(s: string, i: nat): (j: nat)
    requires i <= |s|
    ensures i <= j <= |s|
    ensures forall k :: i <= k < j ==> IsRegexSpace(s[k])
    ensures j == |s| || !IsRegexSpace(s[j])
    decreases |s| - i
  {
    if i == |s| || !IsRegexSpace(s[i]) then i else SkipSpace(s, i + 1)
  }

  /** What follows `"key":\s*` for each of the three patterns: a quoted
      string (`check`, `diagnostic`) or a boolean literal (`outcome`). */
  datatype Shape = Quoted | Flag

  function KeyPattern(key: string): string {
    "\"" + key + "\":"
  }

  /** The four literals `([Tt]rue|[Ff]alse)` accepts. */
  const FlagTokens: set<string> := {"true", "True", "false", "False"}

  /** The boolean literal `s` starts with, if any. */
  function FlagToken(s: string): (r: Option<string>)
    ensures r.Some? ==> r.value in FlagTokens && StartsWith(s, r.value)
    ensures r.None? ==> !StartsWith(s, "true") && !StartsWith(s, "True")
    ensures r.None? ==> !StartsWith(s, "false") && !StartsWith(s, "False")
  {
    if StartsWith(s, "true") then Some("true")
    else if StartsWith(s, "True") then Some("True")
    else if StartsWith(s, "false") then Some("false")
    else if StartsWith(s, "False") then Some("False")
    else None
  }

  /** What the value part of a pattern captures at the start of `t`: a
      flag literal, or for a quoted value the reluctant `(.*?)` between a
      double quote and the next one. */
  function Capture(t: string, shape: Shape): Option<string> {
    match shape
    case Flag => FlagToken(t)
    case Quoted =>
      if t != [] && t[0] == '"' then
        match Find(t[1..], '"')
        case Some(k) => Some(t[1..1 + k])
        case None => None
      else None
  }

  /** The value captured when the pattern for `key` is matched with its
      `"key":` at the very start of `s`. */
  function ValueAtStart(s: string, key: string, shape: Shape): Option<string> {
    var pattern := KeyPattern(key);
    if !StartsWith(s, pattern) then None
    else Capture(s[SkipSpace(s, |pattern|)..], shape)
  }

  /** A captured string value is a piece of the searched text that holds
      no double quote. */
  lemma CapturedString(s: string, key: string)
    requires ValueAtStart(s, key, Quoted).Some?
    ensures '"' !in ValueAtStart(s, key, Quoted).value
    ensures Contains(s, ValueAtStart(s, key, Quoted).value)
  {
    var j := SkipSpace(s, |KeyPattern(key)|);
    var t := s[j..];
    var v := ValueAtStart(s, key, Quoted).value;
    assert v == Capture(t, Quoted).value by {
      assert ValueAtStart(s, key, Quoted) == Capture(t, Quoted);
    }
    assert '"' !in v && OccursAt(s, v, j + 1) by {
      CaptureInside(t);
      assert v == s[j + 1..j + 1 + |v|];
    }
  }

  /** A quoted capture is the quote-free text right after the opening
      quote. */
  lemma CaptureInside(t: string)
    requires Capture(t, Quoted).Some?
    ensures 1 + |Capture(t, Quoted).value| < |t|
    ensures Capture(t, Quoted).value == t[1..1 + |Capture(t, Quoted).value|]
    ensures '"' !in Capture(t, Quoted).value
  {
    var k := Find(t[1..], '"').value;
    assert t[1..1 + k] == t[1..][..k];
  }

  /** A captured flag is one of the four literals. */
  lemma CapturedFlag(s: string, key: string)
    requires ValueAtStart(s, key, Flag).Some?
    ensures ValueAtStart(s, key, Flag).value in FlagTokens
  {
  }

  /** A match can only start at a double quote. */
  lemma HeadNotQuote(s: string, key: string, shape: Shape)
    requires s == [] || s[0] != '"'
    ensures ValueAtStart(s, key, shape).None?
  {
    var p := KeyPattern(key);
    assert p[0] == '"';
    if |s| >= |p| {
      assert s[..|p|][0] == s[0];
    }
  }

  // ---------------------------------------------------------------------
  // The backwards search, for any pattern anchored at its first character

  /** A pattern tried at the start of a text: the captured value, if the
      text starts with a match. */
  type Matcher = string -> Option<string>

  /** The matcher for the pattern of `key`. */
  function PatternOf(key: string, shape: Shape): Matcher {
    s => ValueAtStart(s, key, shape)
  }

  /** Every pattern of the parser begins with a double quote. */
  ghost predicate QuoteAnchored(at: Matcher) {
    forall s :: s == [] || s[0] != '"' ==> at(s).None?
  }

  lemma PatternIsQuoteAnchored(key: string, shape: Shape)
    ensures QuoteAnchored(PatternOf(key, shape))
  {
    forall s | s == [] || s[0] != '"' ensures PatternOf(key, shape)(s).None? {
      HeadNotQuote(s, key, shape);
    }
  }

  /** A match: where the `"key":` of the chosen occurrence starts, and the
      value captured there. */
  datatype Match = Match(pos: nat, value: string)

  /** The match the regular-expression engine reports: the LAST position at
      which the pattern succeeds, with nothing matching after it. */
  function LastMatch(s: string, at: Matcher): (r: Option<Match>)
    ensures r.Some? ==> r.value.pos < |s|
    ensures r.Some? ==> at(s[r.value.pos..]) == Some(r.value.value)
    ensures r.Some? ==> forall q :: r.value.pos < q < |s| ==> at(s[q..]).None?
    ensures r.None? ==> forall q :: 0 <= q < |s| ==> at(s[q..]).None?
    decreases |s|
  {
    if s == [] then None
    else
      assert forall q :: 1 <= q <= |s| ==> s[1..][q - 1..] == s[q..];
      match LastMatch(s[1..], at)
      case Some(m) => Some(Match(m.pos + 1, m.value))
      case None =>
        assert s[0..] == s;
        match at(s)
        case Some(v) => Some(Match(0, v))
        case None => None
  }

  /** The value a search result carries. */
  function ValueOf(m: Option<Match>): Option<string> {
    match m
    case Some(x) => Some(x.value)
    case None => None
  }

  /** The value of `key` in `s`, as `matcher.group(1)` after `matches()`. */
  function Field(s: string, key: string, shape: Shape): Option<string> {
    ValueOf(LastMatch(s, PatternOf(key, shape)))
  }

  /** `m` moved `k` characters to the right. */
  function Shifted(m: Option<Match>, k: nat): Option<Match> {
    match m
    case Some(x) => Some(Match(x.pos + k, x.value))
    case None => None
  }

  /** The match found at position 0 of `s`, if any. */
  function AtHead(s: string, at: Matcher): Option<Match> {
    match at(s)
    case Some(v) => Some(Match(0, v))
    case None => None
  }

  /** The outcome of the search is pinned down by its specification: the
      last position that matches, or none. */
  lemma LastMatchIs(s: string, at: Matcher, m: Option<Match>)
    requires m.Some? ==> m.value.pos < |s|
    requires m.Some? ==> at(s[m.value.pos..]) == Some(m.value.value)
    requires m.Some? ==> forall q :: m.value.pos < q < |s| ==> at(s[q..]).None?
    requires m.None? ==> forall q :: 0 <= q < |s| ==> at(s[q..]).None?
    ensures LastMatch(s, at) == m
  {
  }

  /** One step of the backwards search: a match in the tail wins over the
      first character; otherwise only position 0 is left. */
  lemma Unfold(c: char, x: string, at: Matcher)
    ensures LastMatch([c] + x, at)
            == if LastMatch(x, at).Some? then Shifted(LastMatch(x, at), 1) else AtHead([c] + x, at)
  {
    assert ([c] + x)[1..] == x;
  }

  lemma ShiftedTwice(m: Option<Match>, a: nat, b: nat)
    ensures Shifted(Shifted(m, a), b) == Shifted(m, a + b)
  {
  }

  /** Text without double quotes cannot hold the start of a match. */
  lemma {:induction false} SkipQuoteFree(x: string, rest: string, at: Matcher)
    requires QuoteAnchored(at)
    requires '"' !in x
    ensures LastMatch(x + rest, at) == Shifted(LastMatch(rest, at), |x|)
    decreases |x|
  {
    if x == [] {
      assert x + rest == rest;
      assert Shifted(LastMatch(rest, at), 0) == LastMatch(rest, at);
    } else {
      assert '"' !in x[1..] by {
        forall k | 0 <= k < |x| - 1 ensures x[1..][k] != '"' {
          assert x[1..][k] == x[k + 1];
        }
      }
      SkipQuoteFree(x[1..], rest, at);
      assert x[0] in x;
      SkipHead(x, rest, at);
      ShiftedTwice(LastMatch(rest, at), |x| - 1, 1);
    }
  }

  /** The first character of quote-free text is skipped by the search. */
  lemma SkipHead(x: string, rest: string, at: Matcher)
    requires QuoteAnchored(at)
    requires x != [] && x[0] != '"'
    ensures LastMatch(x + rest, at) == Shifted(LastMatch(x[1..] + rest, at), 1)
  {
    assert x + rest == [x[0]] + (x[1..] + rest);
    SkipOne(x[0], x[1..] + rest, at);
  }

  /** A character other than a double quote in front of a text moves its
      match along by one. */
  lemma SkipOne(c: char, y: string, at: Matcher)
    requires QuoteAnchored(at) && c != '"'
    ensures LastMatch([c] + y, at) == Shifted(LastMatch(y, at), 1)
  {
    Unfold(c, y, at);
    assert ([c] + y)[0] == c;
    assert at([c] + y).None?;
  }

  lemma NoMatchAfter(a: string, b: string, at: Matcher, p: nat)
    requires forall q :: p < q < |b| ==> at(b[q..]).None?
    requires p < |b|
    ensures at((a + b)[p + |a|..]) == at(b[p..])
    ensures forall q :: p + |a| < q < |a + b| ==> at((a + b)[q..]).None?
  {
    assert (a + b)[p + |a|..] == b[p..];
    forall q | p + |a| < q < |a + b|
      ensures at((a + b)[q..]).None?
    {
      assert (a + b)[q..] == b[q - |a|..];
    }
  }

  /** When a key occurs more than once the last occurrence wins: text
      placed in front of a match never changes which value is reported. */
  lemma LastWins(a: string, b: string, at: Matcher)
    requires LastMatch(b, at).Some?
    ensures LastMatch(a + b, at) == Shifted(LastMatch(b, at), |a|)
  {
    var m := LastMatch(b, at).value;
    NoMatchAfter(a, b, at, m.pos);
    var r := Some(Match(m.pos + |a|, m.value));
    assert Shifted(LastMatch(b, at), |a|) == r;
    LastMatchIs(a + b, at, r);
  }

  /** The same, for the value a key is given. */
  lemma LastFieldWins(a: string, b: string, key: string, shape: Shape)
    requires Field(b, key, shape).Some?
    ensures Field(a + b, key, shape) == Field(b, key, shape)
  {
    LastWins(a, b, PatternOf(key, shape));
  }

  /** `Boolean.parseBoolean`: true exactly for "true" in any letter case. */
  predicate ParseBoolean(token: string) {
    Lower(token) == "true"
  }

  // ---------------------------------------------------------------------
  // The parsing constructor `CheckResult(String json)`

  function Parse(json: Option<string>): (r: Result<CheckResult, Malformed>)
    ensures json.None? ==> r == Failure(Malformed(NullReason, None))
    ensures json.Some? ==>
      var n := Normalize(json.value);
      && (r.Success? <==>
            Field(n, CheckKey, Quoted).Some? && Field(n, OutcomeKey, Flag).Some?
            && Field(n, DiagnosticKey, Quoted).Some?)
      && (r.Failure? ==> r.error.json == Some(n))
  {
    match json
    case None => Failure(Malformed(NullReason, None))
    case Some(text) =>
      var n := Normalize(text);
      match Field(n, CheckKey, Quoted)
      case None => Failure(Malformed(MissingReason(CheckKey), Some(n)))
      case Some(check) =>
        match Field(n, OutcomeKey, Flag)
        case None => Failure(Malformed(MissingReason(OutcomeKey), Some(n)))
        case Some(token) =>
          match Field(n, DiagnosticKey, Quoted)
          case None => Failure(Malformed(MissingReason(DiagnosticKey), Some(n)))
          case Some(diagnostic) => Success(CheckResult(check, ParseBoolean(token), diagnostic))
  }

  /** Text found inside a suffix is text found in the whole. */
  lemma ContainsInSuffix(s: string, k: nat, v: string)
    requires k <= |s| && Contains(s[k..], v)
    ensures Contains(s, v)
  {
    var i: nat :| i <= |s[k..]| && OccursAt(s[k..], v, i);
    assert s[k..][i..i + |v|] == s[k + i..k + i + |v|];
    assert OccursAt(s, v, k + i);
  }

  /** A quoted field is a quote-free piece of the text it was found in. */
  lemma QuotedField(s: string, key: string)
    requires Field(s, key, Quoted).Some?
    ensures '"' !in Field(s, key, Quoted).value
    ensures Contains(s, Field(s, key, Quoted).value)
  {
    var m := LastMatch(s, PatternOf(key, Quoted)).value;
    assert ValueAtStart(s[m.pos..], key, Quoted) == Some(m.value);
    CapturedString(s[m.pos..], key);
    ContainsInSuffix(s, m.pos, m.value);
  }

  /** A flag field is one of the four literals. */
  lemma FlagField(s: string, key: string)
    requires Field(s, key, Flag).Some?
    ensures Field(s, key, Flag).value in FlagTokens
  {
    var m := LastMatch(s, PatternOf(key, Flag)).value;
    assert ValueAtStart(s[m.pos..], key, Flag) == Some(m.value);
    CapturedFlag(s[m.pos..], key);
  }

  /** Of the four literals the outcome pattern accepts, exactly the two
      spellings of "true" parse as true. */
  lemma FlagMeaning(token: string)
    requires token in FlagTokens
    ensures ParseBoolean(token) <==> token == "true" || token == "True"
  {
    if token == "True" {
      assert Lower(token) == "true";
    } else if token == "false" || token == "False" {
      assert Lower(token)[0] == 'f';
    }
  }

  /** A successful parse reports the three fields of the normalised text:
      names and diagnostics that hold no double quote and appear verbatim
      in it, and an outcome that is true exactly for `true` or `True`. */
  lemma ParseSuccess(json: string)
    requires Parse(Some(json)).Success?
    ensures var n := Normalize(json);
            var r := Parse(Some(json)).value;
            var token := Field(n, OutcomeKey, Flag).value;
            && r.check == Field(n, CheckKey, Quoted).value
            && r.diagnostic == Field(n, DiagnosticKey, Quoted).value
            && '"' !in r.check && Contains(n, r.check)
            && '"' !in r.diagnostic && Contains(n, r.diagnostic)
            && token in FlagTokens
            && (r.outcome <==> token == "true" || token == "True")
  {
    var n := Normalize(json);
    QuotedField(n, CheckKey);
    QuotedField(n, DiagnosticKey);
    FlagField(n, OutcomeKey);
    FlagMeaning(Field(n, OutcomeKey, Flag).value);
  }

  /** The three reasons a parse can give are told apart by the key they
      name. */
  lemma ReasonsDiffer()
    ensures MissingReason(CheckKey) != MissingReason(OutcomeKey)
    ensures MissingReason(CheckKey) != MissingReason(DiagnosticKey)
    ensures MissingReason(OutcomeKey) != MissingReason(DiagnosticKey)
  {
    assert MissingReason(CheckKey)[16] == 'c';
    assert MissingReason(OutcomeKey)[16] == 'o';
    assert MissingReason(DiagnosticKey)[16] == 'd';
  }

  /** A failed parse names the first key, in the order check, outcome,
      diagnostic, whose pattern does not match, and carries the normalised
      text. */
  lemma ParseFailure(json: string)
    requires Parse(Some(json)).Failure?
    ensures var n := Normalize(json);
            var e := Parse(Some(json)).error;
            var hasCheck := Field(n, CheckKey, Quoted).Some?;
            var hasOutcome := Field(n, OutcomeKey, Flag).Some?;
            && e.json == Some(n)
            && (e.reason == MissingReason(CheckKey) <==> !hasCheck)
            && (e.reason == MissingReason(OutcomeKey) <==> hasCheck && !hasOutcome)
            && (e.reason == MissingReason(DiagnosticKey) <==> hasCheck && hasOutcome)
  {
    var n := Normalize(json);
    var e := Parse(Some(json)).error;
    var hasCheck := Field(n, CheckKey, Quoted).Some?;
    var hasOutcome := Field(n, OutcomeKey, Flag).Some?;
    var missing := if !hasCheck then CheckKey else if !hasOutcome then OutcomeKey else DiagnosticKey;
    assert e.reason == MissingReason(missing) && e.json == Some(n);
    ReasonsDiffer();
  }

  /** A null text is rejected with the bare null reason and no text. */
  lemma ParseNull()
    ensures Parse(None).Failure?
    ensures Message(Parse(None).error) == "Failed to parse json -- Null JSON text"
  {
  }

  // ---------------------------------------------------------------------
  // Rendering: `textReport(boolean includeDiagnostic)`

  /** The heavy check mark, heavy cross and right arrow; their ANSI colour
      wrapping is not part of this model. */
  const PassSymbol := "\U{2714}"
  const FailSymbol := "\U{2718}"
  const FixSymbol := "\U{2794}"

  /** What separates the check name from the diagnostic of a failure. */
  const FixLead := "\n   " + FixSymbol + "  "

  /** `textReport`: the pass or fail symbol, two spaces and the check name;
      a failure shown with diagnostics continues on a new line with the
      arrow and the diagnostic. */
  function TextReport(r: CheckResult, includeDiagnostic: bool): (line: string)
    ensures |line| >= 3 + |r.check|
    ensures line[..3] == (if r.outcome then PassSymbol else FailSymbol) + "  "
    ensures line[3..3 + |r.check|] == r.check
    ensures line[3 + |r.check|..] == if !r.outcome && includeDiagnostic then FixLead + r.diagnostic else ""
  {
    if r.outcome then PassSymbol + "  " + r.check
    else FailSymbol + "  " + r.check + (if includeDiagnostic then FixLead + r.diagnostic else "")
  }

  /** What a reader of a report line can tell: pass or fail, the check name,
      and the diagnostic when one was printed. */
  datatype ReportView = ReportView(passed: bool, check: string, diagnostic: Option<string>)

  /** Reads a rendered report back. */
  function ReadReport(line: string): Option<ReportView> {
    if |line| < 3 then None
    else if line[..3] == PassSymbol + "  " then Some(ReportView(true, line[3..], None))
    else if line[..3] == FailSymbol + "  " then
      var body := line[3..];
      match Find(body, '\n')
      case None => Some(ReportView(false, body, None))
      case Some(i) =>
        if StartsWith(body[i..], FixLead) then
          Some(ReportView(false, body[..i], Some(body[i + |FixLead|..])))
        else None
    else None
  }

  /** A report line gives back the outcome and the check name, and the
      diagnostic exactly when the result failed and diagnostics were
      requested; a passing report ignores the flag. */
  lemma ReportRoundTrip(r: CheckResult, includeDiagnostic: bool)
    requires '\n' !in r.check
    ensures ReadReport(TextReport(r, includeDiagnostic))
            == Some(ReportView(r.outcome, r.check,
                               if !r.outcome && includeDiagnostic then Some(r.diagnostic) else None))
  {
    var line := TextReport(r, includeDiagnostic);
    if r.outcome {
      assert line[..3] == PassSymbol + "  ";
      assert line[3..] == r.check;
    } else {
      assert line[..3] == FailSymbol + "  ";
      assert line[..3] != PassSymbol + "  " by {
        assert line[0] == FailSymbol[0];
      }
      var body := line[3..];
      if includeDiagnostic {
        assert body == r.check + FixLead + r.diagnostic;
        FixedBody(r.check, r.diagnostic, body);
      } else {
        assert body == r.check;
      }
    }
  }

  /** The body of a failed report with its diagnostic splits at the first
      line feed, which opens the diagnostic's lead. */
  lemma FixedBody(check: string, diagnostic: string, body: string)
    requires '\n' !in check && body == check + FixLead + diagnostic
    ensures Find(body, '\n') == Some(|check|)
    ensures body[..|check|] == check
    ensures StartsWith(body[|check|..], FixLead)
    ensures body[|check| + |FixLead|..] == diagnostic
  {
    assert body[|check|] == '\n';
    assert body[..|check|] == check;
    assert body[|check|..] == FixLead + diagnostic;
  }

  /** The report without diagnostic is a prefix of the report with it. */
  lemma ReportPrefix(r: CheckResult)
    ensures StartsWith(TextReport(r, true), TextReport(r, false))
    ensures r.outcome ==> TextReport(r, true) == TextReport(r, false)
  {
    var short := TextReport(r, false);
    assert TextReport(r, true)[..|short|] == short;
  }
}
